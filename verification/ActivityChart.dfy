/** The lines of the Activity chart: totals per bucket, the most frequent types,
    and everything else folded into one line. */
module ActivityChart {
  import opened ActivityHistory

  const TOP_TYPES := 8

  /** One number per bucket. */
  type Row = seq<nat>

  function ZeroRow(): (row: Row)
    ensures |row| == BUCKET_COUNT && forall b :: 0 <= b < BUCKET_COUNT ==> row[b] == 0
  {
    seq(BUCKET_COUNT, i => 0)
  }

  function Cell(row: Row, b: nat): nat { if b < |row| then row[b] else 0 }

  /** One name of the two dictionaries that are filled in step: its total and its
      counts per bucket. */
  datatype Tally = Tally(name: string, total: nat, counts: Row)

  predicate Distinct(tallies: seq<Tally>) {
    forall i, j :: 0 <= i < j < |tallies| ==> tallies[i].name != tallies[j].name
  }

  function InBucket(b: nat): Key -> bool { (k: Key) => k.bucket == b }

  function Labelled(labelOf: string -> string, name: string): Key -> bool { (k: Key) => labelOf(k.kind) == name }

  function LabelledIn(labelOf: string -> string, name: string, b: nat): Key -> bool {
    (k: Key) => labelOf(k.kind) == name && k.bucket == b
  }

  /** The sum of a measure over tallies. */
  function Measure(tallies: seq<Tally>, f: Tally -> nat): nat {
    if tallies == [] then 0 else Measure(tallies[..|tallies| - 1], f) + f(tallies[|tallies| - 1])
  }

  function CellAt(b: nat): Tally -> nat { (t: Tally) => Cell(t.counts, b) }

  function SumAt(tallies: seq<Tally>, b: nat): nat { Measure(tallies, CellAt(b)) }

  predicate FullRows(tallies: seq<Tally>) {
    forall k :: 0 <= k < |tallies| ==> |tallies[k].counts| == BUCKET_COUNT
  }

  /** The position of a name, or the length when it is new. */
  function Position(tallies: seq<Tally>, name: string): (k: nat)
    ensures k <= |tallies|
    ensures k < |tallies| ==> tallies[k].name == name
    ensures forall i :: 0 <= i < k ==> tallies[i].name != name
  {
    if tallies == [] then 0
    else
      var before := Position(tallies[..|tallies| - 1], name);
      if before < |tallies| - 1 then before
      else if tallies[|tallies| - 1].name == name then |tallies| - 1
      else |tallies|
  }

  /** What the first loop has counted: every name once, with its total and its
      counts per bucket, and the totals per bucket. */
  ghost predicate Counted(items: seq<Item>, labelOf: string -> string, totals: Row, tallies: seq<Tally>) {
    && Distinct(tallies) && FullRows(tallies) && |totals| == BUCKET_COUNT
    && (forall b :: 0 <= b < BUCKET_COUNT ==> totals[b] == SumIf(items, InBucket(b)) == SumAt(tallies, b))
    && (forall i :: 0 <= i < |items| ==> Position(tallies, labelOf(items[i].key.kind)) < |tallies|)
    && (forall k :: 0 <= k < |tallies| ==> IsTally(items, labelOf, tallies[k]))
  }

  ghost predicate IsTally(items: seq<Item>, labelOf: string -> string, t: Tally) {
    && Named(items, labelOf, t.name) && |t.counts| == BUCKET_COUNT
    && t.total == SumIf(items, Labelled(labelOf, t.name))
    && forall b :: 0 <= b < BUCKET_COUNT ==> t.counts[b] == SumIf(items, LabelledIn(labelOf, t.name, b))
  }

  ghost predicate Named(items: seq<Item>, labelOf: string -> string, name: string) {
    exists i :: 0 <= i < |items| && labelOf(items[i].key.kind) == name
  }

  function Bump(row: Row, b: nat, count: nat): Row
    requires b < |row|
  {
    row[b := row[b] + count]
  }

  function AddItem(tallies: seq<Tally>, name: string, b: nat, count: nat): seq<Tally>
    requires b < BUCKET_COUNT && FullRows(tallies)
  {
    var k := Position(tallies, name);
    if k < |tallies| then
      tallies[k := tallies[k].(total := tallies[k].total + count, counts := Bump(tallies[k].counts, b, count))]
    else tallies + [Tally(name, count, Bump(ZeroRow(), b, count))]
  }

  lemma {:induction false} SumAtUpdate(tallies: seq<Tally>, k: nat, t: Tally, b: nat)
    requires k < |tallies|
    ensures SumAt(tallies[k := t], b) + Cell(tallies[k].counts, b) == SumAt(tallies, b) + Cell(t.counts, b)
  {
    var last := |tallies| - 1;
    if k < last {
      SumAtUpdate(tallies[..last], k, t, b);
      assert tallies[k := t][..last] == tallies[..last][k := t];
    } else {
      assert tallies[k := t][..last] == tallies[..last];
    }
  }

  lemma CellBump(row: Row, b: nat, count: nat, c: nat)
    requires b < |row|
    ensures Cell(Bump(row, b, count), c) == Cell(row, c) + if c == b then count else 0
  {
  }

  lemma SumAtAdd(tallies: seq<Tally>, name: string, b: nat, count: nat, c: nat)
    requires b < BUCKET_COUNT && FullRows(tallies)
    ensures SumAt(AddItem(tallies, name, b, count), c) == SumAt(tallies, c) + if c == b then count else 0
  {
    var k := Position(tallies, name);
    if k < |tallies| {
      var row := tallies[k].counts;
      var t := tallies[k].(total := tallies[k].total + count, counts := Bump(row, b, count));
      CellBump(row, b, count, c);
      SumAtUpdate(tallies, k, t, c);
      assert AddItem(tallies, name, b, count) == tallies[k := t];
    } else {
      CellBump(ZeroRow(), b, count, c);
      assert Cell(ZeroRow(), c) == 0;
      assert AddItem(tallies, name, b, count)[..|tallies|] == tallies;
    }
  }

  lemma SumIfSnoc(items: seq<Item>, item: Item, p: Key -> bool)
    ensures SumIf(items + [item], p) == SumIf(items, p) + if p(item.key) then item.count else 0
  {
    assert (items + [item])[..|items|] == items;
  }

  lemma {:induction false} NothingNamed(items: seq<Item>, labelOf: string -> string, name: string, p: Key -> bool)
    requires !Named(items, labelOf, name) && forall k :: p(k) ==> labelOf(k.kind) == name
    ensures SumIf(items, p) == 0
  {
    if items != [] {
      assert labelOf(items[|items| - 1].key.kind) != name;
      var before := items[..|items| - 1];
      assert forall i :: 0 <= i < |before| ==> labelOf(items[i].key.kind) != name;
      NothingNamed(before, labelOf, name, p);
    }
  }

  lemma CountedStep(items: seq<Item>, labelOf: string -> string, totals: Row, tallies: seq<Tally>, item: Item)
    requires Counted(items, labelOf, totals, tallies) && item.key.bucket < BUCKET_COUNT
    ensures Counted(items + [item], labelOf, Bump(totals, item.key.bucket, item.count),
                    AddItem(tallies, labelOf(item.key.kind), item.key.bucket, item.count))
  {
    var b, name := item.key.bucket, labelOf(item.key.kind);
    var items', tallies' := items + [item], AddItem(tallies, name, b, item.count);
    forall c | 0 <= c < BUCKET_COUNT
      ensures Bump(totals, b, item.count)[c] == SumIf(items', InBucket(c)) == SumAt(tallies', c)
    {
      SumIfSnoc(items, item, InBucket(c));
      SumAtAdd(tallies, name, b, item.count, c);
    }
    forall i | 0 <= i < |items'|
      ensures Position(tallies', labelOf(items'[i].key.kind)) < |tallies'|
    {
      StillThere(tallies, name, b, item.count, labelOf(items'[i].key.kind));
    }
    forall k | 0 <= k < |tallies'|
      ensures IsTally(items', labelOf, tallies'[k])
    {
      TallyStep(items, labelOf, totals, tallies, item, k);
    }
    DistinctStep(tallies, name, b, item.count);
  }

  lemma DistinctStep(tallies: seq<Tally>, name: string, b: nat, count: nat)
    requires b < BUCKET_COUNT && FullRows(tallies) && Distinct(tallies)
    ensures Distinct(AddItem(tallies, name, b, count)) && FullRows(AddItem(tallies, name, b, count))
  {
  }

  lemma StillThere(tallies: seq<Tally>, name: string, b: nat, count: nat, other: string)
    requires b < BUCKET_COUNT && FullRows(tallies)
    requires other == name || Position(tallies, other) < |tallies|
    ensures var tallies' := AddItem(tallies, name, b, count); Position(tallies', other) < |tallies'|
  {
    var tallies' := AddItem(tallies, name, b, count);
    var k := Position(tallies, other);
    if k < |tallies| {
      assert tallies'[k].name == other;
    } else {
      assert tallies'[|tallies'| - 1].name == other;
    }
  }

  lemma TallyStep(items: seq<Item>, labelOf: string -> string, totals: Row, tallies: seq<Tally>, item: Item, k: nat)
    requires Counted(items, labelOf, totals, tallies) && item.key.bucket < BUCKET_COUNT
    requires k < |AddItem(tallies, labelOf(item.key.kind), item.key.bucket, item.count)|
    ensures IsTally(items + [item], labelOf,
                    AddItem(tallies, labelOf(item.key.kind), item.key.bucket, item.count)[k])
  {
    var b, name := item.key.bucket, labelOf(item.key.kind);
    var items', t := items + [item], AddItem(tallies, name, b, item.count)[k];
    if k < |tallies| {
      assert IsTally(items, labelOf, tallies[k]);
      var i :| 0 <= i < |items| && labelOf(items[i].key.kind) == t.name;
      assert labelOf(items'[i].key.kind) == t.name;
    } else {
      assert labelOf(items'[|items|].key.kind) == t.name;
      assert !Named(items, labelOf, name);
      NothingNamed(items, labelOf, name, Labelled(labelOf, name));
    }
    SumIfSnoc(items, item, Labelled(labelOf, t.name));
    forall c | 0 <= c < BUCKET_COUNT
      ensures t.counts[c] == SumIf(items', LabelledIn(labelOf, t.name, c))
    {
      SumIfSnoc(items, item, LabelledIn(labelOf, t.name, c));
      if k == |tallies| {
        NothingNamed(items, labelOf, name, LabelledIn(labelOf, name, c));
      }
    }
  }

  /** The first loop: count by bucket and by label. */
  method Count(items: seq<Item>, labelOf: string -> string) returns (totals: Row, tallies: seq<Tally>)
    requires forall i :: 0 <= i < |items| ==> items[i].key.bucket < BUCKET_COUNT
    ensures Counted(items, labelOf, totals, tallies)
  {
    totals, tallies := ZeroRow(), [];
    for i := 0 to |items|
      invariant Counted(items[..i], labelOf, totals, tallies)
    {
      var item := items[i];
      assert items[..i + 1] == items[..i] + [item];
      CountedStep(items[..i], labelOf, totals, tallies, item);
      totals := Bump(totals, item.key.bucket, item.count);
      tallies := AddItem(tallies, labelOf(item.key.kind), item.key.bucket, item.count);
    }
    assert items[..|items|] == items;
  }

  // ---- The most frequent types ----------------------------------------------------------

  /** A stable sort, largest total first. */
  function Insert(t: Tally, sorted: seq<Tally>): seq<Tally> {
    if sorted == [] || sorted[|sorted| - 1].total >= t.total then sorted + [t]
    else Insert(t, sorted[..|sorted| - 1]) + [sorted[|sorted| - 1]]
  }

  function SortByTotal(tallies: seq<Tally>): seq<Tally> {
    if tallies == [] then [] else Insert(tallies[|tallies| - 1], SortByTotal(tallies[..|tallies| - 1]))
  }

  predicate Descending(tallies: seq<Tally>) {
    forall i, j :: 0 <= i < j < |tallies| ==> tallies[i].total >= tallies[j].total
  }

  lemma {:induction false} InsertDescends(t: Tally, sorted: seq<Tally>, limit: nat)
    requires Descending(sorted) && t.total <= limit && forall i :: 0 <= i < |sorted| ==> sorted[i].total <= limit
    ensures Descending(Insert(t, sorted))
    ensures forall i :: 0 <= i < |Insert(t, sorted)| ==> Insert(t, sorted)[i].total <= limit
  {
    if sorted != [] && sorted[|sorted| - 1].total < t.total {
      var before, last := sorted[..|sorted| - 1], sorted[|sorted| - 1];
      InsertDescends(t, before, limit);
      InsertAbove(t, before, last.total);
    }
  }

  lemma {:induction false} InsertAbove(t: Tally, sorted: seq<Tally>, least: nat)
    requires t.total >= least && forall i :: 0 <= i < |sorted| ==> sorted[i].total >= least
    ensures forall i :: 0 <= i < |Insert(t, sorted)| ==> Insert(t, sorted)[i].total >= least
  {
    if sorted != [] && sorted[|sorted| - 1].total < t.total {
      InsertAbove(t, sorted[..|sorted| - 1], least);
    }
  }

  lemma {:induction false} InsertMeasure(t: Tally, sorted: seq<Tally>, f: Tally -> nat)
    ensures Measure(Insert(t, sorted), f) == Measure(sorted, f) + f(t)
    ensures |Insert(t, sorted)| == |sorted| + 1
  {
    if sorted != [] && sorted[|sorted| - 1].total < t.total {
      InsertMeasure(t, sorted[..|sorted| - 1], f);
      assert Insert(t, sorted)[..|sorted|] == Insert(t, sorted[..|sorted| - 1]);
    } else {
      assert (sorted + [t])[..|sorted|] == sorted;
    }
  }

  lemma {:induction false} SortMeasure(tallies: seq<Tally>, f: Tally -> nat)
    ensures Measure(SortByTotal(tallies), f) == Measure(tallies, f)
    ensures |SortByTotal(tallies)| == |tallies|
  {
    if tallies != [] {
      SortMeasure(tallies[..|tallies| - 1], f);
      InsertMeasure(tallies[|tallies| - 1], SortByTotal(tallies[..|tallies| - 1]), f);
    }
  }

  function IsNamed(name: string): Tally -> nat { (t: Tally) => if t.name == name then 1 else 0 }

  function IsExactly(u: Tally): Tally -> nat { (t: Tally) => if t == u then 1 else 0 }

  /** Distinct names, and membership, as measures. */
  lemma {:induction false} MeasureOfMember(tallies: seq<Tally>, f: Tally -> nat, k: nat)
    requires k < |tallies|
    ensures f(tallies[k]) <= Measure(tallies, f)
  {
    if k < |tallies| - 1 {
      MeasureOfMember(tallies[..|tallies| - 1], f, k);
    }
  }

  lemma {:induction false} MeasureOfPair(tallies: seq<Tally>, f: Tally -> nat, i: nat, j: nat)
    requires i < j < |tallies|
    ensures f(tallies[i]) + f(tallies[j]) <= Measure(tallies, f)
  {
    if j < |tallies| - 1 {
      MeasureOfPair(tallies[..|tallies| - 1], f, i, j);
    } else {
      MeasureOfMember(tallies[..j], f, i);
    }
  }

  lemma {:induction false} MemberOfMeasure(tallies: seq<Tally>, u: Tally)
    requires Measure(tallies, IsExactly(u)) > 0
    ensures u in tallies
  {
    if tallies[|tallies| - 1] != u {
      MemberOfMeasure(tallies[..|tallies| - 1], u);
    }
  }

  lemma {:induction false} NamedOnce(tallies: seq<Tally>, name: string)
    requires Distinct(tallies)
    ensures Measure(tallies, IsNamed(name)) <= 1
    ensures (forall i :: 0 <= i < |tallies| ==> tallies[i].name != name) ==> Measure(tallies, IsNamed(name)) == 0
  {
    if tallies != [] {
      var before, last := tallies[..|tallies| - 1], tallies[|tallies| - 1];
      NamedOnce(before, name);
      assert last.name == name ==> forall i :: 0 <= i < |before| ==> before[i].name != name;
    }
  }

  /** Sorting loses nothing and keeps names distinct. */
  lemma SortFacts(tallies: seq<Tally>)
    requires Distinct(tallies)
    ensures var sorted := SortByTotal(tallies);
            && |sorted| == |tallies| && Distinct(sorted) && Descending(sorted)
            && forall t :: t in sorted <==> t in tallies
  {
    var sorted := SortByTotal(tallies);
    SortDescends(tallies);
    SortMeasure(tallies, IsNamed(""));
    forall i, j | 0 <= i < j < |sorted|
      ensures sorted[i].name != sorted[j].name
    {
      var f := IsNamed(sorted[i].name);
      MeasureOfPair(sorted, f, i, j);
      SortMeasure(tallies, f);
      NamedOnce(tallies, sorted[i].name);
    }
    forall t | t in sorted
      ensures t in tallies
    {
      var i :| 0 <= i < |sorted| && sorted[i] == t;
      MeasureOfMember(sorted, IsExactly(t), i);
      SortMeasure(tallies, IsExactly(t));
      MemberOfMeasure(tallies, t);
    }
    forall t | t in tallies
      ensures t in sorted
    {
      var i :| 0 <= i < |tallies| && tallies[i] == t;
      MeasureOfMember(tallies, IsExactly(t), i);
      SortMeasure(tallies, IsExactly(t));
      MemberOfMeasure(sorted, t);
    }
  }

  lemma {:induction false} SortDescends(tallies: seq<Tally>)
    ensures Descending(SortByTotal(tallies))
  {
    if tallies != [] {
      var before, t := SortByTotal(tallies[..|tallies| - 1]), tallies[|tallies| - 1];
      SortDescends(tallies[..|tallies| - 1]);
      InsertDescends(t, before, if before != [] && before[0].total > t.total then before[0].total else t.total);
    }
  }

  // ---- Lines --------------------------------------------------------------------------

  datatype Line = Line(name: string, counts: Row)

  function LinesOf(kept: seq<Tally>): seq<Line> {
    seq(|kept|, k requires 0 <= k < |kept| => Line(kept[k].name, kept[k].counts))
  }

  predicate Keeps(kept: seq<Tally>, name: string) {
    exists k :: 0 <= k < |kept| && kept[k].name == name
  }

  /** Assigning to a key of the dictionary of lines. */
  function Put(lines: seq<Line>, line: Line): seq<Line> {
    if lines == [] then [line]
    else if lines[0].name == line.name then [line] + lines[1..]
    else [lines[0]] + Put(lines[1..], line)
  }

  function FoldedAt(kept: seq<Tally>, b: nat): Tally -> nat {
    (t: Tally) => if Keeps(kept, t.name) then 0 else Cell(t.counts, b)
  }

  function KeptAt(kept: seq<Tally>, b: nat): Tally -> nat {
    (t: Tally) => if Keeps(kept, t.name) then Cell(t.counts, b) else 0
  }

  function OtherRow(tallies: seq<Tally>, kept: seq<Tally>): Row {
    seq(BUCKET_COUNT, b requires 0 <= b < BUCKET_COUNT => Measure(tallies, FoldedAt(kept, b)))
  }

  /** The largest totals, at most `TOP_TYPES` of them. */
  function Top(tallies: seq<Tally>): seq<Tally> {
    var sorted := SortByTotal(tallies);
    if |sorted| <= TOP_TYPES then sorted else sorted[..TOP_TYPES]
  }

  /** The lines of the chart. */
  function LinesFor(tallies: seq<Tally>, otherLabel: string): seq<Line> {
    var kept := Top(tallies);
    if |tallies| > |kept| then Put(LinesOf(kept), Line(otherLabel, OtherRow(tallies, kept))) else LinesOf(kept)
  }

  lemma {:induction false} MeasureConcat(a: seq<Tally>, b: seq<Tally>, f: Tally -> nat)
    ensures Measure(a + b, f) == Measure(a, f) + Measure(b, f)
  {
    if b == [] {
      assert a + b == a;
    } else {
      MeasureConcat(a, b[..|b| - 1], f);
      assert (a + b)[..|a + b| - 1] == a + b[..|b| - 1];
    }
  }

  lemma {:induction false} MeasureSame(tallies: seq<Tally>, f: Tally -> nat, g: Tally -> nat)
    requires forall t :: t in tallies ==> f(t) == g(t)
    ensures Measure(tallies, f) == Measure(tallies, g)
    decreases |tallies|
  {
    if tallies != [] {
      MeasureSame(tallies[..|tallies| - 1], f, g);
      assert tallies[|tallies| - 1] in tallies;
    }
  }

  lemma {:induction false} MeasureZero(tallies: seq<Tally>, f: Tally -> nat)
    requires forall t :: t in tallies ==> f(t) == 0
    ensures Measure(tallies, f) == 0
  {
    if tallies != [] {
      MeasureZero(tallies[..|tallies| - 1], f);
      assert tallies[|tallies| - 1] in tallies;
    }
  }

  lemma {:induction false} MeasureSplit(tallies: seq<Tally>, kept: seq<Tally>, b: nat)
    ensures Measure(tallies, KeptAt(kept, b)) + Measure(tallies, FoldedAt(kept, b)) == SumAt(tallies, b)
  {
    if tallies != [] {
      MeasureSplit(tallies[..|tallies| - 1], kept, b);
    }
  }

  /** Each kept type is at least as frequent as each folded one. */
  lemma TopIsLargest(tallies: seq<Tally>)
    requires Distinct(tallies)
    ensures var kept := Top(tallies);
            && |kept| == (if |tallies| < TOP_TYPES then |tallies| else TOP_TYPES)
            && Distinct(kept)
            && (forall t :: t in kept ==> t in tallies)
            && (forall k, t :: k in kept && t in tallies && t !in kept ==> k.total >= t.total)
  {
    SortFacts(tallies);
    var sorted := SortByTotal(tallies);
    forall k, t | k in Top(tallies) && t in tallies && t !in Top(tallies)
      ensures k.total >= t.total
    {
      assert t in sorted;
    }
  }

  /** What the kept types count in a bucket, asked of all types. */
  lemma KeptSum(tallies: seq<Tally>, b: nat)
    requires Distinct(tallies)
    ensures Measure(tallies, KeptAt(Top(tallies), b)) == SumAt(Top(tallies), b)
  {
    var sorted, kept := SortByTotal(tallies), Top(tallies);
    SortFacts(tallies);
    var rest := sorted[|kept|..];
    assert sorted == kept + rest;
    SortMeasure(tallies, KeptAt(kept, b));
    KeptOfParts(kept, rest, b);
  }

  lemma KeptOfParts(kept: seq<Tally>, rest: seq<Tally>, b: nat)
    requires Distinct(kept + rest)
    ensures Measure(kept + rest, KeptAt(kept, b)) == SumAt(kept, b)
  {
    MeasureConcat(kept, rest, KeptAt(kept, b));
    MeasureSame(kept, KeptAt(kept, b), CellAt(b));
    RestNotKept(kept, rest);
    MeasureZero(rest, KeptAt(kept, b));
  }

  lemma RestNotKept(kept: seq<Tally>, rest: seq<Tally>)
    requires Distinct(kept + rest)
    ensures forall t :: t in rest ==> !Keeps(kept, t.name)
  {
    forall t | t in rest
      ensures !Keeps(kept, t.name)
    {
      var i :| 0 <= i < |rest| && rest[i] == t;
      assert (kept + rest)[|kept| + i] == t;
      assert forall k :: 0 <= k < |kept| ==> (kept + rest)[k] == kept[k];
    }
  }

  // ---- The whole computation -------------------------------------------------------------

  method FoldOthers(tallies: seq<Tally>, kept: seq<Tally>) returns (other: Row)
    requires FullRows(tallies)
    ensures other == OtherRow(tallies, kept)
  {
    other := ZeroRow();
    for i := 0 to |tallies|
      invariant other == OtherRow(tallies[..i], kept)
    {
      var t := tallies[i];
      assert tallies[..i + 1][..i] == tallies[..i];
      if !Keeps(kept, t.name) {
        ghost var before := other;
        for b := 0 to BUCKET_COUNT
          invariant |other| == BUCKET_COUNT
          invariant forall c :: 0 <= c < BUCKET_COUNT ==> other[c] == before[c] + if c < b then t.counts[c] else 0
        {
          other := other[b := other[b] + t.counts[b]];
        }
      }
    }
    assert tallies[..|tallies|] == tallies;
  }

  /** From counted keys to the chart. */
  method Assemble(items: seq<Item>, labelOf: string -> string, otherLabel: string)
    returns (totals: Row, tallies: seq<Tally>, lines: seq<Line>, sampleCount: nat)
    requires forall i :: 0 <= i < |items| ==> items[i].key.bucket < BUCKET_COUNT
    ensures Counted(items, labelOf, totals, tallies)
    ensures lines == LinesFor(tallies, otherLabel)
    ensures sampleCount == RowSum(totals)
  {
    totals, tallies := Count(items, labelOf);
    var kept := Top(tallies);
    lines := LinesOf(kept);
    if |tallies| > |kept| {
      var other := FoldOthers(tallies, kept);
      lines := Put(lines, Line(otherLabel, other));
    }
    sampleCount := RowSum(totals);
  }

  function RowSum(row: Row): nat {
    if row == [] then 0 else RowSum(row[..|row| - 1]) + row[|row| - 1]
  }

  // ---- What the chart shows -----------------------------------------------------------------

  lemma {:induction false} RowOfSums(items: seq<Item>, n: nat, row: Row)
    requires |row| == n && forall b :: 0 <= b < n ==> row[b] == SumIf(items, InBucket(b))
    ensures RowSum(row) == SumIf(items, (k: Key) => k.bucket < n)
  {
    if n > 0 {
      RowOfSums(items, n - 1, row[..n - 1]);
      SumIfSplit(items, n - 1);
    } else {
      SumIfNone(items, (k: Key) => k.bucket < 0);
    }
  }

  lemma {:induction false} SumIfSplit(items: seq<Item>, n: nat)
    ensures SumIf(items, (k: Key) => k.bucket < n + 1) ==
            SumIf(items, (k: Key) => k.bucket < n) + SumIf(items, InBucket(n))
  {
    if items != [] {
      SumIfSplit(items[..|items| - 1], n);
    }
  }

  lemma {:induction false} SumIfNone(items: seq<Item>, p: Key -> bool)
    requires forall k :: !p(k)
    ensures SumIf(items, p) == 0
  {
    if items != [] {
      SumIfNone(items[..|items| - 1], p);
    }
  }

  lemma {:induction false} CountAll(keys: seq<Key>, p: Key -> bool)
    requires forall k :: 0 <= k < |keys| ==> p(keys[k])
    ensures CountIf(keys, p) == |keys|
  {
    if keys != [] {
      CountAll(keys[..|keys| - 1], p);
    }
  }

  /** The totals per bucket add up to the number of events. */
  lemma TotalsCountEvents(events: seq<Event>, start: int, width: int, counts: map<Key, nat>, items: seq<Item>,
                          totals: Row)
    requires IsCount(InMemory(events, start, width), counts) && Lists(items, counts)
    requires |totals| == BUCKET_COUNT && forall b :: 0 <= b < BUCKET_COUNT ==> totals[b] == SumIf(items, InBucket(b))
    ensures RowSum(totals) == |events|
  {
    var keys, p := InMemory(events, start, width), (k: Key) => k.bucket < BUCKET_COUNT;
    RowOfSums(items, BUCKET_COUNT, totals);
    SumsAreCounts(keys, counts, items, p);
    CountAll(keys, p);
  }

  function LineSum(lines: seq<Line>, b: nat): nat {
    if lines == [] then 0 else Cell(lines[0].counts, b) + LineSum(lines[1..], b)
  }

  lemma {:induction false} LineSumOf(kept: seq<Tally>, b: nat)
    ensures LineSum(LinesOf(kept), b) == SumAt(kept, b)
  {
    if kept != [] {
      LineSumOf(kept[1..], b);
      MeasureConcat([kept[0]], kept[1..], CellAt(b));
      assert kept == [kept[0]] + kept[1..];
      assert LinesOf(kept)[1..] == LinesOf(kept[1..]);
      assert Measure([kept[0]], CellAt(b)) == Cell(kept[0].counts, b) by {
        assert [kept[0]][..0] == [];
      }
    }
  }

  /** What a line of this name shows already. */
  function Existing(lines: seq<Line>, name: string, b: nat): nat {
    if lines == [] then 0
    else if lines[0].name == name then Cell(lines[0].counts, b)
    else Existing(lines[1..], name, b)
  }

  /** Assigning a line takes the place of the one of the same name. */
  lemma {:induction false} PutSum(lines: seq<Line>, line: Line, b: nat)
    ensures LineSum(Put(lines, line), b) + Existing(lines, line.name, b) == LineSum(lines, b) + Cell(line.counts, b)
  {
    if lines != [] && lines[0].name != line.name {
      PutSum(lines[1..], line, b);
    }
  }

  lemma {:induction false} ExistingOf(kept: seq<Tally>, name: string, b: nat)
    requires Distinct(kept)
    ensures !Keeps(kept, name) ==> Existing(LinesOf(kept), name, b) == 0
    ensures forall k :: 0 <= k < |kept| && kept[k].name == name ==>
              Existing(LinesOf(kept), name, b) == Cell(kept[k].counts, b)
  {
    if kept != [] {
      ExistingOf(kept[1..], name, b);
      assert LinesOf(kept)[1..] == LinesOf(kept[1..]);
      forall k | 0 < k < |kept| && kept[k].name == name
        ensures Existing(LinesOf(kept), name, b) == Cell(kept[k].counts, b)
      {
        assert kept[1..][k - 1] == kept[k];
      }
      if !Keeps(kept, name) {
        assert kept[0].name != name;
        assert forall k :: 0 <= k < |kept| - 1 ==> kept[1..][k] == kept[k + 1];
      }
    }
  }

  /** The lines of a bucket add up to its total, less what an "other" line of the
      same name as a kept type has overwritten. */
  lemma LinesAddUp(tallies: seq<Tally>, otherLabel: string, b: nat)
    requires Distinct(tallies) && FullRows(tallies) && b < BUCKET_COUNT
    ensures var kept := Top(tallies);
            LineSum(LinesFor(tallies, otherLabel), b)
            + (if |tallies| > TOP_TYPES then Existing(LinesOf(kept), otherLabel, b) else 0) == SumAt(tallies, b)
  {
    var kept := Top(tallies);
    TopIsLargest(tallies);
    LineSumOf(kept, b);
    KeptSum(tallies, b);
    MeasureSplit(tallies, kept, b);
    if |tallies| > TOP_TYPES {
      PutSum(LinesOf(kept), Line(otherLabel, OtherRow(tallies, kept)), b);
    } else {
      AllKept(tallies, b);
    }
  }

  lemma AllKept(tallies: seq<Tally>, b: nat)
    requires Distinct(tallies) && |tallies| <= TOP_TYPES
    ensures Measure(tallies, FoldedAt(Top(tallies), b)) == 0
  {
    SortFacts(tallies);
    forall t | t in tallies
      ensures Keeps(Top(tallies), t.name)
    {
      assert t in SortByTotal(tallies);
    }
    MeasureZero(tallies, FoldedAt(Top(tallies), b));
  }

  lemma {:induction false} SumIfAtLeast(items: seq<Item>, p: Key -> bool, i: nat)
    requires i < |items| && p(items[i].key)
    ensures SumIf(items, p) >= items[i].count
  {
    if i < |items| - 1 {
      SumIfAtLeast(items[..|items| - 1], p, i);
    }
  }

  /** Every bucket's lines add up to its total exactly when the folded types do not
      take the name of a type that is kept. */
  lemma ChartConserves(items: seq<Item>, labelOf: string -> string, otherLabel: string, totals: Row,
                       tallies: seq<Tally>)
    requires Counted(items, labelOf, totals, tallies)
    requires forall i :: 0 <= i < |items| ==> items[i].key.bucket < BUCKET_COUNT && items[i].count > 0
    ensures (forall b :: 0 <= b < BUCKET_COUNT ==> LineSum(LinesFor(tallies, otherLabel), b) == totals[b]) <==>
            !(|tallies| > TOP_TYPES && Keeps(Top(tallies), otherLabel))
  {
    var kept := Top(tallies);
    TopIsLargest(tallies);
    forall b | 0 <= b < BUCKET_COUNT
      ensures LineSum(LinesFor(tallies, otherLabel), b)
              + (if |tallies| > TOP_TYPES then Existing(LinesOf(kept), otherLabel, b) else 0) == totals[b]
      ensures !Keeps(kept, otherLabel) ==> Existing(LinesOf(kept), otherLabel, b) == 0
    {
      LinesAddUp(tallies, otherLabel, b);
      ExistingOf(kept, otherLabel, b);
    }
    if |tallies| > TOP_TYPES && Keeps(kept, otherLabel) {
      var b := OverwrittenBucket(items, labelOf, otherLabel, totals, tallies);
      assert LineSum(LinesFor(tallies, otherLabel), b) != totals[b];
    }
  }

  /** A kept type counts something in some bucket, which overwriting loses. */
  lemma OverwrittenBucket(items: seq<Item>, labelOf: string -> string, otherLabel: string, totals: Row,
                          tallies: seq<Tally>)
    returns (b: nat)
    requires Counted(items, labelOf, totals, tallies) && Keeps(Top(tallies), otherLabel)
    requires forall i :: 0 <= i < |items| ==> items[i].key.bucket < BUCKET_COUNT && items[i].count > 0
    ensures b < BUCKET_COUNT && Existing(LinesOf(Top(tallies)), otherLabel, b) > 0
  {
    var k := KeptTally(items, labelOf, otherLabel, totals, tallies);
    b := CountedBucket(items, labelOf, Top(tallies)[k]);
    TopIsLargest(tallies);
    ExistingOf(Top(tallies), otherLabel, b);
  }

  lemma KeptTally(items: seq<Item>, labelOf: string -> string, name: string, totals: Row, tallies: seq<Tally>)
    returns (k: nat)
    requires Counted(items, labelOf, totals, tallies) && Keeps(Top(tallies), name)
    ensures k < |Top(tallies)| && Top(tallies)[k].name == name && IsTally(items, labelOf, Top(tallies)[k])
  {
    TopIsLargest(tallies);
    k :| 0 <= k < |Top(tallies)| && Top(tallies)[k].name == name;
    assert Top(tallies)[k] in tallies;
  }

  lemma CountedBucket(items: seq<Item>, labelOf: string -> string, t: Tally) returns (b: nat)
    requires IsTally(items, labelOf, t)
    requires forall i :: 0 <= i < |items| ==> items[i].key.bucket < BUCKET_COUNT && items[i].count > 0
    ensures b < BUCKET_COUNT && Cell(t.counts, b) > 0
  {
    var i :| 0 <= i < |items| && labelOf(items[i].key.kind) == t.name;
    b := items[i].key.bucket;
    SumIfAtLeast(items, LabelledIn(labelOf, t.name, b), i);
  }
}
