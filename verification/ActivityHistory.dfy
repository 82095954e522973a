/** The Activity chart: events counted per bucket and type, in memory or by the
    database, and the types that get a line of their own. Times and widths are
    whole microseconds, quotients are exact. */
module ActivityHistory {
  import opened Arithmetic

  const BUCKET_COUNT := 60

  // ---- Which bucket -----------------------------------------------------------------

  /** `int(a / b)`: the quotient without its fraction. */
  function Truncated(a: int, b: int): int
    requires b != 0
  {
    var n, d := if a < 0 then -a else a, if b < 0 then -b else b;
    if (a < 0) == (b < 0) then n / d else -(n / d)
  }

  /** In memory: the offset in bucket widths, clamped to the chart. */
  function MemoryBucket(start: int, width: int, at: int): (b: nat)
    ensures b < BUCKET_COUNT
  {
    var offset := if width == 0 then 0 else Truncated(at - start, width);
    if offset < 0 then 0 else if offset > BUCKET_COUNT - 1 then BUCKET_COUNT - 1 else offset
  }

  /** In the database: the first CASE branch whose end is after `at`. */
  function CaseFrom(start: int, width: int, at: int, i: nat): (b: nat)
    requires i < BUCKET_COUNT
    ensures i <= b < BUCKET_COUNT
    decreases BUCKET_COUNT - i
  {
    if i == BUCKET_COUNT - 1 || at < start + width * (i + 1) then i
    else CaseFrom(start, width, at, i + 1)
  }

  function DatabaseBucket(start: int, width: int, at: int): nat { CaseFrom(start, width, at, 0) }

  lemma {:induction false} CaseSandwich(start: int, width: int, at: int, i: nat)
    requires i < BUCKET_COUNT && width > 0 && (i > 0 ==> start + width * i <= at)
    ensures var b := CaseFrom(start, width, at, i);
            && (b < BUCKET_COUNT - 1 ==> at < start + width * (b + 1))
            && (b > 0 ==> start + width * b <= at)
    decreases BUCKET_COUNT - i
  {
    if i < BUCKET_COUNT - 1 && at >= start + width * (i + 1) {
      CaseSandwich(start, width, at, i + 1);
    }
  }

  lemma DivisionFacts(n: int, d: int)
    requires n >= 0 && d > 0
    ensures n / d >= 0 && d * (n / d) <= n < d * (n / d) + d
  {
    assert n == d * (n / d) + n % d;
    if n / d < 0 {
      MulLess(d, -1, n / d);
    }
  }

  lemma MulLess(width: int, a: int, b: int)
    requires width > 0 && width * a < width * b
    ensures a < b
  {
  }

  /** The two agree on an event exactly when buckets have a positive width, or no
      width and the event lies before the window. */
  lemma {:induction false} BucketsAgree(start: int, width: int, at: int)
    ensures DatabaseBucket(start, width, at) == MemoryBucket(start, width, at) <==>
            width > 0 || (width == 0 && at < start)
  {
    if width > 0 {
      AgreeOnPositive(start, width, at);
    } else if width == 0 {
      NotPositive(start, width, at, 0);
    } else {
      DisagreeOnNegative(start, width, at);
    }
  }

  lemma DisagreeOnNegative(start: int, width: int, at: int)
    requires width < 0
    ensures DatabaseBucket(start, width, at) != MemoryBucket(start, width, at)
  {
    NotPositive(start, width, at, 0);
    if at < start {
      MemoryOnNegative(start, width, at);
    }
  }

  lemma MemoryOnNegative(start: int, width: int, at: int)
    requires width < 0 && at < start
    ensures at < start + width ==> MemoryBucket(start, width, at) >= 1
    ensures at >= start + width ==> MemoryBucket(start, width, at) <= 1
  {
    var n, d := start - at, -width;
    var q := n / d;
    assert Truncated(at - start, width) == q;
    DivisionFacts(n, d);
    QuotientRange(n, d, q);
  }

  lemma QuotientRange(n: int, d: int, q: int)
    requires d > 0 && d * q <= n < d * q + d
    ensures n > d ==> q >= 1
    ensures n <= d ==> q <= 1
  {
    if q <= 0 {
      MulAtMost(q, 0, d);
    } else {
      MulAtMost(2, if q < 2 then 2 else q, d);
    }
  }

  lemma AgreeOnPositive(start: int, width: int, at: int)
    requires width > 0
    ensures DatabaseBucket(start, width, at) == MemoryBucket(start, width, at)
  {
    CaseSandwich(start, width, at, 0);
    MemorySandwich(start, width, at);
    OneBucket(width, at - start, DatabaseBucket(start, width, at), MemoryBucket(start, width, at));
  }

  /** A bucket, but for the ends of the chart, holds the offsets between its bounds. */
  predicate Holds(width: int, offset: int, b: int) {
    (b < BUCKET_COUNT - 1 ==> offset < width * (b + 1)) && (b > 0 ==> width * b <= offset)
  }

  lemma OneBucket(width: int, offset: int, b: int, b': int)
    requires width > 0 && 0 <= b < BUCKET_COUNT && 0 <= b' < BUCKET_COUNT
    requires Holds(width, offset, b) && Holds(width, offset, b')
    ensures b == b'
  {
    if b < b' {
      MulAtMost(b + 1, b', width);
    } else if b' < b {
      MulAtMost(b' + 1, b, width);
    }
  }

  lemma MemorySandwich(start: int, width: int, at: int)
    requires width > 0
    ensures Holds(width, at - start, MemoryBucket(start, width, at))
  {
    var n := if at < start then start - at else at - start;
    DivisionFacts(n, width);
    Clamped(width, at - start, n / width);
  }

  /** The quotient of the offset's size, clamped to the chart. */
  lemma Clamped(width: int, offset: int, q: int)
    requires width > 0 && q >= 0
    requires if offset < 0 then true else width * q <= offset < width * q + width
    ensures var b := if offset < 0 || q < 0 then 0 else if q > BUCKET_COUNT - 1 then BUCKET_COUNT - 1 else q;
            Holds(width, offset, b)
  {
    if offset >= 0 && q > BUCKET_COUNT - 1 {
      MulAtMost(BUCKET_COUNT - 1, q, width);
    }
    assert width * (q + 1) == width * q + width;
  }

  /** Without a positive width no later branch is ever taken. */
  lemma {:induction false} NotPositive(start: int, width: int, at: int, i: nat)
    requires i < BUCKET_COUNT && width <= 0
    ensures i > 0 && at >= start + width * i ==> CaseFrom(start, width, at, i) == BUCKET_COUNT - 1
    ensures i == 0 ==> CaseFrom(start, width, at, i) == if at < start + width then 0 else BUCKET_COUNT - 1
    decreases BUCKET_COUNT - i
  {
    if i < BUCKET_COUNT - 1 {
      NotPositive(start, width, at, i + 1);
    }
  }

  // ---- How many --------------------------------------------------------------------

  /** An event as the chart counts it: its bucket and its type. */
  datatype Key = Key(bucket: nat, kind: string)

  function CountIf(keys: seq<Key>, p: Key -> bool): nat {
    if keys == [] then 0
    else CountIf(keys[..|keys| - 1], p) + if p(keys[|keys| - 1]) then 1 else 0
  }

  function Is(key: Key): Key -> bool { (k: Key) => k == key }

  datatype Event = Event(at: int, kind: string)

  function InMemory(events: seq<Event>, start: int, width: int): seq<Key> {
    seq(|events|, i requires 0 <= i < |events| => Key(MemoryBucket(start, width, events[i].at), events[i].kind))
  }

  function InDatabase(events: seq<Event>, start: int, width: int): seq<Key> {
    seq(|events|, i requires 0 <= i < |events| => Key(DatabaseBucket(start, width, events[i].at), events[i].kind))
  }

  /** Counting in memory, into a dictionary. */
  method CountEvents(events: seq<Event>, start: int, width: int) returns (counts: map<Key, nat>)
    ensures IsCount(InMemory(events, start, width), counts)
  {
    counts := map[];
    for i := 0 to |events|
      invariant IsCount(InMemory(events[..i], start, width), counts)
    {
      var key := Key(MemoryBucket(start, width, events[i].at), events[i].kind);
      ghost var before := InMemory(events[..i], start, width);
      assert InMemory(events[..i + 1], start, width) == before + [key] && (before + [key])[..i] == before;
      counts := counts[key := (if key in counts then counts[key] else 0) + 1];
    }
    assert events[..|events|] == events;
  }

  /** Exactly the keys that occur, each with how often: what the loop computes and
      what GROUP BY answers. */
  ghost predicate IsCount(keys: seq<Key>, counts: map<Key, nat>) {
    && (forall key :: key in counts <==> CountIf(keys, Is(key)) > 0)
    && (forall key :: key in counts ==> counts[key] == CountIf(keys, Is(key)))
  }

  datatype Item = Item(key: Key, count: nat)

  /** `items` lists a dictionary, in whatever order. */
  ghost predicate Lists(items: seq<Item>, counts: map<Key, nat>) {
    && (forall i, j :: 0 <= i < j < |items| ==> items[i].key != items[j].key)
    && (forall i :: 0 <= i < |items| ==> items[i].key in counts && counts[items[i].key] == items[i].count)
    && (forall key :: key in counts ==> Listed(items, key))
  }

  function SumIf(items: seq<Item>, p: Key -> bool): nat {
    if items == [] then 0
    else
      var last := items[|items| - 1];
      SumIf(items[..|items| - 1], p) + if p(last.key) then last.count else 0
  }

  /** The items with their counts taken from `keys`. */
  function Recounted(items: seq<Item>, keys: seq<Key>): seq<Item> {
    seq(|items|, i requires 0 <= i < |items| => Item(items[i].key, CountIf(keys, Is(items[i].key))))
  }

  lemma {:induction false} RecountNothing(items: seq<Item>, p: Key -> bool)
    ensures SumIf(Recounted(items, []), p) == 0
  {
    if items != [] {
      RecountNothing(items[..|items| - 1], p);
      assert Recounted(items, [])[..|items| - 1] == Recounted(items[..|items| - 1], []);
    }
  }

  predicate Listed(items: seq<Item>, key: Key) {
    exists i :: 0 <= i < |items| && items[i].key == key
  }

  lemma ListedLast(items: seq<Item>, key: Key)
    requires items != []
    ensures Listed(items, key) <==> items[|items| - 1].key == key || Listed(items[..|items| - 1], key)
  {
    var before := items[..|items| - 1];
    if i :| 0 <= i < |before| && before[i].key == key {
      assert items[i].key == key;
    }
    if i :| 0 <= i < |items| && items[i].key == key {
      assert i < |before| ==> before[i].key == key;
    }
  }

  /** One more event raises the sum by one exactly when its key is listed and counts. */
  lemma {:induction false} RecountOneMore(items: seq<Item>, keys: seq<Key>, key: Key, p: Key -> bool)
    requires forall i, j :: 0 <= i < j < |items| ==> items[i].key != items[j].key
    ensures SumIf(Recounted(items, keys + [key]), p) ==
            SumIf(Recounted(items, keys), p) + if p(key) && Listed(items, key) then 1 else 0
  {
    if items != [] {
      var before, last := items[..|items| - 1], items[|items| - 1];
      RecountOneMore(before, keys, key, p);
      assert Recounted(items, keys)[..|items| - 1] == Recounted(before, keys);
      assert Recounted(items, keys + [key])[..|items| - 1] == Recounted(before, keys + [key]);
      assert (keys + [key])[..|keys|] == keys;
      ListedLast(items, key);
      assert last.key == key ==> !Listed(before, key);
    }
  }

  lemma {:induction false} RecountIsCount(items: seq<Item>, keys: seq<Key>, p: Key -> bool)
    requires forall i, j :: 0 <= i < j < |items| ==> items[i].key != items[j].key
    requires forall k :: 0 <= k < |keys| ==> Listed(items, keys[k])
    ensures SumIf(Recounted(items, keys), p) == CountIf(keys, p)
  {
    if keys == [] {
      RecountNothing(items, p);
    } else {
      var before, last := keys[..|keys| - 1], keys[|keys| - 1];
      RecountIsCount(items, before, p);
      RecountOneMore(items, before, last, p);
      assert keys == before + [last];
    }
  }

  lemma {:induction false} OccursCounts(keys: seq<Key>, k: nat)
    requires k < |keys|
    ensures CountIf(keys, Is(keys[k])) > 0
  {
    if k < |keys| - 1 {
      OccursCounts(keys[..|keys| - 1], k);
    }
  }

  /** Summing a listed dictionary is counting the events. */
  lemma SumsAreCounts(keys: seq<Key>, counts: map<Key, nat>, items: seq<Item>, p: Key -> bool)
    requires IsCount(keys, counts) && Lists(items, counts)
    ensures SumIf(items, p) == CountIf(keys, p)
  {
    forall k | 0 <= k < |keys|
      ensures Listed(items, keys[k])
    {
      OccursCounts(keys, k);
      assert keys[k] in counts;
    }
    RecountIsCount(items, keys, p);
    assert Recounted(items, keys) == items;
  }

  /** For buckets of any positive width both loaders count the same, whatever is
      asked for: per bucket, per type, per both. */
  lemma {:induction false} LoadersAgree(events: seq<Event>, start: int, width: int, counts: map<Key, nat>,
                                        counts': map<Key, nat>, items: seq<Item>, items': seq<Item>, p: Key -> bool)
    requires width > 0
    requires IsCount(InMemory(events, start, width), counts) && Lists(items, counts)
    requires IsCount(InDatabase(events, start, width), counts') && Lists(items', counts')
    ensures counts == counts' && SumIf(items, p) == SumIf(items', p) == CountIf(InMemory(events, start, width), p)
  {
    forall i | 0 <= i < |events|
      ensures InMemory(events, start, width)[i] == InDatabase(events, start, width)[i]
    {
      BucketsAgree(start, width, events[i].at);
    }
    assert InMemory(events, start, width) == InDatabase(events, start, width);
    SumsAreCounts(InMemory(events, start, width), counts, items, p);
    SumsAreCounts(InDatabase(events, start, width), counts', items', p);
  }
}
