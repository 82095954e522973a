/** The hash-chained audit log: what one writer records and what the verifier
    accepts. */
module AuditChain {
  import opened Wrappers

  /** The hashed fields of an entry other than its place in the chain.
      `createdAt` is the normalised timestamp. */
  datatype Content = Content(
    id: string, createdAt: string, actor: Option<string>, ipAddress: Option<string>,
    action: string, outcome: string, targetType: Option<string>, targetId: Option<string>,
    targetLabel: Option<string>, summary: string, details: Option<string>)

  /** Where the address was located: displayed, never hashed. */
  datatype Location = Location(country: Option<string>, city: Option<string>)

  datatype Entry = Entry(content: Content, location: Location)

  datatype Row = Row(content: Content, location: Location, sequence: int,
                     prevHash: Option<string>, entryHash: Option<string>)

  /** The one-row table holding the tip. */
  datatype ChainState = ChainState(lastHash: Option<string>, entryCount: nat)

  const GENESIS := ChainState(None, 0)

  /** SHA-256 in hexadecimal, and the canonical JSON of an entry's hashed fields. */
  datatype Hasher = Hasher(digest: string -> string, canonical: (Content, int) -> string)

  /** No collisions, digests are non-empty and contain no newline, and different
      payloads have different JSON. */
  ghost predicate CollisionFree(h: Hasher) {
    && (forall x, y :: h.digest(x) == h.digest(y) ==> x == y)
    && (forall x :: h.digest(x) != "" && '\n' !in h.digest(x))
    && (forall a, i, b, j :: h.canonical(a, i) == h.canonical(b, j) ==> a == b && i == j)
  }

  function Material(h: Hasher, prev: Option<string>, content: Content, sequence: int): string {
    (if prev.Some? then prev.value else "") + "\n" + h.canonical(content, sequence)
  }

  function EntryHash(h: Hasher, prev: Option<string>, content: Content, sequence: int): string {
    h.digest(Material(h, prev, content, sequence))
  }

  /** A link an honest chain can hold: nothing, or some digest. */
  ghost predicate IsLink(h: Hasher, prev: Option<string>) {
    prev.Some? ==> exists x :: prev.value == h.digest(x)
  }

  lemma SplitAtNewline(a: string, b: string, x: string, y: string)
    requires '\n' !in a && '\n' !in b
    requires a + "\n" + x == b + "\n" + y
    ensures a == b && x == y
  {
    var s, t := a + "\n" + x, b + "\n" + y;
    assert s[|a|] == '\n' && t[|b|] == '\n';
    assert forall i :: 0 <= i < |a| ==> s[i] == a[i];
    assert forall i :: 0 <= i < |b| ==> t[i] == b[i];
    assert (a + "\n" + x)[..|a|] == a && (b + "\n" + y)[..|a|] == b;
    assert (a + "\n" + x)[|a| + 1..] == x && (b + "\n" + y)[|a| + 1..] == y;
  }

  /** An entry's hash determines its content, its place and the link before it. */
  lemma HashBinds(h: Hasher, prev: Option<string>, content: Content, sequence: int,
                  prev': Option<string>, content': Content, sequence': int)
    requires CollisionFree(h) && IsLink(h, prev) && IsLink(h, prev')
    requires EntryHash(h, prev, content, sequence) == EntryHash(h, prev', content', sequence')
    ensures prev == prev' && content == content' && sequence == sequence'
  {
    var p := if prev.Some? then prev.value else "";
    var p' := if prev'.Some? then prev'.value else "";
    SplitAtNewline(p, p', h.canonical(content, sequence), h.canonical(content', sequence'));
  }

  // ---- Writing ---------------------------------------------------------------

  /** The row one entry becomes, given the tip read under the lock, and the tip after. */
  function NextRow(h: Hasher, state: ChainState, e: Entry): Row {
    var sequence := state.entryCount + 1;
    Row(e.content, e.location, sequence, state.lastHash,
        Some(EntryHash(h, state.lastHash, e.content, sequence)))
  }

  function NextState(h: Hasher, state: ChainState, e: Entry): ChainState {
    ChainState(NextRow(h, state, e).entryHash, state.entryCount + 1)
  }

  /** The tip after `entries`, written one after the other. */
  function Tip(h: Hasher, entries: seq<Entry>): (state: ChainState)
    ensures state.entryCount == |entries|
  {
    if entries == [] then GENESIS
    else NextState(h, Tip(h, entries[..|entries| - 1]), entries[|entries| - 1])
  }

  /** The table after `entries`, written one after the other. */
  function HonestLog(h: Hasher, entries: seq<Entry>): (rows: seq<Row>)
    ensures |rows| == |entries|
  {
    if entries == [] then []
    else
      var before := entries[..|entries| - 1];
      HonestLog(h, before) + [NextRow(h, Tip(h, before), entries[|entries| - 1])]
  }

  /** Row `i` was written on the tip of the entries before it. */
  lemma {:induction false} HonestRow(h: Hasher, entries: seq<Entry>, i: nat)
    requires i < |entries|
    ensures HonestLog(h, entries)[i] == NextRow(h, Tip(h, entries[..i]), entries[i])
    ensures HonestLog(h, entries)[..i] == HonestLog(h, entries[..i])
  {
    var before := entries[..|entries| - 1];
    if i < |entries| - 1 {
      HonestRow(h, before, i);
      assert before[..i] == entries[..i];
      assert HonestLog(h, entries)[..i] == HonestLog(h, before)[..i];
    }
  }

  /** Every field of a row is that of its entry, location included, or its place. */
  lemma RowHolds(h: Hasher, entries: seq<Entry>, i: nat)
    requires i < |entries|
    ensures var row := HonestLog(h, entries)[i];
            && row.content == entries[i].content && row.location == entries[i].location
            && row.sequence == i + 1 && row.entryHash.Some?
  {
    HonestRow(h, entries, i);
  }

  lemma TipIsLink(h: Hasher, entries: seq<Entry>)
    ensures IsLink(h, Tip(h, entries).lastHash)
    ensures Tip(h, entries).lastHash.None? <==> entries == []
  {
    if entries != [] {
      var before, e := entries[..|entries| - 1], entries[|entries| - 1];
      var link := Tip(h, before).lastHash;
      assert Tip(h, entries).lastHash == Some(h.digest(Material(h, link, e.content, |entries|)));
    }
  }

  // ---- Verifying ---------------------------------------------------------------

  datatype Problem = NoProblem | Gap | BrokenLink | ContentMismatch | TipMismatch

  datatype Verification = Verification(ok: bool, checked: nat, brokenAt: Option<int>, problem: Problem)

  /** What is wrong with `row` where `prev` and `sequence` are expected. */
  function CheckRow(h: Hasher, row: Row, prev: Option<string>, sequence: int): Problem {
    if row.sequence != sequence then Gap
    else if row.prevHash != prev then BrokenLink
    else if row.entryHash != Some(EntryHash(h, prev, row.content, row.sequence)) then ContentMismatch
    else NoProblem
  }

  /** The link and the sequence expected at position `i` when the rows before it
      were accepted. */
  function ExpectedPrev(rows: seq<Row>, i: nat): Option<string>
    requires i <= |rows|
  {
    if i == 0 then None else rows[i - 1].entryHash
  }

  function CheckAt(h: Hasher, rows: seq<Row>, i: nat): Problem
    requires i < |rows|
  {
    CheckRow(h, rows[i], ExpectedPrev(rows, i), rows[0].sequence + i)
  }

  ghost predicate FirstProblem(h: Hasher, rows: seq<Row>, i: nat) {
    && i < |rows| && CheckAt(h, rows, i) != NoProblem
    && forall j :: 0 <= j < i ==> CheckAt(h, rows, j) == NoProblem
  }

  /** The verifier's answer on the chained rows in sequence order. */
  ghost predicate Answers(h: Hasher, rows: seq<Row>, state: Option<ChainState>, v: Verification) {
    && v.checked == |rows|
    && (v.ok <==> v.problem == NoProblem)
    && match v.problem
       case NoProblem =>
         && v.brokenAt.None?
         && (forall i :: 0 <= i < |rows| ==> CheckAt(h, rows, i) == NoProblem)
         && (rows != [] && state.Some? ==> state.value.lastHash == ExpectedPrev(rows, |rows|))
       case TipMismatch =>
         && v.brokenAt.None?
         && (forall i :: 0 <= i < |rows| ==> CheckAt(h, rows, i) == NoProblem)
         && rows != [] && state.Some? && state.value.lastHash != ExpectedPrev(rows, |rows|)
       case p =>
         exists i :: FirstProblem(h, rows, i) && CheckAt(h, rows, i) == p && v.brokenAt == Some(rows[0].sequence + i)
  }

  /** The audit tables, and the two operations on them. Rows are kept in the
      order in which they were inserted. */
  class AuditTrail {
    const hasher: Hasher
    var rows: seq<Row>
    var state: Option<ChainState>

    constructor (hasher: Hasher)
      ensures this.hasher == hasher && Holds([])
    {
      this.hasher, rows, state := hasher, [], None;
    }

    /** The tables are what writing `entries` one after the other leaves. */
    ghost predicate Holds(entries: seq<Entry>)
      reads this
    {
      && rows == HonestLog(hasher, entries)
      && state == if entries == [] then None else Some(Tip(hasher, entries))
    }

    /** One writer alone: read (or create) the tip, insert, move the tip. */
    method LogEvent(e: Entry, ghost entries: seq<Entry>)
      requires Holds(entries)
      modifies this
      ensures Holds(entries + [e])
      ensures rows == HonestLog(hasher, entries + [e]) && state == Some(Tip(hasher, entries + [e]))
    {
      var tip := if state.Some? then state.value else GENESIS;
      assert (entries + [e])[..|entries|] == entries;
      rows := rows + [NextRow(hasher, tip, e)];
      state := Some(NextState(hasher, tip, e));
    }

    method VerifyChain() returns (v: Verification)
      ensures Answers(hasher, rows, state, v)
    {
      if rows == [] {
        return Verification(true, 0, None, NoProblem);
      }
      var expectedPrev: Option<string> := None;
      var expectedSequence := rows[0].sequence;
      for i := 0 to |rows|
        invariant expectedPrev == ExpectedPrev(rows, i) && expectedSequence == rows[0].sequence + i
        invariant forall j :: 0 <= j < i ==> CheckAt(hasher, rows, j) == NoProblem
      {
        var entry := rows[i];
        ghost var problem := CheckAt(hasher, rows, i);
        if entry.sequence != expectedSequence {
          return Verification(false, |rows|, Some(expectedSequence), Gap);
        }
        if entry.prevHash != expectedPrev {
          return Verification(false, |rows|, Some(entry.sequence), BrokenLink);
        }
        var recomputed := EntryHash(hasher, expectedPrev, entry.content, entry.sequence);
        if Some(recomputed) != entry.entryHash {
          return Verification(false, |rows|, Some(entry.sequence), ContentMismatch);
        }
        expectedPrev := entry.entryHash;
        expectedSequence := expectedSequence + 1;
      }
      if state.Some? && state.value.lastHash != expectedPrev {
        return Verification(false, |rows|, None, TipMismatch);
      }
      v := Verification(true, |rows|, None, NoProblem);
    }
  }

  lemma {:induction false} AnswerUnique(h: Hasher, rows: seq<Row>, state: Option<ChainState>, v: Verification,
                                        v': Verification)
    requires Answers(h, rows, state, v) && Answers(h, rows, state, v')
    ensures v == v'
  {
    if (exists i :: FirstProblem(h, rows, i)) {
      var i :| FirstProblem(h, rows, i);
      forall i' | FirstProblem(h, rows, i')
        ensures i' == i
      {
      }
    }
  }

  // ---- What the verifier accepts -------------------------------------------------

  /** What hashing covers of a row: everything but the location. */
  function HashedRow(row: Row): (Content, int, Option<string>, Option<string>) {
    (row.content, row.sequence, row.prevHash, row.entryHash)
  }

  function Hashed(rows: seq<Row>): seq<(Content, int, Option<string>, Option<string>)> {
    seq(|rows|, i requires 0 <= i < |rows| => HashedRow(rows[i]))
  }

  /** The verifier accepts `rows` against `state`. */
  ghost predicate Accepted(h: Hasher, rows: seq<Row>, state: Option<ChainState>) {
    && (forall i :: 0 <= i < |rows| ==> CheckAt(h, rows, i) == NoProblem)
    && (rows != [] && state.Some? ==> state.value.lastHash == ExpectedPrev(rows, |rows|))
  }

  lemma {:induction false} HonestAccepted(h: Hasher, entries: seq<Entry>)
    ensures Accepted(h, HonestLog(h, entries), Some(Tip(h, entries)))
  {
    var rows := HonestLog(h, entries);
    forall i | 0 <= i < |rows|
      ensures CheckAt(h, rows, i) == NoProblem
    {
      HonestRow(h, entries, i);
      HonestRow(h, entries, 0);
      ExpectedIsTip(h, entries, i);
    }
    ExpectedIsTip(h, entries, |entries|);
  }

  lemma {:induction false} ExpectedIsTip(h: Hasher, entries: seq<Entry>, i: nat)
    requires i <= |entries|
    ensures ExpectedPrev(HonestLog(h, entries), i) == Tip(h, entries[..i]).lastHash
  {
    if i > 0 {
      HonestRow(h, entries, i - 1);
      assert entries[..i][..i - 1] == entries[..i - 1];
    }
  }

  /** Working back from the tip, every accepted row is the honest one. */
  lemma {:induction false} MatchesBackwards(h: Hasher, rows: seq<Row>, entries: seq<Entry>, m: nat, n: nat)
    requires CollisionFree(h) && m <= |rows| && n <= |entries|
    requires forall i :: 0 <= i < m ==> CheckAt(h, rows, i) == NoProblem
    requires ExpectedPrev(rows, m) == Tip(h, entries[..n]).lastHash
    ensures m == n
    ensures forall i :: 0 <= i < m ==> HashedRow(rows[i]) == HashedRow(NextRow(h, Tip(h, entries[..i]), entries[i]))
  {
    TipIsLink(h, entries[..n]);
    if m > 0 {
      LastMatches(h, rows, entries, m, n);
      MatchesBackwards(h, rows, entries, m - 1, n - 1);
    }
  }

  /** The link after an accepted row determines that row. */
  lemma {:induction false} LastMatches(h: Hasher, rows: seq<Row>, entries: seq<Entry>, m: nat, n: nat)
    requires CollisionFree(h) && 0 < m <= |rows| && n <= |entries|
    requires forall i :: 0 <= i < m ==> CheckAt(h, rows, i) == NoProblem
    requires ExpectedPrev(rows, m) == Tip(h, entries[..n]).lastHash
    ensures n > 0
    ensures HashedRow(rows[m - 1]) == HashedRow(NextRow(h, Tip(h, entries[..n - 1]), entries[n - 1]))
    ensures ExpectedPrev(rows, m - 1) == Tip(h, entries[..n - 1]).lastHash
  {
    var row, prev := rows[m - 1], ExpectedPrev(rows, m - 1);
    assert CheckAt(h, rows, m - 1) == NoProblem;
    TipIsLink(h, entries[..n]);
    var before, e := entries[..n - 1], entries[n - 1];
    assert entries[..n][..n - 1] == before;
    TipIsLink(h, before);
    if m > 1 {
      assert CheckAt(h, rows, m - 2) == NoProblem;
      var link, r := ExpectedPrev(rows, m - 2), rows[m - 2];
      assert prev == Some(h.digest(Material(h, link, r.content, r.sequence)));
    }
    HashBinds(h, prev, row.content, row.sequence, Tip(h, before).lastHash, e.content, n);
  }

  lemma SameHashedSameAnswer(h: Hasher, rows: seq<Row>, rows': seq<Row>, state: Option<ChainState>)
    requires Hashed(rows) == Hashed(rows')
    ensures Accepted(h, rows, state) <==> Accepted(h, rows', state)
  {
    assert |Hashed(rows)| == |rows| && |Hashed(rows')| == |rows'|;
    forall i | 0 <= i < |rows|
      ensures rows[i].content == rows'[i].content && rows[i].sequence == rows'[i].sequence
      ensures rows[i].prevHash == rows'[i].prevHash && rows[i].entryHash == rows'[i].entryHash
      ensures CheckAt(h, rows, i) == CheckAt(h, rows', i)
    {
      assert Hashed(rows)[i] == Hashed(rows')[i];
      assert i > 0 ==> Hashed(rows)[i - 1] == Hashed(rows')[i - 1];
      assert Hashed(rows)[0] == Hashed(rows')[0];
    }
  }

  /** With the tip as the honest writers left it, the verifier answers ok exactly
      on the honest log (up to the fields it does not hash) and on an empty table. */
  lemma {:induction false} VerifierExact(h: Hasher, entries: seq<Entry>, rows: seq<Row>, state: Option<ChainState>,
                                         v: Verification)
    requires CollisionFree(h) && Answers(h, rows, state, v)
    requires state.Some? && state.value.lastHash == Tip(h, entries).lastHash
    ensures v.ok <==> rows == [] || Hashed(rows) == Hashed(HonestLog(h, entries))
  {
    if v.ok && rows != [] {
      AcceptedIsHonest(h, entries, rows, state);
    }
    if Hashed(rows) == Hashed(HonestLog(h, entries)) {
      HonestAccepted(h, entries);
      SameHashedSameAnswer(h, rows, HonestLog(h, entries), state);
    }
  }

  lemma {:induction false} AcceptedIsHonest(h: Hasher, entries: seq<Entry>, rows: seq<Row>, state: Option<ChainState>)
    requires CollisionFree(h) && Accepted(h, rows, state) && rows != []
    requires state.Some? && state.value.lastHash == Tip(h, entries).lastHash
    ensures Hashed(rows) == Hashed(HonestLog(h, entries))
  {
    assert entries[..|entries|] == entries;
    MatchesBackwards(h, rows, entries, |rows|, |entries|);
    forall i | 0 <= i < |rows|
      ensures HashedRow(rows[i]) == HashedRow(HonestLog(h, entries)[i])
    {
      HonestRow(h, entries, i);
    }
  }

  lemma SamePrefix(h: Hasher, rows: seq<Row>, rows': seq<Row>, k: nat)
    requires k <= |rows| && k <= |rows'| && rows[..k] == rows'[..k]
    ensures forall i :: 0 <= i < k ==> CheckAt(h, rows, i) == CheckAt(h, rows', i)
    ensures ExpectedPrev(rows, k) == ExpectedPrev(rows', k)
  {
    assert forall i :: 0 <= i < k ==> rows[i] == rows[..k][i] == rows'[..k][i] == rows'[i];
  }

  /** Removing the newest rows is noticed exactly when the tip row is still there. */
  lemma {:induction false} TailRemoval(h: Hasher, entries: seq<Entry>, k: nat, tipKept: bool, v: Verification)
    requires CollisionFree(h) && 0 < k <= |entries|
    requires Answers(h, HonestLog(h, entries)[..k], if tipKept then Some(Tip(h, entries)) else None, v)
    ensures v.ok <==> !tipKept || k == |entries|
  {
    var rows := HonestLog(h, entries)[..k];
    if tipKept {
      VerifierExact(h, entries, rows, Some(Tip(h, entries)), v);
      assert |Hashed(rows)| == k && |Hashed(HonestLog(h, entries))| == |entries|;
      assert k == |entries| ==> rows == HonestLog(h, entries);
    } else {
      PrefixAccepted(h, entries, k);
    }
  }

  /** Some of `n` rows, in their order. */
  predicate Picks(idx: seq<nat>, n: nat) {
    (forall k :: 0 <= k < |idx| ==> idx[k] < n) && (forall i, j :: 0 <= i < j < |idx| ==> idx[i] < idx[j])
  }

  function Picked(rows: seq<Row>, idx: seq<nat>): seq<Row>
    requires Picks(idx, |rows|)
  {
    seq(|idx|, k requires 0 <= k < |idx| => rows[idx[k]])
  }

  /** When the tip row is missing, of all that deleting rows can leave, exactly the
      prefixes of the honest log are accepted. */
  lemma {:induction false} WithoutTip(h: Hasher, entries: seq<Entry>, idx: seq<nat>, v: Verification)
    requires Picks(idx, |entries|) && idx != []
    requires Answers(h, Picked(HonestLog(h, entries), idx), None, v)
    ensures v.ok <==> forall k :: 0 <= k < |idx| ==> idx[k] == k
  {
    var log, rows := HonestLog(h, entries), Picked(HonestLog(h, entries), idx);
    if v.ok {
      HonestRow(h, entries, idx[0]);
      TipIsLink(h, entries[..idx[0]]);
      assert CheckAt(h, rows, 0) == NoProblem;
      forall k | 0 <= k < |idx|
        ensures idx[k] == k
      {
        HonestRow(h, entries, idx[k]);
        assert CheckAt(h, rows, k) == NoProblem;
      }
    } else if forall k :: 0 <= k < |idx| ==> idx[k] == k {
      assert idx[|idx| - 1] < |entries|;
      assert rows == log[..|idx|];
      PrefixAccepted(h, entries, |idx|);
    }
  }

  lemma PrefixAccepted(h: Hasher, entries: seq<Entry>, k: nat)
    requires k <= |entries|
    ensures Accepted(h, HonestLog(h, entries)[..k], None)
  {
    if k < |entries| {
      HonestRow(h, entries, k);
    } else {
      assert entries[..k] == entries;
      assert HonestLog(h, entries)[..k] == HonestLog(h, entries);
    }
    HonestAccepted(h, entries[..k]);
  }

  /** A log without its oldest rows, as retention leaves it, never verifies: the
      break is reported at the oldest row that is left, whatever the tip says. */
  lemma {:induction false} PurgedHead(h: Hasher, entries: seq<Entry>, k: nat, state: Option<ChainState>,
                                      v: Verification)
    requires 0 < k < |entries| && Answers(h, HonestLog(h, entries)[k..], state, v)
    ensures v == Verification(false, |entries| - k, Some(k + 1), BrokenLink)
  {
    var rows := HonestLog(h, entries)[k..];
    HonestRow(h, entries, k);
    TipIsLink(h, entries[..k]);
    assert CheckAt(h, rows, 0) == BrokenLink;
    AnswerUnique(h, rows, state, v, Verification(false, |entries| - k, Some(k + 1), BrokenLink));
  }

  /** A row removed from the middle is reported as a gap in its place. */
  lemma {:induction false} RemovedRow(h: Hasher, entries: seq<Entry>, k: nat, state: Option<ChainState>,
                                      v: Verification)
    requires 0 < k < |entries| - 1
    requires Answers(h, HonestLog(h, entries)[..k] + HonestLog(h, entries)[k + 1..], state, v)
    ensures v == Verification(false, |entries| - 1, Some(k + 1), Gap)
  {
    var log := HonestLog(h, entries);
    var rows := log[..k] + log[k + 1..];
    HonestAccepted(h, entries);
    HonestRow(h, entries, 0);
    HonestRow(h, entries, k + 1);
    assert rows[k] == log[k + 1];
    SamePrefix(h, rows, log, k);
    assert CheckAt(h, rows, k) == Gap;
    AnswerUnique(h, rows, state, v, Verification(false, |entries| - 1, Some(k + 1), Gap));
  }

  /** A row whose hashed content was changed in place is reported at that row. */
  lemma {:induction false} EditedRow(h: Hasher, entries: seq<Entry>, k: nat, content: Content,
                                     state: Option<ChainState>, v: Verification)
    requires CollisionFree(h) && k < |entries| && content != entries[k].content
    requires var log := HonestLog(h, entries);
             Answers(h, log[k := log[k].(content := content)], state, v)
    ensures v == Verification(false, |entries|, Some(k + 1), ContentMismatch)
  {
    var log := HonestLog(h, entries);
    var rows := log[k := log[k].(content := content)];
    HonestAccepted(h, entries);
    HonestRow(h, entries, 0);
    EditMismatches(h, entries, k, content);
    SamePrefix(h, rows, log, k);
    AnswerUnique(h, rows, state, v, Verification(false, |entries|, Some(k + 1), ContentMismatch));
  }

  lemma EditMismatches(h: Hasher, entries: seq<Entry>, k: nat, content: Content)
    requires CollisionFree(h) && k < |entries| && content != entries[k].content
    ensures var log := HonestLog(h, entries);
            CheckAt(h, log[k := log[k].(content := content)], k) == ContentMismatch
  {
    HonestRow(h, entries, 0);
    HonestRow(h, entries, k);
    ExpectedIsTip(h, entries, k);
    TipIsLink(h, entries[..k]);
    var prev := Tip(h, entries[..k]).lastHash;
    if EntryHash(h, prev, content, k + 1) == EntryHash(h, prev, entries[k].content, k + 1) {
      HashBinds(h, prev, content, k + 1, prev, entries[k].content, k + 1);
    }
  }
}
