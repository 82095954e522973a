/** Searching stored events: the LIKE pattern of a search text, the folding of
    repeats, and pages. */
module EventSearch {
  import opened Sequences
  import opened Wrappers

  // ---- LIKE (section 8.5 of ISO/IEC 9075:1992) -----------------------------------

  const ESCAPE := '\\'

  /** Whether `s` is LIKE `p` with escape '\'. `fold` is applied to the characters
      compared: the identity for LIKE, case folding for ILIKE. */
  ghost predicate Like(fold: char -> char, p: string, s: string)
    decreases |p|
  {
    if p == [] then s == []
    else if p[0] == '%' then exists k :: 0 <= k <= |s| && Like(fold, p[1..], s[k..])
    else if p[0] == '_' then s != [] && Like(fold, p[1..], s[1..])
    else if p[0] == ESCAPE then |p| > 1 && s != [] && fold(s[0]) == fold(p[1]) && Like(fold, p[2..], s[1..])
    else s != [] && fold(s[0]) == fold(p[0]) && Like(fold, p[1..], s[1..])
  }

  /** `s.replace(c, by)` for a single character. */
  function Replace(s: string, c: char, to: string): string {
    if s == [] then [] else (if s[0] == c then to else [s[0]]) + Replace(s[1..], c, to)
  }

  function Escaped(v: string): string {
    Replace(Replace(Replace(v, '\\', "\\\\"), '%', "\\%"), '_', "\\_")
  }

  function LikePattern(v: string): string { "%" + Escaped(v) + "%" }

  lemma {:induction false} ReplaceConcat(s: string, t: string, c: char, to: string)
    ensures Replace(s + t, c, to) == Replace(s, c, to) + Replace(t, c, to)
  {
    if s == [] {
      assert s + t == t;
    } else {
      ReplaceConcat(s[1..], t, c, to);
      assert (s + t)[1..] == s[1..] + t;
      Joined(if s[0] == c then to else [s[0]], Replace(s[1..], c, to), Replace(t, c, to));
    }
  }

  function EscapeChar(c: char): string {
    if c == '\\' || c == '%' || c == '_' then [ESCAPE, c] else [c]
  }

  function EscapeEach(v: string): string {
    if v == [] then [] else EscapeChar(v[0]) + EscapeEach(v[1..])
  }

  lemma ReplaceOne(c: char, d: char, to: string)
    ensures Replace([d], c, to) == if d == c then to else [d]
  {
    assert Replace([], c, to) == [];
  }

  lemma EscapedChar(c: char)
    ensures Escaped([c]) == EscapeChar(c)
  {
    ReplaceOne('\\', c, "\\\\");
    ReplaceOne('%', c, "\\%");
    ReplaceOne('_', c, "\\_");
    if c == '\\' {
      ReplaceConcat("\\", "\\", '%', "\\%");
      ReplaceConcat("\\", "\\", '_', "\\_");
      assert "\\" + "\\" == "\\\\";
    } else if c == '%' {
      ReplaceConcat("\\", "%", '_', "\\_");
      assert "\\" + "%" == "\\%";
    }
  }

  /** The three replacements, one after the other, escape each character once. */
  lemma {:induction false} EscapedIsEscapeEach(v: string)
    ensures Escaped(v) == EscapeEach(v)
  {
    if v != [] {
      var c, rest := [v[0]], v[1..];
      assert v == c + rest;
      EscapedIsEscapeEach(rest);
      EscapedChar(v[0]);
      ReplaceConcat(c, rest, '\\', "\\\\");
      var c', rest' := Replace(c, '\\', "\\\\"), Replace(rest, '\\', "\\\\");
      ReplaceConcat(c', rest', '%', "\\%");
      ReplaceConcat(Replace(c', '%', "\\%"), Replace(rest', '%', "\\%"), '_', "\\_");
    }
  }

  /** `v` stands in `s` at `i`, up to folding. */
  predicate FoundAt(fold: char -> char, v: string, s: string, i: nat) {
    i + |v| <= |s| && forall j :: 0 <= j < |v| ==> fold(s[i + j]) == fold(v[j])
  }

  function StartsWith(fold: char -> char, v: string, s: string): bool {
    v == [] || (s != [] && fold(s[0]) == fold(v[0]) && StartsWith(fold, v[1..], s[1..]))
  }

  lemma {:induction false} StartsWithIsFoundAt(fold: char -> char, v: string, s: string, i: nat)
    requires i <= |s|
    ensures StartsWith(fold, v, s[i..]) <==> FoundAt(fold, v, s, i)
  {
    if v != [] && i < |s| {
      StartsWithIsFoundAt(fold, v[1..], s, i + 1);
      assert s[i..][1..] == s[i + 1..];
      if FoundAt(fold, v, s, i) {
        assert fold(s[i + 0]) == fold(v[0]);
        forall j | 0 <= j < |v| - 1
          ensures fold(s[i + 1 + j]) == fold(v[1..][j])
        {
          assert fold(s[i + (j + 1)]) == fold(v[j + 1]);
        }
      }
      if fold(s[i]) == fold(v[0]) && FoundAt(fold, v[1..], s, i + 1) {
        forall j | 0 <= j < |v|
          ensures fold(s[i + j]) == fold(v[j])
        {
          assert j > 0 ==> fold(s[i + 1 + (j - 1)]) == fold(v[1..][j - 1]);
        }
      }
    }
  }

  /** An escaped character matches exactly itself. */
  lemma LikeChar(fold: char -> char, c: char, p: string, s: string)
    ensures Like(fold, EscapeChar(c) + p, s) <==>
            s != [] && fold(s[0]) == fold(c) && Like(fold, p, s[1..])
  {
    assert (EscapeChar(c) + p)[|EscapeChar(c)|..] == p;
  }

  lemma {:induction false} LikeEscaped(fold: char -> char, v: string, p: string, s: string)
    ensures Like(fold, EscapeEach(v) + p, s) <==>
            StartsWith(fold, v, s) && |v| <= |s| && Like(fold, p, s[|v|..])
  {
    if v == [] {
      assert EscapeEach(v) + p == p && s[0..] == s;
    } else {
      assert EscapeEach(v) + p == EscapeChar(v[0]) + (EscapeEach(v[1..]) + p);
      LikeChar(fold, v[0], EscapeEach(v[1..]) + p, s);
      if s != [] {
        LikeEscaped(fold, v[1..], p, s[1..]);
        assert |v| <= |s| ==> s[1..][|v| - 1..] == s[|v|..];
      }
    }
  }

  /** A string matches the pattern of `v` exactly when it contains `v`. */
  lemma LikeIsContains(fold: char -> char, v: string, s: string)
    ensures Like(fold, LikePattern(v), s) <==> exists i :: FoundAt(fold, v, s, i)
  {
    EscapedIsEscapeEach(v);
    var p := LikePattern(v);
    assert p[0] == '%' && p[1..] == EscapeEach(v) + "%";
    forall k | 0 <= k <= |s|
      ensures Like(fold, p[1..], s[k..]) <==> FoundAt(fold, v, s, k)
    {
      LikeEscaped(fold, v, "%", s[k..]);
      StartsWithIsFoundAt(fold, v, s, k);
      if |v| <= |s[k..]| {
        LikeAll(fold, s[k..][|v|..]);
      }
    }
  }

  lemma LikeAll(fold: char -> char, s: string)
    ensures Like(fold, "%", s)
  {
    assert "%"[1..] == [] && s[|s|..] == [];
    assert Like(fold, "%"[1..], s[|s|..]);
  }

  // ---- Folding repeats ----------------------------------------------------------

  /** `occurredAt` counts microseconds. */
  datatype Event = Event(honeypot: nat, eventType: string, srcIp: Option<string>, dstPort: Option<int>,
                         ignored: bool, occurredAt: int)

  const REPEAT_WINDOW := 60 * 1_000_000

  predicate Repeats(previous: Event, event: Event) {
    && event.honeypot == previous.honeypot && event.eventType == previous.eventType
    && event.srcIp == previous.srcIp && event.dstPort == previous.dstPort
    && event.ignored == previous.ignored
    && -REPEAT_WINDOW <= previous.occurredAt - event.occurredAt <= REPEAT_WINDOW
  }

  datatype EventRow = EventRow(event: Event, count: nat)

  /** `runs` cuts `events` at exactly the places where an event does not repeat
      the one before it. */
  ghost predicate IsCut(events: seq<Event>, runs: seq<seq<Event>>) {
    && Flatten(runs) == events
    && (forall k :: 0 <= k < |runs| ==> IsRun(runs[k]))
    && (forall k, l :: 0 <= k < l < |runs| && l == k + 1 ==> !Repeats(runs[k][|runs[k]| - 1], runs[l][0]))
  }

  ghost predicate IsRun(run: seq<Event>) {
    run != [] && forall i, j :: 0 <= i < j < |run| && j == i + 1 ==> Repeats(run[i], run[j])
  }

  /** Each run becomes its first event with the number of events in it. */
  function RowsOf(runs: seq<seq<Event>>): seq<EventRow>
    requires forall k :: 0 <= k < |runs| ==> runs[k] != []
  {
    seq(|runs|, k requires 0 <= k < |runs| => EventRow(runs[k][0], |runs[k]|))
  }

  method GroupRepeats(events: seq<Event>) returns (rows: seq<EventRow>)
    ensures exists runs :: IsCut(events, runs) && rows == RowsOf(runs)
  {
    rows := [];
    ghost var runs: seq<seq<Event>> := [];
    var previous: Option<Event> := None;
    for i := 0 to |events|
      invariant previous == if i == 0 then None else Some(events[i - 1])
      invariant IsCut(events[..i], runs) && rows == RowsOf(runs)
    {
      assert events[..i + 1] == events[..i] + [events[i]];
      rows := AddEvent(rows, previous, events[i], events[..i], runs);
      runs := WithEvent(events[..i], runs, events[i]);
      previous := Some(events[i]);
    }
    assert events[..|events|] == events;
  }

  /** The runs with one more event. */
  ghost function WithEvent(events: seq<Event>, runs: seq<seq<Event>>, event: Event): seq<seq<Event>>
    requires IsCut(events, runs)
  {
    LastOfCut(events, runs);
    if events != [] && Repeats(events[|events| - 1], event) then Extended(runs, event) else runs + [[event]]
  }

  /** One pass: the event joins the row of the one before it, or starts its own. */
  method AddEvent(rows: seq<EventRow>, previous: Option<Event>, event: Event, ghost events: seq<Event>,
                  ghost runs: seq<seq<Event>>)
    returns (more: seq<EventRow>)
    requires IsCut(events, runs) && rows == RowsOf(runs)
    requires previous == if events == [] then None else Some(events[|events| - 1])
    ensures var longer := WithEvent(events, runs, event); IsCut(events + [event], longer) && more == RowsOf(longer)
  {
    LastOfCut(events, runs);
    if previous.Some? && Repeats(previous.value, event) {
      CutExtends(events, runs, event);
      var last := rows[|rows| - 1];
      more := rows[|rows| - 1 := last.(count := last.count + 1)];
    } else {
      CutAdds(events, runs, event);
      more := rows + [EventRow(event, 1)];
    }
  }

  ghost function Extended(runs: seq<seq<Event>>, event: Event): seq<seq<Event>>
    requires runs != []
  {
    runs[..|runs| - 1] + [runs[|runs| - 1] + [event]]
  }

  lemma CutExtends(events: seq<Event>, runs: seq<seq<Event>>, event: Event)
    requires IsCut(events, runs) && events != [] && Repeats(events[|events| - 1], event)
    ensures runs != [] && IsCut(events + [event], Extended(runs, event))
  {
    LastOfCut(events, runs);
    var before, last := runs[..|runs| - 1], runs[|runs| - 1];
    LongerRun(last, event);
    LastReplaced(runs, last + [event]);
    FlattenSnoc(before, last + [event]);
    Joined(Flatten(before), last, [event]);
  }

  lemma CutAdds(events: seq<Event>, runs: seq<seq<Event>>, event: Event)
    requires IsCut(events, runs) && (events == [] || !Repeats(events[|events| - 1], event))
    ensures IsCut(events + [event], runs + [[event]])
  {
    LastOfCut(events, runs);
    FlattenSnoc(runs, [event]);
  }

  lemma LastOfCut(events: seq<Event>, runs: seq<seq<Event>>)
    requires IsCut(events, runs)
    ensures events == [] <==> runs == []
    ensures events != [] ==> runs[|runs| - 1][|runs[|runs| - 1]| - 1] == events[|events| - 1]
  {
  }

  /** Without its last event, a cut is a cut of the events before. */
  ghost function Chopped(runs: seq<seq<Event>>): seq<seq<Event>>
    requires runs != [] && runs[|runs| - 1] != []
  {
    var before, last := runs[..|runs| - 1], runs[|runs| - 1];
    if |last| == 1 then before else before + [last[..|last| - 1]]
  }

  lemma ChoppedIsCut(events: seq<Event>, runs: seq<seq<Event>>)
    requires IsCut(events, runs) && events != []
    ensures runs != [] && IsCut(events[..|events| - 1], Chopped(runs))
    ensures |runs[|runs| - 1]| == 1 <==> |events| == 1 || !Repeats(events[|events| - 2], events[|events| - 1])
  {
    LastOfCut(events, runs);
    if |runs[|runs| - 1]| == 1 {
      LastRunDropped(events, runs);
    } else {
      LastRunShortened(events, runs);
      LastRunRepeats(events, runs);
    }
  }

  lemma LastRunDropped(events: seq<Event>, runs: seq<seq<Event>>)
    requires IsCut(events, runs) && events != [] && runs != [] && |runs[|runs| - 1]| == 1
    ensures IsCut(events[..|events| - 1], runs[..|runs| - 1])
    ensures |events| == 1 || !Repeats(events[|events| - 2], events[|events| - 1])
  {
    LastOfCut(events, runs);
    var before := runs[..|runs| - 1];
    assert events[..|events| - 1] == Flatten(before);
    LastOfCut(Flatten(before), before);
  }

  lemma WithoutLast(a: seq<Event>, b: seq<Event>)
    requires |b| > 1
    ensures (a + b)[..|a + b| - 1] == a + b[..|b| - 1]
    ensures |a + b| > 1 && (a + b)[|a + b| - 2] == b[|b| - 2] && (a + b)[|a + b| - 1] == b[|b| - 1]
  {
  }

  lemma LastRunShortened(events: seq<Event>, runs: seq<seq<Event>>)
    requires IsCut(events, runs) && runs != [] && |runs[|runs| - 1]| > 1
    ensures |events| > 1 && IsCut(events[..|events| - 1], Chopped(runs))
  {
    WithoutLast(Flatten(runs[..|runs| - 1]), runs[|runs| - 1]);
    ShortenedIsCut(events, runs);
  }

  lemma ShortenedIsCut(events: seq<Event>, runs: seq<seq<Event>>)
    requires IsCut(events, runs) && runs != [] && |runs[|runs| - 1]| > 1
    ensures var before, last := runs[..|runs| - 1], runs[|runs| - 1];
            IsCut(Flatten(before) + last[..|last| - 1], before + [last[..|last| - 1]])
  {
    var last := runs[|runs| - 1];
    ShorterRun(last);
    LastReplaced(runs, last[..|last| - 1]);
    FlattenSnoc(runs[..|runs| - 1], last[..|last| - 1]);
  }

  lemma LastRunRepeats(events: seq<Event>, runs: seq<seq<Event>>)
    requires IsCut(events, runs) && runs != [] && |runs[|runs| - 1]| > 1
    ensures |events| > 1 && Repeats(events[|events| - 2], events[|events| - 1])
  {
    ShorterRun(runs[|runs| - 1]);
    WithoutLast(Flatten(runs[..|runs| - 1]), runs[|runs| - 1]);
  }

  lemma LongerRun(run: seq<Event>, event: Event)
    requires IsRun(run) && Repeats(run[|run| - 1], event)
    ensures IsRun(run + [event]) && (run + [event])[0] == run[0]
  {
  }

  lemma ShorterRun(run: seq<Event>)
    requires IsRun(run) && |run| > 1
    ensures IsRun(run[..|run| - 1]) && Repeats(run[|run| - 2], run[|run| - 1])
  {
  }

  /** Only the first event of the last run matters for where the cuts are. */
  lemma LastReplaced(runs: seq<seq<Event>>, last: seq<Event>)
    requires runs != [] && IsRun(last) && (forall k :: 0 <= k < |runs| ==> runs[k] != [] && IsRun(runs[k]))
    requires last[0] == runs[|runs| - 1][0]
    requires forall k, l :: 0 <= k < l < |runs| && l == k + 1 ==> !Repeats(runs[k][|runs[k]| - 1], runs[l][0])
    ensures IsCut(Flatten(runs[..|runs| - 1] + [last]), runs[..|runs| - 1] + [last])
  {
  }

  /** There is one way to cut a list of events, so the rows are determined. */
  lemma {:induction false} CutUnique(events: seq<Event>, runs: seq<seq<Event>>, runs': seq<seq<Event>>)
    requires IsCut(events, runs) && IsCut(events, runs')
    ensures runs == runs'
  {
    LastOfCut(events, runs);
    LastOfCut(events, runs');
    if events != [] {
      ChoppedIsCut(events, runs);
      ChoppedIsCut(events, runs');
      CutUnique(events[..|events| - 1], Chopped(runs), Chopped(runs'));
      Rebuild(events, runs);
      Rebuild(events, runs');
    }
  }

  lemma Rebuild(events: seq<Event>, runs: seq<seq<Event>>)
    requires IsCut(events, runs) && runs != [] && events != []
    ensures var event := events[|events| - 1];
            runs == if |runs[|runs| - 1]| == 1 then Chopped(runs) + [[event]] else Extended(Chopped(runs), event)
  {
    LastOfCut(events, runs);
    var before, last := runs[..|runs| - 1], runs[|runs| - 1];
    assert runs == before + [last];
    assert last == last[..|last| - 1] + [events[|events| - 1]];
    assert |last| > 1 ==> Chopped(runs)[..|runs| - 1] == before;
  }

  /** The same but for the time. */
  predicate SameBut(a: Event, b: Event) { a.(occurredAt := b.occurredAt) == b }

  function Apart(a: Event, b: Event): nat {
    if a.occurredAt < b.occurredAt then b.occurredAt - a.occurredAt else a.occurredAt - b.occurredAt
  }

  /** All events of a run are the same but for the time, and not further from its first than
      a window for each event between. */
  lemma {:induction false} RunAgrees(run: seq<Event>, i: nat)
    requires IsRun(run) && i < |run|
    ensures SameBut(run[i], run[0]) && Apart(run[i], run[0]) <= i * REPEAT_WINDOW
  {
    if i > 0 {
      RunAgrees(run, i - 1);
      assert Repeats(run[i - 1], run[i]);
    }
  }

  /** A row ends where the next event differs in more than the time, or is too far away in
      time; and it ends nowhere else. */
  lemma RowsEndWhere(events: seq<Event>, runs: seq<seq<Event>>)
    requires IsCut(events, runs)
    ensures forall k, l :: 0 <= k < l < |runs| && l == k + 1 ==>
              var last, next := runs[k][|runs[k]| - 1], runs[l][0];
              !SameBut(last, next) || Apart(last, next) > REPEAT_WINDOW
    ensures forall k, i, j :: 0 <= k < |runs| && 0 <= i < j < |runs[k]| && j == i + 1 ==>
              SameBut(runs[k][i], runs[k][j]) && Apart(runs[k][i], runs[k][j]) <= REPEAT_WINDOW
  {
  }

  // ---- Pages --------------------------------------------------------------------

  const PAGE_SIZE := 50

  /** One page of `all`, and whether an older page exists: one row more than the
      page is fetched. Page numbers below 1 mean the first page. */
  function PageOf<T>(all: seq<T>, page: int): (seq<T>, bool) {
    var offset := ((if page > 1 then page else 1) - 1) * PAGE_SIZE;
    var fetched := if offset >= |all| then []
                   else if offset + PAGE_SIZE + 1 <= |all| then all[offset..offset + PAGE_SIZE + 1]
                   else all[offset..];
    (if |fetched| > PAGE_SIZE then fetched[..PAGE_SIZE] else fetched, |fetched| > PAGE_SIZE)
  }

  function FirstPages<T>(all: seq<T>, pages: nat): seq<T> {
    if pages == 0 then [] else FirstPages(all, pages - 1) + PageOf(all, pages).0
  }

  /** Page after page gives the whole list, each event once, and another page is
      announced exactly as long as events are left. */
  lemma {:induction false} PagesTile<T>(all: seq<T>, pages: nat)
    ensures FirstPages(all, pages) == if pages * PAGE_SIZE <= |all| then all[..pages * PAGE_SIZE] else all
    ensures pages > 0 ==> (PageOf(all, pages).1 <==> FirstPages(all, pages) != all)
  {
    if pages > 0 {
      PagesTile(all, pages - 1);
      assert pages * PAGE_SIZE == (pages - 1) * PAGE_SIZE + PAGE_SIZE;
    }
  }
}
