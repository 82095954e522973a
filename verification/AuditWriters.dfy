/** Many writers recording audit entries at once, in different processes. They
    meet only at the tip row: its lock, and the uncommitted insert that creates it. */
module AuditWriters {
  import opened Wrappers
  import opened AuditChain

  /** Where a writer is inside its transaction. */
  datatype Phase =
    | Idle
    | Selecting(e: Entry)                  // about to run the locking read of the tip
    | Creating(e: Entry)                   // saw no tip row: about to insert one
    | Rereading(e: Entry)                  // its insert hit the unique key: about to read again
    | Holding(e: Entry, tip: ChainState)   // owns the tip row

  datatype Action =
    | Begin(w: nat, e: Entry)
    | Select(w: nat)
    | Flush(w: nat)
    | Reread(w: nat)
    | Commit(w: nat)
    | Abort(w: nat)

  /** `rows` and `state` are what is committed; `owner` is the writer that holds
      the tip row's lock or its uncommitted insert; `committed` records the
      entries in the order of their commits. */
  datatype System = System(rows: seq<Row>, state: Option<ChainState>, owner: Option<nat>,
                           phases: map<nat, Phase>, committed: seq<Entry>)

  const START := System([], None, None, map[], [])

  function PhaseOf(s: System, w: nat): Phase {
    if w in s.phases then s.phases[w] else Idle
  }

  function Moves(s: System, w: nat, phase: Phase): System {
    s.(phases := s.phases[w := phase])
  }

  function Acquires(s: System, w: nat, e: Entry, tip: ChainState): System {
    Moves(s, w, Holding(e, tip)).(owner := Some(w))
  }

  /** One action; a writer that has to wait, or is not at that action, changes nothing. */
  function Step(h: Hasher, s: System, a: Action): System {
    var phase := PhaseOf(s, a.w);
    match a
    case Begin(w, e) => if phase.Idle? then Moves(s, w, Selecting(e)) else s
    case Select(w) =>
      if !phase.Selecting? then s
      else if s.state.None? then Moves(s, w, Creating(phase.e))  // an uncommitted row is invisible
      else if s.owner.Some? then s
      else Acquires(s, w, phase.e, s.state.value)
    case Flush(w) =>
      if !phase.Creating? then s
      else if s.state.Some? then Moves(s, w, Rereading(phase.e))
      else if s.owner.Some? then s
      else Acquires(s, w, phase.e, GENESIS)
    case Reread(w) =>
      if !phase.Rereading? || s.owner.Some? then s
      else if s.state.None? then Moves(s, w, Idle)
      else Acquires(s, w, phase.e, s.state.value)
    case Commit(w) =>
      if !phase.Holding? then s
      else
        Moves(s, w, Idle).(owner := None,
                           rows := s.rows + [NextRow(h, phase.tip, phase.e)],
                           state := Some(NextState(h, phase.tip, phase.e)),
                           committed := s.committed + [phase.e])
    case Abort(w) =>
      Moves(s, w, Idle).(owner := if s.owner == Some(w) then None else s.owner)
  }

  function Run(h: Hasher, actions: seq<Action>): System {
    if actions == [] then START
    else Step(h, Run(h, actions[..|actions| - 1]), actions[|actions| - 1])
  }

  /** The committed tables are those of one writer at a time, and whoever owns
      the tip row holds what is committed in it. */
  ghost predicate Serial(h: Hasher, s: System) {
    && s.rows == HonestLog(h, s.committed)
    && s.state == (if s.committed == [] then None else Some(Tip(h, s.committed)))
    && (forall w: nat :: PhaseOf(s, w).Holding? <==> s.owner == Some(w))
    && (forall w: nat :: PhaseOf(s, w).Holding? ==> PhaseOf(s, w).tip == Tip(h, s.committed))
    && (forall w: nat :: PhaseOf(s, w).Rereading? ==> s.state.Some?)
  }

  lemma {:induction false} StepKeepsSerial(h: Hasher, s: System, a: Action)
    requires Serial(h, s)
    ensures Serial(h, Step(h, s, a))
  {
    match a
    case Commit(w) => CommitKeepsSerial(h, s, w);
    case Abort(w) => AbortKeepsSerial(h, s, w);
    case Begin(w, e) => MoveKeepsSerial(h, s, w, Selecting(e));
    case _ =>
      var phase := PhaseOf(s, a.w);
      if !phase.Idle? {
        MoveKeepsSerial(h, s, a.w, Idle);
        MoveKeepsSerial(h, s, a.w, Creating(phase.e));
        MoveKeepsSerial(h, s, a.w, Rereading(phase.e));
        AcquireKeepsSerial(h, s, a.w, phase.e);
      }
  }

  /** A writer that does not hold the tip moves on without it. */
  lemma MoveKeepsSerial(h: Hasher, s: System, w: nat, phase: Phase)
    requires Serial(h, s) && !phase.Holding?
    ensures !PhaseOf(s, w).Holding? && (phase.Rereading? ==> s.state.Some?) ==> Serial(h, Moves(s, w, phase))
  {
    assert forall w': nat :: PhaseOf(Moves(s, w, phase), w') == if w' == w then phase else PhaseOf(s, w');
  }

  /** A free tip row is taken with what is committed in it. */
  lemma AcquireKeepsSerial(h: Hasher, s: System, w: nat, e: Entry)
    requires Serial(h, s)
    ensures s.owner.None? ==> Serial(h, Acquires(s, w, e, Tip(h, s.committed)))
  {
    var t := Acquires(s, w, e, Tip(h, s.committed));
    assert forall w': nat :: PhaseOf(t, w') == if w' == w then Holding(e, Tip(h, s.committed)) else PhaseOf(s, w');
  }

  lemma AbortKeepsSerial(h: Hasher, s: System, w: nat)
    requires Serial(h, s)
    ensures Serial(h, Step(h, s, Abort(w)))
  {
    assert forall w': nat :: w' != w ==> PhaseOf(Step(h, s, Abort(w)), w') == PhaseOf(s, w');
  }

  lemma CommitKeepsSerial(h: Hasher, s: System, w: nat)
    requires Serial(h, s)
    ensures Serial(h, Step(h, s, Commit(w)))
  {
    var t := Step(h, s, Commit(w));
    if PhaseOf(s, w).Holding? {
      assert forall w': nat :: w' != w ==> PhaseOf(t, w') == PhaseOf(s, w');
      assert t.committed[..|s.committed|] == s.committed;
      assert t.rows == HonestLog(h, t.committed) && t.state == Some(Tip(h, t.committed));
    }
  }

  lemma {:induction false} RunIsSerial(h: Hasher, actions: seq<Action>)
    ensures Serial(h, Run(h, actions))
  {
    if actions != [] {
      RunIsSerial(h, actions[..|actions| - 1]);
      StepKeepsSerial(h, Run(h, actions[..|actions| - 1]), actions[|actions| - 1]);
    }
  }

  // ---- What is recorded ------------------------------------------------------------------

  /** The entry a writer last began with, as the actions tell: a busy writer begins nothing. */
  function Began(h: Hasher, actions: seq<Action>, w: nat): Option<Entry> {
    if actions == [] then None
    else
      var before, last := actions[..|actions| - 1], actions[|actions| - 1];
      if last.Begin? && last.w == w && PhaseOf(Run(h, before), w).Idle? then Some(last.e) else Began(h, before, w)
  }

  lemma {:induction false} CarriesBegun(h: Hasher, actions: seq<Action>, w: nat)
    requires !PhaseOf(Run(h, actions), w).Idle?
    ensures Began(h, actions, w) == Some(PhaseOf(Run(h, actions), w).e)
  {
    if actions != [] {
      var before, last := actions[..|actions| - 1], actions[|actions| - 1];
      if !PhaseOf(Run(h, before), w).Idle? {
        CarriesBegun(h, before, w);
      }
      if last.w != w {
        assert PhaseOf(Run(h, actions), w) == PhaseOf(Run(h, before), w);
      }
    }
  }

  /** A writer that holds the tip and commits. */
  predicate Commits(h: Hasher, before: seq<Action>, a: Action) {
    a.Commit? && PhaseOf(Run(h, before), a.w).Holding?
  }

  /** A commit by the holder adds exactly one row, with all of the entry it began with; no
      other action touches the rows. */
  lemma CommitRecords(h: Hasher, before: seq<Action>, a: Action)
    ensures var rows, rows' := Run(h, before).rows, Run(h, before + [a]).rows;
            if Commits(h, before, a) then
              && Began(h, before, a.w).Some? && |rows'| == |rows| + 1 && rows'[..|rows|] == rows
              && rows'[|rows|].content == Began(h, before, a.w).value.content
              && rows'[|rows|].location == Began(h, before, a.w).value.location
            else rows' == rows
  {
    assert (before + [a])[..|before|] == before;
    if Commits(h, before, a) {
      CarriesBegun(h, before, a.w);
    }
  }

  /** The entries of the writers that committed, in the order of their commits. */
  function Recorded(h: Hasher, actions: seq<Action>): seq<Entry> {
    if actions == [] then []
    else
      var before, last := actions[..|actions| - 1], actions[|actions| - 1];
      Recorded(h, before) +
      if Commits(h, before, last) && Began(h, before, last.w).Some? then [Began(h, before, last.w).value] else []
  }

  lemma {:induction false} CommittedAreRecorded(h: Hasher, actions: seq<Action>)
    ensures Run(h, actions).committed == Recorded(h, actions)
  {
    if actions != [] {
      var before, last := actions[..|actions| - 1], actions[|actions| - 1];
      CommittedAreRecorded(h, before);
      if Commits(h, before, last) {
        CarriesBegun(h, before, last.w);
      }
    }
  }

  /** The log is that of one writer recording those entries one after the other. */
  lemma LogIsRecorded(h: Hasher, actions: seq<Action>)
    ensures Run(h, actions).rows == HonestLog(h, Recorded(h, actions))
  {
    CommittedAreRecorded(h, actions);
    RunIsSerial(h, actions);
  }

  /** An abort, and a commit by the holder, leave the writer idle and the tip to the others. */
  lemma EndsIdle(h: Hasher, before: seq<Action>, a: Action)
    requires a.Abort? || Commits(h, before, a)
    ensures PhaseOf(Run(h, before + [a]), a.w).Idle? && Run(h, before + [a]).owner != Some(a.w)
  {
    RunOn(h, before, a);
  }

  lemma RunOn(h: Hasher, before: seq<Action>, a: Action)
    ensures Run(h, before + [a]) == Step(h, Run(h, before), a)
  {
    assert (before + [a])[..|before|] == before;
  }

  /** With the tip free, three steps take an idle writer to holding it. */
  lemma AloneHolds(h: Hasher, s: System, w: nat, e: Entry)
    requires s.owner.None? && PhaseOf(s, w).Idle?
    ensures var s' := Step(h, Step(h, Step(h, s, Begin(w, e)), Select(w)), Flush(w));
            PhaseOf(s', w).Holding? && PhaseOf(s', w).e == e && s'.committed == s.committed
  {
    var began := Step(h, s, Begin(w, e));
    assert PhaseOf(began, w) == Selecting(e) && began.owner.None? && began.state == s.state;
    var selected := Step(h, began, Select(w));
    assert if s.state.None? then PhaseOf(selected, w) == Creating(e) && selected.owner.None? && selected.state.None?
           else PhaseOf(selected, w) == Holding(e, s.state.value);
  }

  /** A writer that nobody interrupts records its entry. */
  lemma UninterruptedRecords(h: Hasher, before: seq<Action>, w: nat, e: Entry)
    requires Run(h, before).owner.None? && PhaseOf(Run(h, before), w).Idle?
    ensures Recorded(h, before + [Begin(w, e)] + [Select(w)] + [Flush(w)] + [Commit(w)]) == Recorded(h, before) + [e]
  {
    var began := before + [Begin(w, e)];
    var selected := began + [Select(w)];
    var flushed := selected + [Flush(w)];
    RunOn(h, before, Begin(w, e));
    RunOn(h, began, Select(w));
    RunOn(h, selected, Flush(w));
    RunOn(h, flushed, Commit(w));
    AloneHolds(h, Run(h, before), w, e);
    CommittedAreRecorded(h, before);
    CommittedAreRecorded(h, flushed + [Commit(w)]);
  }

  /** After any interleaving: sequences 1 to `entryCount` without gap or
      duplicate, every row linked to the one before it, the tip at the newest
      row, and a verifier that answers ok. */
  lemma EveryRunVerifies(h: Hasher, actions: seq<Action>, v: Verification)
    requires var s := Run(h, actions); Answers(h, s.rows, s.state, v)
    ensures var s := Run(h, actions);
            && v.ok
            && (forall i :: 0 <= i < |s.rows| ==>
                  s.rows[i].sequence == i + 1 && s.rows[i].prevHash == ExpectedPrev(s.rows, i))
            && (s.state.None? <==> s.rows == [])
            && (s.state.Some? ==> s.state.value == ChainState(ExpectedPrev(s.rows, |s.rows|), |s.rows|))
  {
    var s := Run(h, actions);
    RunIsSerial(h, actions);
    HonestAccepted(h, s.committed);
    forall i | 0 <= i < |s.rows|
      ensures s.rows[i].sequence == i + 1 && s.rows[i].prevHash == ExpectedPrev(s.rows, i)
    {
      HonestRow(h, s.committed, i);
      ExpectedIsTip(h, s.committed, i);
    }
    ExpectedIsTip(h, s.committed, |s.rows|);
    assert s.committed[..|s.rows|] == s.committed;
  }

  /** Two writers never hold the tip at once. */
  lemma OneHolder(h: Hasher, actions: seq<Action>, w: nat, w': nat)
    requires var s := Run(h, actions); PhaseOf(s, w).Holding? && PhaseOf(s, w').Holding?
    ensures w == w'
  {
    RunIsSerial(h, actions);
  }

  /** Rows are only ever added at the end. */
  lemma {:induction false} AppendOnly(h: Hasher, actions: seq<Action>, more: seq<Action>)
    ensures Run(h, actions).rows <= Run(h, actions + more).rows
  {
    if more == [] {
      assert actions + more == actions;
    } else {
      AppendOnly(h, actions, more[..|more| - 1]);
      assert (actions + more)[..|actions + more| - 1] == actions + more[..|more| - 1];
    }
  }

  /** Nobody waits for nobody: as long as a writer is busy, some writer can
      take its next step without being rolled back. */
  lemma NoDeadlock(h: Hasher, actions: seq<Action>, w: nat)
    requires PhaseOf(Run(h, actions), w) != Idle
    ensures exists a: Action :: !a.Begin? && !a.Abort? && Step(h, Run(h, actions), a) != Run(h, actions)
  {
    var s := Run(h, actions);
    RunIsSerial(h, actions);
    var a := if s.owner.Some? then Commit(s.owner.value)
             else match PhaseOf(s, w)
                  case Selecting(_) => Select(w)
                  case Creating(_) => Flush(w)
                  case Rereading(_) => Reread(w)
                  case _ => Commit(w);
    assert PhaseOf(Step(h, s, a), a.w) != PhaseOf(s, a.w);
  }
}
