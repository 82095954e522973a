/** One watched file: what is kept of its readings and when a change is reported.
    Stored contents are encrypted in the database; here they are the text itself. */
module WatchedFiles {
  import opened Wrappers

  datatype State = Pending | Ok | Missing | Unreadable | TooLarge

  datatype Reading = Reading(state: State, content: Option<string>, at: int)

  datatype Change = Gone(state: State) | Appeared(lines: nat) | Edited(added: nat, removed: nat)

  /** The content digest, and how many lines two versions differ by (added, removed). */
  datatype Tools = Tools(digest: string -> string, lineCounts: (string, string) -> (nat, nat))

  ghost predicate CollisionFree(tools: Tools) {
    forall a, b :: tools.digest(a) == tools.digest(b) ==> a == b
  }

  /** The stored row. */
  datatype Row = Row(state: State, sha256: Option<string>, content: Option<string>, previous: Option<string>,
                     lines: Option<(nat, nat)>, checkedAt: Option<int>, changedAt: Option<int>)

  const NEW_ROW := Row(Pending, None, None, None, None, None, None)

  class WatchedFile {
    const tools: Tools
    var state: State
    var sha256: Option<string>
    var content: Option<string>
    var previous: Option<string>
    var lines: Option<(nat, nat)>
    var checkedAt: Option<int>
    var changedAt: Option<int>

    constructor (tools: Tools)
      ensures this.tools == tools && Stored() == NEW_ROW
    {
      this.tools := tools;
      state, sha256, content, previous, lines, checkedAt, changedAt := Pending, None, None, None, None, None, None;
    }

    function Stored(): Row
      reads this
    {
      Row(state, sha256, content, previous, lines, checkedAt, changedAt)
    }

    /** Update the row from one reading; the change worth telling someone about. */
    method ApplyReading(r: Reading) returns (change: Option<Change>)
      modifies this
      ensures (Stored(), change) == Applied(tools, old(Stored()), r)
    {
      var wasState, wasDigest := state, sha256;
      checkedAt := Some(r.at);
      state := r.state;
      if r.state != Ok || r.content.None? {
        if wasState == Ok {
          changedAt := Some(r.at);
          return Some(Gone(r.state));
        }
        return None;
      }
      var digest := tools.digest(r.content.value);
      if wasDigest == Some(digest) {
        return None;
      }
      var before := content;
      sha256 := Some(digest);
      content := r.content;
      if before.None? {
        if wasState == Missing {
          previous := Some("");
          lines := Some(tools.lineCounts("", r.content.value));
          changedAt := Some(r.at);
          return Some(Appeared(lines.value.0));
        }
        return None;
      }
      previous := before;
      lines := Some(tools.lineCounts(before.value, r.content.value));
      changedAt := Some(r.at);
      change := Some(Edited(lines.value.0, lines.value.1));
    }
  }

  // ---- One reading ------------------------------------------------------------------

  predicate IsOk(r: Reading) { r.state == Ok && r.content.Some? }

  function Applied(tools: Tools, row: Row, r: Reading): (Row, Option<Change>) {
    var seen := row.(checkedAt := Some(r.at), state := r.state);
    if !IsOk(r) then
      if row.state == Ok then (seen.(changedAt := Some(r.at)), Some(Gone(r.state))) else (seen, None)
    else
      var digest := tools.digest(r.content.value);
      if row.sha256 == Some(digest) then (seen, None)
      else
        var stored := seen.(sha256 := Some(digest), content := r.content);
        if row.content.None? && row.state != Missing then (stored, None)
        else
          var before := if row.content.Some? then row.content.value else "";
          var n := tools.lineCounts(before, r.content.value);
          (stored.(previous := Some(before), lines := Some(n), changedAt := Some(r.at)),
           Some(if row.content.Some? then Edited(n.0, n.1) else Appeared(n.0)))
  }

  function Run(tools: Tools, readings: seq<Reading>): Row {
    if readings == [] then NEW_ROW
    else Applied(tools, Run(tools, readings[..|readings| - 1]), readings[|readings| - 1]).0
  }

  // ---- What a history of readings should leave -----------------------------------------

  function LastState(readings: seq<Reading>): State {
    if readings == [] then Pending else readings[|readings| - 1].state
  }

  /** The content of the last ok reading. */
  function LastContent(readings: seq<Reading>): Option<string> {
    if readings == [] then None
    else if IsOk(readings[|readings| - 1]) then readings[|readings| - 1].content
    else LastContent(readings[..|readings| - 1])
  }

  /** A reading worth reporting after `before`: an ok file stops being ok, the
      content differs from the last one read, or a file that was missing is there
      for the first time. */
  predicate IsChange(before: seq<Reading>, r: Reading) {
    if !IsOk(r) then LastState(before) == Ok
    else if LastContent(before).Some? then LastContent(before) != r.content
    else LastState(before) == Missing
  }

  /** The contents read one after the other, without repetitions; a file that
      appeared was empty before. */
  function Versions(readings: seq<Reading>): seq<string> {
    if readings == [] then []
    else
      var before, r := readings[..|readings| - 1], readings[|readings| - 1];
      if !IsOk(r) || LastContent(before) == r.content then Versions(before)
      else if LastContent(before).None? && LastState(before) == Missing then ["", r.content.value]
      else Versions(before) + [r.content.value]
  }

  /** When something was last reported. */
  function LastChangeAt(readings: seq<Reading>): Option<int> {
    if readings == [] then None
    else
      var before, r := readings[..|readings| - 1], readings[|readings| - 1];
      if IsChange(before, r) then Some(r.at) else LastChangeAt(before)
  }

  lemma {:induction false} VersionsEnd(readings: seq<Reading>)
    ensures LastContent(readings).None? <==> Versions(readings) == []
    ensures LastContent(readings).Some? ==> Versions(readings)[|Versions(readings)| - 1] == LastContent(readings).value
  {
    if readings != [] {
      VersionsEnd(readings[..|readings| - 1]);
    }
  }

  /** The row after any history: the last ok content and its digest, the version the
      last content change replaced and how many lines it changed, the last state, and
      when something was last checked and reported. */
  lemma {:induction false} RowOfHistory(tools: Tools, readings: seq<Reading>)
    requires CollisionFree(tools)
    ensures var row, versions := Run(tools, readings), Versions(readings);
            && row.state == LastState(readings)
            && row.content == LastContent(readings)
            && row.sha256 == (if row.content.Some? then Some(tools.digest(row.content.value)) else None)
            && row.previous == (if |versions| > 1 then Some(versions[|versions| - 2]) else None)
            && row.lines == (if |versions| > 1
                             then Some(tools.lineCounts(versions[|versions| - 2], versions[|versions| - 1]))
                             else None)
            && row.checkedAt == (if readings != [] then Some(readings[|readings| - 1].at) else None)
            && row.changedAt == LastChangeAt(readings)
  {
    if readings != [] {
      RowOfHistory(tools, readings[..|readings| - 1]);
      VersionsEnd(readings[..|readings| - 1]);
    }
  }

  /** After any history, a reading is reported exactly when it is a change, and the
      report says what changed since the last ok reading. */
  lemma ReportedIffChange(tools: Tools, readings: seq<Reading>, r: Reading)
    requires CollisionFree(tools)
    ensures Applied(tools, Run(tools, readings), r).1 ==
            if !IsChange(readings, r) then None
            else if !IsOk(r) then Some(Gone(r.state))
            else if LastContent(readings).None? then Some(Appeared(tools.lineCounts("", r.content.value).0))
            else
              var n := tools.lineCounts(LastContent(readings).value, r.content.value);
              Some(Edited(n.0, n.1))
  {
    RowOfHistory(tools, readings);
  }

  /** The last of the readings in which the file was there and could be read. */
  predicate IsLastRead(readings: seq<Reading>, i: nat) {
    && i < |readings| && readings[i].state == Ok && readings[i].content != None
    && forall j :: i < j < |readings| ==> readings[j].state != Ok || readings[j].content == None
  }

  /** What is kept is the content of that reading, and nothing while there was none. */
  lemma KeptContent(tools: Tools, readings: seq<Reading>)
    requires CollisionFree(tools)
    ensures forall i: nat :: IsLastRead(readings, i) ==> Run(tools, readings).content == readings[i].content
    ensures Run(tools, readings).content.Some? <==> exists i: nat :: IsLastRead(readings, i)
  {
    RowOfHistory(tools, readings);
    forall i: nat | IsLastRead(readings, i)
      ensures LastContent(readings) == readings[i].content
    {
      LastContentIs(readings, i);
    }
    if LastContent(readings).Some? {
      var i := LastReadOf(readings);
    }
  }

  lemma {:induction false} LastContentIs(readings: seq<Reading>, i: nat)
    requires IsLastRead(readings, i)
    ensures LastContent(readings) == readings[i].content
  {
    if i < |readings| - 1 {
      LastContentIs(readings[..|readings| - 1], i);
    }
  }

  lemma {:induction false} LastReadOf(readings: seq<Reading>) returns (i: nat)
    requires LastContent(readings).Some?
    ensures IsLastRead(readings, i)
  {
    i := |readings| - 1;
    if !IsOk(readings[i]) {
      i := LastReadOf(readings[..i]);
    }
  }
}
