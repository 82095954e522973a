/** Reading an appending log by byte offset: the shell command's output, its
    parse, and polls interleaved with appends and rotations.

    `decode` stands for parsing one stripped line: the event, or none for a line
    that is not a JSON object. */
module CanaryTail {
  import opened Wrappers
  import opened Sequences
  import opened Text
  import opened Utf8

  const MARKER := "\n===READ=== "

  // ---- One poll -----------------------------------------------------------------

  /** Where the command starts reading a file of `size` bytes. */
  function StartOf(size: nat, offset: nat): nat {
    if size < offset then 0 else offset
  }

  function Printed(tail: string, start: nat): string { tail + MARKER + (Decimal(start) + "\n") }

  /** What the command prints, or none when the bytes from its start on are not
      text (the offset falls inside a character). */
  function Output(file: string, offset: nat): Option<string> {
    var start := StartOf(Utf8Length(file), offset);
    match DropBytes(file, start)
    case None => None
    case Some(tail) => Some(Printed(tail, start))
  }

  /** That is the text of the bytes printed: those of the file from the start on, the marker
      and the start. */
  lemma OutputIsDecoded(file: string, offset: nat)
    ensures var bytes, start := Encoded(file), StartOf(|Encoded(file)|, offset);
            && start <= |bytes| == Utf8Length(file)
            && Output(file, offset) == Decoded(bytes[start..] + Encoded(MARKER + (Decimal(start) + "\n")))
  {
    EncodedLength(file);
    var start := StartOf(Utf8Length(file), offset);
    DecodeFrom(file, start, MARKER + (Decimal(start) + "\n"));
    PrintedFollows(DropBytes(file, start), start);
  }

  lemma PrintedFollows(tail: Option<string>, start: nat)
    ensures Followed(tail, MARKER + (Decimal(start) + "\n")) ==
            match tail case None => None case Some(text) => Some(Printed(text, start))
  {
    if tail.Some? {
      Joined(tail.value, MARKER, Decimal(start) + "\n");
    }
  }

  function EventOf<E>(decode: string -> Option<E>, line: string): seq<E> {
    var stripped := Strip(line);
    if stripped == [] then []
    else
      match decode(stripped)
      case None => []
      case Some(event) => [event]
  }

  /** How many characters the leading lines that end in "\n" take. */
  function Consumed(s: string): (n: nat)
    ensures n <= |s|
  {
    if s == [] || !EndsInNewline(s[..FirstLine(s)]) then 0
    else FirstLine(s) + Consumed(s[FirstLine(s)..])
  }

  /** The events of those lines. */
  function EventsIn<E>(decode: string -> Option<E>, s: string): seq<E> {
    if s == [] || !EndsInNewline(s[..FirstLine(s)]) then []
    else EventOf(decode, s[..FirstLine(s)]) + EventsIn(decode, s[FirstLine(s)..])
  }

  datatype Parsed<+E> = Parsed(events: seq<E>, newOffset: int)

  function Parse<E>(decode: string -> Option<E>, raw: string): Parsed<E> {
    match LastIndex(raw, MARKER)
    case None => Parsed([], -1)
    case Some(i) =>
      ParseBody(decode, raw[..i], StartIn(raw[i + |MARKER|..]))
  }

  function StartIn(text: string): nat {
    match ParseDecimal(Strip(text))
    case Some(n) => n
    case None => 0
  }

  function ParseBody<E>(decode: string -> Option<E>, body: string, start: nat): Parsed<E> {
    Parsed(EventsIn(decode, body), start + Utf8Length(body[..Consumed(body)]))
  }

  /** How many bytes the leading lines that end in "\n" take. */
  function ConsumedBytes(s: string): nat {
    if s == [] || !EndsInNewline(s[..FirstLine(s)]) then 0
    else Utf8Length(s[..FirstLine(s)]) + ConsumedBytes(s[FirstLine(s)..])
  }

  lemma {:induction false} ConsumedBytesIs(s: string)
    ensures ConsumedBytes(s) == Utf8Length(s[..Consumed(s)])
  {
    if s != [] && EndsInNewline(s[..FirstLine(s)]) {
      var line, rest := s[..FirstLine(s)], s[FirstLine(s)..];
      ConsumedBytesIs(rest);
      Utf8LengthConcat(line, rest[..Consumed(rest)]);
      assert s[..Consumed(s)] == line + rest[..Consumed(rest)];
    }
  }

  /** `rest` is what is left of `body` after the lines read, from line `i` on. */
  ghost predicate ReadUpTo<E>(decode: string -> Option<E>, body: string, lines: seq<string>, i: nat, rest: string,
                                    events: seq<E>, consumed: nat)
  {
    && i <= |lines| && lines[i..] == LinesKeepEnds(rest)
    && EventsIn(decode, body) == events + EventsIn(decode, rest)
    && ConsumedBytes(body) == consumed + ConsumedBytes(rest)
  }

  lemma ReadOneMore<E>(decode: string -> Option<E>, body: string, lines: seq<string>, i: nat, rest: string,
                       events: seq<E>, consumed: nat)
    requires ReadUpTo(decode, body, lines, i, rest, events, consumed) && i < |lines|
    ensures rest != [] && lines[i] == rest[..FirstLine(rest)]
    ensures EndsInNewline(lines[i]) ==>
              ReadUpTo(decode, body, lines, i + 1, rest[FirstLine(rest)..], events + EventOf(decode, lines[i]),
                       consumed + Utf8Length(lines[i]))
    ensures !EndsInNewline(lines[i]) ==> EventsIn(decode, body) == events && ConsumedBytes(body) == consumed
  {
    assert lines[i..][0] == lines[i] && lines[i..][1..] == lines[i + 1..];
    if EndsInNewline(lines[i]) {
      var after := EventsIn(decode, rest[FirstLine(rest)..]);
      Joined(events, EventOf(decode, lines[i]), after);
    } else {
      assert events + [] == events;
    }
  }

  /** The loop over the lines of `body`. */
  method ReadLines<E>(decode: string -> Option<E>, body: string) returns (events: seq<E>, consumed: nat)
    ensures events == EventsIn(decode, body) && consumed == ConsumedBytes(body)
  {
    var lines := LinesKeepEnds(body);
    events, consumed := [], 0;
    ghost var rest := body;
    assert [] + EventsIn(decode, body) == EventsIn(decode, body);
    for i := 0 to |lines|
      invariant ReadUpTo(decode, body, lines, i, rest, events, consumed)
    {
      var line := lines[i];
      ReadOneMore(decode, body, lines, i, rest, events, consumed);
      if !EndsInNewline(line) {
        return;
      }
      consumed := consumed + Utf8Length(line);
      events := events + EventOf(decode, line);
      rest := rest[FirstLine(rest)..];
    }
    assert rest == [] && events + [] == events;
  }

  method ParseReadOutput<E>(decode: string -> Option<E>, raw: string) returns (events: seq<E>, newOffset: int)
    ensures Parsed(events, newOffset) == Parse(decode, raw)
    ensures NoMarker(raw) ==> events == [] && newOffset == -1
    ensures newOffset >= 0 <==> !NoMarker(raw)
  {
    NoMarkerNothing(decode, raw);
    var markerIndex := LastIndex(raw, MARKER);
    if markerIndex.None? {
      return [], -1;
    }
    var body := raw[..markerIndex.value];
    var start := StartIn(raw[markerIndex.value + |MARKER|..]);
    var consumed;
    events, consumed := ReadLines(decode, body);
    ConsumedBytesIs(body);
    newOffset := start + consumed;
  }

  /** The marker stands nowhere in it. */
  predicate NoMarker(raw: string) {
    forall i :: 0 <= i <= |raw| ==> !OccursAt(raw, MARKER, i)
  }

  /** Output without a marker gives nothing and tells the caller so; any other gives an
      offset to store. */
  lemma NoMarkerNothing<E>(decode: string -> Option<E>, raw: string)
    ensures NoMarker(raw) ==> Parse(decode, raw) == Parsed([], -1)
    ensures Parse(decode, raw).newOffset >= 0 <==> !NoMarker(raw)
  {
    NoneAtMost(raw, MARKER, |raw|);
  }

  /** No marker occurs after the one the command printed. */
  lemma MarkerIsLast(tail: string, number: string)
    requires forall i :: 0 <= i < |number| - 1 ==> number[i] != '\n'
    ensures LastIndex(tail + MARKER + number, MARKER) == Some(|tail|)
  {
    var raw := tail + MARKER + number;
    forall j | |tail| < j <= |raw|
      ensures !OccursAt(raw, MARKER, j)
    {
      if j + |MARKER| <= |raw| {
        assert raw[j] == (MARKER + number)[j - |tail|] != MARKER[0];
        assert raw[j..j + |MARKER|][0] == raw[j];
      }
    }
    assert raw[|tail|..|tail| + |MARKER|] == MARKER;
    LastAtMostIs(raw, MARKER, |tail|, |raw|);
  }

  /** A complete read is parsed as what was read, whatever markers the log itself
      contains. */
  lemma {:induction false} ParseOfOutput<E>(decode: string -> Option<E>, tail: string, start: nat)
    ensures Parse(decode, Printed(tail, start)) ==
            Parsed(EventsIn(decode, tail), start + Utf8Length(tail[..Consumed(tail)]))
  {
    StartReadBack(start);
    MarkerIsLast(tail, Decimal(start) + "\n");
    ParseAt(decode, tail, Decimal(start) + "\n");
  }

  lemma StartReadBack(start: nat)
    ensures StartIn(Decimal(start) + "\n") == start
  {
    StripTrailing(Decimal(start), "\n");
    DecimalParses(start);
  }

  lemma ParseAt<E>(decode: string -> Option<E>, tail: string, number: string)
    requires LastIndex(tail + MARKER + number, MARKER) == Some(|tail|)
    ensures Parse(decode, tail + MARKER + number) == ParseBody(decode, tail, StartIn(number))
  {
    var raw := tail + MARKER + number;
    assert raw[..|tail|] == tail;
    assert raw[|tail| + |MARKER|..] == number;
  }

  // ---- Output that was cut short ------------------------------------------------------

  /** The start is read right from its leading digits exactly when none is missing, or
      when it is 0. */
  lemma CutStart(start: nat, k: nat)
    requires k <= |Decimal(start)|
    ensures StartIn(Decimal(start)[..k]) == start <==> start == 0 || k == |Decimal(start)|
  {
    var digits := Decimal(start);
    if k == |digits| {
      assert digits[..k] == digits && digits + [] == digits;
      StripTrailing(digits, []);
      DecimalParses(start);
    } else if k > 0 {
      LeadingDigits(start, k);
      assert digits[..k] + [] == digits[..k];
      StripTrailing(digits[..k], []);
    }
  }

  lemma {:induction false} LeadingDigits(n: nat, k: nat)
    requires 0 < k < |Decimal(n)|
    ensures ParseDecimal(Decimal(n)[..k]).Some? && ParseDecimal(Decimal(n)[..k]).value < n
  {
    assert Decimal(n) == Decimal(n / 10) + [Digit(n % 10)];
    assert Decimal(n)[..k] == Decimal(n / 10)[..k];
    if k < |Decimal(n / 10)| {
      LeadingDigits(n / 10, k);
    } else {
      assert Decimal(n / 10)[..k] == Decimal(n / 10);
      DecimalParses(n / 10);
    }
  }

  lemma NoMarkerBefore(tail: string, after: string, n: nat)
    requires NoMarker(tail) && n < |tail| + |MARKER|
    ensures NoMarker((tail + MARKER + after)[..n])
  {
    var raw := tail + MARKER + after;
    assert raw[|tail|] == '\n';
    forall i | 0 <= i <= |raw[..n]|
      ensures !OccursAt(raw[..n], MARKER, i)
    {
      if i + |MARKER| <= |tail| && i + |MARKER| <= n {
        assert !OccursAt(tail, MARKER, i);
        assert raw[..n][i..i + |MARKER|] == tail[i..i + |MARKER|];
      } else if i + |MARKER| <= n {
        assert raw[..n][i..i + |MARKER|][|tail| - i] == raw[|tail|];
        assert MARKER[|tail| - i] != '\n';
      }
    }
  }

  /** Of a log without markers, output cut before the end of the marker gives nothing. */
  lemma CutBeforeMarker<E>(decode: string -> Option<E>, tail: string, start: nat, n: nat)
    requires NoMarker(tail) && n < |tail| + |MARKER|
    ensures Parse(decode, Printed(tail, start)[..n]) == Parsed([], -1)
  {
    NoMarkerBefore(tail, Decimal(start) + "\n", n);
    NoMarkerNothing(decode, Printed(tail, start)[..n]);
  }

  /** Output cut `came` characters after it gives the events of the whole output, but the
      offset is counted from the digits that came: it is right exactly when they are all
      there, or the start is 0. */
  lemma CutAfterMarker<E>(decode: string -> Option<E>, tail: string, start: nat, came: nat)
    requires came <= |Decimal(start)| + 1
    ensures var p, whole := Parse(decode, Printed(tail, start)[..|tail| + |MARKER| + came]),
                            Parse(decode, Printed(tail, start));
            && p.events == whole.events
            && (p.newOffset == whole.newOffset <==> start == 0 || came >= |Decimal(start)|)
  {
    var number := (Decimal(start) + "\n")[..came];
    ParseOfOutput(decode, tail, start);
    assert Printed(tail, start)[..|tail| + |MARKER| + came] == tail + MARKER + number;
    MarkerIsLast(tail, number);
    ParseAt(decode, tail, number);
    CutNumber(start, came);
  }

  lemma CutNumber(start: nat, came: nat)
    requires came <= |Decimal(start)| + 1
    ensures StartIn((Decimal(start) + "\n")[..came]) == start <==> start == 0 || came >= |Decimal(start)|
  {
    if came <= |Decimal(start)| {
      assert (Decimal(start) + "\n")[..came] == Decimal(start)[..came];
      CutStart(start, came);
    } else {
      assert (Decimal(start) + "\n")[..came] == Decimal(start) + "\n";
      StartReadBack(start);
    }
  }

  // ---- What a log holds ---------------------------------------------------------------

  /** A line of a log: white space, the text that is decoded, white space. */
  datatype Line = Line(left: string, core: string, right: string)

  function LineText(line: Line): string { line.left + line.core + line.right }

  predicate NoBreaks(text: string) {
    forall i :: 0 <= i < |text| ==> !IsBreak(text[i])
  }

  predicate IsLine(line: Line) {
    Blank(line.left) && Trimmed(line.core) && Blank(line.right) && NoBreaks(LineText(line))
  }

  function LogText(lines: seq<Line>): string {
    if lines == [] then [] else LineText(lines[0]) + "\n" + LogText(lines[1..])
  }

  function DecodedOne<E>(decode: string -> Option<E>, core: string): seq<E> {
    if core == [] || decode(core).None? then [] else [decode(core).value]
  }

  function DecodedEach<E>(decode: string -> Option<E>, lines: seq<Line>): seq<E> {
    if lines == [] then [] else DecodedOne(decode, lines[0].core) + DecodedEach(decode, lines[1..])
  }

  /** The events of a log are those its lines decode to, stripped and in order, blank lines
      and lines that are no event left out; a line still being written is left alone. */
  lemma {:induction false} EventsOfLog<E>(decode: string -> Option<E>, lines: seq<Line>, unfinished: string)
    requires (forall i :: 0 <= i < |lines| ==> IsLine(lines[i])) && NoBreaks(unfinished)
    ensures EventsIn(decode, LogText(lines) + unfinished) == DecodedEach(decode, lines)
    ensures Consumed(LogText(lines) + unfinished) == |LogText(lines)|
  {
    if lines == [] {
      assert LogText(lines) + unfinished == unfinished;
      UnfinishedIsLeft(decode, unfinished);
    } else {
      EventsOfLog(decode, lines[1..], unfinished);
      EventsOfLine(decode, lines[0], LogText(lines[1..]) + unfinished);
      Joined(LineText(lines[0]) + "\n", LogText(lines[1..]), unfinished);
    }
  }

  lemma UnfinishedIsLeft<E>(decode: string -> Option<E>, s: string)
    requires NoBreaks(s)
    ensures EventsIn(decode, s) == [] && Consumed(s) == 0
  {
    if s != [] {
      NoBreakIsOneLine(s);
      assert s[..|s|] == s;
    }
  }

  lemma EventsOfLine<E>(decode: string -> Option<E>, line: Line, rest: string)
    requires IsLine(line)
    ensures var ended := LineText(line) + "\n";
            && EventsIn(decode, ended + rest) == DecodedOne(decode, line.core) + EventsIn(decode, rest)
            && Consumed(ended + rest) == |ended| + Consumed(rest)
  {
    var ended := LineText(line) + "\n";
    FirstLineGoesOn(LineText(line), "\n" + rest);
    assert LineText(line) + ("\n" + rest) == ended + rest;
    assert (ended + rest)[..|ended|] == ended && (ended + rest)[|ended|..] == rest;
    EventsAre(decode, ended + rest, |ended|, ended, rest);
    EventOfLine(decode, line);
  }

  lemma EventOfLine<E>(decode: string -> Option<E>, line: Line)
    requires IsLine(line)
    ensures EventOf(decode, LineText(line) + "\n") == DecodedOne(decode, line.core)
  {
    StripIs(line.left, line.core, line.right + "\n");
    assert LineText(line) + "\n" == line.left + line.core + (line.right + "\n");
  }

  lemma {:induction false} NoBreakIsOneLine(s: string)
    requires s != [] && NoBreaks(s)
    ensures FirstLine(s) == |s|
  {
    if |s| > 1 {
      NoBreakIsOneLine(s[1..]);
    }
  }

  // ---- Lines across polls ----------------------------------------------------------

  /** Consumed to its last character. */
  predicate Fully(s: string) { Consumed(s) == |s| }

  /** Reading goes on where it stopped. */
  lemma {:induction false} ConsumedConcat<E>(decode: string -> Option<E>, a: string, b: string)
    requires Fully(a)
    ensures Consumed(a + b) == |a| + Consumed(b)
    ensures EventsIn(decode, a + b) == EventsIn(decode, a) + EventsIn(decode, b)
  {
    if a == [] {
      assert a + b == b;
    } else {
      var n := FirstLine(a);
      FullyRest(a, n);
      ConsumedConcat(decode, a[n..], b);
      FirstLineStable(a, b);
      ReadConcat(decode, a, b, n, a[..n], a[n..]);
    }
  }

  lemma FullyRest(a: string, n: nat)
    requires a != [] && Fully(a) && n == FirstLine(a)
    ensures EndsInNewline(a[..n]) && Fully(a[n..])
  {
  }

  lemma ReadConcat<E>(decode: string -> Option<E>, a: string, b: string, n: nat, line: string, rest: string)
    requires a != [] && n == FirstLine(a) && a[..n] == line && a[n..] == rest && EndsInNewline(line)
    requires a + b != [] && n == FirstLine(a + b) && (a + b)[..n] == line && (a + b)[n..] == rest + b
    ensures Consumed(a + b) - Consumed(a) == Consumed(rest + b) - Consumed(rest)
    ensures EventsIn(decode, rest + b) == EventsIn(decode, rest) + EventsIn(decode, b) ==>
              EventsIn(decode, a + b) == EventsIn(decode, a) + EventsIn(decode, b)
  {
    EventsAre(decode, a, n, line, rest);
    EventsAre(decode, a + b, n, line, rest + b);
    Joined(EventOf(decode, line), EventsIn(decode, rest), EventsIn(decode, b));
  }

  lemma {:induction false} ConsumedIsFully<E>(decode: string -> Option<E>, s: string)
    ensures Fully(s[..Consumed(s)]) && EventsIn(decode, s[..Consumed(s)]) == EventsIn(decode, s)
  {
    if s != [] && EndsInNewline(s[..FirstLine(s)]) {
      var line, rest := s[..FirstLine(s)], s[FirstLine(s)..];
      var more := rest[..Consumed(rest)];
      assert s[..Consumed(s)] == line + more;
      ConsumedIsFully(decode, rest);
      LineFully(decode, s);
      ConsumedConcat(decode, line, more);
    }
  }

  lemma LineFully<E>(decode: string -> Option<E>, s: string)
    requires s != [] && EndsInNewline(s[..FirstLine(s)])
    ensures var line := s[..FirstLine(s)]; Fully(line) && EventsIn(decode, line) == EventOf(decode, line)
  {
    LineAlone(s);
    var line := s[..FirstLine(s)];
    assert line[..|line|] == line && line[|line|..] == [];
  }

  /** The first line, taken alone, is its own first line. */
  lemma {:induction false} LineAlone(s: string)
    requires s != []
    ensures FirstLine(s[..FirstLine(s)]) == FirstLine(s)
  {
    var n := FirstLine(s);
    if !IsBreak(s[0]) && |s| > 1 {
      LineAlone(s[1..]);
      assert s[..n][1..] == s[1..][..n - 1];
    }
  }

  // ---- Polls, appends and rotations -------------------------------------------------

  datatype Tail<+E> = Tail(file: string, offset: nat, delivered: seq<E>)

  /** What is parsed is delivered, and the new offset stored if there is one. */
  function Receive<E>(decode: string -> Option<E>, t: Tail<E>, raw: string): Tail<E> {
    var p := Parse(decode, raw);
    t.(delivered := t.delivered + p.events, offset := if p.newOffset >= 0 then p.newOffset else t.offset)
  }

  /** A poll receives what the command prints; one that could not read leaves everything
      as it was. */
  function PollStep<E>(decode: string -> Option<E>, t: Tail<E>): Tail<E> {
    match Output(t.file, t.offset)
    case None => t
    case Some(raw) => Receive(decode, t, raw)
  }

  /** What is stored between polls. */
  class Poller<E> {
    var offset: nat
    var delivered: seq<E>

    constructor ()
      ensures offset == 0 && delivered == []
    {
      offset, delivered := 0, [];
    }

    method Poll(decode: string -> Option<E>, file: string)
      modifies this
      ensures Tail(file, offset, delivered) == PollStep(decode, Tail(file, old(offset), old(delivered)))
    {
      var raw := Output(file, offset);
      if raw.Some? {
        ReceiveOutput(decode, raw.value, file);
      }
    }

    method ReceiveOutput(decode: string -> Option<E>, raw: string, ghost file: string)
      modifies this
      ensures Tail(file, offset, delivered) == Receive(decode, Tail(file, old(offset), old(delivered)), raw)
      ensures NoMarker(raw) ==> offset == old(offset) && delivered == old(delivered)
    {
      var events, newOffset := ParseReadOutput(decode, raw);
      delivered := delivered + events;
      if newOffset >= 0 {
        offset := newOffset;
      }
    }
  }

  /** Output without a marker changes nothing. */
  lemma LostChangesNothing<E>(decode: string -> Option<E>, t: Tail<E>, output: Cut)
    ensures Receive(decode, t, output) == t
  {
    NoMarkerNothing(decode, output);
  }

  /** A poll that finds a character at its start delivers the complete lines from
      there and stores the offset after them. */
  lemma PollReads<E>(decode: string -> Option<E>, t: Tail<E>, before: string, tail: string)
    requires t.file == before + tail && StartOf(Utf8Length(t.file), t.offset) == Utf8Length(before)
    ensures PollStep(decode, t) ==
            t.(delivered := t.delivered + EventsIn(decode, tail),
               offset := Utf8Length(before) + Utf8Length(tail[..Consumed(tail)]))
  {
    DropBytesAt(before, tail);
    ParseOfOutput(decode, tail, Utf8Length(before));
  }

  /** Output of a connection that dropped before the marker. */
  type Cut = raw: string | NoMarker(raw)

  datatype Action = Append(text: string) | Poll | Lost(output: Cut) | Rotate(content: string)

  /** `retired` is what was consumed of each earlier file that was read; `stale`
      says the stored offset still belongs to an earlier file. */
  datatype Log<+E> = Log(t: Tail<E>, retired: seq<string>, stale: bool)

  function FromStart<E>(r: Log<E>): bool {
    StartOf(Utf8Length(r.t.file), r.t.offset) == 0
  }

  function ConsumedText<E>(t: Tail<E>): string {
    match DropBytes(t.file, t.offset)
    case None => []
    case Some(tail) => if |tail| <= |t.file| then t.file[..|t.file| - |tail|] else []
  }

  function Step<E>(decode: string -> Option<E>, r: Log<E>, a: Action): Log<E> {
    match a
    case Append(text) => r.(t := r.t.(file := r.t.file + text))
    case Poll => r.(t := PollStep(decode, r.t), stale := r.stale && !FromStart(r))
    case Lost(output) => r.(t := Receive(decode, r.t, output))
    case Rotate(content) =>
      r.(t := r.t.(file := content), stale := true,
         retired := if r.stale then r.retired else r.retired + [ConsumedText(r.t)])
  }

  function Run<E>(decode: string -> Option<E>, actions: seq<Action>): Log<E> {
    if actions == [] then Log(Tail([], 0, []), [], false)
    else Step(decode, Run(decode, actions[..|actions| - 1]), actions[|actions| - 1])
  }

  /** The file as the actions leave it: what the last rotation put there and what was
      appended since. */
  function FileAfter(actions: seq<Action>): string {
    if actions == [] then []
    else
      var before, last := FileAfter(actions[..|actions| - 1]), actions[|actions| - 1];
      if last.Append? then before + last.text else if last.Rotate? then last.content else before
  }

  lemma {:induction false} FileIs<E>(decode: string -> Option<E>, actions: seq<Action>)
    ensures Run(decode, actions).t.file == FileAfter(actions)
  {
    if actions != [] {
      var before, last := actions[..|actions| - 1], actions[|actions| - 1];
      FileIs(decode, before);
    }
  }

  /** Every first poll after a rotation found the file shorter than the stored
      offset (or nothing stored). */
  predicate RotationsSeen<E>(decode: string -> Option<E>, actions: seq<Action>) {
    actions == [] ||
    var before := actions[..|actions| - 1];
    && RotationsSeen(decode, before)
    && (actions[|actions| - 1].Poll? && Run(decode, before).stale ==> FromStart(Run(decode, before)))
  }

  function AllEvents<E>(decode: string -> Option<E>, texts: seq<string>): seq<E> {
    if texts == [] then []
    else AllEvents(decode, texts[..|texts| - 1]) + EventsIn(decode, texts[|texts| - 1])
  }

  /** The first `p` characters are consumed: whole lines, and the offset is their
      length in bytes. */
  predicate UpTo<E>(t: Tail<E>, p: nat) {
    && p <= |t.file|
    && Fully(t.file[..p]) && (p > 0 ==> t.file[p - 1] == '\n')
    && t.offset == Utf8Length(t.file[..p])
  }

  /** Everything consumed so far, in every file, was delivered once and in order. */
  ghost predicate Delivered<E>(decode: string -> Option<E>, r: Log<E>) {
    if r.stale then r.t.delivered == AllEvents(decode, r.retired)
    else exists p: nat :: DeliveredTo(decode, r, p)
  }

  predicate DeliveredTo<E(==)>(decode: string -> Option<E>, r: Log<E>, p: nat) {
    UpTo(r.t, p) && r.t.delivered == AllEvents(decode, r.retired) + EventsIn(decode, r.t.file[..p])
  }

  lemma EndOfConsumed(s: string)
    ensures Fully(s[..Consumed(s)]) && (Consumed(s) > 0 ==> s[Consumed(s) - 1] == '\n')
  {
    ConsumedIsFully(line => Some(line), s);
    ConsumedEnds(s);
  }

  lemma {:induction false} ConsumedEnds(s: string)
    ensures Consumed(s) > 0 ==> s[Consumed(s) - 1] == '\n'
  {
    if s != [] {
      ConsumedEnds(s[FirstLine(s)..]);
    }
  }

  lemma TakeConcat(a: string, b: string, n: nat)
    requires n <= |b|
    ensures (a + b)[..|a| + n] == a + b[..n]
  {
  }

  /** Reading on after `before` ends where reading from the start does. */
  lemma ReadingOn<E>(decode: string -> Option<E>, before: string, tail: string)
    requires Fully(before)
    ensures var read := before + tail[..Consumed(tail)];
            && Consumed(before + tail) == |read| && (before + tail)[..|read|] == read
            && Utf8Length(read) == Utf8Length(before) + Utf8Length(tail[..Consumed(tail)])
            && EventsIn(decode, read) == EventsIn(decode, before) + EventsIn(decode, tail)
            && Fully(read) && (read != [] ==> read[|read| - 1] == '\n')
  {
    ConsumedConcat(decode, before, tail);
    TakeConcat(before, tail, Consumed(tail));
    Utf8LengthConcat(before, tail[..Consumed(tail)]);
    EndOfConsumed(before + tail);
    ConsumedIsFully(decode, before + tail);
  }

  /** A poll from position `p` moves it to the end of the last complete line. */
  lemma PollMoves<E>(decode: string -> Option<E>, t: Tail<E>, before: string, tail: string)
    requires t.file == before + tail && Fully(before)
    requires StartOf(Utf8Length(t.file), t.offset) == Utf8Length(before)
    ensures var t' := PollStep(decode, t);
            && t'.file == t.file && UpTo(t', Consumed(t.file))
            && t'.delivered == t.delivered + EventsIn(decode, tail)
            && EventsIn(decode, before) + EventsIn(decode, tail) == EventsIn(decode, t.file[..Consumed(t.file)])
  {
    PollReads(decode, t, before, tail);
    ReadingOn(decode, before, tail);
    var read := before + tail[..Consumed(tail)];
    var t' := PollStep(decode, t);
    assert t'.file[..Consumed(t.file)] == read && t'.offset == Utf8Length(read);
    assert read != [] ==> t'.file[|read| - 1] == read[|read| - 1];
  }

  lemma StepDelivers<E>(decode: string -> Option<E>, r: Log<E>, a: Action)
    requires Delivered(decode, r)
    requires a.Poll? && r.stale ==> FromStart(r)
    ensures Delivered(decode, Step(decode, r, a))
  {
    if a.Lost? {
      LostChangesNothing(decode, r.t, a.output);
    } else if r.stale {
      if a.Poll? {
        assert AllEvents(decode, r.retired) + [] == AllEvents(decode, r.retired);
        PollDelivers(decode, r, 0);
        assert DeliveredTo(decode, Step(decode, r, a), Consumed(r.t.file));
      }
    } else {
      var p: nat :| DeliveredTo(decode, r, p);
      match a
      case Append(text) =>
        var r' := Step(decode, r, a);
        assert r'.t.file[..p] == r.t.file[..p];
        assert p > 0 ==> r'.t.file[p - 1] == r.t.file[p - 1];
        assert DeliveredTo(decode, r', p);
      case Poll =>
        OffsetInFile(r.t, p);
        PollDelivers(decode, r, p);
        assert DeliveredTo(decode, Step(decode, r, a), Consumed(r.t.file));
      case Rotate(_) =>
        OffsetInFile(r.t, p);
        assert (r.retired + [r.t.file[..p]])[..|r.retired|] == r.retired;
    }
  }

  lemma OffsetInFile<E>(t: Tail<E>, p: nat)
    requires UpTo(t, p)
    ensures StartOf(Utf8Length(t.file), t.offset) == Utf8Length(t.file[..p])
    ensures ConsumedText(t) == t.file[..p]
  {
    assert t.file == t.file[..p] + t.file[p..];
    Utf8LengthConcat(t.file[..p], t.file[p..]);
    DropBytesAt(t.file[..p], t.file[p..]);
  }

  lemma PollDelivers<E>(decode: string -> Option<E>, r: Log<E>, p: nat)
    requires p <= |r.t.file| && Fully(r.t.file[..p])
    requires StartOf(Utf8Length(r.t.file), r.t.offset) == Utf8Length(r.t.file[..p])
    requires r.t.delivered == AllEvents(decode, r.retired) + EventsIn(decode, r.t.file[..p])
    ensures var r' := r.(t := PollStep(decode, r.t)); DeliveredTo(decode, r', Consumed(r.t.file))
  {
    assert r.t.file == r.t.file[..p] + r.t.file[p..];
    PollMoves(decode, r.t, r.t.file[..p], r.t.file[p..]);
    var retired := AllEvents(decode, r.retired);
    var before, after := EventsIn(decode, r.t.file[..p]), EventsIn(decode, r.t.file[p..]);
    var t', p' := PollStep(decode, r.t), Consumed(r.t.file);
    assert t'.delivered == (retired + before) + after;
    assert EventsIn(decode, t'.file[..p']) == before + after;
    Joined(retired, before, after);
    assert t'.delivered == retired + EventsIn(decode, t'.file[..p']);
  }

  /** Exactly once, over any interleaving of appends, polls and rotations in which
      each rotation is noticed: what was delivered is the events of the consumed
      part of each file, in order. */
  lemma {:induction false} ExactlyOnce<E>(decode: string -> Option<E>, actions: seq<Action>)
    requires RotationsSeen(decode, actions)
    ensures Delivered(decode, Run(decode, actions))
  {
    if actions == [] {
      var r := Run(decode, actions);
      assert UpTo(r.t, 0) && EventsIn(decode, r.t.file[..0]) == [];
      assert DeliveredTo(decode, r, 0);
    } else {
      ExactlyOnce(decode, actions[..|actions| - 1]);
      StepDelivers(decode, Run(decode, actions[..|actions| - 1]), actions[|actions| - 1]);
    }
  }

  predicate GrowsOnly(actions: seq<Action>) {
    forall i :: 0 <= i < |actions| ==> !actions[i].Rotate?
  }

  lemma {:induction false} GrowingIsSeen<E>(decode: string -> Option<E>, actions: seq<Action>)
    requires GrowsOnly(actions)
    ensures RotationsSeen(decode, actions)
    ensures !Run(decode, actions).stale && Run(decode, actions).retired == []
  {
    if actions != [] {
      GrowingIsSeen(decode, actions[..|actions| - 1]);
    }
  }

  /** On a log that only grows, the offset is 0 or just after a newline, and the
      events delivered are exactly those of the text before it. */
  lemma GrowingLog<E>(decode: string -> Option<E>, actions: seq<Action>) returns (p: nat)
    requires GrowsOnly(actions)
    ensures var t := Run(decode, actions).t;
            t.file == FileAfter(actions) && UpTo(t, p) && t.delivered == EventsIn(decode, t.file[..p])
  {
    FileIs(decode, actions);
    GrowingIsSeen(decode, actions);
    ExactlyOnce(decode, actions);
    var t := Run(decode, actions).t;
    p :| DeliveredTo(decode, Run(decode, actions), p);
    assert AllEvents(decode, []) + EventsIn(decode, t.file[..p]) == EventsIn(decode, t.file[..p]);
  }

  /** After a poll, offset and events depend on the file alone, not on when the
      polls before it happened: they are those of one poll of the whole file. */
  lemma {:induction false} PollTimesIrrelevant<E>(decode: string -> Option<E>, actions: seq<Action>)
    requires GrowsOnly(actions)
    ensures var file := FileAfter(actions);
            Run(decode, actions + [Poll]).t ==
            Tail(file, Utf8Length(file[..Consumed(file)]), EventsIn(decode, file))
    ensures Run(decode, actions + [Poll]).t == PollStep(decode, Tail(FileAfter(actions), 0, []))
  {
    var p := GrowingLog(decode, actions);
    assert (actions + [Poll])[..|actions|] == actions;
    PollOfWhole(decode, Run(decode, actions).t, p);
    PollOfWhole(decode, Tail(Run(decode, actions).t.file, 0, []), 0);
  }

  lemma PollOfWhole<E>(decode: string -> Option<E>, t: Tail<E>, p: nat)
    requires UpTo(t, p) && t.delivered == EventsIn(decode, t.file[..p])
    ensures PollStep(decode, t) ==
            Tail(t.file, Utf8Length(t.file[..Consumed(t.file)]), EventsIn(decode, t.file))
  {
    OffsetInFile(t, p);
    assert t.file == t.file[..p] + t.file[p..];
    PollMoves(decode, t, t.file[..p], t.file[p..]);
    ConsumedIsFully(decode, t.file);
  }

  /** When the last thing before a rotation was a poll, all complete lines of the old file
      were delivered, after those of the files before it. */
  lemma PolledBeforeRotation<E>(decode: string -> Option<E>, actions: seq<Action>, content: string)
    requires RotationsSeen(decode, actions + [Poll])
    ensures var polled, rotated := Run(decode, actions + [Poll]), Run(decode, actions + [Poll] + [Rotate(content)]);
            var file := FileAfter(actions);
            && rotated.t.file == content && rotated.retired == polled.retired + [file[..Consumed(file)]]
            && rotated.t.delivered == AllEvents(decode, polled.retired) + EventsIn(decode, file)
  {
    ExactlyOnce(decode, actions);
    FileIs(decode, actions);
    ConsumedIsFully(decode, FileAfter(actions));
    RunSnoc(decode, actions, Poll);
    RunSnoc(decode, actions + [Poll], Rotate(content));
    PollConsumes(decode, Run(decode, actions));
  }

  lemma RunSnoc<E>(decode: string -> Option<E>, actions: seq<Action>, a: Action)
    ensures Run(decode, actions + [a]) == Step(decode, Run(decode, actions), a)
    ensures RotationsSeen(decode, actions + [a]) ==>
              RotationsSeen(decode, actions) &&
              (a.Poll? && Run(decode, actions).stale ==> FromStart(Run(decode, actions)))
  {
    assert (actions + [a])[..|actions|] == actions;
  }

  lemma PollConsumes<E>(decode: string -> Option<E>, r: Log<E>)
    requires Delivered(decode, r) && (r.stale ==> FromStart(r))
    ensures var r' := Step(decode, r, Poll);
            && DeliveredTo(decode, r', Consumed(r.t.file)) && !r'.stale && r'.t.file == r.t.file
            && ConsumedText(r'.t) == r.t.file[..Consumed(r.t.file)]
  {
    var r' := Step(decode, r, Poll);
    if r.stale {
      assert AllEvents(decode, r.retired) + [] == AllEvents(decode, r.retired);
      PollDelivers(decode, r, 0);
    } else {
      var p: nat :| DeliveredTo(decode, r, p);
      OffsetInFile(r.t, p);
      PollDelivers(decode, r, p);
    }
    OffsetInFile(r'.t, Consumed(r.t.file));
  }

  // ---- Files that are not the one the offset was stored for ---------------------------

  /** What a poll does with any file and any stored offset: it delivers the complete lines
      of what starts there, or does nothing when the start lies inside a character. */
  lemma PollOutcome<E>(decode: string -> Option<E>, t: Tail<E>)
    ensures var start := StartOf(Utf8Length(t.file), t.offset);
            PollStep(decode, t) ==
            match DropBytes(t.file, start)
            case None => t
            case Some(rest) =>
              t.(delivered := t.delivered + EventsIn(decode, rest),
                 offset := start + Utf8Length(rest[..Consumed(rest)]))
  {
    var start := StartOf(Utf8Length(t.file), t.offset);
    match DropBytes(t.file, start)
    case None =>
    case Some(rest) => ParseOfOutput(decode, rest, start);
  }

  /** A file shorter than the stored offset is delivered from its first byte. */
  lemma ShrunkFileFromStart<E>(decode: string -> Option<E>, t: Tail<E>)
    requires Utf8Length(t.file) < t.offset
    ensures PollStep(decode, t) ==
            Tail(t.file, Utf8Length(t.file[..Consumed(t.file)]), t.delivered + EventsIn(decode, t.file))
  {
    PollOutcome(decode, t);
  }

  /** A new file that has already grown to the stored offset is taken for the old one:
      what starts at the offset is delivered. */
  lemma GrownFileResumes<E>(decode: string -> Option<E>, t: Tail<E>, head: string, rest: string)
    requires t.file == head + rest && t.offset == Utf8Length(head)
    ensures PollStep(decode, t).delivered == t.delivered + EventsIn(decode, rest)
  {
    Utf8LengthConcat(head, rest);
    PollReads(decode, t, head, rest);
  }

  /** Where the offset is the end of a line, exactly the events below it are lost. */
  lemma GrownFileLosesHead<E>(decode: string -> Option<E>, t: Tail<E>, head: string, rest: string)
    requires t.file == head + rest && Fully(head) && t.offset == Utf8Length(head)
    ensures PollStep(decode, t).delivered == t.delivered + EventsIn(decode, rest)
    ensures EventsIn(decode, t.file) == EventsIn(decode, head) + EventsIn(decode, rest)
  {
    GrownFileResumes(decode, t, head, rest);
    ConsumedConcat(decode, head, rest);
  }

  /** Where it is inside a line, that line is lost as well, and what is left of it is read
      as if it were a line. */
  lemma GrownFileCutsLine<E>(decode: string -> Option<E>, t: Tail<E>, head: string, rest: string)
    requires t.file == head + rest && t.offset == Utf8Length(head)
    requires Consumed(head) < |head| && forall i :: Consumed(head) <= i < |head| ==> !IsBreak(head[i])
    requires rest != [] && EndsInNewline(rest[..FirstLine(rest)])
    ensures var begun, left, after := head[Consumed(head)..], rest[..FirstLine(rest)], rest[FirstLine(rest)..];
            && EventsIn(decode, t.file) ==
               EventsIn(decode, head) + (EventOf(decode, begun + left) + EventsIn(decode, after))
            && PollStep(decode, t).delivered == t.delivered + (EventOf(decode, left) + EventsIn(decode, after))
  {
    GrownFileResumes(decode, t, head, rest);
    FirstEvents(decode, rest, FirstLine(rest));
    EventsOfCut(decode, head, rest);
  }

  lemma EventsOfCut<E>(decode: string -> Option<E>, head: string, rest: string)
    requires forall i :: Consumed(head) <= i < |head| ==> !IsBreak(head[i])
    requires rest != [] && EndsInNewline(rest[..FirstLine(rest)])
    ensures var begun, left, after := head[Consumed(head)..], rest[..FirstLine(rest)], rest[FirstLine(rest)..];
            EventsIn(decode, head + rest) ==
            EventsIn(decode, head) + (EventOf(decode, begun + left) + EventsIn(decode, after))
  {
    var whole, begun := head[..Consumed(head)], head[Consumed(head)..];
    ConsumedIsFully(decode, head);
    LineIsCut(decode, whole, begun, rest);
    TakenApart(head, Consumed(head), rest);
  }

  lemma TakenApart(a: string, n: nat, b: string)
    requires n <= |a|
    ensures a[..n] + (a[n..] + b) == a + b
  {
  }

  lemma FirstEvents<E>(decode: string -> Option<E>, s: string, n: nat)
    requires s != [] && n == FirstLine(s) && EndsInNewline(s[..n])
    ensures EventsIn(decode, s) == EventOf(decode, s[..n]) + EventsIn(decode, s[n..])
  {
  }

  lemma LineIsCut<E>(decode: string -> Option<E>, whole: string, begun: string, rest: string)
    requires Fully(whole) && forall i :: 0 <= i < |begun| ==> !IsBreak(begun[i])
    requires rest != [] && EndsInNewline(rest[..FirstLine(rest)])
    ensures var left, after := rest[..FirstLine(rest)], rest[FirstLine(rest)..];
            EventsIn(decode, whole + (begun + rest)) ==
            EventsIn(decode, whole) + (EventOf(decode, begun + left) + EventsIn(decode, after))
  {
    ConsumedConcat(decode, whole, begun + rest);
    LineGoesOn(decode, begun, rest, FirstLine(rest));
  }

  lemma EventsAre<E>(decode: string -> Option<E>, s: string, n: nat, line: string, after: string)
    requires s != [] && n == FirstLine(s) && s[..n] == line && s[n..] == after && EndsInNewline(line)
    ensures EventsIn(decode, s) == EventOf(decode, line) + EventsIn(decode, after)
    ensures Consumed(s) == n + Consumed(after)
  {
  }

  /** A line that was begun ends where the first line of what follows ends. */
  lemma LineGoesOn<E>(decode: string -> Option<E>, begun: string, rest: string, n: nat)
    requires forall i :: 0 <= i < |begun| ==> !IsBreak(begun[i])
    requires rest != [] && n == FirstLine(rest) && EndsInNewline(rest[..n])
    ensures EventsIn(decode, begun + rest) == EventOf(decode, begun + rest[..n]) + EventsIn(decode, rest[n..])
  {
    FirstLineGoesOn(begun, rest);
    CutAfter(begun, rest, n);
    EventsAre(decode, begun + rest, |begun| + n, begun + rest[..n], rest[n..]);
  }

  lemma CutAfter(a: string, b: string, n: nat)
    requires 0 < n <= |b|
    ensures (a + b)[..|a| + n] == a + b[..n] && (a + b)[|a| + n..] == b[n..]
    ensures (a + b)[|a| + n - 1] == b[n - 1]
  {
  }

  lemma {:induction false} FirstLineGoesOn(begun: string, rest: string)
    requires forall i :: 0 <= i < |begun| ==> !IsBreak(begun[i])
    requires rest != []
    ensures FirstLine(begun + rest) == |begun| + FirstLine(rest)
  {
    if begun == [] {
      assert begun + rest == rest;
    } else {
      FirstLineGoesOn(begun[1..], rest);
      assert (begun + rest)[1..] == begun[1..] + rest;
    }
  }

  /** Text that is not stripped and has no line break. */
  predicate Bare(text: string) {
    text != [] && !IsSpace(text[0]) && !IsSpace(text[|text| - 1]) && forall i :: 0 <= i < |text| ==> !IsBreak(text[i])
  }

  /** So an event can be delivered that the file does not hold: the end of a line that is
      no event, when that end alone is one. */
  lemma CutLineDelivered<E>(decode: string -> Option<E>, begun: string, left: string)
    requires Bare(begun + left) && Bare(left)
    requires decode(begun + left).None? && decode(left).Some?
    ensures var t := Tail(begun + (left + "\n"), Utf8Length(begun), []);
            EventsIn(decode, t.file) == [] && PollStep(decode, t).delivered == [decode(left).value]
  {
    var t := Tail(begun + (left + "\n"), Utf8Length(begun), []);
    GrownFileResumes(decode, t, begun, left + "\n");
    OneLineEvents(decode, left);
    OneLineEvents(decode, begun + left);
    assert (begun + left) + "\n" == t.file;
  }

  function OnlyB(line: string): Option<string> { if line == "b" then Some(line) else None }

  /** One such input: the file is "ab" and a newline, the offset is after the "a". */
  lemma CutLineInput()
    ensures var t: Tail<string> := Tail("a" + ("b" + "\n"), Utf8Length("a"), []);
            EventsIn(OnlyB, t.file) == [] && PollStep(OnlyB, t).delivered == ["b"]
  {
    assert |"a" + "b"| == 2;
    CutLineDelivered(OnlyB, "a", "b");
  }

  /** The events of a single line of plain text. */
  lemma OneLineEvents<E>(decode: string -> Option<E>, text: string)
    requires Bare(text)
    ensures EventsIn(decode, text + "\n") == match decode(text) case None => [] case Some(event) => [event]
  {
    var s := text + "\n";
    FirstLineGoesOn(text, "\n");
    assert s[..|s|] == s && s[|s|..] == [];
    FirstEvents(decode, s, |s|);
    StripTrailing(text, "\n");
  }

  /** Where it is inside a character, nothing is delivered any more, however the file
      grows and however often it is polled. */
  lemma {:induction false} StuckInCharacter<E>(decode: string -> Option<E>, actions: seq<Action>, more: seq<Action>)
    requires GrowsOnly(more)
    requires var t := Run(decode, actions).t; t.offset <= Utf8Length(t.file) && DropBytes(t.file, t.offset).None?
    ensures var t, t' := Run(decode, actions).t, Run(decode, actions + more).t;
            && t'.offset == t.offset <= Utf8Length(t'.file) && t'.delivered == t.delivered
            && DropBytes(t'.file, t'.offset).None?
  {
    if more == [] {
      assert actions + more == actions;
    } else {
      var before, last := more[..|more| - 1], more[|more| - 1];
      StuckInCharacter(decode, actions, before);
      RunOn(decode, actions, before, last);
      assert before + [last] == more;
      StuckStep(decode, Run(decode, actions + before), last);
    }
  }

  lemma RunOn<E>(decode: string -> Option<E>, actions: seq<Action>, more: seq<Action>, a: Action)
    ensures Run(decode, actions + (more + [a])) == Step(decode, Run(decode, actions + more), a)
  {
    assert actions + (more + [a]) == (actions + more) + [a];
    assert ((actions + more) + [a])[..|actions + more|] == actions + more;
  }

  lemma StuckStep<E>(decode: string -> Option<E>, r: Log<E>, a: Action)
    requires !a.Rotate? && r.t.offset <= Utf8Length(r.t.file) && DropBytes(r.t.file, r.t.offset).None?
    ensures var t := Step(decode, r, a).t;
            && t.offset == r.t.offset <= Utf8Length(t.file) && t.delivered == r.t.delivered
            && DropBytes(t.file, t.offset).None?
  {
    match a
    case Append(text) =>
      Utf8LengthConcat(r.t.file, text);
      DropBytesNever(r.t.file, text, r.t.offset);
    case Lost(output) => LostChangesNothing(decode, r.t, output);
    case _ => PollOutcome(decode, r.t);
  }

  // ---- Which lines get through -----------------------------------------------------

  /** Where the last "\n" of `s` ends. */
  function LastNewlineEnd(s: string): (n: nat)
    ensures n <= |s| && (n > 0 ==> s[n - 1] == '\n')
    ensures forall i :: n <= i < |s| ==> s[i] != '\n'
  {
    if s == [] then 0
    else if s[|s| - 1] == '\n' then |s|
    else LastNewlineEnd(s[..|s| - 1])
  }

  /** A line break that `splitlines` knows and that is neither "\n" nor "\r\n". */
  predicate Stray(s: string, i: nat) {
    && i < |s| && IsBreak(s[i]) && s[i] != '\n'
    && (s[i] == '\r' ==> i + 1 < |s| && s[i + 1] != '\n')
  }

  predicate InsideLine(s: string, i: nat)
    requires i + 1 < |s|
  {
    !IsBreak(s[i]) || (s[i] == '\r' && s[i + 1] == '\n')
  }

  /** A first line holds no break but the one it ends in. */
  lemma {:induction false} FirstLineShape(s: string)
    requires s != []
    ensures var n := FirstLine(s);
            && (forall i :: 0 <= i < n - 1 ==> InsideLine(s, i))
            && (IsBreak(s[n - 1]) || n == |s|)
            && (s[n - 1] == '\r' && n < |s| ==> s[n] != '\n')
  {
    if !IsBreak(s[0]) && |s| > 1 {
      FirstLineShape(s[1..]);
      var n := FirstLine(s);
      forall i | 0 <= i < n - 1
        ensures InsideLine(s, i)
      {
        assert i > 0 ==> InsideLine(s[1..], i - 1);
      }
      assert s[n - 1] == s[1..][n - 2];
      assert n < |s| ==> s[n] == s[1..][n - 1];
    }
  }

  /** Reading never gets past a stray break, however much is appended. */
  lemma {:induction false} StrayBlocks(s: string, i: nat, more: string)
    requires Stray(s, i)
    ensures Consumed(s + more) <= i
  {
    var t := s + more;
    assert Stray(t, i);
    StrayStops(t, i);
  }

  lemma {:induction false} StrayStops(s: string, i: nat)
    requires Stray(s, i)
    ensures Consumed(s) <= i
  {
    var n := FirstLine(s);
    FirstLineShape(s);
    assert s[..n][n - 1] == s[n - 1];
    assert i < n - 1 ==> InsideLine(s, i);
    if i >= n {
      assert Stray(s[n..], i - n);
      StrayStops(s[n..], i - n);
    }
  }

  /** Every complete line is consumed exactly when no stray break stands before
      the last newline. */
  lemma {:induction false} AllLinesConsumed(s: string)
    ensures Consumed(s) == LastNewlineEnd(s) <==> forall i :: 0 <= i < LastNewlineEnd(s) ==> !Stray(s, i)
  {
    if i :| 0 <= i < LastNewlineEnd(s) && Stray(s, i) {
      StrayStops(s, i);
    } else {
      NothingLeft(s);
    }
  }

  lemma {:induction false} NothingLeft(s: string)
    requires forall i :: 0 <= i < LastNewlineEnd(s) ==> !Stray(s, i)
    ensures Consumed(s) == LastNewlineEnd(s)
  {
    if s != [] {
      var n, rest := FirstLine(s), s[FirstLine(s)..];
      FirstLineShape(s);
      if LastNewlineEnd(s) > 0 {
        FirstLineEnds(s, n);
        NewlinesAfter(s, n);
        forall i | 0 <= i < LastNewlineEnd(rest)
          ensures !Stray(rest, i)
        {
          assert !Stray(s, n + i);
        }
        NothingLeft(rest);
      }
    }
  }

  lemma FirstLineEnds(s: string, n: nat)
    requires s != [] && n == FirstLine(s) && LastNewlineEnd(s) > 0
    requires forall i :: 0 <= i < LastNewlineEnd(s) ==> !Stray(s, i)
    ensures n <= LastNewlineEnd(s) && EndsInNewline(s[..n])
  {
    FirstLineShape(s);
    var i := LastNewlineEnd(s) - 1;
    assert i < n - 1 ==> InsideLine(s, i);
    assert !Stray(s, n - 1);
  }

  lemma {:induction false} NewlinesAfter(s: string, n: nat)
    requires n <= LastNewlineEnd(s)
    ensures LastNewlineEnd(s) == n + LastNewlineEnd(s[n..])
  {
    var last := LastNewlineEnd(s[n..]);
    assert last > 0 ==> s[n + last - 1] == '\n';
    var i := LastNewlineEnd(s) - 1;
    assert i >= n ==> s[n..][i - n] == '\n';
  }
}
