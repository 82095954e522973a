/** Reading watched files in one round trip: what the script prints and how it is
    parsed. `decodeText` stands for UTF-8 decoding. */
module WatchedScript {
  import opened Wrappers
  import opened Text
  import opened Base64
  import opened Octets
  import opened WatchedFiles

  const MAX_BYTES := 65536
  const INDEX_LIMIT := 1000

  /** A path as the script finds it. */
  datatype File = File(isFile: bool, readable: bool, bytes: seq<Byte>)

  function StateFor(f: File): State {
    if !f.isFile then Missing
    else if !f.readable then Unreadable
    else if |f.bytes| > MAX_BYTES then TooLarge
    else Ok
  }

  // ---- The script's output ----------------------------------------------------------

  const PREFIX := "===FILE "
  const SUFFIX := "==="

  function NameOf(s: State): string {
    match s
    case Ok => "ok"
    case Missing => "missing"
    case Unreadable => "unreadable"
    case TooLarge => "too_large"
    case Pending => "pending"
  }

  function Marker(index: nat, s: State): string {
    PREFIX + Decimal(index) + " " + NameOf(s) + SUFFIX
  }

  function FileLines(index: nat, f: File): seq<string> {
    [Marker(index, StateFor(f))] + if StateFor(f) == Ok then [Encode(f.bytes)] else []
  }

  function OutputLines(files: seq<File>): seq<string> {
    if files == [] then []
    else OutputLines(files[..|files| - 1]) + FileLines(|files| - 1, files[|files| - 1])
  }

  function JoinLines(lines: seq<string>): string {
    if lines == [] then [] else lines[0] + "\n" + JoinLines(lines[1..])
  }

  function ScriptOutput(files: seq<File>): string { JoinLines(OutputLines(files)) }

  // ---- Parsing ------------------------------------------------------------------------

  function DropBreak(line: string): string {
    if |line| > 1 && line[|line| - 2] == '\r' && line[|line| - 1] == '\n' then line[..|line| - 2]
    else if line != [] && IsBreak(line[|line| - 1]) then line[..|line| - 1]
    else line
  }

  /** `raw.splitlines()`. */
  function Lines(raw: string): seq<string> {
    if raw == [] then [] else [DropBreak(raw[..FirstLine(raw)])] + Lines(raw[FirstLine(raw)..])
  }

  predicate IsWord(c: char) {
    IsDigit(c) || 'a' <= c <= 'z' || 'A' <= c <= 'Z' || c == '_'
  }

  function Leading(s: string, p: char -> bool): (n: nat)
    ensures n <= |s| && (forall i :: 0 <= i < n ==> p(s[i])) && (n < |s| ==> !p(s[n]))
  {
    if s == [] || !p(s[0]) then 0 else 1 + Leading(s[1..], p)
  }

  /** The word before the end of a marker line. */
  function WordOf(tail: string): Option<string> {
    var w := Leading(tail, IsWord);
    if w < 1 || w > 16 || tail[w..] != SUFFIX then None else Some(tail[..w])
  }

  /** The index and the word of a marker line. */
  function MarkerOf(line: string): Option<(nat, string)> {
    if !(PREFIX <= line) then None
    else
      var rest := line[|PREFIX|..];
      var d := Leading(rest, IsDigit);
      if d < 1 || d > 3 || d == |rest| || rest[d] != ' ' then None
      else
        match (ParseDecimal(rest[..d]), WordOf(rest[d + 1..]))
        case (Some(index), Some(word)) => Some((index, word))
        case _ => None
  }

  function StateNamed(word: string): Option<State> {
    if word == "ok" then Some(Ok)
    else if word == "missing" then Some(Missing)
    else if word == "unreadable" then Some(Unreadable)
    else if word == "too_large" then Some(TooLarge)
    else None
  }

  function WithoutNul(s: string): string {
    if s == [] then [] else if s[0] == '\0' then WithoutNul(s[1..]) else [s[0]] + WithoutNul(s[1..])
  }

  datatype Found = Found(state: State, content: Option<string>)

  type Decoder = seq<Byte> -> Option<string>

  function FoundText(decodeText: Decoder, encoded: string): Found {
    match Decode(encoded)
    case None => Found(Unreadable, None)
    case Some(bytes) =>
      match decodeText(bytes)
      case None => Found(Unreadable, None)
      case Some(text) => Found(Ok, Some(WithoutNul(text)))
  }

  /** The line after a marker, unless it is a marker itself. */
  function ContentLine(lines: seq<string>, position: nat): string {
    var encoded := if position + 1 < |lines| then Strip(lines[position + 1]) else "";
    if MarkerOf(encoded).Some? then "" else encoded
  }

  /** What one line adds. */
  function LineFinds(decodeText: Decoder, lines: seq<string>, position: nat, count: nat): Option<(nat, Found)>
    requires position < |lines|
  {
    match MarkerOf(Strip(lines[position]))
    case None => None
    case Some((index, word)) =>
      if index >= count then None
      else
        match StateNamed(word)
        case None => None
        case Some(s) =>
          Some((index, if s != Ok then Found(s, None) else FoundText(decodeText, ContentLine(lines, position))))
  }

  /** What a count of lines adds up to, given what each adds; the last word on a file wins. */
  function Collected(finds: nat -> Option<(nat, Found)>, n: nat): map<nat, Found> {
    if n == 0 then map[] else Noted(Collected(finds, n - 1), finds(n - 1))
  }

  function Noted(found: map<nat, Found>, find: Option<(nat, Found)>): map<nat, Found> {
    match find
    case None => found
    case Some((index, what)) => found[index := what]
  }

  function Finds(decodeText: Decoder, lines: seq<string>, count: nat): nat -> Option<(nat, Found)> {
    (position: nat) => if position < |lines| then LineFinds(decodeText, lines, position, count) else None
  }

  /** What all lines add up to. */
  function FoundIn(decodeText: Decoder, lines: seq<string>, count: nat): map<nat, Found> {
    Collected(Finds(decodeText, lines, count), |lines|)
  }

  method ParseLine(decodeText: Decoder, lines: seq<string>, position: nat, count: nat)
    returns (finds: Option<(nat, Found)>)
    requires position < |lines|
    ensures finds == LineFinds(decodeText, lines, position, count)
  {
    var marker := MarkerOf(Strip(lines[position]));
    if marker.None? {
      return None;
    }
    var (index, word) := marker.value;
    var s := StateNamed(word);
    if index >= count || s.None? {
      return None;
    }
    if s.value != Ok {
      return Some((index, Found(s.value, None)));
    }
    var encoded := if position + 1 < |lines| then Strip(lines[position + 1]) else "";
    if MarkerOf(encoded).Some? {
      encoded := "";
    }
    finds := Some((index, FoundText(decodeText, encoded)));
  }

  method ParseOutput(decodeText: Decoder, raw: string, count: nat) returns (found: map<nat, Found>)
    ensures found == FoundIn(decodeText, Lines(raw), count)
  {
    found := map[];
    var lines := Lines(raw);
    ghost var finds := Finds(decodeText, lines, count);
    for position := 0 to |lines|
      invariant found == Collected(finds, position)
    {
      var find := ParseLine(decodeText, lines, position, count);
      found := Noted(found, find);
    }
  }

  // ---- What each file is found as -----------------------------------------------------

  /** The script's own state, and for a readable text file its content without NULs. */
  function Expected(decodeText: Decoder, f: File): Found {
    if StateFor(f) != Ok then Found(StateFor(f), None)
    else
      match decodeText(f.bytes)
      case None => Found(Unreadable, None)
      case Some(text) => Found(Ok, Some(WithoutNul(text)))
  }

  /** Text without breaks or spaces. */
  predicate Plain(s: string) {
    forall i :: 0 <= i < |s| ==> !IsBreak(s[i]) && !IsSpace(s[i])
  }

  predicate OneLine(s: string) {
    forall i :: 0 <= i < |s| ==> !IsBreak(s[i])
  }

  lemma {:induction false} FirstLineOf(line: string, rest: string)
    requires OneLine(line)
    ensures FirstLine(line + "\n" + rest) == |line| + 1
  {
    if line == [] {
      assert (line + "\n" + rest)[0] == '\n';
    } else {
      FirstLineOf(line[1..], rest);
      assert (line + "\n" + rest)[1..] == line[1..] + "\n" + rest;
    }
  }

  /** Lines printed one after the other are the lines that are read. */
  lemma {:induction false} LinesOfJoined(lines: seq<string>)
    requires forall i :: 0 <= i < |lines| ==> OneLine(lines[i])
    ensures Lines(JoinLines(lines)) == lines
  {
    if lines != [] {
      var line, rest := lines[0], JoinLines(lines[1..]);
      FirstLineOf(line, rest);
      LinesOfJoined(lines[1..]);
      var raw := line + "\n" + rest;
      assert raw[..|line| + 1] == line + "\n" && raw[|line| + 1..] == rest;
      assert (line + "\n")[..|line|] == line;
    }
  }

  lemma Base64IsPlain(bytes: seq<Byte>)
    ensures Plain(Encode(bytes)) && MarkerOf(Encode(bytes)).None?
  {
    EncodeAlphabet(bytes);
    var s := Encode(bytes);
    forall i | 0 <= i < |s|
      ensures !IsBreak(s[i]) && !IsSpace(s[i])
    {
      assert IsBase64Char(s[i]);
    }
    assert PREFIX[7] == ' ' && !IsBase64Char(' ');
  }

  lemma {:induction false} LeadingConcat(a: string, b: string, p: char -> bool)
    requires (forall i :: 0 <= i < |a| ==> p(a[i])) && (b == [] || !p(b[0]))
    ensures Leading(a + b, p) == |a|
  {
    if a == [] {
      assert a + b == b;
    } else {
      LeadingConcat(a[1..], b, p);
      assert (a + b)[1..] == a[1..] + b;
    }
  }

  lemma DecimalLength(n: nat)
    ensures |Decimal(n)| <= 3 <==> n < INDEX_LIMIT
  {
    if n >= 10 {
      if n >= 100 {
        assert |Decimal(n)| == |Decimal(n / 100)| + 2;
      }
    }
  }

  lemma NameIsWord(s: State)
    ensures 1 <= |NameOf(s)| <= 16 && (forall i :: 0 <= i < |NameOf(s)| ==> IsWord(NameOf(s)[i]))
    ensures s != Pending ==> StateNamed(NameOf(s)) == Some(s)
  {
  }

  lemma MarkerIsOneLine(index: nat, s: State)
    ensures Strip(Marker(index, s)) == Marker(index, s) && OneLine(Marker(index, s))
  {
    NameIsWord(s);
    Framed(Decimal(index), NameOf(s));
  }

  lemma Framed(digits: string, name: string)
    requires OneLine(digits) && OneLine(name)
    ensures var line := PREFIX + digits + " " + name + SUFFIX; Strip(line) == line && OneLine(line)
  {
    var line := PREFIX + digits + " " + name + SUFFIX;
    assert line[0] == '=' && line[|line| - 1] == '=';
    StripTrailing(line, "");
    assert line + "" == line;
  }

  /** A marker is read back, as long as its index has at most three digits. */
  lemma MarkerReadBack(index: nat, s: State)
    ensures MarkerOf(Marker(index, s)) == if index < INDEX_LIMIT then Some((index, NameOf(s))) else None
  {
    var digits, tail := Decimal(index), NameOf(s) + SUFFIX;
    assert Marker(index, s) == PREFIX + (digits + (" " + tail));
    MarkerParts(digits, tail);
    WordReadBack(s);
    DecimalLength(index);
    DecimalParses(index);
  }

  lemma MarkerParts(digits: string, tail: string)
    requires digits != [] && forall i :: 0 <= i < |digits| ==> IsDigit(digits[i])
    ensures MarkerOf(PREFIX + (digits + (" " + tail))) ==
            if |digits| <= 3 && ParseDecimal(digits).Some? && WordOf(tail).Some?
            then Some((ParseDecimal(digits).value, WordOf(tail).value)) else None
  {
    var rest := digits + (" " + tail);
    assert (PREFIX + rest)[|PREFIX|..] == rest;
    LeadingConcat(digits, " " + tail, IsDigit);
    assert rest[|digits|] == ' ' && rest[|digits| + 1..] == tail && rest[..|digits|] == digits;
  }

  lemma WordReadBack(s: State)
    ensures WordOf(NameOf(s) + SUFFIX) == Some(NameOf(s))
  {
    NameIsWord(s);
    LeadingConcat(NameOf(s), SUFFIX, IsWord);
  }

  /** The lines of the first `k` files come first. */
  lemma {:induction false} OutputPrefix(files: seq<File>, k: nat)
    requires k <= |files|
    ensures OutputLines(files[..k]) <= OutputLines(files)
  {
    if k < |files| {
      OutputPrefix(files[..|files| - 1], k);
      assert files[..|files| - 1][..k] == files[..k];
    } else {
      assert files[..k] == files;
    }
  }

  predicate StandAt(lines: seq<string>, n: nat, own: seq<string>) {
    n + |own| <= |lines| && forall i :: 0 <= i < |own| ==> lines[n + i] == own[i]
  }

  /** Where file `k`'s lines stand in the output. */
  lemma OutputAt(files: seq<File>, k: nat)
    requires k < |files|
    ensures var n, own := |OutputLines(files[..k])|, FileLines(k, files[k]);
            |OutputLines(files[..k + 1])| == n + |own| && StandAt(OutputLines(files), n, own)
  {
    OutputPrefix(files, k + 1);
    assert files[..k + 1][..k] == files[..k];
    Prefixed(OutputLines(files[..k]), FileLines(k, files[k]), OutputLines(files));
  }

  lemma Prefixed(before: seq<string>, own: seq<string>, lines: seq<string>)
    requires before + own <= lines
    ensures StandAt(lines, |before|, own)
  {
    forall i | 0 <= i < |own|
      ensures lines[|before| + i] == own[i]
    {
      assert (before + own)[|before| + i] == own[i];
    }
  }

  lemma {:induction false} OutputIsLines(files: seq<File>)
    ensures forall i :: 0 <= i < |OutputLines(files)| ==> OneLine(OutputLines(files)[i])
  {
    if files != [] {
      var f := files[|files| - 1];
      OutputIsLines(files[..|files| - 1]);
      MarkerIsOneLine(|files| - 1, StateFor(f));
      Base64IsPlain(f.bytes);
    }
  }

  /** A marker finds its file, with the content line after it. */
  lemma MarkerFinds(decodeText: Decoder, lines: seq<string>, n: nat, f: File, k: nat, count: nat)
    requires n < |lines| && lines[n] == Marker(k, StateFor(f)) && k < count
    requires StateFor(f) == Ok ==> n + 1 < |lines| && lines[n + 1] == Encode(f.bytes)
    ensures LineFinds(decodeText, lines, n, count) ==
            if k < INDEX_LIMIT then Some((k, Expected(decodeText, f))) else None
  {
    MarkerIsOneLine(k, StateFor(f));
    MarkerReadBack(k, StateFor(f));
    NameIsWord(StateFor(f));
    Base64IsPlain(f.bytes);
    DecodeEncode(f.bytes);
  }

  /** A content line finds nothing: it cannot look like a marker. */
  lemma ContentFindsNothing(decodeText: Decoder, lines: seq<string>, n: nat, bytes: seq<Byte>, count: nat)
    requires n < |lines| && lines[n] == Encode(bytes)
    ensures LineFinds(decodeText, lines, n, count) == None
  {
    Base64IsPlain(bytes);
  }

  /** The lines of one file find that file, and nothing more. */
  lemma FileAdds(decodeText: Decoder, lines: seq<string>, n: nat, m: nat, f: File, k: nat, count: nat)
    requires k < count && StandAt(lines, n, FileLines(k, f)) && m == n + |FileLines(k, f)|
    ensures var finds := Finds(decodeText, lines, count);
            Collected(finds, m) ==
            if k < INDEX_LIMIT then Collected(finds, n)[k := Expected(decodeText, f)] else Collected(finds, n)
  {
    var find := FileFinds(decodeText, lines, n, f, k, count);
    OneFind(Finds(decodeText, lines, count), n, m, find);
  }

  /** One line adds what it finds; a second one that finds nothing adds nothing. */
  lemma OneFind(finds: nat -> Option<(nat, Found)>, n: nat, m: nat, find: Option<(nat, Found)>)
    requires finds(n) == find && (m == n + 1 || (m == n + 2 && finds(n + 1) == None))
    ensures Collected(finds, m) == Noted(Collected(finds, n), find)
  {
    assert Collected(finds, n + 1) == Noted(Collected(finds, n), find);
  }

  lemma FileFinds(decodeText: Decoder, lines: seq<string>, n: nat, f: File, k: nat, count: nat)
    returns (finds: Option<(nat, Found)>)
    requires k < count && StandAt(lines, n, FileLines(k, f))
    ensures finds == if k < INDEX_LIMIT then Some((k, Expected(decodeText, f))) else None
    ensures LineFinds(decodeText, lines, n, count) == finds
    ensures |FileLines(k, f)| == 2 ==> LineFinds(decodeText, lines, n + 1, count) == None
  {
    finds := if k < INDEX_LIMIT then Some((k, Expected(decodeText, f))) else None;
    assert lines[n + 0] == FileLines(k, f)[0];
    if StateFor(f) == Ok {
      assert lines[n + 1] == FileLines(k, f)[1];
      ContentFindsNothing(decodeText, lines, n + 1, f.bytes, count);
    }
    MarkerFinds(decodeText, lines, n, f, k, count);
  }

  function ExpectedUpTo(decodeText: Decoder, files: seq<File>, k: nat): map<nat, Found>
    requires k <= |files|
  {
    map i: nat | i < k && i < INDEX_LIMIT :: Expected(decodeText, files[i])
  }

  /** File `j`'s lines stand at `at[j]`, and the next file's follow them. */
  predicate Placed(lines: seq<string>, at: seq<nat>, files: seq<File>, j: nat)
    requires |at| == |files| + 1 && j < |files|
  {
    StandAt(lines, at[j], FileLines(j, files[j])) && at[j + 1] == at[j] + |FileLines(j, files[j])|
  }

  /** What the lines of file `j` add to what was found before them. */
  predicate Adds(found: nat -> map<nat, Found>, decodeText: Decoder, at: seq<nat>, files: seq<File>, j: nat)
    requires |at| == |files| + 1 && j < |files|
  {
    found(at[j + 1]) ==
    if j < INDEX_LIMIT then found(at[j])[j := Expected(decodeText, files[j])] else found(at[j])
  }

  /** After the lines of the first `k` files, exactly those whose index fits a marker
      have been found. */
  lemma {:induction false} FilesFound(found: nat -> map<nat, Found>, decodeText: Decoder, at: seq<nat>,
                                      files: seq<File>, k: nat)
    requires |at| == |files| + 1 && found(at[0]) == map[]
    requires forall j :: 0 <= j < |files| ==> Adds(found, decodeText, at, files, j)
    requires k <= |files|
    ensures found(at[k]) == ExpectedUpTo(decodeText, files, k)
  {
    if k > 0 {
      FilesFound(found, decodeText, at, files, k - 1);
      assert Adds(found, decodeText, at, files, k - 1);
    } else {
      assert ExpectedUpTo(decodeText, files, 0) == map[];
    }
  }

  /** The output places every file. */
  lemma OutputPlaces(files: seq<File>) returns (at: seq<nat>)
    ensures |at| == |files| + 1 && at[0] == 0 && at[|files|] == |OutputLines(files)|
    ensures forall j :: 0 <= j < |files| ==> Placed(OutputLines(files), at, files, j)
  {
    at := seq(|files| + 1, k requires 0 <= k <= |files| => |OutputLines(files[..k])|);
    assert files[..0] == [] && files[..|files|] == files;
    forall j | 0 <= j < |files|
      ensures Placed(OutputLines(files), at, files, j)
    {
      OutputAt(files, j);
    }
  }

  /** For any files, whatever they contain, parsing the script's output finds each
      one's state and content: exactly as long as every index fits a marker. */
  lemma OutputReadBack(decodeText: Decoder, files: seq<File>)
    ensures var lines := Lines(ScriptOutput(files));
            (FoundIn(decodeText, lines, |files|) == map i: nat | i < |files| :: Expected(decodeText, files[i]))
            <==> |files| <= INDEX_LIMIT
  {
    OutputIsLines(files);
    LinesOfJoined(OutputLines(files));
    var at := OutputPlaces(files);
    OutputFinds(decodeText, OutputLines(files), at, files);
    var all := map i: nat | i < |files| :: Expected(decodeText, files[i]);
    AllExpected(decodeText, files, ExpectedUpTo(decodeText, files, |files|), all);
  }

  lemma OutputFinds(decodeText: Decoder, lines: seq<string>, at: seq<nat>, files: seq<File>)
    requires |at| == |files| + 1 && at[0] == 0 && at[|files|] == |lines|
    requires forall j :: 0 <= j < |files| ==> Placed(lines, at, files, j)
    ensures FoundIn(decodeText, lines, |files|) == ExpectedUpTo(decodeText, files, |files|)
  {
    var finds := Finds(decodeText, lines, |files|);
    var found := (n: nat) => Collected(finds, n);
    forall j | 0 <= j < |files|
      ensures Adds(found, decodeText, at, files, j)
    {
      assert Placed(lines, at, files, j);
      FileAdds(decodeText, lines, at[j], at[j + 1], files[j], j, |files|);
    }
    FilesFound(found, decodeText, at, files, |files|);
  }

  lemma AllExpected(decodeText: Decoder, files: seq<File>, found: map<nat, Found>, all: map<nat, Found>)
    requires found == ExpectedUpTo(decodeText, files, |files|)
    requires all == map i: nat | i < |files| :: Expected(decodeText, files[i])
    ensures found == all <==> |files| <= INDEX_LIMIT
  {
    if |files| > INDEX_LIMIT {
      assert INDEX_LIMIT in all && INDEX_LIMIT !in found;
    }
  }

  /** What is found of each of up to `INDEX_LIMIT` files: no file there, one that may not be
      read or is no text, one of more than 64 KiB, or else its text. */
  lemma FileReadBack(decodeText: Decoder, files: seq<File>, i: nat)
    requires i < |files| <= INDEX_LIMIT
    ensures var found, f := FoundIn(decodeText, Lines(ScriptOutput(files)), |files|), files[i];
            && (forall k: nat :: k in found <==> k < |files|)
            && (found[i].state == Missing <==> !f.isFile)
            && (found[i].state == TooLarge <==> f.isFile && f.readable && |f.bytes| > 64 * 1024)
            && (found[i].content.Some? <==> found[i].state == Ok)
            && (found[i].state == Ok <==>
                  f.isFile && f.readable && |f.bytes| <= 64 * 1024 && decodeText(f.bytes).Some?)
            && (found[i].state == Ok ==> found[i].content == Some(WithoutNul(decodeText(f.bytes).value)))
            && found[i].state in {Missing, Unreadable, TooLarge, Ok}
  {
    OutputReadBack(decodeText, files);
  }

  /** Text without NULs is kept as it is, and a NUL is dropped wherever it stands. */
  lemma {:induction false} NulsGo(a: string, b: string)
    ensures (forall i :: 0 <= i < |a| ==> a[i] != '\0') ==> WithoutNul(a) == a
    ensures WithoutNul(a + "\0" + b) == WithoutNul(a + b)
  {
    if a == [] {
      assert a + "\0" + b == ['\0'] + b && a + b == b;
      assert (['\0'] + b)[1..] == b;
    } else {
      NulsGo(a[1..], b);
      assert (a + "\0" + b)[1..] == a[1..] + "\0" + b && (a + b)[1..] == a[1..] + b;
    }
  }

  /** A file that was asked for, in a state the script reports, with a content if it is ok. */
  predicate IsAnswer(i: nat, f: Found, count: nat) {
    i < count && f.state in {Ok, Missing, Unreadable, TooLarge} && (f.content.Some? <==> f.state == Ok)
  }

  /** Whatever the output is, nothing else is found. */
  lemma FindsAnswers(decodeText: Decoder, raw: string, count: nat)
    ensures forall i :: i in FoundIn(decodeText, Lines(raw), count) ==>
              IsAnswer(i, FoundIn(decodeText, Lines(raw), count)[i], count)
  {
    var lines := Lines(raw);
    forall k: nat | k < |lines|
      ensures LineFinds(decodeText, lines, k, count).Some? ==>
                var (i, f) := LineFinds(decodeText, lines, k, count).value; IsAnswer(i, f, count)
    {
      LineAnswers(decodeText, lines, k, count);
    }
    CollectedAnswers(Finds(decodeText, lines, count), |lines|, count);
  }

  lemma LineAnswers(decodeText: Decoder, lines: seq<string>, position: nat, count: nat)
    requires position < |lines|
    ensures LineFinds(decodeText, lines, position, count).Some? ==>
              var (i, f) := LineFinds(decodeText, lines, position, count).value; IsAnswer(i, f, count)
  {
  }

  lemma {:induction false} CollectedAnswers(finds: nat -> Option<(nat, Found)>, n: nat, count: nat)
    requires forall k: nat :: finds(k).Some? ==> IsAnswer(finds(k).value.0, finds(k).value.1, count)
    ensures forall i :: i in Collected(finds, n) ==> IsAnswer(i, Collected(finds, n)[i], count)
  {
    if n > 0 {
      CollectedAnswers(finds, n - 1, count);
    }
  }
}
