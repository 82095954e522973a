/** The text operations of Python the readers below rely on: line boundaries,
    stripping, decimal numbers, the last occurrence of a piece of text, and the
    length of a character in UTF-8. */
module Text {
  import opened Wrappers

  // ---- Lines ------------------------------------------------------------------

  /** The characters `str.splitlines` ends a line at. */
  predicate IsBreak(c: char) {
    c in {'\n', '\r', '\U{000B}', '\U{000C}', '\U{001C}', '\U{001D}', '\U{001E}', '\U{0085}', '\U{2028}', '\U{2029}'}
  }

  /** The length of the first line with its line break; "\r\n" is one break. */
  function FirstLine(s: string): (n: nat)
    requires s != []
    ensures 0 < n <= |s|
  {
    if IsBreak(s[0]) then (if s[0] == '\r' && |s| > 1 && s[1] == '\n' then 2 else 1)
    else if |s| == 1 then 1
    else 1 + FirstLine(s[1..])
  }

  /** `s.splitlines(keepends=True)`. */
  function LinesKeepEnds(s: string): seq<string> {
    if s == [] then [] else [s[..FirstLine(s)]] + LinesKeepEnds(s[FirstLine(s)..])
  }

  predicate EndsInNewline(line: string) {
    line != [] && line[|line| - 1] == '\n'
  }

  /** A first line that ends in "\n" does not depend on what follows it. */
  lemma {:induction false} FirstLineStable(a: string, b: string)
    requires a != [] && EndsInNewline(a[..FirstLine(a)])
    ensures a + b != [] && FirstLine(a + b) == FirstLine(a)
    ensures (a + b)[..FirstLine(a)] == a[..FirstLine(a)] && (a + b)[FirstLine(a)..] == a[FirstLine(a)..] + b
  {
    if !IsBreak(a[0]) {
      assert |a| > 1;
      assert (a + b)[1..] == a[1..] + b;
      assert a[..FirstLine(a)][1..] == a[1..][..FirstLine(a[1..])];
      FirstLineStable(a[1..], b);
    }
  }

  // ---- Stripping ----------------------------------------------------------------

  predicate IsSpace(c: char) {
    || '\t' <= c <= '\r' || '\U{001C}' <= c <= ' ' || c == '\U{0085}' || c == '\U{00A0}' || c == '\U{1680}'
    || '\U{2000}' <= c <= '\U{200A}' || c == '\U{2028}' || c == '\U{2029}' || c == '\U{202F}'
    || c == '\U{205F}' || c == '\U{3000}'
  }

  function StripLeft(s: string): string {
    if s != [] && IsSpace(s[0]) then StripLeft(s[1..]) else s
  }

  function StripRight(s: string): string {
    if s != [] && IsSpace(s[|s| - 1]) then StripRight(s[..|s| - 1]) else s
  }

  /** `s.strip()`. */
  function Strip(s: string): string { StripRight(StripLeft(s)) }

  predicate Blank(s: string) { forall i :: 0 <= i < |s| ==> IsSpace(s[i]) }

  /** Neither starts nor ends in white space. */
  predicate Trimmed(s: string) {
    s == [] || (!IsSpace(s[0]) && !IsSpace(s[|s| - 1]))
  }

  lemma {:induction false} StripLeftIs(left: string, s: string)
    requires Blank(left) && (s == [] || !IsSpace(s[0]))
    ensures StripLeft(left + s) == s
  {
    if left == [] {
      assert left + s == s;
    } else {
      StripLeftIs(left[1..], s);
      assert (left + s)[1..] == left[1..] + s;
    }
  }

  /** Stripping takes off the white space around a text, and nothing else. */
  lemma StripIs(left: string, core: string, right: string)
    requires Blank(left) && Trimmed(core) && Blank(right)
    ensures Strip(left + core + right) == core
  {
    assert left + core + right == left + (core + right);
    if core == [] {
      assert Blank(left + right) && core + right == right && (left + right) + [] == left + right;
      StripLeftIs(left + right, []);
      assert StripLeft(left + right) == [];
    } else {
      StripLeftIs(left, core + right);
      StripRightTrailing(core, right);
    }
  }

  // ---- Decimal numbers ------------------------------------------------------------

  predicate IsDigit(c: char) { '0' <= c <= '9' }

  function Digit(n: nat): char
    requires n < 10
  {
    ['0', '1', '2', '3', '4', '5', '6', '7', '8', '9'][n]
  }

  function DigitValue(c: char): nat
    requires IsDigit(c)
  {
    c as int - '0' as int
  }

  function Decimal(n: nat): (s: string)
    ensures s != [] && forall i :: 0 <= i < |s| ==> IsDigit(s[i])
  {
    if n < 10 then [Digit(n)] else Decimal(n / 10) + [Digit(n % 10)]
  }

  /** `int(s)` where `s.isdigit()`. */
  function ParseDecimal(s: string): Option<nat> {
    if s == [] || !IsDigit(s[|s| - 1]) then None
    else if |s| == 1 then Some(DigitValue(s[0]))
    else
      match ParseDecimal(s[..|s| - 1])
      case None => None
      case Some(n) => Some(10 * n + DigitValue(s[|s| - 1]))
  }

  lemma {:induction false} DecimalParses(n: nat)
    ensures ParseDecimal(Decimal(n)) == Some(n)
  {
    if n >= 10 {
      DecimalParses(n / 10);
      assert Decimal(n)[..|Decimal(n)| - 1] == Decimal(n / 10);
    }
  }

  /** Stripping takes white space off the end of text that starts and ends without. */
  lemma StripTrailing(s: string, t: string)
    requires s != [] && !IsSpace(s[0]) && !IsSpace(s[|s| - 1])
    requires forall i :: 0 <= i < |t| ==> IsSpace(t[i])
    ensures Strip(s + t) == s
  {
    assert StripLeft(s + t) == s + t;
    StripRightTrailing(s, t);
  }

  lemma {:induction false} StripRightTrailing(s: string, t: string)
    requires s != [] && !IsSpace(s[|s| - 1])
    requires forall i :: 0 <= i < |t| ==> IsSpace(t[i])
    ensures StripRight(s + t) == s
  {
    if t == [] {
      assert s + t == s;
    } else {
      StripRightTrailing(s, t[..|t| - 1]);
      assert (s + t)[..|s + t| - 1] == s + t[..|t| - 1];
    }
  }

  // ---- Searching ------------------------------------------------------------------

  predicate OccursAt(s: string, piece: string, i: nat) {
    i + |piece| <= |s| && s[i..i + |piece|] == piece
  }

  /** `s[:limit].rfind(piece)`, as the last index not above `limit`. */
  function LastAtMost(s: string, piece: string, limit: nat): (r: Option<nat>)
    ensures r.Some? ==> OccursAt(s, piece, r.value)
  {
    if OccursAt(s, piece, limit) then Some(limit)
    else if limit == 0 then None
    else LastAtMost(s, piece, limit - 1)
  }

  /** `s.rfind(piece)`. */
  function LastIndex(s: string, piece: string): (r: Option<nat>)
    ensures r.Some? ==> OccursAt(s, piece, r.value)
  {
    LastAtMost(s, piece, |s|)
  }

  lemma {:induction false} LastAtMostIs(s: string, piece: string, i: nat, limit: nat)
    requires OccursAt(s, piece, i) && i <= limit
    requires forall j :: i < j <= limit ==> !OccursAt(s, piece, j)
    ensures LastAtMost(s, piece, limit) == Some(i)
  {
    if i < limit {
      LastAtMostIs(s, piece, i, limit - 1);
    }
  }

  lemma {:induction false} NoneAtMost(s: string, piece: string, limit: nat)
    ensures LastAtMost(s, piece, limit).None? <==> forall j :: 0 <= j <= limit ==> !OccursAt(s, piece, j)
  {
    if limit > 0 {
      NoneAtMost(s, piece, limit - 1);
    }
  }

  // ---- UTF-8 ------------------------------------------------------------------------

  /** How many bytes the character takes (section 3 of RFC 3629). */
  function Utf8Width(c: char): (n: nat)
    ensures 1 <= n <= 4
  {
    if c as int < 0x80 then 1 else if c as int < 0x800 then 2 else if c as int < 0x1_0000 then 3 else 4
  }

  function Utf8Length(s: string): (n: nat)
    ensures n >= |s|
  {
    if s == [] then 0 else Utf8Width(s[0]) + Utf8Length(s[1..])
  }

  lemma {:induction false} Utf8LengthConcat(a: string, b: string)
    ensures Utf8Length(a + b) == Utf8Length(a) + Utf8Length(b)
  {
    if a == [] {
      assert a + b == b;
    } else {
      Utf8LengthConcat(a[1..], b);
      assert (a + b)[1..] == a[1..] + b;
    }
  }

  /** What is left of `s` after its first `offset` bytes, if a character starts there. */
  function DropBytes(s: string, offset: nat): Option<string> {
    if offset == 0 then Some(s)
    else if s == [] || offset < Utf8Width(s[0]) then None
    else DropBytes(s[1..], offset - Utf8Width(s[0]))
  }

  lemma {:induction false} DropBytesAt(a: string, b: string)
    ensures DropBytes(a + b, Utf8Length(a)) == Some(b)
  {
    if a == [] {
      assert a + b == b;
    } else {
      DropBytesAt(a[1..], b);
      assert (a + b)[1..] == a[1..] + b;
    }
  }

  /** Dropping bytes leaves what follows the characters of just that length. */
  lemma {:induction false} DropBytesIs(s: string, offset: nat)
    ensures match DropBytes(s, offset)
            case Some(rest) => |rest| <= |s| && s[|s| - |rest|..] == rest && Utf8Length(s[..|s| - |rest|]) == offset
            case None => forall p :: 0 <= p <= |s| ==> Utf8Length(s[..p]) != offset
  {
    if offset == 0 {
      assert s[..0] == [];
    } else if s != [] {
      var width := Utf8Width(s[0]);
      if offset >= width {
        DropBytesIs(s[1..], offset - width);
      }
      forall p | 0 < p <= |s|
        ensures Utf8Length(s[..p]) == width + Utf8Length(s[1..][..p - 1])
      {
        assert s[..p][1..] == s[1..][..p - 1];
      }
      assert s[..0] == [];
    }
  }

  /** An offset inside a character stays there. */
  lemma {:induction false} DropBytesNever(s: string, more: string, offset: nat)
    requires offset <= Utf8Length(s) && DropBytes(s, offset).None?
    ensures DropBytes(s + more, offset).None?
  {
    if s != [] && offset >= Utf8Width(s[0]) {
      DropBytesNever(s[1..], more, offset - Utf8Width(s[0]));
      assert (s + more)[1..] == s[1..] + more;
    }
  }
}
