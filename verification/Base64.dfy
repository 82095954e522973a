/** Base64 (section 4 of RFC 4648). */
module Base64 {
  import opened Octets
  import opened Wrappers

  function Symbol(n: int): char
    requires 0 <= n < 64
  {
    if n < 26 then ('A' as int + n) as char
    else if n < 52 then ('a' as int + n - 26) as char
    else if n < 62 then ('0' as int + n - 52) as char
    else if n == 62 then '+'
    else '/'
  }

  function Value(c: char): Option<int> {
    if 'A' <= c <= 'Z' then Some(c as int - 'A' as int)
    else if 'a' <= c <= 'z' then Some(c as int - 'a' as int + 26)
    else if '0' <= c <= '9' then Some(c as int - '0' as int + 52)
    else if c == '+' then Some(62)
    else if c == '/' then Some(63)
    else None
  }

  lemma ValueOfSymbol(n: int)
    requires 0 <= n < 64
    ensures Value(Symbol(n)) == Some(n)
  {
  }

  predicate IsBase64Char(c: char) { Value(c).Some? || c == '=' }

  /** Three bytes as four six-bit groups. */
  function Group(a: Byte, b: Byte, c: Byte): (g: (int, int, int, int))
    ensures 0 <= g.0 < 64 && 0 <= g.1 < 64 && 0 <= g.2 < 64 && 0 <= g.3 < 64
  {
    var x, y, z := a as int, b as int, c as int;
    (x / 4, x % 4 * 16 + y / 16, y % 16 * 4 + z / 64, z % 64)
  }

  /** One, two or three bytes, padded. */
  function EncodeGroup(chunk: seq<Byte>): (s: string)
    requires 1 <= |chunk| <= 3
    ensures |s| == 4
  {
    var g := Group(chunk[0], if |chunk| > 1 then chunk[1] else 0, if |chunk| > 2 then chunk[2] else 0);
    [Symbol(g.0), Symbol(g.1), if |chunk| > 1 then Symbol(g.2) else '=', if |chunk| > 2 then Symbol(g.3) else '=']
  }

  function Encode(bytes: seq<Byte>): string {
    if bytes == [] then ""
    else if |bytes| <= 3 then EncodeGroup(bytes)
    else EncodeGroup(bytes[..3]) + Encode(bytes[3..])
  }

  /** The byte at each place of a group of four six-bit values. */
  function First(p: int, q: int): Byte
    requires 0 <= p < 64 && 0 <= q < 64
  {
    (p * 4 + q / 16) as Byte
  }

  function Second(q: int, r: int): Byte
    requires 0 <= q < 64 && 0 <= r < 64
  {
    (q % 16 * 16 + r / 4) as Byte
  }

  function Third(r: int, s: int): Byte
    requires 0 <= r < 64 && 0 <= s < 64
  {
    (r % 4 * 64 + s) as Byte
  }

  /** Four characters, the last one or two of which may be padding. */
  function DecodeGroup(s: string): Option<seq<Byte>>
    requires |s| == 4
  {
    var p, q, r, t := Value(s[0]), Value(s[1]), Value(s[2]), Value(s[3]);
    if p.None? || q.None? then None
    else if r.Some? && t.Some? then
      Some([First(p.value, q.value), Second(q.value, r.value), Third(r.value, t.value)])
    else if r.Some? && s[3] == '=' then Some([First(p.value, q.value), Second(q.value, r.value)])
    else if s[2] == '=' && s[3] == '=' then Some([First(p.value, q.value)])
    else None
  }

  /** Strict decoding: only the alphabet, whole groups, padding at the end alone. */
  function Decode(s: string): Option<seq<Byte>> {
    if s == [] then Some([])
    else if |s| < 4 then None
    else
      match DecodeGroup(s[..4])
      case None => None
      case Some(bytes) =>
        if |s| == 4 then Some(bytes)
        else if |bytes| < 3 then None
        else
          match Decode(s[4..])
          case None => None
          case Some(rest) => Some(bytes + rest)
  }

  lemma GroupDecodes(a: Byte, b: Byte, c: Byte)
    ensures var g := Group(a, b, c);
            First(g.0, g.1) == a && Second(g.1, g.2) == b && Third(g.2, g.3) == c
  {
  }

  /** Symbols decode to the bytes their values stand for. */
  lemma SymbolsDecode(s: string, p: int, q: int, r: int, t: int)
    requires |s| == 4 && 0 <= p < 64 && 0 <= q < 64 && 0 <= r < 64 && 0 <= t < 64
    requires Value(s[0]) == Some(p) && Value(s[1]) == Some(q)
    ensures Value(s[2]) == Some(r) && Value(s[3]) == Some(t) ==>
              DecodeGroup(s) == Some([First(p, q), Second(q, r), Third(r, t)])
    ensures Value(s[2]) == Some(r) && s[3] == '=' ==> DecodeGroup(s) == Some([First(p, q), Second(q, r)])
    ensures s[2] == '=' && s[3] == '=' ==> DecodeGroup(s) == Some([First(p, q)])
  {
  }

  lemma GroupRoundTrip(chunk: seq<Byte>)
    requires 1 <= |chunk| <= 3
    ensures DecodeGroup(EncodeGroup(chunk)) == Some(chunk)
  {
    var a, b, c := chunk[0], if |chunk| > 1 then chunk[1] else 0, if |chunk| > 2 then chunk[2] else 0;
    var g := Group(a, b, c);
    GroupDecodes(a, b, c);
    ValueOfSymbol(g.0);
    ValueOfSymbol(g.1);
    ValueOfSymbol(g.2);
    ValueOfSymbol(g.3);
    SymbolsDecode(EncodeGroup(chunk), g.0, g.1, g.2, g.3);
    ChunkShape(chunk);
  }

  lemma ChunkShape(chunk: seq<Byte>)
    requires 1 <= |chunk| <= 3
    ensures chunk == if |chunk| == 1 then [chunk[0]]
                     else if |chunk| == 2 then [chunk[0], chunk[1]]
                     else [chunk[0], chunk[1], chunk[2]]
  {
  }

  /** Decoding gives back what was encoded. */
  lemma {:induction false} DecodeEncode(bytes: seq<Byte>)
    ensures Decode(Encode(bytes)) == Some(bytes)
  {
    var s := Encode(bytes);
    if 0 < |bytes| <= 3 {
      GroupRoundTrip(bytes);
      assert s[..4] == s;
    } else if |bytes| > 3 {
      GroupRoundTrip(bytes[..3]);
      DecodeEncode(bytes[3..]);
      assert s[..4] == EncodeGroup(bytes[..3]) && s[4..] == Encode(bytes[3..]);
      EncodeNotEmpty(bytes[3..]);
      assert bytes == bytes[..3] + bytes[3..];
    }
  }

  lemma EncodeNotEmpty(bytes: seq<Byte>)
    requires bytes != []
    ensures |Encode(bytes)| >= 4
  {
  }

  lemma GroupAlphabet(chunk: seq<Byte>)
    requires 1 <= |chunk| <= 3
    ensures forall i :: 0 <= i < 4 ==> IsBase64Char(EncodeGroup(chunk)[i])
  {
    var g := Group(chunk[0], if |chunk| > 1 then chunk[1] else 0, if |chunk| > 2 then chunk[2] else 0);
    ValueOfSymbol(g.0);
    ValueOfSymbol(g.1);
    ValueOfSymbol(g.2);
    ValueOfSymbol(g.3);
  }

  /** Only the alphabet and padding are ever written. */
  lemma {:induction false} EncodeAlphabet(bytes: seq<Byte>)
    ensures forall i :: 0 <= i < |Encode(bytes)| ==> IsBase64Char(Encode(bytes)[i])
  {
    if 0 < |bytes| <= 3 {
      GroupAlphabet(bytes);
    } else if |bytes| > 3 {
      GroupAlphabet(bytes[..3]);
      EncodeAlphabet(bytes[3..]);
    }
  }

  /** Whole groups of the alphabet, but for `pad` padding characters at the end. */
  predicate Padded(s: string, pad: nat) {
    && |s| % 4 == 0 && pad <= 2 && pad <= |s|
    && (forall i :: 0 <= i < |s| - pad ==> Value(s[i]).Some?)
    && (forall i :: |s| - pad <= i < |s| ==> s[i] == '=')
  }

  /** Exactly such strings decode, to three bytes for every four characters less the padding. */
  lemma DecodeAccepts(s: string)
    ensures Decode(s).Some? <==> exists pad: nat :: Padded(s, pad)
    ensures forall pad: nat :: Padded(s, pad) ==> |Decode(s).value| == |s| / 4 * 3 - pad
  {
    if Decode(s).Some? {
      var pad := DecodedIsPadded(s);
    }
    forall pad: nat | Padded(s, pad)
      ensures Decode(s).Some? && |Decode(s).value| == |s| / 4 * 3 - pad
    {
      PaddedDecodes(s, pad);
    }
  }

  lemma {:induction false} PaddedDecodes(s: string, pad: nat)
    requires Padded(s, pad)
    ensures Decode(s).Some? && |Decode(s).value| == |s| / 4 * 3 - pad
  {
    if |s| > 4 {
      assert Padded(s[4..], pad);
      PaddedDecodes(s[4..], pad);
    }
  }

  lemma {:induction false} DecodedIsPadded(s: string) returns (pad: nat)
    requires Decode(s).Some?
    ensures Padded(s, pad)
  {
    if |s| > 4 {
      pad := DecodedIsPadded(s[4..]);
      FullGroup(s[..4]);
      GroupBefore(s, pad);
    } else {
      pad := if s == [] || Value(s[3]).Some? then 0 else if Value(s[2]).Some? then 1 else 2;
      assert s != [] ==> s[..4] == s;
    }
  }

  lemma FullGroup(s: string)
    requires |s| == 4 && DecodeGroup(s).Some? && |DecodeGroup(s).value| == 3
    ensures Value(s[0]).Some? && Value(s[1]).Some? && Value(s[2]).Some? && Value(s[3]).Some?
  {
  }

  lemma GroupBefore(s: string, pad: nat)
    requires |s| > 4 && Padded(s[4..], pad)
    requires Value(s[0]).Some? && Value(s[1]).Some? && Value(s[2]).Some? && Value(s[3]).Some?
    ensures Padded(s, pad)
  {
    assert forall i :: 4 <= i < |s| ==> s[i] == s[4..][i - 4];
  }
}
