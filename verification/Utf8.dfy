/** Text as the bytes of UTF-8 (section 3 of RFC 3629), and what reading them from the
    middle gives. */
module Utf8 {
  import opened Octets
  import opened Sequences
  import opened Text
  import opened Wrappers

  /** Six bits of a code point, in a byte that goes on with a character. */
  function Following(bits: nat): Byte { (0x80 + bits % 64) as Byte }

  function EncodedChar(c: char): seq<Byte> {
    var n := c as int;
    if n < 0x80 then [n as Byte]
    else if n < 0x800 then [(0xC0 + n / 64) as Byte, Following(n)]
    else if n < 0x1_0000 then [(0xE0 + n / 4096) as Byte, Following(n / 64), Following(n)]
    else [(0xF0 + n / 0x4_0000) as Byte, Following(n / 4096), Following(n / 64), Following(n)]
  }

  function Encoded(s: string): seq<Byte> {
    if s == [] then [] else EncodedChar(s[0]) + Encoded(s[1..])
  }

  predicate GoesOn(b: Byte) { 0x80 <= b < 0xC0 }

  /** The number of bytes the character that starts with `b` has; none when none does. */
  function Announced(b: Byte): Option<nat> {
    if b < 0x80 then Some(1)
    else if b < 0xC0 then None
    else if b < 0xE0 then Some(2)
    else if b < 0xF0 then Some(3)
    else if b < 0xF8 then Some(4)
    else None
  }

  /** The bits of the bytes after the first. */
  function Bits(rest: seq<Byte>): nat {
    if rest == [] then 0 else Bits(rest[..|rest| - 1]) * 64 + rest[|rest| - 1] as int % 64
  }

  /** The code point of the bytes of one character. */
  function CodePoint(bytes: seq<Byte>): nat
    requires 1 <= |bytes| <= 4
  {
    var lead := bytes[0] as int;
    match |bytes|
    case 1 => lead
    case 2 => lead % 32 * 64 + Bits(bytes[1..])
    case 3 => lead % 16 * 4096 + Bits(bytes[1..])
    case _ => lead % 8 * 0x4_0000 + Bits(bytes[1..])
  }

  /** A code point that is a character, and not written with more bytes than it needs. */
  predicate IsProper(n: nat, width: nat) {
    && (n < 0xD800 || 0xE000 <= n < 0x11_0000)
    && match width
       case 1 => n < 0x80
       case 2 => n >= 0x80
       case 3 => n >= 0x800
       case _ => n >= 0x1_0000
  }

  /** The character at the start of the bytes. */
  function FirstChar(bytes: seq<Byte>): (first: Option<(char, nat)>)
    ensures first.Some? ==> 0 < first.value.1 <= |bytes|
  {
    if bytes == [] then None
    else
      match Announced(bytes[0])
      case None => None
      case Some(width) =>
        if width > |bytes| || exists i :: 1 <= i < width && !GoesOn(bytes[i]) then None
        else if !IsProper(CodePoint(bytes[..width]), width) then None
        else Some((CodePoint(bytes[..width]) as char, width))
  }

  /** `bytes.decode("utf-8")`. */
  function Decoded(bytes: seq<Byte>): Option<string> {
    if bytes == [] then Some([])
    else
      match FirstChar(bytes)
      case None => None
      case Some((c, width)) =>
        match Decoded(bytes[width..])
        case None => None
        case Some(rest) => Some([c] + rest)
  }

  lemma {:induction false} EncodedLength(s: string)
    ensures |Encoded(s)| == Utf8Length(s)
  {
    if s != [] {
      EncodedLength(s[1..]);
    }
  }

  lemma BitsOfOne(x: Byte)
    ensures Bits([x]) == x as int % 64
  {
  }

  lemma BitsOfTwo(x: Byte, y: Byte)
    ensures Bits([x, y]) == x as int % 64 * 64 + y as int % 64
  {
    assert [x, y][..1] == [x];
    BitsOfOne(x);
  }

  lemma BitsOfThree(x: Byte, y: Byte, z: Byte)
    ensures Bits([x, y, z]) == (x as int % 64 * 64 + y as int % 64) * 64 + z as int % 64
  {
    assert [x, y, z][..2] == [x, y];
    BitsOfTwo(x, y);
  }

  lemma FollowingBits(n: nat)
    ensures Following(n) as int % 64 == n % 64
  {
  }

  lemma ThreeParts(n: nat)
    requires n < 0x1_0000
    ensures (0xE0 + n / 4096) % 16 * 4096 + (n / 64 % 64 * 64 + n % 64) == n
  {
  }

  lemma FourParts(n: nat)
    requires n < 0x11_0000
    ensures (0xF0 + n / 0x4_0000) % 8 * 0x4_0000 + ((n / 4096 % 64 * 64 + n / 64 % 64) * 64 + n % 64) == n
  {
    var a, b, d := n / 64, n / 4096, n / 0x4_0000;
    assert b == a / 64 && d == b / 64;
    assert (0xF0 + d) % 8 == d;
  }

  lemma CharReadBack(c: char)
    ensures CodePoint(EncodedChar(c)) == c as int && IsProper(c as int, |EncodedChar(c)|)
  {
    var n, bytes := c as int, EncodedChar(c);
    FollowingBits(n);
    FollowingBits(n / 64);
    FollowingBits(n / 4096);
    match |bytes|
    case 1 =>
    case 2 =>
      assert bytes[1..] == [bytes[1]];
      BitsOfOne(bytes[1]);
    case 3 =>
      assert bytes[1..] == [bytes[1], bytes[2]];
      BitsOfTwo(bytes[1], bytes[2]);
      ThreeParts(n);
    case _ =>
      assert bytes[1..] == [bytes[1], bytes[2], bytes[3]];
      BitsOfThree(bytes[1], bytes[2], bytes[3]);
      FourParts(n);
  }

  lemma FirstCharReadBack(c: char, rest: seq<Byte>)
    ensures FirstChar(EncodedChar(c) + rest) == Some((c, Utf8Width(c)))
  {
    CharReadBack(c);
    assert (EncodedChar(c) + rest)[..Utf8Width(c)] == EncodedChar(c);
  }

  /** Decoding gives back the text that was encoded. */
  lemma {:induction false} DecodeEncoded(s: string)
    ensures Decoded(Encoded(s)) == Some(s)
  {
    if s != [] {
      FirstCharReadBack(s[0], Encoded(s[1..]));
      assert Encoded(s)[Utf8Width(s[0])..] == Encoded(s[1..]);
      DecodeEncoded(s[1..]);
      assert [s[0]] + s[1..] == s;
    }
  }

  lemma EncodedCons(c: char, s: string)
    ensures Encoded([c] + s) == EncodedChar(c) + Encoded(s)
  {
    assert ([c] + s)[1..] == s;
  }

  lemma {:induction false} EncodedConcat(a: string, b: string)
    ensures Encoded(a + b) == Encoded(a) + Encoded(b)
  {
    if a == [] {
      assert a + b == b;
    } else {
      EncodedConcat(a[1..], b);
      Joined([a[0]], a[1..], b);
      EncodedCons(a[0], a[1..] + b);
      EncodedCons(a[0], a[1..]);
      Joined(EncodedChar(a[0]), Encoded(a[1..]), Encoded(b));
      assert [a[0]] + a[1..] == a;
    }
  }

  lemma TwoBytes(a: Byte, b: Byte)
    requires Announced(a) == Some(2) && GoesOn(b) && IsProper(CodePoint([a, b]), 2)
    ensures EncodedChar(CodePoint([a, b]) as char) == [a, b]
  {
    assert [a, b][1..] == [b];
    BitsOfOne(b);
  }

  lemma ThreeBytes(a: Byte, b: Byte, c: Byte)
    requires Announced(a) == Some(3) && GoesOn(b) && GoesOn(c) && IsProper(CodePoint([a, b, c]), 3)
    ensures EncodedChar(CodePoint([a, b, c]) as char) == [a, b, c]
  {
    assert [a, b, c][1..] == [b, c];
    BitsOfTwo(b, c);
    Digits64(a as int % 16, b as int % 64, c as int % 64);
  }

  lemma FourBytes(a: Byte, b: Byte, c: Byte, d: Byte)
    requires Announced(a) == Some(4) && GoesOn(b) && GoesOn(c) && GoesOn(d) && IsProper(CodePoint([a, b, c, d]), 4)
    ensures EncodedChar(CodePoint([a, b, c, d]) as char) == [a, b, c, d]
  {
    FourBytesPoint(a, b, c, d);
    var n := CodePoint([a, b, c, d]);
    MoreDigits64(a as int % 8, b as int % 64, c as int % 64, d as int % 64, n);
    assert Following(n / 4096) == b && Following(n / 64) == c && Following(n) == d;
  }

  lemma FourBytesPoint(a: Byte, b: Byte, c: Byte, d: Byte)
    ensures CodePoint([a, b, c, d]) ==
            a as int % 8 * 0x4_0000 + ((b as int % 64 * 64 + c as int % 64) * 64 + d as int % 64)
  {
    assert [a, b, c, d][1..] == [b, c, d];
    BitsOfThree(b, c, d);
  }

  /** Taking a number apart in base 64. */
  lemma Digits64(x: nat, y: nat, z: nat)
    requires y < 64 && z < 64
    ensures var n := x * 4096 + y * 64 + z; n / 4096 == x && n / 64 % 64 == y && n % 64 == z
  {
    var n := x * 4096 + y * 64 + z;
    assert n / 64 == x * 64 + y;
  }

  lemma MoreDigits64(w: nat, x: nat, y: nat, z: nat, n: nat)
    requires x < 64 && y < 64 && z < 64 && n == w * 0x4_0000 + ((x * 64 + y) * 64 + z)
    ensures n / 0x4_0000 == w && n / 4096 % 64 == x && n / 64 % 64 == y && n % 64 == z
  {
    Digits64(w * 64 + x, y, z);
  }

  /** What decodes to a character is its encoding: there is no second way to write it. */
  lemma FirstCharEncoded(bytes: seq<Byte>)
    requires FirstChar(bytes).Some?
    ensures bytes[..FirstChar(bytes).value.1] == EncodedChar(FirstChar(bytes).value.0)
  {
    var first := bytes[..FirstChar(bytes).value.1];
    match |first|
    case 1 =>
    case 2 =>
      assert first == [bytes[0], bytes[1]];
      TwoBytes(bytes[0], bytes[1]);
    case 3 =>
      assert first == [bytes[0], bytes[1], bytes[2]];
      ThreeBytes(bytes[0], bytes[1], bytes[2]);
    case _ =>
      assert first == [bytes[0], bytes[1], bytes[2], bytes[3]];
      FourBytes(bytes[0], bytes[1], bytes[2], bytes[3]);
  }

  /** Exactly the encodings of texts decode. */
  lemma {:induction false} EncodeDecoded(bytes: seq<Byte>)
    requires Decoded(bytes).Some?
    ensures Encoded(Decoded(bytes).value) == bytes
  {
    if bytes != [] {
      var (c, width) := FirstChar(bytes).value;
      EncodeDecoded(bytes[width..]);
      PutTogether(bytes, c, width, Decoded(bytes[width..]).value);
    }
  }

  lemma PutTogether(bytes: seq<Byte>, c: char, width: nat, rest: string)
    requires FirstChar(bytes) == Some((c, width)) && Encoded(rest) == bytes[width..]
    ensures Encoded([c] + rest) == bytes
  {
    FirstCharEncoded(bytes);
    EncodedCons(c, rest);
  }

  function Followed(text: Option<string>, more: string): Option<string> {
    if text.Some? then Some(text.value + more) else None
  }

  /** The bytes of a text from any offset on, and others after them, decode to what is left
      of the text there and what follows, and do not decode at all when the offset lies inside
      a character. */
  lemma {:induction false} DecodeFrom(s: string, offset: nat, more: string)
    requires offset <= Utf8Length(s)
    ensures |Encoded(s)| == Utf8Length(s)
    ensures Decoded(Encoded(s)[offset..] + Encoded(more)) == Followed(DropBytes(s, offset), more)
  {
    EncodedLength(s);
    if offset == 0 {
      DecodeEncoded(s + more);
      EncodedConcat(s, more);
      assert Encoded(s)[0..] == Encoded(s);
    } else if offset < Utf8Width(s[0]) {
      StartsInside(s, offset, more);
    } else {
      DecodeFrom(s[1..], offset - Utf8Width(s[0]), more);
      StartsAfter(s, offset);
    }
  }

  lemma StartsAfter(s: string, offset: nat)
    requires s != [] && Utf8Width(s[0]) <= offset <= Utf8Length(s) == |Encoded(s)|
    ensures Utf8Length(s[1..]) == |Encoded(s[1..])|
    ensures Encoded(s)[offset..] == Encoded(s[1..])[offset - Utf8Width(s[0])..]
  {
  }

  lemma StartsInside(s: string, offset: nat, more: string)
    requires s != [] && 0 < offset < Utf8Width(s[0])
    ensures offset <= |Encoded(s)| && Decoded(Encoded(s)[offset..] + Encoded(more)).None?
  {
    assert (Encoded(s)[offset..] + Encoded(more))[0] == EncodedChar(s[0])[offset];
  }
}
