/** The wire framing of `iv` and `data`: bytes become a Latin-1 "binary
    string" with `String.fromCharCode`, then Base64 text with `btoa`; the
    receiver reverses this with `atob` and `charCodeAt`. `btoa` emits the
    padded Base64 alphabet of section 4 of RFC 4648; `atob` follows the
    forgiving-base64 decode of the WHATWG Infra standard, which strips
    ASCII whitespace and accepts missing padding. */
module Base64 {
  import opened Wrappers

  type Byte = b: int | 0 <= b < 256
  type Sextet = x: int | 0 <= x < 64

  // ---------------------------------------------------------------------
  // Latin-1 binary strings

  /** `String.fromCharCode(...bytes)`: one character per byte. */
  function FromCharCodes(b: seq<Byte>): (s: string)
    ensures |s| == |b|
    ensures forall i :: 0 <= i < |b| ==> s[i] as int == b[i]
  {
    seq(|b|, i requires 0 <= i < |b| => b[i] as char)
  }

  /** `Uint8Array.from(s, c => c.charCodeAt(0))`: each character's code,
      reduced modulo 256 as a `Uint8Array` store does. A character above
      U+FFFF would differ, since `charCodeAt(0)` gives its high surrogate;
      the input here is always the Latin-1 output of `atob`, so no such
      character occurs. */
  function CharCodes(s: string): (b: seq<Byte>)
    ensures |b| == |s|
    ensures forall i :: 0 <= i < |s| ==> b[i] == s[i] as int % 256
  {
    seq(|s|, i requires 0 <= i < |s| => s[i] as int % 256)
  }

  /** Every character fits in one byte, the input `btoa` accepts. */
  predicate IsLatin1(s: string) {
    forall i :: 0 <= i < |s| ==> s[i] as int < 256
  }

  lemma CharCodesOfFromCharCodes(b: seq<Byte>)
    ensures IsLatin1(FromCharCodes(b))
    ensures CharCodes(FromCharCodes(b)) == b
  {
  }

  // ---------------------------------------------------------------------
  // The alphabet of section 4 of RFC 4648

  /** The character that spells a 6-bit group. */
  function Alphabet(x: Sextet): (c: char)
    ensures c != '='
  {
    if x < 26 then ('A' as int + x) as char
    else if x < 52 then ('a' as int + (x - 26)) as char
    else if x < 62 then ('0' as int + (x - 52)) as char
    else if x == 62 then '+'
    else '/'
  }

  /** The 6-bit group a character spells, or None outside the alphabet. */
  function SextetOf(c: char): (r: Option<Sextet>)
    ensures r.Some? ==> Alphabet(r.value) == c
  {
    var n := c as int;
    if 'A' as int <= n <= 'Z' as int then Some(n - 'A' as int)
    else if 'a' as int <= n <= 'z' as int then Some(n - 'a' as int + 26)
    else if '0' as int <= n <= '9' as int then Some(n - '0' as int + 52)
    else if c == '+' then Some(62)
    else if c == '/' then Some(63)
    else None
  }

  lemma SextetOfAlphabet(x: Sextet)
    ensures SextetOf(Alphabet(x)) == Some(x)
  {
  }

  /** Spells a sequence of 6-bit groups character by character. */
  function Spell(q: seq<Sextet>): (s: string)
    ensures |s| == |q|
    ensures forall i :: 0 <= i < |q| ==> s[i] == Alphabet(q[i])
  {
    seq(|q|, i requires 0 <= i < |q| => Alphabet(q[i]))
  }

  /** Reads a string back into 6-bit groups; None when some character is
      outside the alphabet (padding included). */
  function Sextets(s: string): (r: Option<seq<Sextet>>)
    ensures r.Some? <==> forall i :: 0 <= i < |s| ==> SextetOf(s[i]).Some?
    ensures r.Some? ==> |r.value| == |s| && Spell(r.value) == s
  {
    if forall i :: 0 <= i < |s| ==> SextetOf(s[i]).Some? then
      Some(seq(|s|, i requires 0 <= i < |s| => SextetOf(s[i]).value))
    else None
  }

  lemma SextetsOfSpell(q: seq<Sextet>)
    ensures Sextets(Spell(q)) == Some(q)
  {
    forall i | 0 <= i < |q| ensures SextetOf(Spell(q)[i]) == Some(q[i]) {
      SextetOfAlphabet(q[i]);
    }
    assert Sextets(Spell(q)).Some?;
    assert Sextets(Spell(q)).value == q;
  }

  // ---------------------------------------------------------------------
  // Bit packing: three bytes to four groups and back

  /** The groups that encode `b`: four per full 3-byte block, then two
      groups for a 1-byte tail and three for a 2-byte tail, the unused low
      bits of the last group being zero. */
  function ToSextets(b: seq<Byte>): (q: seq<Sextet>)
    ensures |q| == 4 * (|b| / 3) + (if |b| % 3 == 0 then 0 else |b| % 3 + 1)
    ensures |q| % 4 != 1
    decreases |b|
  {
    if |b| >= 3 then
      [b[0] / 4, (b[0] % 4) * 16 + b[1] / 16, (b[1] % 16) * 4 + b[2] / 64, b[2] % 64]
      + ToSextets(b[3..])
    else if |b| == 2 then
      [b[0] / 4, (b[0] % 4) * 16 + b[1] / 16, (b[1] % 16) * 4]
    else if |b| == 1 then
      [b[0] / 4, (b[0] % 4) * 16]
    else []
  }

  /** The bytes a sequence of groups carries: three per full block of four,
      then one byte for two trailing groups and two for three, leftover
      bits discarded. A single trailing group is rejected before this. */
  function FromSextets(q: seq<Sextet>): (b: seq<Byte>)
    requires |q| % 4 != 1
    decreases |q|
  {
    if |q| >= 4 then
      var block: seq<Byte> := [
        q[0] as int * 4 + q[1] as int / 16,
        (q[1] as int % 16) * 16 + q[2] as int / 4,
        (q[2] as int % 4) * 64 + q[3] as int];
      block + FromSextets(q[4..])
    else if |q| == 3 then
      [q[0] as int * 4 + q[1] as int / 16, (q[1] as int % 16) * 16 + q[2] as int / 4]
    else if |q| == 2 then
      [q[0] as int * 4 + q[1] as int / 16]
    else []
  }

  lemma FirstByte(x: Byte, y: Byte)
    ensures (x / 4) * 4 + ((x % 4) * 16 + y / 16) / 16 == x
  {
    assert ((x % 4) * 16 + y / 16) / 16 == x % 4;
  }

  lemma SecondByte(y: Byte, z: Byte)
    ensures (((y % 16) * 4 + z / 64) / 4) == y % 16
    ensures (((y % 16) * 4 + z / 64) % 4) == z / 64
  {
  }

  lemma MiddleByte(x: Byte, y: Byte)
    ensures ((x % 4) * 16 + y / 16) % 16 == y / 16
  {
  }

  /** Three bytes survive being split into four groups and put back. */
  lemma FullBlock(x: Byte, y: Byte, z: Byte)
    ensures var q: seq<Sextet> := [x / 4, (x % 4) * 16 + y / 16, (y % 16) * 4 + z / 64, z % 64];
      [q[0] as int * 4 + q[1] as int / 16, (q[1] as int % 16) * 16 + q[2] as int / 4, (q[2] as int % 4) * 64 + q[3] as int]
        == [x, y, z]
  {
    FirstByte(x, y);
    MiddleByte(x, y);
    SecondByte(y, z);
  }

  lemma {:induction false} FromToSextets(b: seq<Byte>)
    ensures FromSextets(ToSextets(b)) == b
    decreases |b|
  {
    var q := ToSextets(b);
    if |b| >= 3 {
      FromToSextets(b[3..]);
      assert q[4..] == ToSextets(b[3..]);
      FullBlock(b[0], b[1], b[2]);
      assert b == [b[0], b[1], b[2]] + b[3..];
    } else if |b| == 2 {
      FirstByte(b[0], b[1]);
      MiddleByte(b[0], b[1]);
      SecondByte(b[1], 0);
    } else if |b| == 1 {
      FirstByte(b[0], 0);
    }
  }

  // ---------------------------------------------------------------------
  // Encoding (`btoa`)

  /** The `=` characters that complete the last 4-character quantum. */
  function Padding(tail: nat): string {
    if tail == 1 then "==" else if tail == 2 then "=" else ""
  }

  /** The groups and the padding fill whole quanta, one per started block. */
  lemma PaddedLength(n: nat)
    ensures 4 * (n / 3) + (if n % 3 == 0 then 0 else n % 3 + 1) + |Padding(n % 3)| == 4 * ((n + 2) / 3)
  {
    var q := n / 3;
    assert n == 3 * q + n % 3;
    if n % 3 == 0 {
      assert (n + 2) / 3 == q;
    } else {
      assert (n + 2) / 3 == q + 1;
    }
  }

  /** Padded Base64 of section 4 of RFC 4648. */
  function Encode(b: seq<Byte>): (s: string)
    ensures |s| % 4 == 0
    ensures |s| == 4 * ((|b| + 2) / 3)
    ensures forall i :: 0 <= i < |s| ==> SextetOf(s[i]).Some? || s[i] == '='
  {
    var body := Spell(ToSextets(b));
    var pad := Padding(|b| % 3);
    PaddedLength(|b|);
    assert forall i :: 0 <= i < |body| ==> SextetOf(body[i]).Some? by {
      forall i | 0 <= i < |body| ensures SextetOf(body[i]).Some? {
        SextetOfAlphabet(ToSextets(b)[i]);
      }
    }
    assert forall i :: 0 <= i < |pad| ==> pad[i] == '=';
    body + pad
  }

  /** `btoa(s)`: throws (None) when a character does not fit in a byte,
      and otherwise encodes the characters' codes. */
  function Btoa(s: string): (r: Option<string>)
    ensures r.Some? <==> IsLatin1(s)
    ensures r.Some? ==> |r.value| % 4 == 0
  {
    if IsLatin1(s) then Some(Encode(CharCodes(s))) else None
  }

  // ---------------------------------------------------------------------
  // Forgiving decoding (`atob`)

  /** ASCII whitespace: TAB, LF, FF, CR and SPACE. */
  predicate IsAsciiWhitespace(c: char) {
    var n := c as int;
    n == 9 || n == 10 || n == 12 || n == 13 || n == 32
  }

  function StripWhitespace(s: string): (r: string)
    ensures |r| <= |s|
    ensures forall i :: 0 <= i < |r| ==> !IsAsciiWhitespace(r[i])
    ensures (forall i :: 0 <= i < |s| ==> !IsAsciiWhitespace(s[i])) ==> r == s
    ensures |s| == 1 && IsAsciiWhitespace(s[0]) ==> r == []
  {
    if |s| == 0 then []
    else
      var rest := StripWhitespace(s[1..]);
      if IsAsciiWhitespace(s[0]) then rest else [s[0]] + rest
  }

  /** Removing whitespace keeps exactly the other characters. */
  lemma {:induction false} StripWhitespaceKeeps(s: string)
    ensures forall c :: c in StripWhitespace(s) <==> c in s && !IsAsciiWhitespace(c)
  {
    if |s| > 0 {
      StripWhitespaceKeeps(s[1..]);
      assert s == [s[0]] + s[1..];
    }
  }

  /** Whitespace is removed piece by piece: stripping a concatenation
      strips each part in place, so the kept characters stay in order and
      each occurrence is kept once. */
  lemma {:induction false} StripWhitespaceAppend(a: string, b: string)
    ensures StripWhitespace(a + b) == StripWhitespace(a) + StripWhitespace(b)
    decreases |a|
  {
    if |a| > 0 {
      assert (a + b)[1..] == a[1..] + b;
      StripWhitespaceAppend(a[1..], b);
    } else {
      assert a + b == b;
    }
  }

  /** When the length is a multiple of four, one or two trailing `=` are
      removed. */
  function StripPadding(s: string): (r: string)
    ensures |r| <= |s| && r == s[..|r|]
    ensures |s| - |r| <= 2 && (|r| < |s| ==> |s| % 4 == 0)
    ensures forall i :: |r| <= i < |s| ==> s[i] == '='
    ensures |s| % 4 == 0 && |s| > 0 && s[|s| - 1] == '=' ==> |r| < |s|
    ensures |s| % 4 == 0 && |s| >= 2 && s[|s| - 1] == '=' && s[|s| - 2] == '=' ==> |r| == |s| - 2
  {
    if |s| % 4 == 0 && |s| >= 2 && s[|s| - 1] == '=' && s[|s| - 2] == '=' then s[..|s| - 2]
    else if |s| % 4 == 0 && |s| >= 1 && s[|s| - 1] == '=' then s[..|s| - 1]
    else s
  }

  /** Forgiving-base64 decode: None where `atob` throws, which is exactly
      when the text left after removing whitespace and padding has a
      length of 1 modulo 4 or holds a character outside the alphabet. */
  function Decode(s: string): (r: Option<seq<Byte>>)
    ensures var d := StripPadding(StripWhitespace(s));
      r.Some? <==> |d| % 4 != 1 && forall i :: 0 <= i < |d| ==> SextetOf(d[i]).Some?
  {
    var data := StripPadding(StripWhitespace(s));
    if |data| % 4 == 1 then None
    else match Sextets(data)
      case None => None
      case Some(q) => Some(FromSextets(q))
  }

  /** `atob(s)`: the decoded bytes as a binary string. */
  function Atob(s: string): (r: Option<string>)
    ensures r.Some? ==> IsLatin1(r.value)
  {
    match Decode(s)
    case None => None
    case Some(b) => Some(FromCharCodes(b))
  }

  /** Encoded text holds only alphabet characters and `=`. */
  lemma EncodeHasNoWhitespace(b: seq<Byte>)
    ensures forall i :: 0 <= i < |Encode(b)| ==> !IsAsciiWhitespace(Encode(b)[i])
  {
    var body := Spell(ToSextets(b));
    var pad := Padding(|b| % 3);
    forall i | 0 <= i < |Encode(b)| ensures !IsAsciiWhitespace(Encode(b)[i]) {
      if i < |body| {
        assert Encode(b)[i] == body[i];
      } else {
        assert Encode(b)[i] == pad[i - |body|];
      }
    }
  }

  /** Removing the padding of encoded text leaves the spelled groups. */
  lemma StripPaddingOfEncode(b: seq<Byte>)
    ensures StripPadding(Encode(b)) == Spell(ToSextets(b))
  {
    var q := ToSextets(b);
    var body := Spell(q);
    var s := Encode(b);
    if |b| % 3 == 1 {
      assert s == body + "==";
      assert s[..|s| - 2] == body;
    } else if |b| % 3 == 2 {
      assert s == body + "=";
      assert s[|s| - 2] == body[|body| - 1] == Alphabet(q[|q| - 1]);
      assert s[..|s| - 1] == body;
    } else {
      assert s == body;
      if |s| > 0 {
        assert s[|s| - 1] == Alphabet(q[|q| - 1]);
      }
    }
  }

  lemma DecodeEncode(b: seq<Byte>)
    ensures Decode(Encode(b)) == Some(b)
  {
    EncodeHasNoWhitespace(b);
    StripPaddingOfEncode(b);
    SextetsOfSpell(ToSextets(b));
    FromToSextets(b);
  }

  // ---------------------------------------------------------------------
  // The framing used on the wire

  /** `btoa(String.fromCharCode(...bytes))`: never throws. */
  function BytesToWire(b: seq<Byte>): (s: string)
    ensures Btoa(FromCharCodes(b)) == Some(s)
  {
    CharCodesOfFromCharCodes(b);
    Encode(b)
  }

  /** `Uint8Array.from(atob(s), c => c.charCodeAt(0))`: None where `atob`
      throws. */
  function WireToBytes(s: string): (r: Option<seq<Byte>>)
    ensures r.Some? <==> Atob(s).Some?
    ensures r.Some? ==> FromCharCodes(r.value) == Atob(s).value
  {
    match Atob(s)
    case None => None
    case Some(bin) =>
      assert CharCodes(bin) == Decode(s).value by {
        CharCodesOfFromCharCodes(Decode(s).value);
      }
      Some(CharCodes(bin))
  }

  /** Text without whitespace whose length is 1 modulo 4 is rejected:
      no padding can be removed from it and no quantum has one character. */
  lemma OneModFourRejected(s: string)
    requires forall i :: 0 <= i < |s| ==> !IsAsciiWhitespace(s[i])
    requires |s| % 4 == 1
    ensures WireToBytes(s).None?
  {
    assert StripWhitespace(s) == s;
  }

  /** What the sender frames, the receiver recovers byte for byte. */
  lemma WireRoundTrip(b: seq<Byte>)
    ensures WireToBytes(BytesToWire(b)) == Some(b)
  {
    DecodeEncode(b);
    CharCodesOfFromCharCodes(b);
  }
}
