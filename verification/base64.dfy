/** The standard Base64 encoding of section 4 of RFC 4648 (the alphabet of its
    Table 1, `=` padding, no line breaks), which is what Python's
    `base64.b64encode` produces, together with a canonical decoder that serves
    as its inverse. */
module Base64 {
  import opened Results

  newtype byte = x: int | 0 <= x < 256

  /** A 6-bit group: the value one Base64 character carries. */
  type sextet = x: int | 0 <= x < 64

  const Pad: char := '='

  /** The 64 characters of Table 1 of RFC 4648, as its four ranges:
      values 0-25 are A-Z, 26-51 are a-z, 52-61 are 0-9, 62 is `+`, 63 is `/`. */
  predicate IsAlphabetChar(c: char) {
    ('A' <= c <= 'Z') || ('a' <= c <= 'z') || ('0' <= c <= '9') || c == '+' || c == '/'
  }

  /** Every character of an encoding is from the alphabet or is the pad. */
  predicate IsBase64Char(c: char) {
    IsAlphabetChar(c) || c == Pad
  }

  function CharOf(v: sextet): (c: char)
    ensures IsAlphabetChar(c)
  {
    if v < 26 then ('A' as int + v) as char
    else if v < 52 then ('a' as int + (v - 26)) as char
    else if v < 62 then ('0' as int + (v - 52)) as char
    else if v == 62 then '+'
    else '/'
  }

  /** The inverse of CharOf on the alphabet. */
  function ValueOf(c: char): (v: sextet)
    requires IsAlphabetChar(c)
    ensures CharOf(v) == c
  {
    if 'A' <= c <= 'Z' then c as int - 'A' as int
    else if 'a' <= c <= 'z' then c as int - 'a' as int + 26
    else if '0' <= c <= '9' then c as int - '0' as int + 52
    else if c == '+' then 62
    else 63
  }

  lemma ValueOfCharOf(v: sextet)
    ensures ValueOf(CharOf(v)) == v
  {
  }

  /** Three bytes as four 6-bit groups, most significant bits first. */
  function Sextets(a: byte, b: byte, c: byte): seq<sextet> {
    var a, b, c := a as int, b as int, c as int;
    [a / 4, (a % 4) * 16 + b / 16, (b % 16) * 4 + c / 64, c % 64]
  }

  /** Four 6-bit groups as three bytes. */
  function Bytes(vs: seq<sextet>): seq<byte>
    requires |vs| == 4
  {
    var w, x, y, z := vs[0] as int, vs[1] as int, vs[2] as int, vs[3] as int;
    [(w * 4 + x / 16) as byte, ((x % 16) * 16 + y / 4) as byte, ((y % 4) * 64 + z) as byte]
  }

  lemma BytesSextets(a: byte, b: byte, c: byte)
    ensures Bytes(Sextets(a, b, c)) == [a, b, c]
  {
    var a, b, c := a as int, b as int, c as int;
    assert (a / 4) * 4 + ((a % 4) * 16 + b / 16) / 16 == a;
    assert (((a % 4) * 16 + b / 16) % 16) * 16 + ((b % 16) * 4 + c / 64) / 4 == b;
    assert (((b % 16) * 4 + c / 64) % 4) * 64 + c % 64 == c;
  }

  lemma SextetsBytes(vs: seq<sextet>)
    requires |vs| == 4
    ensures var bs := Bytes(vs); Sextets(bs[0], bs[1], bs[2]) == vs
  {
    var w, x, y, z := vs[0] as int, vs[1] as int, vs[2] as int, vs[3] as int;
    assert (w * 4 + x / 16) / 4 == w;
    assert ((w * 4 + x / 16) % 4) * 16 + ((x % 16) * 16 + y / 4) / 16 == x;
    assert (((x % 16) * 16 + y / 4) % 16) * 4 + ((y % 4) * 64 + z) / 64 == y;
    assert ((y % 4) * 64 + z) % 64 == z;
  }

  /** A full group: three bytes become four alphabet characters. */
  function EncodeGroup(a: byte, b: byte, c: byte): string {
    var vs := Sextets(a, b, c);
    [CharOf(vs[0]), CharOf(vs[1]), CharOf(vs[2]), CharOf(vs[3])]
  }

  /** A final single byte: two characters, the second zero-filled, then `==`. */
  function EncodeOne(a: byte): string {
    var vs := Sextets(a, 0, 0);
    [CharOf(vs[0]), CharOf(vs[1]), Pad, Pad]
  }

  /** A final pair of bytes: three characters, the third zero-filled, then `=`. */
  function EncodeTwo(a: byte, b: byte): string {
    var vs := Sextets(a, b, 0);
    [CharOf(vs[0]), CharOf(vs[1]), CharOf(vs[2]), Pad]
  }

  /** `base64.b64encode(data).decode("utf-8")`: every three bytes become four
      characters, and a final one or two bytes become a padded quadruple. */
  function Encode(data: seq<byte>): (s: string)
    ensures |s| == 4 * ((|data| + 2) / 3)
    decreases |data|
  {
    if |data| == 0 then ""
    else if |data| == 1 then EncodeOne(data[0])
    else if |data| == 2 then EncodeTwo(data[0], data[1])
    else
      assert (|data| - 3 + 2) / 3 == (|data| + 2) / 3 - 1;
      EncodeGroup(data[0], data[1], data[2]) + Encode(data[3..])
  }

  /** Four alphabet characters without padding back to three bytes. */
  function DecodeGroup(q: string): Option<seq<byte>>
    requires |q| == 4
  {
    if IsAlphabetChar(q[0]) && IsAlphabetChar(q[1]) && IsAlphabetChar(q[2]) && IsAlphabetChar(q[3])
    then Some(Bytes([ValueOf(q[0]), ValueOf(q[1]), ValueOf(q[2]), ValueOf(q[3])]))
    else None
  }

  /** The last quadruple, which may end in one or two pads. The bits that the
      padding leaves unused must be zero, so that each byte string has only
      one accepted encoding. */
  function DecodeFinal(q: string): Option<seq<byte>>
    requires |q| == 4
  {
    if q[2] == Pad && q[3] == Pad then
      if IsAlphabetChar(q[0]) && IsAlphabetChar(q[1]) && ValueOf(q[1]) % 16 == 0
      then Some(Bytes([ValueOf(q[0]), ValueOf(q[1]), 0, 0])[..1])
      else None
    else if q[3] == Pad then
      if IsAlphabetChar(q[0]) && IsAlphabetChar(q[1]) && IsAlphabetChar(q[2]) && ValueOf(q[2]) % 4 == 0
      then Some(Bytes([ValueOf(q[0]), ValueOf(q[1]), ValueOf(q[2]), 0])[..2])
      else None
    else DecodeGroup(q)
  }

  /** Canonical decoding: a quadruple at a time, padding only in the last. */
  function Decode(s: string): Option<seq<byte>>
    decreases |s|
  {
    if |s| == 0 then Some([])
    else if |s| < 4 then None
    else if |s| == 4 then DecodeFinal(s)
    else
      match DecodeGroup(s[..4])
      case None => None
      case Some(g) =>
        match Decode(s[4..])
        case None => None
        case Some(rest) => Some(g + rest)
  }

  lemma DecodeEncodeOne(a: byte)
    ensures DecodeFinal(EncodeOne(a)) == Some([a])
  {
    var vs := Sextets(a, 0, 0);
    var q := EncodeOne(a);
    ValueOfCharOf(vs[0]);
    ValueOfCharOf(vs[1]);
    assert ValueOf(q[0]) == vs[0] && ValueOf(q[1]) == vs[1];
    assert vs[1] % 16 == 0;
    assert [ValueOf(q[0]), ValueOf(q[1]), 0, 0] == vs;
    BytesSextets(a, 0, 0);
    var r := Bytes(vs);
    assert r[..1] == [a];
  }

  lemma DecodeEncodeTwo(a: byte, b: byte)
    ensures DecodeFinal(EncodeTwo(a, b)) == Some([a, b])
  {
    var vs := Sextets(a, b, 0);
    var q := EncodeTwo(a, b);
    ValueOfCharOf(vs[0]);
    ValueOfCharOf(vs[1]);
    ValueOfCharOf(vs[2]);
    assert ValueOf(q[0]) == vs[0] && ValueOf(q[1]) == vs[1] && ValueOf(q[2]) == vs[2];
    assert q[2] != Pad;
    assert vs[2] % 4 == 0;
    assert [ValueOf(q[0]), ValueOf(q[1]), ValueOf(q[2]), 0] == vs;
    BytesSextets(a, b, 0);
    var r := Bytes(vs);
    assert r[..2] == [a, b];
  }

  lemma DecodeEncodeGroup(a: byte, b: byte, c: byte)
    ensures DecodeGroup(EncodeGroup(a, b, c)) == Some([a, b, c])
    ensures DecodeFinal(EncodeGroup(a, b, c)) == Some([a, b, c])
  {
    var vs := Sextets(a, b, c);
    ValueOfCharOf(vs[0]);
    ValueOfCharOf(vs[1]);
    ValueOfCharOf(vs[2]);
    ValueOfCharOf(vs[3]);
    assert [vs[0], vs[1], vs[2], vs[3]] == vs;
    BytesSextets(a, b, c);
  }

  /** Encoding proceeds three bytes at a time. */
  lemma EncodeCons(data: seq<byte>)
    requires |data| > 3
    ensures Encode(data) == EncodeGroup(data[0], data[1], data[2]) + Encode(data[3..])
    ensures |Encode(data[3..])| > 0
  {
  }

  /** An unpadded group followed by more text decodes one group at a time. */
  lemma DecodeCons(a: byte, b: byte, c: byte, rest: string)
    requires |rest| > 0 && Decode(rest).Some?
    ensures Decode(EncodeGroup(a, b, c) + rest) == Some([a, b, c] + Decode(rest).value)
  {
    DecodeEncodeGroup(a, b, c);
    var s := EncodeGroup(a, b, c) + rest;
    assert s[..4] == EncodeGroup(a, b, c) && s[4..] == rest;
  }

  lemma DecodeEncodeStep(data: seq<byte>)
    requires |data| > 3
    requires Decode(Encode(data[3..])) == Some(data[3..])
    ensures Decode(Encode(data)) == Some(data)
  {
    EncodeCons(data);
    DecodeCons(data[0], data[1], data[2], Encode(data[3..]));
    SplitThree(data);
  }

  lemma SplitThree<T>(d: seq<T>)
    requires |d| >= 3
    ensures d == [d[0], d[1], d[2]] + d[3..]
  {
  }

  /** Decoding undoes encoding: the image bytes survive the round trip. */
  lemma {:induction false} DecodeEncode(data: seq<byte>)
    ensures Decode(Encode(data)) == Some(data)
    decreases |data|
  {
    if |data| <= 3 {
      DecodeEncodeShort(data);
    } else {
      DecodeEncode(data[3..]);
      DecodeEncodeStep(data);
    }
  }

  lemma DecodeEncodeShort(data: seq<byte>)
    requires |data| <= 3
    ensures Decode(Encode(data)) == Some(data)
  {
    if |data| == 1 {
      EncodeOneByte(data);
      DecodeEncodeOne(data[0]);
    } else if |data| == 2 {
      EncodeTwoBytes(data);
      DecodeEncodeTwo(data[0], data[1]);
    } else if |data| == 3 {
      EncodeThreeBytes(data);
      DecodeEncodeGroup(data[0], data[1], data[2]);
    }
  }

  lemma EncodeOneByte(data: seq<byte>)
    requires |data| == 1
    ensures data == [data[0]] && Encode(data) == EncodeOne(data[0])
  {
  }

  lemma EncodeTwoBytes(data: seq<byte>)
    requires |data| == 2
    ensures data == [data[0], data[1]] && Encode(data) == EncodeTwo(data[0], data[1])
  {
  }

  lemma EncodeThreeBytes(data: seq<byte>)
    requires |data| == 3
    ensures data == [data[0], data[1], data[2]] && Encode(data) == EncodeGroup(data[0], data[1], data[2])
  {
    var g, e := EncodeGroup(data[0], data[1], data[2]), Encode(data[3..]);
    assert Encode(data) == g + e;
    assert data[3..] == [];
    assert e == [];
    assert g + e == g;
  }

  lemma EncodeDecodeGroup(q: string)
    requires |q| == 4 && DecodeGroup(q).Some?
    ensures var d := DecodeGroup(q).value; |d| == 3 && EncodeGroup(d[0], d[1], d[2]) == q
  {
    var vs := [ValueOf(q[0]), ValueOf(q[1]), ValueOf(q[2]), ValueOf(q[3])];
    SextetsBytes(vs);
  }

  lemma EncodeDecodeLast(q: string)
    requires |q| == 4 && DecodeFinal(q).Some?
    ensures Encode(DecodeFinal(q).value) == q
  {
    if q[2] == Pad && q[3] == Pad {
      var vs: seq<sextet> := [ValueOf(q[0]), ValueOf(q[1]), 0, 0];
      var d := Bytes(vs)[..1];
      SextetsBytes(vs);
      assert Bytes(vs)[1] == 0 && Bytes(vs)[2] == 0;
      assert Sextets(d[0], 0, 0) == vs;
      assert Encode(d) == EncodeOne(d[0]);
    } else if q[3] == Pad {
      var vs: seq<sextet> := [ValueOf(q[0]), ValueOf(q[1]), ValueOf(q[2]), 0];
      var d := Bytes(vs)[..2];
      SextetsBytes(vs);
      assert Bytes(vs)[2] == 0;
      assert Sextets(d[0], d[1], 0) == vs;
      assert Encode(d) == EncodeTwo(d[0], d[1]);
    } else {
      var d := DecodeGroup(q).value;
      EncodeDecodeGroup(q);
      assert d[3..] == [];
      assert Encode(d) == EncodeGroup(d[0], d[1], d[2]);
    }
  }

  /** Whatever Decode accepts is the encoding of what it returns. */
  lemma {:induction false} EncodeDecode(s: string)
    requires Decode(s).Some?
    ensures Encode(Decode(s).value) == s
    decreases |s|
  {
    if |s| == 4 {
      EncodeDecodeLast(s);
    } else if |s| > 4 {
      EncodeDecode(s[4..]);
      EncodeDecodeStep(s);
    }
  }

  lemma EncodeDecodeStep(s: string)
    requires |s| > 4 && Decode(s).Some?
    requires Encode(Decode(s[4..]).value) == s[4..]
    ensures Encode(Decode(s).value) == s
  {
    var q := s[..4];
    var g := DecodeGroup(q).value;
    var rest := Decode(s[4..]).value;
    EncodeDecodeGroup(q);
    var d := g + rest;
    assert d[3..] == rest;
    assert |rest| > 0;
    assert s == q + s[4..];
    assert Encode(d) == EncodeGroup(d[0], d[1], d[2]) + Encode(d[3..]);
  }

  /** Decode is exactly the inverse of Encode: a string decodes to some bytes
      if and only if it is their encoding. */
  lemma DecodeIffEncode(s: string, data: seq<byte>)
    ensures Decode(s) == Some(data) <==> s == Encode(data)
  {
    if Decode(s) == Some(data) {
      EncodeDecode(s);
    }
    if s == Encode(data) {
      DecodeEncode(data);
    }
  }

  /** Distinct byte strings have distinct encodings. */
  lemma EncodeInjective(d1: seq<byte>, d2: seq<byte>)
    ensures Encode(d1) == Encode(d2) ==> d1 == d2
  {
    DecodeEncode(d1);
    DecodeEncode(d2);
  }

  function PadCount(n: nat): nat {
    if n % 3 == 0 then 0 else if n % 3 == 1 then 2 else 1
  }

  /** The shape RFC 4648 prescribes for the encoding of n bytes: 4 * ceil(n / 3)
      characters, all from the alphabet except a final `==` when one byte is left
      over after the full groups, or a final `=` when two are. */
  predicate PaddedFor(s: string, n: nat) {
    && |s| == 4 * ((n + 2) / 3)
    && (forall i :: 0 <= i < |s| - PadCount(n) ==> IsAlphabetChar(s[i]))
    && (forall i :: |s| - PadCount(n) <= i < |s| && 0 <= i ==> s[i] == Pad)
  }

  lemma {:induction false} EncodePadded(data: seq<byte>)
    ensures PaddedFor(Encode(data), |data|)
    decreases |data|
  {
    if |data| > 3 {
      EncodePadded(data[3..]);
      EncodeCons(data);
      PaddedCons(EncodeGroup(data[0], data[1], data[2]), Encode(data[3..]), |data| - 3);
    } else {
      EncodePaddedShort(data);
    }
  }

  lemma EncodePaddedShort(data: seq<byte>)
    requires |data| <= 3
    ensures PaddedFor(Encode(data), |data|)
  {
    if |data| == 1 {
      EncodeOneByte(data);
      PaddedOne(data[0]);
    } else if |data| == 2 {
      EncodeTwoBytes(data);
      PaddedTwo(data[0], data[1]);
    } else if |data| == 3 {
      EncodeThreeBytes(data);
      PaddedGroup(data[0], data[1], data[2]);
    }
  }

  lemma PaddedOne(a: byte)
    ensures PaddedFor(EncodeOne(a), 1)
  {
  }

  lemma PaddedTwo(a: byte, b: byte)
    ensures PaddedFor(EncodeTwo(a, b), 2)
  {
  }

  lemma PaddedGroup(a: byte, b: byte, c: byte)
    ensures PaddedFor(EncodeGroup(a, b, c), 3)
  {
  }

  /** A group of four alphabet characters in front of a well-padded encoding
      gives the well-padded encoding of three more bytes. */
  lemma PaddedCons(g: string, rest: string, n: nat)
    requires |g| == 4 && forall i :: 0 <= i < 4 ==> IsAlphabetChar(g[i])
    requires PaddedFor(rest, n) && n > 0
    ensures PaddedFor(g + rest, n + 3)
  {
    var s := g + rest;
    assert PadCount(n + 3) == PadCount(n);
    assert |s| == 4 * ((n + 3 + 2) / 3);
    forall i | 4 <= i < |s| ensures s[i] == rest[i - 4] { }
  }

  /** Every character of an encoding is from the alphabet or the pad. */
  lemma EncodeUsesBase64Chars(data: seq<byte>)
    ensures forall i :: 0 <= i < |Encode(data)| ==> IsBase64Char(Encode(data)[i])
  {
    EncodePadded(data);
  }

  /** The first four bytes of a PNG signature: one full group and one
      final byte with its two pads. */
  lemma EncodeExample()
    ensures Encode([0x89, 0x50, 0x4E, 0x47]) == "iVBORw=="
  {
    var data: seq<byte> := [0x89, 0x50, 0x4E, 0x47];
    assert data[3..] == [0x47];
    assert Sextets(0x89, 0x50, 0x4E) == [34, 21, 1, 14];
    assert Sextets(0x47, 0, 0) == [17, 48, 0, 0];
    assert EncodeGroup(0x89, 0x50, 0x4E) == "iVBO";
    assert EncodeOne(0x47) == "Rw==";
  }
}
