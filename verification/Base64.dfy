// Base64 in the two variants of RFC 4648: the standard alphabet with padding
// (section 4) and the URL-safe alphabet without (section 5).

module Base64Spec {
  import opened Arith
  import opened Octets

  type Sextet = x: int | 0 <= x < 64

  datatype Variant = Standard | Url

  const UPPER := "ABCDEFGHIJKLMNOPQRSTUVWXYZ"
  const LOWER := "abcdefghijklmnopqrstuvwxyz"
  const DECIMAL := "0123456789"

  // The 64 characters of an alphabet, in order.
  function Table(v: Variant): (t: string)
    ensures |t| == 64
  {
    UPPER + LOWER + DECIMAL + if v == Standard then "+/" else "-_"
  }

  // The letter for six bits.
  function Letter(v: Variant, k: Sextet): char {
    if k < 26 then 'A' + k as char
    else if k < 52 then 'a' + (k - 26) as char
    else if k < 62 then '0' + (k - 52) as char
    else if k == 62 then (if v == Standard then '+' else '-')
    else (if v == Standard then '/' else '_')
  }

  // The decoder takes both alphabets at once; -1 marks a character of neither.
  function DecodeChar(c: char): int {
    if 'A' <= c <= 'Z' then c as int - 'A' as int
    else if 'a' <= c <= 'z' then c as int - 'a' as int + 26
    else if '0' <= c <= '9' then c as int - '0' as int + 52
    else if c == '+' || c == '-' then 62
    else if c == '/' || c == '_' then 63
    else -1
  }

  lemma UpperAt(k: nat)
    requires k < 26
    ensures UPPER[k] == 'A' + k as char
  {}

  lemma LowerAt(k: nat)
    requires k < 26
    ensures LOWER[k] == 'a' + k as char
  {}

  lemma DecimalAt(k: nat)
    requires k < 10
    ensures DECIMAL[k] == '0' + k as char
  {}

  // The letter is the one the table holds at that place.
  lemma LetterInTable(v: Variant, k: Sextet)
    ensures Table(v)[k] == Letter(v, k)
  {
    if k < 52 { LetterIsLetter(v, k); }
    else { LetterIsOther(v, k); }
  }

  lemma LetterIsLetter(v: Variant, k: nat)
    requires k < 52
    ensures Table(v)[k] == Letter(v, k)
  {
    assert Table(v)[k] == (UPPER + LOWER)[k];
    if k < 26 { UpperAt(k); } else { LowerAt(k - 26); }
  }

  lemma LetterIsOther(v: Variant, k: nat)
    requires 52 <= k < 64
    ensures Table(v)[k] == Letter(v, k)
  {
    assert Table(v)[k] == (DECIMAL + if v == Standard then "+/" else "-_")[k - 52];
    if k < 62 { DecimalAt(k - 52); }
  }

  // The ranges that DecodeChar tests are exactly the alphabets, position by position.
  lemma DecodeCharInvertsAlphabets(c: char, k: Sextet)
    ensures DecodeChar(c) == k <==> c == Letter(Standard, k) || c == Letter(Url, k)
  {
  }

  // Three bytes as one 24-bit number, and its four six-bit digits.
  function Triple(a: Byte, b: Byte, c: Byte): (t: nat)
    ensures t < 0x100_0000
  { a * 0x1_0000 + b * 0x100 + c }

  function Digit(t: nat, place: nat): Sextet
    requires place < 4
  {
    match place
    case 0 => (t / 0x4_0000) % 64
    case 1 => (t / 0x1000) % 64
    case 2 => (t / 64) % 64
    case _ => t % 64
  }

  function Quad(v0: Sextet, v1: Sextet, v2: Sextet, v3: Sextet): (t: nat)
    ensures t < 0x100_0000
  { v0 * 0x4_0000 + v1 * 0x1000 + v2 * 64 + v3 }

  // The three bytes of a 24-bit number, highest first.
  function Bytes(t: nat): seq<Byte>
    ensures |Bytes(t)| == 3
  { [(t / 0x1_0000) % 256, (t / 0x100) % 256, t % 256] }

  function Encoded(data: seq<Byte>, v: Variant, pad: bool): string {
    if data == [] then ""
    else if |data| == 1 then
      var t := Triple(data[0], 0, 0);
      [Letter(v, Digit(t, 0)), Letter(v, Digit(t, 1))] + if pad then "==" else ""
    else if |data| == 2 then
      var t := Triple(data[0], data[1], 0);
      [Letter(v, Digit(t, 0)), Letter(v, Digit(t, 1)), Letter(v, Digit(t, 2))] + if pad then "=" else ""
    else
      var t := Triple(data[0], data[1], data[2]);
      [Letter(v, Digit(t, 0)), Letter(v, Digit(t, 1)), Letter(v, Digit(t, 2)), Letter(v, Digit(t, 3))]
      + Encoded(data[3..], v, pad)
  }

  // The digits of a text: padding and foreign characters are skipped.
  function Digits(s: string): seq<Sextet> {
    if s == "" then []
    else (if DecodeChar(s[0]) >= 0 then [DecodeChar(s[0])] else []) + Digits(s[1..])
  }

  // Groups of four digits give three bytes; a last group of three or two gives two or one.
  function Decoded(d: seq<Sextet>): seq<Byte> {
    if |d| < 2 then []
    else if |d| == 2 then Bytes(Quad(d[0], d[1], 0, 0))[..1]
    else if |d| == 3 then Bytes(Quad(d[0], d[1], d[2], 0))[..2]
    else Bytes(Quad(d[0], d[1], d[2], d[3])) + Decoded(d[4..])
  }

  function PadCount(s: string): (p: nat)
    ensures p <= 2 && p <= |s|
  {
    (if |s| >= 1 && s[|s| - 1] == '=' then 1 else 0) + (if |s| >= 2 && s[|s| - 2] == '=' then 1 else 0)
  }

  // The room the decoder computes from the length of a text and its padding.
  function RawRoom(length: nat, padding: nat): int {
    length / 4 * 3 + (if length % 4 == 2 then 1 else if length % 4 == 3 then 2 else 0) - padding
  }

  // The same in the unsigned 64-bit arithmetic of size_t.
  function OutLen(s: string): nat {
    RawRoom(|s|, PadCount(s)) % 0x1_0000_0000_0000_0000
  }

  function Clipped(s: seq<Byte>, n: nat): (r: seq<Byte>)
    ensures |r| <= n
  { if |s| <= n then s else s[..n] }

  // What decoding a text yields.
  function Decode(s: string): seq<Byte> {
    Clipped(Decoded(Digits(s)), OutLen(s))
  }

  // --- One group.

  lemma DigitsOfTriple(t: nat)
    requires t < 0x100_0000
    ensures Quad(Digit(t, 0), Digit(t, 1), Digit(t, 2), Digit(t, 3)) == t
  {
    var d3, u := t % 64, t / 64;
    var d2, w := u % 64, u / 64;
    var d1, d0 := w % 64, w / 64;
    Base64Digits(d0, d1, d2, d3);
  }

  // The four digits of a number written in base 64, as the shifts find them.
  lemma Base64Digits(d0: Sextet, d1: Sextet, d2: Sextet, d3: Sextet)
    ensures var t := Quad(d0, d1, d2, d3);
            Digit(t, 0) == d0 && Digit(t, 1) == d1 && Digit(t, 2) == d2 && Digit(t, 3) == d3
  {
    var t := Quad(d0, d1, d2, d3);
    QuotientUnique(t, 64, d0 * 0x1000 + d1 * 64 + d2, d3);
    QuotientUnique(d0 * 0x1000 + d1 * 64 + d2, 64, d0 * 64 + d1, d2);
    QuotientUnique(t, 0x1000, d0 * 64 + d1, d2 * 64 + d3);
    QuotientUnique(d0 * 64 + d1, 64, d0, d1);
    QuotientUnique(t, 0x4_0000, d0, d1 * 0x1000 + d2 * 64 + d3);
    QuotientUnique(d0, 64, 0, d0);
  }

  lemma BytesOfTriple(a: Byte, b: Byte, c: Byte)
    ensures Bytes(Triple(a, b, c)) == [a, b, c]
  {
    var t := Triple(a, b, c);
    assert t / 0x100 == a * 0x100 + b;
    assert t / 0x1_0000 == a;
  }

  lemma LowDigitsOfPartial(a: Byte, b: Byte)
    ensures Digit(Triple(a, b, 0), 3) == 0
    ensures b == 0 ==> Digit(Triple(a, b, 0), 2) == 0
  {
    assert Triple(a, b, 0) == 64 * (a * 1024 + b * 4);
    assert b == 0 ==> a * 1024 + b * 4 == 64 * (a * 16);
  }

  // --- Digits of a text.

  lemma DigitsOfLetter(v: Variant, k: Sextet, t: string)
    ensures Digits([Letter(v, k)] + t) == [k] + Digits(t)
  {
    DecodeCharInvertsAlphabets(Letter(v, k), k);
    assert ([Letter(v, k)] + t)[1..] == t;
  }

  lemma DigitsOfPadding(n: nat)
    requires n <= 2
    ensures Digits("=="[..n]) == []
  {
    assert n == 1 ==> "=="[..n][1..] == "";
    assert n == 2 ==> "=="[..n][1..] == "=" && "="[1..] == "";
  }

  lemma DigitsOfTwo(v: Variant, a: Sextet, b: Sextet, t: string)
    ensures Digits([Letter(v, a), Letter(v, b)] + t) == [a, b] + Digits(t)
  {
    DigitsOfLetter(v, b, t);
    DigitsOfLetter(v, a, [Letter(v, b)] + t);
    assert [Letter(v, a), Letter(v, b)] + t == [Letter(v, a)] + ([Letter(v, b)] + t);
  }

  // --- Whole texts.

  // Every byte sequence survives encoding, apart from the decoder's length computation.
  lemma {:induction false} DigitsRoundTrip(data: seq<Byte>, v: Variant, pad: bool)
    ensures Decoded(Digits(Encoded(data, v, pad))) == data
    decreases |data|
  {
    hide Encoded, Decoded;
    if |data| > 2 {
      FullGroup(data, v, pad);
      DigitsRoundTrip(data[3..], v, pad);
      assert data == data[..3] + data[3..];
    } else {
      ShortText(data, v, pad);
    }
  }

  lemma ShortText(data: seq<Byte>, v: Variant, pad: bool)
    requires |data| <= 2
    ensures Decoded(Digits(Encoded(data, v, pad))) == data
  {
    hide Letter, Digit, Triple, Quad, Bytes, Digits;
    if data == [] {
      DigitsOfPadding(0);
    } else {
      var a, b := data[0], if |data| > 1 then data[1] else 0;
      var t := Triple(a, b, 0);
      var d0, d1, d2 := Digit(t, 0), Digit(t, 1), Digit(t, 2);
      DigitsOfTriple(t);
      BytesOfTriple(a, b, 0);
      LowDigitsOfPartial(a, b);
      if |data| == 1 {
        LastGroup(v, [d0, d1], pad);
        assert Encoded(data, v, pad) == [Letter(v, d0), Letter(v, d1)] + [] + if pad then "=="[..2] else "";
        assert Digits(Encoded(data, v, pad)) == [d0, d1];
      } else {
        LastGroup(v, [d0, d1, d2], pad);
        assert Encoded(data, v, pad)
            == [Letter(v, d0), Letter(v, d1)] + [Letter(v, d2)] + if pad then "=="[..1] else "";
        assert Digits(Encoded(data, v, pad)) == [d0, d1, d2];
      }
    }
  }

  lemma FullGroup(data: seq<Byte>, v: Variant, pad: bool)
    requires |data| > 2
    ensures Decoded(Digits(Encoded(data, v, pad)))
         == data[..3] + Decoded(Digits(Encoded(data[3..], v, pad)))
  {
    hide Letter, Digit, Triple, Quad, Bytes, Digits;
    var t := Triple(data[0], data[1], data[2]);
    var d0, d1, d2, d3 := Digit(t, 0), Digit(t, 1), Digit(t, 2), Digit(t, 3);
    DigitsOfTriple(t);
    BytesOfTriple(data[0], data[1], data[2]);
    var rest := Encoded(data[3..], v, pad);
    DigitsOfTwo(v, d2, d3, rest);
    DigitsOfTwo(v, d0, d1, [Letter(v, d2), Letter(v, d3)] + rest);
    assert Encoded(data, v, pad) == [Letter(v, d0), Letter(v, d1)] + ([Letter(v, d2), Letter(v, d3)] + rest);
    var all := Digits(Encoded(data, v, pad));
    assert all == [d0, d1, d2, d3] + Digits(rest);
    assert all[4..] == Digits(rest);
    assert Bytes(Quad(d0, d1, d2, d3)) == data[..3];
  }

  lemma LastGroup(v: Variant, d: seq<Sextet>, pad: bool)
    requires |d| == 2 || |d| == 3
    ensures Digits([Letter(v, d[0]), Letter(v, d[1])] + (if |d| == 3 then [Letter(v, d[2])] else [])
                   + (if pad then "=="[..4 - |d|] else "")) == d
  {
    hide Letter, Digits;
    var padding := if pad then "=="[..4 - |d|] else "";
    DigitsOfPadding(if pad then 4 - |d| else 0);
    assert padding == "=="[..if pad then 4 - |d| else 0];
    if |d| == 2 {
      DigitsOfTwo(v, d[0], d[1], padding);
      assert [Letter(v, d[0]), Letter(v, d[1])] + [] + padding == [Letter(v, d[0]), Letter(v, d[1])] + padding;
    } else {
      DigitsOfLetter(v, d[2], padding);
      DigitsOfTwo(v, d[0], d[1], [Letter(v, d[2])] + padding);
      assert [Letter(v, d[0]), Letter(v, d[1])] + [Letter(v, d[2])] + padding
          == [Letter(v, d[0]), Letter(v, d[1])] + ([Letter(v, d[2])] + padding);
    }
  }

  // Length of the encoding in every residue: padded texts fill whole groups of four.
  lemma {:induction false} EncodedLength(data: seq<Byte>, v: Variant, pad: bool)
    ensures pad ==> |Encoded(data, v, pad)| == (|data| + 2) / 3 * 4
    ensures !pad ==> |Encoded(data, v, pad)| == (|data| * 4 + 2) / 3
  {
    hide Letter, Digit, Triple;
    if |data| > 2 {
      EncodedLength(data[3..], v, pad);
      assert |Encoded(data, v, pad)| == 4 + |Encoded(data[3..], v, pad)|;
    }
  }

  // No letter is the padding sign, so padding stands exactly where the last group is short.
  lemma {:induction false} PaddingOfEncoded(data: seq<Byte>, v: Variant, pad: bool)
    ensures PadCount(Encoded(data, v, pad)) == if pad then (3 - |data| % 3) % 3 else 0
    decreases |data|
  {
    hide Encoded, PadCount;
    if |data| > 2 {
      PaddingOfEncoded(data[3..], v, pad);
      PaddingBelow(data, v, pad);
    } else {
      PaddingOfShort(data, v, pad);
    }
  }

  lemma PaddingOfShort(data: seq<Byte>, v: Variant, pad: bool)
    requires |data| <= 2
    ensures PadCount(Encoded(data, v, pad)) == if pad then (3 - |data| % 3) % 3 else 0
  {
    hide Letter, Digit, Triple;
    if |data| == 2 {
      var t := Triple(data[0], data[1], 0);
      LetterIsNotPadding(v, Digit(t, 1));
      LetterIsNotPadding(v, Digit(t, 2));
    } else if |data| == 1 {
      var t := Triple(data[0], 0, 0);
      LetterIsNotPadding(v, Digit(t, 0));
      LetterIsNotPadding(v, Digit(t, 1));
    }
  }

  lemma PaddingBelow(data: seq<Byte>, v: Variant, pad: bool)
    requires |data| > 2
    ensures PadCount(Encoded(data, v, pad)) == PadCount(Encoded(data[3..], v, pad))
  {
    hide Letter, Digit, Triple, PadCount;
    EncodedLength(data[3..], v, pad);
    var t := Triple(data[0], data[1], data[2]);
    var quad := [Letter(v, Digit(t, 0)), Letter(v, Digit(t, 1)), Letter(v, Digit(t, 2)), Letter(v, Digit(t, 3))];
    LetterIsNotPadding(v, Digit(t, 2));
    LetterIsNotPadding(v, Digit(t, 3));
    assert Encoded(data, v, pad) == quad + Encoded(data[3..], v, pad);
    PaddingAtEnd(quad, Encoded(data[3..], v, pad));
  }

  lemma PaddingAtEnd(head: string, tail: string)
    requires |head| == 4 && head[2] != '=' && head[3] != '=' && |tail| != 1
    ensures PadCount(head + tail) == PadCount(tail)
  {
    var s := head + tail;
    assert |tail| > 1 ==> s[|s| - 1] == tail[|tail| - 1] && s[|s| - 2] == tail[|tail| - 2];
  }

  lemma LetterIsNotPadding(v: Variant, k: Sextet)
    ensures Letter(v, k) != '='
  {
  }

  lemma RoomOf(groups: nat, rem: nat, padding: nat)
    requires rem < 4
    ensures RawRoom(4 * groups + rem, padding) == 3 * groups + (if rem < 2 then 0 else rem - 1) - padding
  {
    QuotientUnique(4 * groups + rem, 4, groups, rem);
  }

  // The room computed by the decoder is exactly the length of what was encoded.
  lemma RoomIsExact(data: seq<Byte>, v: Variant, pad: bool)
    requires |data| < 0x8000_0000
    ensures OutLen(Encoded(data, v, pad)) == |data|
  {
    EncodedLength(data, v, pad);
    PaddingOfEncoded(data, v, pad);
    hide Encoded, PadCount, RawRoom;
    var k, r := |data| / 3, |data| % 3;
    if pad {
      RoomOf(k + if r == 0 then 0 else 1, 0, (3 - r) % 3);
    } else {
      RoomOf(k, if r == 0 then 0 else r + 1, 0);
    }
  }

  // Decoding undoes encoding, padded or not, in either alphabet.
  lemma RoundTrip(data: seq<Byte>, v: Variant, pad: bool)
    requires |data| < 0x8000_0000
    ensures Decode(Encoded(data, v, pad)) == data
  {
    DigitsRoundTrip(data, v, pad);
    RoomIsExact(data, v, pad);
  }

  // Test vectors of section 10 of RFC 4648: "", "f", "fo" and "foo".
  lemma Rfc4648Vectors()
    ensures Encoded([], Standard, true) == ""
    ensures Encoded([0x66], Standard, true) == "Zg=="
    ensures Encoded([0x66, 0x6f], Standard, true) == "Zm8="
    ensures Encoded([0x66, 0x6f, 0x6f], Standard, true) == "Zm9v"
  {
    hide Letter, Digit, Triple;
    var d: seq<Byte> := [0x66, 0x6f, 0x6f];
    assert d[3..] == [];
    LettersAt(0x660000, 25, 32, 0, 0);
    LettersAt(0x666f00, 25, 38, 60, 0);
    LettersAt(0x666f6f, 25, 38, 61, 47);
    FourLetters();
    TriplesOf();
  }

  lemma TriplesOf()
    ensures Triple(0x66, 0, 0) == 0x660000 && Triple(0x66, 0x6f, 0) == 0x666f00 && Triple(0x66, 0x6f, 0x6f) == 0x666f6f
  {}

  lemma LettersAt(t: nat, a: Sextet, b: Sextet, c: Sextet, d: Sextet)
    requires t == Quad(a, b, c, d)
    ensures Digit(t, 0) == a && Digit(t, 1) == b && Digit(t, 2) == c && Digit(t, 3) == d
  {
    Base64Digits(a, b, c, d);
  }

  lemma FourLetters()
    ensures Letter(Standard, 25) == 'Z' && Letter(Standard, 32) == 'g' && Letter(Standard, 38) == 'm'
    ensures Letter(Standard, 60) == '8' && Letter(Standard, 61) == '9' && Letter(Standard, 47) == 'v'
  {}

  // The k-th byte, and zero beyond the end.
  function ByteOrZero(data: seq<Byte>, k: nat): Byte { if k < |data| then data[k] else 0 }

  // The j-th six bits of the data.
  function SixBits(data: seq<Byte>, j: nat): Sextet {
    var g := j / 4 * 3;
    var t := ByteOrZero(data, g) * 65536 + ByteOrZero(data, g + 1) * 256 + ByteOrZero(data, g + 2);
    match j % 4
    case 0 => t / 262144 % 64
    case 1 => t / 4096 % 64
    case 2 => t / 64 % 64
    case _ => t % 64
  }

  // Every character of the text: the six bits that stand there, looked up in the alphabet's table; behind the
  // ceil(8 n / 6) letters there are only padding signs.
  lemma {:induction false} LettersOfEncoded(data: seq<Byte>, v: Variant, pad: bool, j: nat)
    requires j < |Encoded(data, v, pad)|
    ensures Encoded(data, v, pad)[j] == if j < (8 * |data| + 5) / 6 then Table(v)[SixBits(data, j)] else '='
    decreases |data|
  {
    hide Encoded, Table, SixBits;
    if |data| > 2 && j >= 4 {
      LettersBehind(data, v, pad, j);
      LettersOfEncoded(data[3..], v, pad, j - 4);
      BitsBehind(data, j);
    } else {
      FirstLetters(data, v, pad, j);
    }
  }

  lemma LettersBehind(data: seq<Byte>, v: Variant, pad: bool, j: nat)
    requires |data| > 2 && 4 <= j < |Encoded(data, v, pad)|
    ensures j - 4 < |Encoded(data[3..], v, pad)| && Encoded(data, v, pad)[j] == Encoded(data[3..], v, pad)[j - 4]
  {
    hide Letter, Digit, Triple;
  }

  lemma BitsBehind(data: seq<Byte>, j: nat)
    requires |data| > 2 && j >= 4
    ensures SixBits(data[3..], j - 4) == SixBits(data, j)
  {
    var g := (j - 4) / 4 * 3;
    assert j / 4 * 3 == g + 3;
    BehindThree(data, g);
    BehindThree(data, g + 1);
    BehindThree(data, g + 2);
  }

  lemma BehindThree(data: seq<Byte>, k: nat)
    requires |data| > 2
    ensures ByteOrZero(data[3..], k) == ByteOrZero(data, k + 3)
  {}

  lemma FirstLetters(data: seq<Byte>, v: Variant, pad: bool, j: nat)
    requires j < |Encoded(data, v, pad)| && (|data| > 2 ==> j < 4)
    ensures Encoded(data, v, pad)[j] == if j < (8 * |data| + 5) / 6 then Table(v)[SixBits(data, j)] else '='
  {
    var t := Triple(ByteOrZero(data, 0), ByteOrZero(data, 1), ByteOrZero(data, 2));
    FirstBits(data, j);
    hide Letter, Digit, Triple, Table, SixBits;
    LetterInTable(v, Digit(t, j));
  }

  lemma FirstBits(data: seq<Byte>, j: nat)
    requires j < 4
    ensures SixBits(data, j) == Digit(Triple(ByteOrZero(data, 0), ByteOrZero(data, 1), ByteOrZero(data, 2)), j)
  {}

  // A character of neither alphabet, padding and line breaks among them, is passed over wherever it stands.
  lemma {:induction false} ForeignSkipped(a: string, c: char, b: string)
    requires c !in Table(Standard) && c !in Table(Url)
    ensures Digits(a + [c] + b) == Digits(a + b)
  {
    hide Table;
    if a == "" {
      DigitInTable(c);
      assert ([c] + b)[1..] == b && a + [c] + b == [c] + b && a + b == b;
    } else {
      ForeignSkipped(a[1..], c, b);
      assert (a + [c] + b)[1..] == a[1..] + [c] + b && (a + b)[1..] == a[1..] + b;
    }
  }

  lemma DigitInTable(c: char)
    ensures DecodeChar(c) >= 0 ==> c in Table(Standard) || c in Table(Url)
  {
    if DecodeChar(c) >= 0 {
      var k: Sextet := DecodeChar(c);
      DecodeCharInvertsAlphabets(c, k);
      LetterInTable(Standard, k);
      LetterInTable(Url, k);
      hide Table;
      assert Table(Standard)[k] in Table(Standard) && Table(Url)[k] in Table(Url);
    }
  }

  predicate UrlSafe(c: char) {
    'A' <= c <= 'Z' || 'a' <= c <= 'z' || '0' <= c <= '9' || c == '-' || c == '_'
  }

  // The URL-safe text uses no character that needs escaping in a URL.
  lemma {:induction false} UrlTextIsSafe(data: seq<Byte>, k: nat)
    requires k < |Encoded(data, Url, false)|
    ensures UrlSafe(Encoded(data, Url, false)[k])
  {
    if |data| > 2 && k >= 4 {
      UrlTextIsSafe(data[3..], k - 4);
    } else {
      hide Letter, UrlSafe, Digit, Triple;
      var t := Triple(data[0], if |data| > 1 then data[1] else 0, if |data| > 2 then data[2] else 0);
      UrlLetterIsSafe(Digit(t, k));
    }
  }

  lemma UrlLetterIsSafe(k: Sextet)
    ensures UrlSafe(Letter(Url, k))
  {
  }
}

module Base64Coder {
  import opened Octets
  import opened Base64Spec

  method Put<T>(buf: array<T>, j: nat, c: T)
    requires j < buf.Length
    modifies buf
    ensures buf[..j + 1] == old(buf[..j]) + [c]
  {
    buf[j] := c;
  }

  // What is left to encode once the cursor, which moves by threes, stands at i.
  function Rest(data: seq<Byte>, i: nat): seq<Byte> {
    if i < |data| then data[i..] else []
  }

  function ByteAt(data: seq<Byte>, i: nat): Byte {
    if i < |data| then data[i] else 0
  }

  // The text of one group of at most three bytes starting at i.
  function GroupText(data: seq<Byte>, i: nat, v: Variant, pad: bool): string
    requires i < |data|
  {
    var t := Triple(data[i], ByteAt(data, i + 1), ByteAt(data, i + 2));
    [Letter(v, Digit(t, 0)), Letter(v, Digit(t, 1))]
    + (if i + 1 < |data| then [Letter(v, Digit(t, 2))] else if pad then "=" else "")
    + (if i + 2 < |data| then [Letter(v, Digit(t, 3))] else if pad then "=" else "")
  }

  lemma EncodedByGroup(data: seq<Byte>, i: nat, v: Variant, pad: bool)
    requires i < |data|
    ensures Encoded(Rest(data, i), v, pad) == GroupText(data, i, v, pad) + Encoded(Rest(data, i + 3), v, pad)
  {
    hide Letter, Digit, Triple;
    var d := data[i..];
    if |d| > 2 {
      assert d[3..] == Rest(data, i + 3);
      assert d[0] == data[i] && d[1] == data[i + 1] && d[2] == data[i + 2];
    }
  }

  // Writes one group; `stop` is the early end of an unpadded text.
  method PutGroup(buf: array<char>, start: nat, data: seq<Byte>, i: nat, v: Variant, pad: bool)
    returns (j: nat, stop: bool)
    requires i < |data| && start + 4 <= buf.Length
    modifies buf
    ensures start <= j <= start + 4
    ensures buf[..j] == old(buf[..start]) + GroupText(data, i, v, pad)
    ensures i + 3 <= |data| ==> j == start + 4
    ensures stop ==> i + 3 >= |data|
  {
    hide Letter, Digit, Triple;
    var triple := Triple(data[i], ByteAt(data, i + 1), ByteAt(data, i + 2));
    Put(buf, start, Letter(v, Digit(triple, 0)));
    Put(buf, start + 1, Letter(v, Digit(triple, 1)));
    j := start + 2;
    if i + 1 < |data| {
      Put(buf, j, Letter(v, Digit(triple, 2)));
      j := j + 1;
    } else if pad {
      Put(buf, j, '=');
      j := j + 1;
    } else {
      return j, true;
    }
    if i + 2 < |data| {
      Put(buf, j, Letter(v, Digit(triple, 3)));
      j := j + 1;
    } else if pad {
      Put(buf, j, '=');
      j := j + 1;
    }
    stop := false;
  }

  method Encode(data: seq<Byte>, v: Variant, pad: bool) returns (buf: array<char>, j: nat)
    requires |data| < 0x8000_0000
    ensures fresh(buf)
    ensures j <= buf.Length == 4 * ((|data| + 2) / 3)
    ensures buf[..j] == Encoded(data, v, pad)
  {
    hide Letter, Digit, Triple, Encoded, GroupText;
    buf := new char[4 * ((|data| + 2) / 3)](_ => '\0');
    j := 0;
    var i := 0;
    ghost var groups := 0;
    while i < |data|
      invariant i == 3 * groups
      invariant i < |data| ==> j == 4 * groups
      invariant j <= buf.Length
      invariant Encoded(data, v, pad) == buf[..j] + Encoded(Rest(data, i), v, pad)
    {
      EncodedByGroup(data, i, v, pad);
      var stop;
      ghost var done := buf[..j];
      j, stop := PutGroup(buf, j, data, i, v, pad);
      Regroup(done, GroupText(data, i, v, pad), Encoded(Rest(data, i + 3), v, pad));
      i := i + 3;
      groups := groups + 1;
      if stop { break; }
    }
    NothingLeft(data, i, v, pad);
  }

  lemma Regroup(a: string, b: string, c: string)
    ensures a + (b + c) == a + b + c
  {}

  lemma NothingLeft(data: seq<Byte>, i: nat, v: Variant, pad: bool)
    requires i >= |data|
    ensures Encoded(Rest(data, i), v, pad) == ""
  {}

  // Collects up to four digits from i on, passing over everything else.
  method ReadGroup(s: string, start: nat) returns (v: seq<Sextet>, count: nat, i: nat)
    requires start < |s|
    ensures |v| == 4 && count <= 4
    ensures forall k :: count <= k < 4 ==> v[k] == 0
    ensures start < i <= |s|
    ensures count < 4 ==> i == |s|
    ensures Digits(s[start..]) == v[..count] + Digits(s[i..])
  {
    hide Digits;
    v, count, i := [0, 0, 0, 0], 0, start;
    while i < |s| && count < 4
      invariant |v| == 4 && count <= 4
      invariant forall k :: count <= k < 4 ==> v[k] == 0
      invariant start <= i <= |s| && (i == start ==> count == 0)
      invariant Digits(s[start..]) == v[..count] + Digits(s[i..])
    {
      DigitsFrom(s, i);
      if s[i] == '=' { i := i + 1; continue; }
      var d := DecodeChar(s[i]);
      if d < 0 { i := i + 1; continue; }
      ghost var w := v;
      v := v[count := d];
      assert v[..count + 1] == w[..count] + [d];
      count := count + 1;
      i := i + 1;
    }
  }

  lemma DigitsFrom(s: string, i: nat)
    requires i < |s|
    ensures Digits(s[i..]) == (if DecodeChar(s[i]) >= 0 then [DecodeChar(s[i])] else []) + Digits(s[i + 1..])
  {
    assert s[i..][0] == s[i] && s[i..][1..] == s[i + 1..];
  }

  // How many bytes a group of `count` digits carries.
  function BytesIn(count: nat): (k: nat)
    requires count <= 4
    ensures k <= 3
  { if count < 2 then 0 else count - 1 }

  function GroupBytes(v: seq<Sextet>, count: nat): seq<Byte>
    requires |v| == 4 && count <= 4
  { Bytes(Quad(v[0], v[1], v[2], v[3]))[..BytesIn(count)] }

  lemma DecodedByGroup(v: seq<Sextet>, count: nat, rest: seq<Sextet>)
    requires |v| == 4 && count <= 4
    requires forall k :: count <= k < 4 ==> v[k] == 0
    requires count < 4 ==> rest == []
    ensures Decoded(v[..count] + rest) == GroupBytes(v, count) + Decoded(rest)
  {
    hide Bytes, Quad;
    var d := v[..count] + rest;
    if count == 4 { assert d[4..] == rest; }
  }

  lemma ClippedTwice(s: seq<Byte>, t: seq<Byte>, n: nat)
    ensures Clipped(Clipped(s, n) + t, n) == Clipped(s + t, n)
  {}

  // The computed room wraps below zero only for "=" and "==", which hold no digit.
  lemma RoomOrNothing(s: string)
    requires 0 < |s| < 0x8000_0000_0000_0000
    ensures OutLen(s) <= |s| || Digits(s) == []
    ensures OutLen(s) < 0x1_0000_0000_0000_0000
  {
    hide Digits;
    if |s| <= 2 && PadCount(s) == |s| {
      assert s == "=="[..|s|];
      DigitsOfPadding(|s|);
    } else {
      hide PadCount;
      var raw := RawRoom(|s|, PadCount(s));
      assert 0 <= raw <= |s|;
    }
  }

  method Emit(buf: array<Byte>, j: nat, outLen: nat, b: Byte) returns (next: nat)
    requires j <= outLen <= buf.Length
    modifies buf
    ensures next <= outLen
    ensures buf[..next] == Clipped(old(buf[..j]) + [b], outLen)
  {
    next := j;
    if j < outLen {
      Put(buf, j, b);
      next := j + 1;
    }
  }

  // Writes the bytes of one group, as many as its digits carry and the room allows.
  method EmitGroup(buf: array<Byte>, start: nat, outLen: nat, v: seq<Sextet>, count: nat) returns (j: nat)
    requires |v| == 4 && count <= 4
    requires start <= outLen && (outLen <= buf.Length || (count == 0 && start == 0))
    modifies buf
    ensures j <= outLen
    ensures outLen > buf.Length ==> j == 0
    ensures buf[..j] == Clipped(old(buf[..start]) + GroupBytes(v, count), outLen)
  {
    hide Quad, Bytes, Clipped;
    j := start;
    if count >= 2 {
      var triple := Quad(v[0], v[1], v[2], v[3]);
      ghost var first, all := buf[..start], Bytes(triple);
      BytesAre(triple);
      j := Emit(buf, start, outLen, (triple / 0x1_0000) % 256);
      if count >= 3 {
        ClippedOnce(first, all, 1, outLen);
        j := Emit(buf, j, outLen, (triple / 0x100) % 256);
      }
      if count >= 4 {
        ClippedOnce(first, all, 2, outLen);
        j := Emit(buf, j, outLen, triple % 256);
      }
    } else {
      ClippedFits(buf[..start], outLen);
    }
  }

  lemma ClippedFits(s: seq<Byte>, n: nat)
    requires |s| <= n
    ensures Clipped(s + [], n) == s
  {
    assert s + [] == s;
  }

  // One byte more of a group.
  lemma ClippedOnce(s: seq<Byte>, t: seq<Byte>, i: nat, n: nat)
    requires i < |t|
    ensures Clipped(Clipped(s + t[..i], n) + [t[i]], n) == Clipped(s + t[..i + 1], n)
  {
    ClippedTwice(s + t[..i], [t[i]], n);
    assert s + t[..i] + [t[i]] == s + t[..i + 1];
  }

  lemma BytesAre(t: nat)
    ensures Bytes(t)[0] == (t / 0x1_0000) % 256 && Bytes(t)[1] == (t / 0x100) % 256 && Bytes(t)[2] == t % 256
    ensures Bytes(t)[..1] == [Bytes(t)[0]] && Bytes(t)[..3] == Bytes(t)
  {}

  // Malformed text is not an error: foreign characters are skipped and a lone digit is dropped.
  method Decode(encoded: string) returns (buf: array<Byte>, j: nat)
    requires |encoded| < 0x8000_0000_0000_0000
    ensures fresh(buf)
    ensures j <= buf.Length
    ensures buf[..j] == Base64Spec.Decode(encoded)
  {
    hide Digits, Decoded, OutLen, GroupBytes, Clipped;
    if |encoded| == 0 {
      buf, j := new Byte[0], 0;
      NothingDecoded();
      return;
    }
    var outLen := OutLen(encoded);
    RoomOrNothing(encoded);
    buf := new Byte[(outLen + 1) % 0x1_0000_0000_0000_0000](_ => 0);
    j := 0;
    var i: nat := 0;
    assert encoded[0..] == encoded;
    NothingWritten(Decoded(Digits(encoded)), buf[..j]);
    while i < |encoded|
      invariant i <= |encoded|
      invariant j <= outLen && j <= buf.Length
      invariant outLen <= buf.Length || (Digits(encoded[i..]) == [] && j == 0)
      invariant Clipped(buf[..j] + Decoded(Digits(encoded[i..])), outLen) == Base64Spec.Decode(encoded)
    {
      var v, count, next := ReadGroup(encoded, i);
      EndOfText(encoded, next);
      AfterGroup(buf[..j], v, count, Digits(encoded[next..]), outLen);
      j := EmitGroup(buf, j, outLen, v, count);
      i := next;
    }
    EndOfText(encoded, i);
    AllWritten(buf[..j], outLen);
  }

  lemma NothingWritten(s: seq<Byte>, none: seq<Byte>)
    requires none == []
    ensures none + s == s
  {}

  lemma AllWritten(s: seq<Byte>, n: nat)
    requires |s| <= n
    ensures Clipped(s + Decoded([]), n) == s
  {
    assert s + [] == s;
  }

  lemma AfterGroup(done: seq<Byte>, v: seq<Sextet>, count: nat, rest: seq<Sextet>, n: nat)
    requires |v| == 4 && count <= 4
    requires forall k :: count <= k < 4 ==> v[k] == 0
    requires count < 4 ==> rest == []
    ensures Clipped(done + Decoded(v[..count] + rest), n)
         == Clipped(Clipped(done + GroupBytes(v, count), n) + Decoded(rest), n)
  {
    DecodedByGroup(v, count, rest);
    ClippedTwice(done + GroupBytes(v, count), Decoded(rest), n);
    assert done + (GroupBytes(v, count) + Decoded(rest)) == done + GroupBytes(v, count) + Decoded(rest);
  }

  lemma EndOfText(s: string, i: nat)
    requires i <= |s|
    ensures i == |s| ==> Digits(s[i..]) == []
  {}

  lemma NothingDecoded()
    ensures Base64Spec.Decode("") == []
  {}
}
