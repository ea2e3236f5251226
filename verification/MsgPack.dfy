// MessagePack: the nil, bool, int, float 64 and str families of the format, packed into
// and unpacked from one buffer.

module MsgPackSpec {
  import opened Octets

  const TWO63: int := 0x8000_0000_0000_0000
  const TWO64: int := 0x1_0000_0000_0000_0000

  // A float is carried as its 64-bit pattern.
  datatype Value = Nil | Bool(b: bool) | Int(i: int) | Float(bits: int) | Str(s: seq<Byte>)

  predicate Packable(v: Value) {
    match v
    case Int(i) => -TWO63 <= i < TWO63
    case Float(bits) => 0 <= bits < TWO64
    case Str(s) => |s| <= 255
    case _ => true
  }

  // --- Numbers as bytes, highest first. Shifting right rounds down, also below zero.

  function BigEndian(x: int, n: nat): (r: seq<Byte>)
    ensures |r| == n
    decreases n
  {
    if n == 0 then [] else BigEndian(x / 256, n - 1) + [x % 256]
  }

  function Unsigned(s: seq<Byte>): (r: nat) {
    if s == [] then 0 else Unsigned(s[..|s| - 1]) * 256 + s[|s| - 1]
  }

  // 64-bit two's complement.
  function Wrap(x: int): int {
    (x + TWO63) % TWO64 - TWO63
  }

  function Signed(s: seq<Byte>): int {
    if s == [] then 0 else Wrap(Signed(s[..|s| - 1]) * 256 + s[|s| - 1])
  }

  function Pow256(n: nat): (p: nat)
    ensures p > 0
  {
    if n == 0 then 1 else 256 * Pow256(n - 1)
  }

  // What n bytes cannot hold.
  function Above(x: int, n: nat): int
    decreases n
  {
    if n == 0 then x else Above(x / 256, n - 1)
  }

  lemma {:induction false} BytesHold(x: int, n: nat)
    ensures x == Above(x, n) * Pow256(n) + Unsigned(BigEndian(x, n))
    ensures Unsigned(BigEndian(x, n)) < Pow256(n)
    decreases n
  {
    if n > 0 {
      var b := BigEndian(x / 256, n - 1);
      BytesHold(x / 256, n - 1);
      assert (b + [x % 256])[..n - 1] == b;
      assert Unsigned(BigEndian(x, n)) == Unsigned(b) * 256 + x % 256;
      Scale(Above(x / 256, n - 1), Pow256(n - 1));
    }
  }

  lemma Scale(a: int, p: int)
    ensures a * (256 * p) == 256 * (a * p)
  {}

  lemma Pow256Of8()
    ensures Pow256(7) == 0x100_0000_0000_0000 && Pow256(8) == TWO64
  {
    assert Pow256(4) == 0x1_0000_0000;
  }

  lemma {:induction false} UnsignedBound(s: seq<Byte>)
    ensures Unsigned(s) < Pow256(|s|)
  {
    if s != [] { UnsignedBound(s[..|s| - 1]); }
  }

  lemma PowMonotone(a: nat, b: nat)
    requires a <= b
    ensures Pow256(a) <= Pow256(b)
    decreases b - a
  {
    if a < b { PowMonotone(a, b - 1); }
  }

  // Up to seven bytes never reach the sign bit.
  lemma {:induction false} SignedIsUnsigned(s: seq<Byte>)
    requires |s| <= 7
    ensures Signed(s) == Unsigned(s) < 0x100_0000_0000_0000
  {
    Pow256Of8();
    PowMonotone(|s|, 7);
    UnsignedBound(s);
    if s != [] { SignedIsUnsigned(s[..|s| - 1]); }
  }

  // Sign recovery: the eight bytes of a 64-bit integer read back as that integer.
  lemma IntBytesReadBack(x: int)
    requires -TWO63 <= x < TWO63
    ensures Signed(BigEndian(x, 8)) == x
  {
    hide BigEndian, Above, Pow256, Wrap;
    var s := BigEndian(x, 8);
    BytesHold(x, 8);
    Pow256Of8();
    SignedIsUnsigned(s[..7]);
    WrapOnce(Unsigned(s));
    assert Signed(s) == Wrap(Unsigned(s));
    assert Above(x, 8) == 0 || Above(x, 8) == -1;
  }

  lemma BitsReadBack(x: int)
    requires 0 <= x < TWO64
    ensures Unsigned(BigEndian(x, 8)) == x
  {
    hide BigEndian, Unsigned, Above, Pow256;
    BytesHold(x, 8);
    Pow256Of8();
    assert Above(x, 8) == 0;
  }

  // --- Packing.

  const NIL: Byte := 0xc0
  const FALSE: Byte := 0xc2
  const TRUE: Byte := 0xc3
  const FLOAT64: Byte := 0xcb
  const INT64: Byte := 0xd3
  const STR8: Byte := 0xd9
  const FIXSTR: Byte := 0xa0
  const NEGFIX: Byte := 0xe0

  // The header of a string of n bytes.
  function StrHeader(n: nat): seq<Byte>
    requires n <= 255
  {
    if n <= 31 then [FIXSTR + n] else [STR8, n]
  }

  // Masking with 0x1f keeps the value modulo 32, also below zero.
  function Packed(v: Value): (r: seq<Byte>)
    requires Packable(v)
    ensures |r| > 0
  {
    match v
    case Nil => [NIL]
    case Bool(b) => [if b then TRUE else FALSE]
    case Int(i) =>
      if 0 <= i <= 127 then [i]
      else if -32 <= i < 0 then [NEGFIX + i % 32]
      else [INT64] + BigEndian(i, 8)
    case Float(bits) => [FLOAT64] + BigEndian(bits, 8)
    case Str(s) => StrHeader(|s|) + s
  }

  // The bytes that the MessagePack specification prescribes, at the ends of each family.
  lemma FormatBytes()
    ensures Packed(Nil) == [0xc0] && Packed(Bool(false)) == [0xc2] && Packed(Bool(true)) == [0xc3]
    ensures Packed(Int(0)) == [0x00] && Packed(Int(127)) == [0x7f]
    ensures Packed(Int(-1)) == [0xff] && Packed(Int(-32)) == [0xe0]
    ensures Packed(Int(128)) == [0xd3, 0, 0, 0, 0, 0, 0, 0, 0x80]
    ensures Packed(Int(-33)) == [0xd3, 0xff, 0xff, 0xff, 0xff, 0xff, 0xff, 0xff, 0xdf]
    ensures Packed(Str([])) == [0xa0] && Packed(Str([0x61])) == [0xa1, 0x61]
  {
    SignBytes(0, 7);
    SignBytes(-1, 7);
    assert BigEndian(128, 8) == BigEndian(0, 7) + [0x80];
    assert BigEndian(-33, 8) == BigEndian(-1, 7) + [0xdf];
  }

  // The form of every value, in the numbers of the specification: which values take one byte, the tag of the
  // others and the bytes behind it.
  lemma FormatOfAll(v: Value)
    requires Packable(v)
    ensures v.Nil? ==> Packed(v) == [0xc0]
    ensures v.Bool? ==> Packed(v) == [if v.b then 0xc3 else 0xc2]
    ensures v.Int? ==>
      if 0 <= v.i <= 127 then Packed(v) == [v.i]
      else if -32 <= v.i < 0 then Packed(v) == [256 + v.i]
      else |Packed(v)| == 9 && Packed(v)[0] == 0xd3 && Signed(Packed(v)[1..]) == v.i
    ensures v.Float? ==> |Packed(v)| == 9 && Packed(v)[0] == 0xcb && Unsigned(Packed(v)[1..]) == v.bits
    ensures v.Str? ==> Packed(v) == (if |v.s| <= 31 then [0xa0 + |v.s|] else [0xd9, |v.s|]) + v.s
  {
    hide BigEndian, Signed, Unsigned;
    match v
    case Int(i) =>
      if i < -32 || i > 127 {
        IntBytesReadBack(i);
        assert Packed(v)[1..] == BigEndian(i, 8);
      }
    case Float(bits) =>
      BitsReadBack(bits);
      assert Packed(v)[1..] == BigEndian(bits, 8);
    case _ =>
  }

  lemma {:induction false} SignBytes(x: int, n: nat)
    requires x == 0 || x == -1
    ensures BigEndian(x, n) == seq(n, _ => x % 256)
    decreases n
  {
    if n > 0 { SignBytes(x, n - 1); }
  }

  function PackedAll(vs: seq<Value>): seq<Byte>
    requires forall i :: 0 <= i < |vs| ==> Packable(vs[i])
  {
    if vs == [] then [] else Packed(vs[0]) + PackedAll(vs[1..])
  }

  // --- Unpacking one value from the bytes still unread.

  datatype Maybe = None | Some(v: Value)

  // The value if there is one, and how many bytes were taken either way.
  datatype Taken = Taken(value: Maybe, used: nat)

  // A tag's top bits select its family; masks are written as divisions.
  function Unpacked(s: seq<Byte>): (t: Taken)
    ensures t.used <= |s|
    ensures t.value.Some? ==> t.used > 0 && Packable(t.value.v)
  {
    if s == [] then Taken(None, 0)
    else
      var tag: nat := s[0];
      if tag == NIL then Taken(Some(Nil), 1)
      else if tag == FALSE then Taken(Some(Bool(false)), 1)
      else if tag == TRUE then Taken(Some(Bool(true)), 1)
      else if tag / 128 == 0 then Taken(Some(Int(tag)), 1)
      else if tag / 32 * 32 == NEGFIX then Taken(Some(Int(tag - 256)), 1)
      else if tag == INT64 then
        if |s| < 9 then Taken(None, 1)
        else
          SignedInRange(s[1..9]);
          Taken(Some(Int(Signed(s[1..9]))), 9)
      else if tag == FLOAT64 then
        if |s| < 9 then Taken(None, 1)
        else
          UnsignedInRange(s[1..9]);
          Taken(Some(Float(Unsigned(s[1..9]))), 9)
      else if tag / 32 * 32 == FIXSTR then
        if |s| < 1 + tag % 32 then Taken(None, 1) else Taken(Some(Str(s[1..1 + tag % 32])), 1 + tag % 32)
      else if tag == STR8 then
        if |s| < 2 then Taken(None, 1)
        else
          var n: nat := s[1];
          if |s| < 2 + n then Taken(None, 2) else Taken(Some(Str(s[2..2 + n])), 2 + n)
      else Taken(None, 1)
  }

  lemma SignedInRange(s: seq<Byte>)
    ensures -TWO63 <= Signed(s) < TWO63
  {}

  lemma UnsignedInRange(s: seq<Byte>)
    requires |s| == 8
    ensures Unsigned(s) < TWO64
  {
    UnsignedBound(s);
    Pow256Of8();
  }

  // Also the forms that packing does not choose: any 64-bit integer behind its tag, and any short string behind
  // the tag of the long ones.
  lemma LongFormsRead(i: int, str: seq<Byte>, rest: seq<Byte>)
    requires -TWO63 <= i < TWO63 && |str| <= 255
    ensures Unpacked([0xd3] + BigEndian(i, 8) + rest) == Taken(Some(Int(i)), 9)
    ensures Unpacked([0xd9, |str|] + str + rest) == Taken(Some(Str(str)), 2 + |str|)
  {
    hide BigEndian, Signed, Unsigned;
    IntBytesReadBack(i);
    assert ([0xd3] + BigEndian(i, 8) + rest)[1..9] == BigEndian(i, 8);
    assert ([0xd9, |str|] + str + rest)[2..2 + |str|] == str;
  }

  // A value is found if and only if the first byte is one of the tags and all the bytes that it announces are
  // there; otherwise the first byte is taken all the same, and the length byte of a long string too.
  lemma UnpackedIff(s: seq<Byte>)
    ensures Unpacked(s).value.Some? <==>
      |s| > 0 && (|| s[0] <= 127 || s[0] >= 0xe0 || s[0] == 0xc0 || s[0] == 0xc2 || s[0] == 0xc3
                  || (s[0] == 0xd3 && |s| >= 9) || (s[0] == 0xcb && |s| >= 9)
                  || (0xa0 <= s[0] <= 0xbf && |s| >= 1 + (s[0] - 0xa0))
                  || (s[0] == 0xd9 && |s| >= 2 && |s| - 2 >= s[1]))
    ensures Unpacked(s).value.None? ==>
      Unpacked(s).used == if |s| == 0 then 0 else if s[0] == 0xd9 && |s| >= 2 then 2 else 1
  {
    hide Signed, Unsigned;
  }

  // What a value was packed into is recognised as that value, whatever follows it.
  lemma PackThenUnpack(v: Value, rest: seq<Byte>)
    requires Packable(v)
    ensures Unpacked(Packed(v) + rest) == Taken(Some(v), |Packed(v)|)
  {
    hide BigEndian, Signed, Unsigned;
    var s := Packed(v) + rest;
    match v
    case Nil =>
    case Bool(_) =>
    case Int(i) =>
      if i < -32 || i > 127 {
        IntBytesReadBack(i);
        assert s[1..9] == BigEndian(i, 8);
      }
    case Float(bits) =>
      BitsReadBack(bits);
      assert s[1..9] == BigEndian(bits, 8);
    case Str(str) =>
      var n := |StrHeader(|str|)|;
      assert s[n..n + |str|] == str;
  }

  // No packed value is the beginning of another, so a stream can be cut in one way only.
  lemma PackedIsPrefixFree(v: Value, w: Value, a: seq<Byte>, b: seq<Byte>)
    requires Packable(v) && Packable(w)
    requires Packed(v) + a == Packed(w) + b
    ensures v == w && a == b
  {
    hide Packed, Unpacked;
    PackThenUnpack(v, a);
    PackThenUnpack(w, b);
    assert a == (Packed(v) + a)[|Packed(v)|..];
    assert b == (Packed(w) + b)[|Packed(w)|..];
  }

  // The values that repeated unpacking yields, until none is left or one is malformed.
  function UnpackedAll(s: seq<Byte>): seq<Value>
    decreases |s|
  {
    var t := Unpacked(s);
    if t.value == None then [] else [t.value.v] + UnpackedAll(s[t.used..])
  }

  // Bytes taken by the first n unpackings.
  function UsedBy(s: seq<Byte>, n: nat): (u: nat)
    ensures u <= |s|
    decreases n
  {
    if n == 0 then 0 else Unpacked(s).used + UsedBy(s[Unpacked(s).used..], n - 1)
  }

  // Stream round trip: the same types and values in order, using exactly the packed bytes.
  lemma {:induction false} StreamRoundTrip(vs: seq<Value>)
    requires forall i :: 0 <= i < |vs| ==> Packable(vs[i])
    ensures UnpackedAll(PackedAll(vs)) == vs
    ensures UsedBy(PackedAll(vs), |vs|) == |PackedAll(vs)|
  {
    hide Packed, Unpacked;
    if vs == [] {
      assert Unpacked([]) == Taken(None, 0) by { EndOfStream(); }
    } else {
      var s := PackedAll(vs);
      PackThenUnpack(vs[0], PackedAll(vs[1..]));
      assert s[|Packed(vs[0])|..] == PackedAll(vs[1..]);
      StreamRoundTrip(vs[1..]);
    }
  }

  lemma EndOfStream()
    ensures Unpacked([]) == Taken(None, 0)
  {}

  // Packing back what was unpacked gives the same bytes, except for a small integer in
  // the long form and a short string in the long form.
  lemma UnpackThenPackIff(s: seq<Byte>)
    requires Unpacked(s).value.Some?
    ensures var t := Unpacked(s);
      (Packed(t.value.v) == s[..t.used])
        <==> !(s[0] == INT64 && -32 <= t.value.v.i <= 127) && !(s[0] == STR8 && s[1] <= 31)
  {
    hide BigEndian, Signed, Unsigned;
    var t := Unpacked(s);
    if s[0] == INT64 || s[0] == FLOAT64 {
      BytesRebuilt(s[1..9]);
      assert s[..9] == [s[0]] + s[1..9];
    }
  }

  // Eight bytes are the bytes of the number they spell, signed or not.
  lemma BytesRebuilt(s: seq<Byte>)
    requires |s| == 8
    ensures BigEndian(Unsigned(s), 8) == s
    ensures BigEndian(Signed(s), 8) == s
  {
    hide BigEndian, Pow256, Wrap;
    var u := Unsigned(s);
    RebuiltFrom(u, s, 0);
    SignedIsUnsigned(s[..7]);
    UnsignedInRange(s);
    Pow256Of8();
    WrapOnce(u);
    RebuiltFrom(Signed(s), s, if u >= TWO63 then -1 else 0);
  }

  lemma WrapOnce(u: nat)
    requires u < TWO64
    ensures Wrap(u) == if u >= TWO63 then u - TWO64 else u
  {}

  lemma {:induction false} RebuiltFrom(x: int, s: seq<Byte>, k: int)
    requires x == k * Pow256(|s|) + Unsigned(s)
    ensures BigEndian(x, |s|) == s
    decreases |s|
  {
    if s != [] {
      var n := |s|;
      var init, last := s[..n - 1], s[n - 1];
      Scale(k, Pow256(n - 1));
      assert x == 256 * (k * Pow256(n - 1) + Unsigned(init)) + last;
      RebuiltFrom(x / 256, init, k);
      assert s == init + [last];
    }
  }
}

module MsgPackBuffers {
  import opened Octets
  import opened MsgPackSpec

  const MAX_BUF_SIZE: nat := 65536

  // What one pack operation leaves in a buffer: all of it, or, for a string that does
  // not fit behind its header, the header alone.
  function AfterPack(was: seq<Byte>, v: Value): seq<Byte>
    requires v.Str? || Packable(v)
  {
    match v
    case Str(s) =>
      if |s| > 255 then was
      else if |was| + 1 > MAX_BUF_SIZE then was
      else if |s| > 31 && |was| + 2 > MAX_BUF_SIZE then was + [STR8]
      else if |was| + |StrHeader(|s|)| + |s| > MAX_BUF_SIZE then was + StrHeader(|s|)
      else was + Packed(v)
    case _ => if |was| + |Packed(v)| > MAX_BUF_SIZE then was else was + Packed(v)
  }

  predicate Accepted(was: seq<Byte>, v: Value) {
    Packable(v) && |was| + |Packed(v)| <= MAX_BUF_SIZE
  }

  // A refused pack leaves the buffer as it was, except that a string of packable length
  // leaves a header behind unless the buffer was already full.
  lemma RefusalIsCleanIff(was: seq<Byte>, v: Value)
    requires |was| <= MAX_BUF_SIZE
    requires v.Str? || Packable(v)
    requires !Accepted(was, v)
    ensures AfterPack(was, v) == was <==> !v.Str? || |v.s| > 255 || |was| == MAX_BUF_SIZE
  {}

  // The smallest case: one byte of room takes the header of "A", and not the "A".
  lemma HeaderLeftBehind()
    ensures var was := seq(MAX_BUF_SIZE - 1, _ => NIL);
      !Accepted(was, Str([0x41])) && AfterPack(was, Str([0x41])) == was + [0xa1]
  {
    var was := seq(MAX_BUF_SIZE - 1, _ => NIL);
    assert |was| == MAX_BUF_SIZE - 1;
    assert StrHeader(1) == [0xa1];
  }

  lemma AcceptedAppends(was: seq<Byte>, v: Value)
    requires Accepted(was, v)
    ensures AfterPack(was, v) == was + Packed(v)
  {}

  // Accepted values stack up to the stream that unpacks into exactly them.
  lemma {:induction false} AcceptedStream(vs: seq<Value>, v: Value)
    requires forall i :: 0 <= i < |vs| ==> Packable(vs[i])
    requires Accepted(PackedAll(vs), v)
    ensures AfterPack(PackedAll(vs), v) == PackedAll(vs + [v])
    ensures UnpackedAll(AfterPack(PackedAll(vs), v)) == vs + [v]
  {
    AcceptedAppends(PackedAll(vs), v);
    PackedAllSnoc(vs, v);
    StreamRoundTrip(vs + [v]);
  }

  lemma {:induction false} PackedAllSnoc(vs: seq<Value>, v: Value)
    requires Packable(v) && forall i :: 0 <= i < |vs| ==> Packable(vs[i])
    ensures PackedAll(vs + [v]) == PackedAll(vs) + Packed(v)
  {
    hide Packed;
    if vs == [] {
      assert ([] + [v])[1..] == [];
      assert PackedAll([v]) == Packed(v) + PackedAll([]);
    } else {
      assert (vs + [v])[1..] == vs[1..] + [v];
      PackedAllSnoc(vs[1..], v);
    }
  }

  function AfterHeader(was: seq<Byte>, n: nat): seq<Byte>
    requires n <= 255
  {
    if |was| + |StrHeader(n)| <= MAX_BUF_SIZE then was + StrHeader(n)
    else if |was| + 1 > MAX_BUF_SIZE then was
    else was + [STR8]
  }

  // A string is packed in two writes, its header first.
  lemma StringPacking(was: seq<Byte>, str: seq<Byte>)
    requires |was| <= MAX_BUF_SIZE
    ensures |str| > 255 ==> AfterPack(was, Str(str)) == was && !Accepted(was, Str(str))
    ensures |str| <= 255 ==>
      var h := AfterHeader(was, |str|);
      if |was| + |StrHeader(|str|)| > MAX_BUF_SIZE then AfterPack(was, Str(str)) == h && !Accepted(was, Str(str))
      else
        && (Accepted(was, Str(str)) <==> |h| + |str| <= MAX_BUF_SIZE)
        && AfterPack(was, Str(str)) == if |h| + |str| <= MAX_BUF_SIZE then h + str else h
  {
    if |str| <= 255 {
      assert was + (StrHeader(|str|) + str) == was + StrHeader(|str|) + str;
    }
  }

  // The value unpacked last. There is one for all buffers.
  class LastUnpacked {
    var lastType: int
    var lastBool: bool
    var lastInt: int
    var lastFloat: int
    var lastStr: seq<Byte>

    function Held(): Value
      reads this
    {
      if lastType == 0 then Nil
      else if lastType == 1 then Bool(lastBool)
      else if lastType == 2 then Int(lastInt)
      else if lastType == 3 then Float(lastFloat)
      else Str(lastStr)
    }

    constructor ()
      ensures Held() == Nil
    {
      lastType := 0;
      lastBool := false;
      lastInt := 0;
      lastFloat := 0;
      lastStr := [];
    }
  }

  class MsgPackBuffer {
    const data: array<Byte>
    const last: LastUnpacked
    var len: nat
    var pos: nat

    ghost predicate Valid()
      reads this`pos, this`len
    { pos <= len <= data.Length == MAX_BUF_SIZE }

    ghost function Contents(): seq<Byte>
      reads this`pos, this`len, data
      requires Valid()
    { data[..len] }

    // What is still to be read.
    ghost function Unread(): seq<Byte>
      reads this`pos, this`len, data
      requires Valid()
    { data[pos..len] }

    constructor (shared: LastUnpacked)
      ensures Valid() && fresh(data) && Contents() == [] && pos == 0 && last == shared
    {
      data := new Byte[MAX_BUF_SIZE](_ => 0);
      last := shared;
      len := 0;
      pos := 0;
    }

    method BufWrite(bytes: seq<Byte>) returns (r: int)
      requires Valid()
      modifies this`len, data
      ensures Valid()
      ensures r == if old(len) + |bytes| > 65536 then -1 else 0
      ensures Contents() == if r < 0 then old(Contents()) else old(Contents()) + bytes
    {
      if len + |bytes| > MAX_BUF_SIZE { return -1; }
      forall i | 0 <= i < |bytes| {
        data[len + i] := bytes[i];
      }
      len := len + |bytes|;
      return 0;
    }

    method PackNil() returns (r: int)
      requires Valid()
      modifies this`len, data
      ensures Valid() && Contents() == AfterPack(old(Contents()), Nil)
      ensures r == if Accepted(old(Contents()), Nil) then 0 else -1
    {
      r := BufWrite([NIL]);
    }

    method PackBool(b: bool) returns (r: int)
      requires Valid()
      modifies this`len, data
      ensures Valid() && Contents() == AfterPack(old(Contents()), Bool(b))
      ensures r == if Accepted(old(Contents()), Bool(b)) then 0 else -1
    {
      r := BufWrite([if b then TRUE else FALSE]);
    }

    method PackInt(val: int) returns (r: int)
      requires Valid() && -TWO63 <= val < TWO63
      modifies this`len, data
      ensures Valid() && Contents() == AfterPack(old(Contents()), Int(val))
      ensures r == if Accepted(old(Contents()), Int(val)) then 0 else -1
    {
      hide BigEndian;
      if 0 <= val <= 127 {
        r := BufWrite([val]);
      } else if -32 <= val < 0 {
        r := BufWrite([NEGFIX + val % 32]);
      } else {
        var buf := EightBytes(val);
        r := BufWrite([INT64] + buf);
      }
    }

    method PackFloat(bits: int) returns (r: int)
      requires Valid() && 0 <= bits < TWO64
      modifies this`len, data
      ensures Valid() && Contents() == AfterPack(old(Contents()), Float(bits))
      ensures r == if Accepted(old(Contents()), Float(bits)) then 0 else -1
    {
      hide BigEndian;
      var buf := EightBytes(bits);
      r := BufWrite([FLOAT64] + buf);
    }

    method PackStr(str: seq<Byte>) returns (r: int)
      requires Valid()
      modifies this`len, data
      ensures Valid() && Contents() == AfterPack(old(Contents()), Str(str))
      ensures r == if Accepted(old(Contents()), Str(str)) then 0 else -1
    {
      hide Contents, AfterPack, Accepted, StrHeader;
      ContentsLength();
      StringPacking(Contents(), str);
      if |str| <= 255 {
        r := PackHeader(|str|);
        if r < 0 { return -1; }
      } else {
        return -1;
      }
      ContentsLength();
      r := BufWrite(str);
    }

    lemma ContentsLength()
      requires Valid()
      ensures |Contents()| == len
    {}

    method PackHeader(n: nat) returns (r: int)
      requires Valid() && n <= 255
      modifies this`len, data
      ensures Valid() && Contents() == AfterHeader(old(Contents()), n)
      ensures r == if |old(Contents())| + |StrHeader(n)| <= MAX_BUF_SIZE then 0 else -1
    {
      if n <= 31 {
        r := BufWrite([FIXSTR + n]);
      } else {
        r := BufWrite([STR8]);
        if r < 0 { return -1; }
        r := BufWrite([n]);
      }
    }

    method Rewind()
      requires Valid()
      modifies this`pos
      ensures Valid() && pos == 0 && Unread() == Contents()
    {
      pos := 0;
    }

    // Reads n bytes of the message s, of which k have been read.
    method BufRead(n: nat, ghost s: seq<Byte>, ghost k: nat) returns (r: int, bytes: seq<Byte>)
      requires Valid() && k <= |s| && Unread() == s[k..]
      modifies this`pos
      ensures Valid()
      ensures r == if |s| < k + n then -1 else 0
      ensures r < 0 ==> Unread() == s[k..]
      ensures r == 0 ==> bytes == s[k..k + n] && Unread() == s[k + n..]
    {
      hide Unread;
      UnreadIs();
      if pos + n > len { return -1, []; }
      SliceOfSlice(data[..], pos, len, n, s, k);
      bytes := data[pos..pos + n];
      pos := pos + n;
      UnreadIs();
      return 0, bytes;
    }

    lemma UnreadIs()
      requires Valid()
      ensures Unread() == data[..][pos..len] && |Unread()| == len - pos
    {}

    // Reads the next value. The cursor moves past what was recognised even when the rest
    // of the value is missing.
    method UnpackNext() returns (r: int)
      requires Valid()
      modifies this`pos, last
      ensures Valid()
      ensures var t := Unpacked(old(Unread()));
        && (t.value.None? ==> r == -1 && last.Held() == old(last.Held()))
        && (t.value.Some? ==> last.Held() == t.value.v && r == last.lastType)
      ensures Unread() == old(Unread())[Unpacked(old(Unread())).used..]
    {
      hide Signed, Unsigned, Unread;
      ghost var s := Unread();
      var head;
      r, head := BufRead(1, s, 0);
      if r < 0 { return -1; }
      var tag: nat := head[0];
      if tag == NIL {
        last.lastType := 0;
      } else if tag == FALSE {
        last.lastType := 1;
        last.lastBool := false;
      } else if tag == TRUE {
        last.lastType := 1;
        last.lastBool := true;
      } else if tag / 128 == 0 {
        last.lastType := 2;
        last.lastInt := tag;
      } else if tag / 32 * 32 == NEGFIX {
        last.lastType := 2;
        last.lastInt := tag - 256;
      } else if tag == INT64 {
        var val;
        r, val := ReadInt64(s);
        if r < 0 { return -1; }
        last.lastInt := val;
        last.lastType := 2;
      } else if tag == FLOAT64 {
        var bits;
        r, bits := ReadFloat64(s);
        if r < 0 { return -1; }
        last.lastFloat := bits;
        last.lastType := 3;
      } else if tag / 32 * 32 == FIXSTR {
        var buf;
        r, buf := BufRead(tag % 32, s, 1);
        if r < 0 { return -1; }
        last.lastStr := buf;
        last.lastType := 4;
      } else if tag == STR8 {
        var buf;
        r, buf := ReadStr8(s);
        if r < 0 { return -1; }
        last.lastStr := buf;
        last.lastType := 4;
      } else {
        return -1;
      }
      return last.lastType;
    }

    method ReadInt64(ghost s: seq<Byte>) returns (r: int, val: int)
      requires Valid() && |s| > 0 && Unread() == s[1..]
      modifies this`pos
      ensures Valid()
      ensures |s| < 9 ==> r < 0 && Unread() == s[1..]
      ensures |s| >= 9 ==> r == 0 && val == Signed(s[1..9]) && Unread() == s[9..]
    {
      hide Unread, Signed;
      val := 0;
      var buf;
      r, buf := BufRead(8, s, 1);
      if r < 0 { return; }
      val := ReadSigned(buf);
    }

    method ReadFloat64(ghost s: seq<Byte>) returns (r: int, bits: int)
      requires Valid() && |s| > 0 && Unread() == s[1..]
      modifies this`pos
      ensures Valid()
      ensures |s| < 9 ==> r < 0 && Unread() == s[1..]
      ensures |s| >= 9 ==> r == 0 && bits == Unsigned(s[1..9]) && Unread() == s[9..]
    {
      hide Unread, Unsigned;
      bits := 0;
      var buf;
      r, buf := BufRead(8, s, 1);
      if r < 0 { return; }
      bits := ReadUnsigned(buf);
    }

    method ReadStr8(ghost s: seq<Byte>) returns (r: int, str: seq<Byte>)
      requires Valid() && |s| > 0 && Unread() == s[1..]
      modifies this`pos
      ensures Valid()
      ensures |s| < 2 ==> r < 0 && Unread() == s[1..]
      ensures |s| >= 2 && |s| < 2 + s[1] as nat ==> r < 0 && Unread() == s[2..]
      ensures |s| >= 2 && |s| >= 2 + s[1] as nat ==>
        r == 0 && str == s[2..2 + s[1] as nat] && Unread() == s[2 + s[1] as nat..]
    {
      hide Unread;
      str := [];
      var size;
      r, size := BufRead(1, s, 1);
      if r < 0 { return; }
      var n: nat := size[0];
      r, str := BufRead(n, s, 2);
    }
  }

  lemma SliceOfSlice(d: seq<Byte>, p: nat, l: nat, n: nat, s: seq<Byte>, k: nat)
    requires p + n <= l <= |d| && k <= |s| && d[p..l] == s[k..]
    ensures k + n <= |s| && d[p..p + n] == s[k..k + n] && d[p + n..l] == s[k + n..]
  {
    assert d[p..p + n] == d[p..l][..n] && d[p + n..l] == d[p..l][n..];
    assert s[k..k + n] == s[k..][..n] && s[k + n..] == s[k..][n..];
  }

  // Fills eight bytes from the lowest up.
  method EightBytes(x: int) returns (buf: seq<Byte>)
    ensures buf == BigEndian(x, 8)
  {
    buf := [];
    var rest := x;
    for i: nat := 0 to 8
      invariant |buf| == i && BigEndian(x, 8) == BigEndian(rest, 8 - i) + buf
    {
      assert BigEndian(rest / 256, 7 - i) + [rest % 256] + buf
          == BigEndian(rest / 256, 7 - i) + ([rest % 256] + buf);
      buf := [rest % 256] + buf;
      rest := rest / 256;
    }
  }

  method ReadSigned(buf: seq<Byte>) returns (val: int)
    ensures val == Signed(buf)
  {
    hide Wrap;
    val := 0;
    for i := 0 to |buf|
      invariant val == Signed(buf[..i])
    {
      assert buf[..i + 1][..i] == buf[..i];
      val := Wrap(val * 256 + buf[i]);
    }
    assert buf[..|buf|] == buf;
  }

  method ReadUnsigned(buf: seq<Byte>) returns (bits: int)
    ensures bits == Unsigned(buf)
  {
    bits := 0;
    for i := 0 to |buf|
      invariant bits == Unsigned(buf[..i])
    {
      assert buf[..i + 1][..i] == buf[..i];
      bits := bits * 256 + buf[i];
    }
    assert buf[..|buf|] == buf;
  }
}