// What is left of a number whose digits are cut off after so many characters, as the buffers do.
module BigDecimalCut {
  import opened Decimal
  import opened BigDecimal
  import Arith

  // n stands for n / 10^k, written with `whole` digits before the point; what the first `room` characters denote.
  function CutAt(n: int, whole: nat, k: nat, room: nat): int {
    if whole + (if k > 0 then 1 + k else 0) <= room then n
    else if room > whole then Floor(n, k + whole + 1 - room)
    else n / Pow10(k + whole - room) * Pow10(k)
  }

  // n without its last c digits, zeros in their place.
  function Floor(n: int, c: nat): int { n / Pow10(c) * Pow10(c) }

  function CutSigned(n: int, whole: nat, k: nat, room: nat): int {
    if n < 0 then -CutAt(-n, whole, k, room) else CutAt(n, whole, k, room)
  }

  // The fraction digits of n / 10^k up to the last that is not 0.
  function Places(n: int, k: nat): (p: nat)
    ensures p <= k
    decreases k
  {
    if k == 0 then 0 else if n % 10 == 0 then Places(n / 10, k - 1) else k
  }

  // The characters up to the last that matters.
  function Needed(n: int, whole: nat, k: nat): nat {
    whole + if Places(n, k) > 0 then 1 + Places(n, k) else 0
  }

  function Abs(n: int): int { if n < 0 then -n else n }

  // ----- When nothing is lost -----

  // The last c digits are zeros if and only if there are at most k - c places.
  lemma {:induction false} FloorExactIff(n: int, k: nat, c: nat)
    requires n >= 0 && c <= k
    ensures Floor(n, c) == n <==> Places(n, k) <= k - c
  {
    if c > 0 {
      FloorNext(n, c - 1);
      if n % 10 == 0 { FloorExactIff(n / 10, k - 1, c - 1); }
    }
  }

  lemma FloorNext(n: int, c: nat)
    requires n >= 0
    ensures Floor(n, c + 1) == 10 * Floor(n / 10, c)
  {
    hide *;
    FloorIs(n, c + 1);
    FloorIs(n / 10, c);
    Pow10Next(c);
    var p, m := Pow10(c), n / 10;
    TenfoldQuotient(n, p);
    assert m / p * (10 * p) == 10 * (m / p * p) by { Tenfold(m / p, p); }
  }

  lemma FloorIs(n: int, c: nat)
    ensures Pow10(c) >= 1 && Floor(n, c) == n / Pow10(c) * Pow10(c)
  {
  }

  lemma Tenfold(q: int, p: int)
    ensures q * (10 * p) == 10 * (q * p)
  {
  }

  lemma TenfoldQuotient(n: int, p: int)
    requires n >= 0 && p >= 1
    ensures n / (10 * p) == n / 10 / p
  {
    var m := n / 10;
    var q, r := m / p, m % p;
    assert m == p * q + r;
    assert 10 * p * q + (10 * r + n % 10) == n by { Tenfold(q, p); }
    Arith.QuotientUnique(n, 10 * p, q, 10 * r + n % 10);
  }

  // The cut keeps the value if and only if everything that matters has room.
  lemma CutExactIff(n: int, whole: nat, k: nat, room: nat)
    requires n >= 0
    ensures CutAt(n, whole, k, room) == n <==> n == 0 || Needed(n, whole, k) <= room
  {
    hide Floor, Pow10, Places;
    if whole + (if k > 0 then 1 + k else 0) <= room {
    } else if room > whole {
      FloorExactIff(n, k, k + whole + 1 - room);
      if n == 0 { NothingCut(k + whole + 1 - room); }
    } else if room == whole {
      FloorIs(n, k);
      FloorExactIff(n, k, k);
    } else {
      WholeCut(n, k, whole - room);
    }
  }

  lemma NothingCut(c: nat)
    ensures Floor(0, c) == 0
  {
  }

  lemma WholeCut(n: int, k: nat, c: nat)
    requires n >= 0 && c > 0
    ensures n / Pow10(k + c) * Pow10(k) == n <==> n == 0
  {
    hide *;
    Pow10Add(c, k);
    Pow10Monotone(1, c);
    TenIsPow();
    var p, d := Pow10(k), Pow10(k + c);
    PowersPositive(k, k + c);
    AtLeastTenfold(p, Pow10(c));
    QuotientOf(n, d);
    CutBelow(n, d, p, n / d, n % d);
  }

  lemma TenIsPow()
    ensures Pow10(1) == 10
  {
  }

  lemma PowersPositive(k: nat, m: nat)
    ensures Pow10(k) >= 1 && Pow10(m) >= 1
  {
  }

  lemma AtLeastTenfold(p: int, t: int)
    requires t >= 10 && p >= 1
    ensures t * p >= 10 * p
  {
  }

  lemma QuotientOf(n: int, d: int)
    requires n >= 0 && d >= 1
    ensures n == d * (n / d) + n % d && n / d >= 0 && n % d >= 0
  {
    assert n == d * (n / d) + n % d;
    if n / d < 0 { AtMost(d, n / d); }
  }

  lemma AtMost(d: int, q: int)
    requires d >= 1 && q <= -1
    ensures d * q <= -d
  {
  }

  lemma CutBelow(n: int, d: int, p: int, q: int, r: int)
    requires p >= 1 && d >= 10 * p && q >= 0 && r >= 0 && n == d * q + r
    ensures q * p == n <==> n == 0
  {
    if q > 0 {
      AtLeast(d, 10 * p, q);
      Positive(q, p);
      Tenfold(q, p);
    }
  }

  lemma AtLeast(d: int, e: int, q: int)
    requires d >= e && q >= 1
    ensures d * q >= q * e
  {
    assert d * q == q * e + (d - e) * q;
  }

  lemma Positive(a: int, b: int)
    requires a >= 1 && b >= 1
    ensures a * b >= 1
  {
  }

  lemma CutSignedExactIff(n: int, whole: nat, k: nat, room: nat)
    ensures CutSigned(n, whole, k, room) == n <==> n == 0 || Needed(Abs(n), whole, k) <= room
  {
    CutExactIff(Abs(n), whole, k, room);
  }

  // ----- Cutting a string -----

  function CutParts(d: Parts, room: nat): Parts {
    if |RenderMag(d)| <= room then d
    else if room > |d.whole| then d.(frac := Clip(d.frac, room - |d.whole| - 1))
    else Parts(d.neg, d.whole[..room], false, "")
  }

  lemma CutRendered(d: Parts, room: nat)
    requires DigitParts(d) && room > 0
    ensures var d' := CutParts(d, room);
      && DigitParts(d') && d'.neg == d.neg && |d'.frac| <= |d.frac| && (d'.whole == "" <==> d.whole == "")
      && Render(d') == Clip(Render(d), room + if d.neg then 1 else 0)
  {
    MagnitudeCut(d, room);
    if d.neg {
      MinusCut(RenderMag(d), room);
    }
  }

  lemma MinusCut(s: string, room: nat)
    ensures Clip("-" + s, room + 1) == "-" + Clip(s, room)
  {
  }

  lemma MagnitudeCut(d: Parts, room: nat)
    requires DigitParts(d) && room > 0
    ensures var d' := CutParts(d, room);
      && DigitParts(d') && d'.neg == d.neg && |d'.frac| <= |d.frac| && (d'.whole == "" <==> d.whole == "")
      && RenderMag(d') == Clip(RenderMag(d), room)
  {
    var t := RenderMag(d);
    if |t| > room {
      if room > |d.whole| {
        assert t[..room] == d.whole + ("." + d.frac[..room - |d.whole| - 1]);
      } else {
        assert t[..room] == d.whole[..room];
      }
    }
  }

  // A number's first digits are its quotient by a power of ten.
  lemma NatPrefix(x: string, i: nat)
    requires AllDigits(x) && i <= |x|
    ensures Nat(x) / Pow10(|x| - i) == Nat(x[..i])
  {
    hide Nat, Pow10;
    assert x == x[..i] + x[i..];
    NatConcat(x[..i], x[i..]);
    NatBounds(x[i..]);
    Arith.QuotientUnique(Nat(x), Pow10(|x| - i), Nat(x[..i]), Nat(x[i..]));
  }

  lemma NatTrailingZeros(x: string, n: nat)
    ensures Nat(x + Zeros(n)) == Nat(x) * Pow10(n)
  {
    NatConcat(x, Zeros(n));
    NatZeros(n);
  }

  lemma CutMagnitude(d: Parts, room: nat)
    requires DigitParts(d) && |CutParts(d, room).frac| <= |d.frac|
    ensures var k := |d.frac|;
      MagAt(CutParts(d, room), k) == CutAt(MagAt(d, k), |d.whole|, k, room)
  {
    hide Nat, Pow10, Zeros;
    var k, x, d' := |d.frac|, d.whole + d.frac, CutParts(d, room);
    assert DigitsAt(d, k) == x;
    var kept := |d'.whole| + |d'.frac|;
    assert DigitsAt(d', k) == x[..kept] + Zeros(k - |d'.frac|);
    NatPrefix(x, kept);
    NatTrailingZeros(x[..kept], k - |d'.frac|);
  }

  // The characters a number of n characters has room for after its sign.
  function Room(s: string, n: nat): int { n - if Parse(s).neg then 1 else 0 }

  // The value of a copy of s with room for n characters, at the scale of s.
  function CutTo(s: string, n: nat): int
    requires n >= 1
  {
    CutSigned(At(s, FracLen(s)), |Parse(s).whole|, FracLen(s), Room(s, n))
  }

  // That copy is as good as s.
  predicate Keeps(s: string, n: nat) {
    At(s, FracLen(s)) == 0 || Needed(Abs(At(s, FracLen(s))), |Parse(s).whole|, FracLen(s)) <= Room(s, n)
  }

  lemma KeepsIff(s: string, n: nat)
    requires n >= 1
    ensures CutTo(s, n) == At(s, FracLen(s)) <==> Keeps(s, n)
  {
    hide CutSigned, Needed, Abs, At;
    CutSignedExactIff(At(s, FracLen(s)), |Parse(s).whole|, FracLen(s), Room(s, n));
  }

  // Of a canonical string every character matters.
  lemma CanonicalKeepsIff(s: string, n: nat)
    requires Canonical(s) && n >= 1
    ensures Keeps(s, n) <==> |s| <= n
  {
    hide Needed, Nat, At;
    var d, k := Parse(s), FracLen(s);
    RenderParse(s);
    CanonicalZero(d, k);
    MagnitudeAt(s);
    NeededByCanonical(d);
    if At(s, k) == 0 { assert s == "0"; }
  }

  lemma MagnitudeAt(s: string)
    requires Canonical(s)
    ensures Abs(At(s, FracLen(s))) == MagAt(Parse(s), FracLen(s))
    ensures At(s, FracLen(s)) == 0 <==> MagAt(Parse(s), FracLen(s)) == 0
  {
    CanonicalZero(Parse(s), FracLen(s));
  }

  lemma NeededByCanonical(d: Parts)
    requires CanonicalParts(d)
    ensures Needed(MagAt(d, |d.frac|), |d.whole|, |d.frac|) == |RenderMag(d)|
  {
    var k, x := |d.frac|, DigitsAt(d, |d.frac|);
    assert x == d.whole + d.frac;
    NatBounds(x);
    if d.dotted {
      assert x[|x| - 1] == d.frac[k - 1];
      LastDigit(x);
    }
  }

  lemma LastDigit(x: string)
    requires AllDigits(x) && x != "" && x[|x| - 1] != '0'
    ensures Nat(x) % 10 != 0
  {
    assert Nat(x) == 10 * Nat(x[..|x| - 1]) + Digit(x[|x| - 1]);
  }

  // What a copy of a decimal string with room for n characters denotes.
  lemma ClipValue(s: string, n: nat)
    requires Digital(s) && n >= 2
    ensures var t, k := Clip(s, n), FracLen(s);
      && Digital(t) && FracLen(t) <= k && (Wf(t) <==> Wf(s)) && Parse(t).neg == Parse(s).neg
      && At(t, k) == CutTo(s, n)
  {
    hide *;
    var d := Parse(s);
    var room := n - if d.neg then 1 else 0;
    ClipParts(s, d, n, room);
    CutMagnitude(d, room);
    SignOfCut(s, Clip(s, n), d, CutParts(d, room), room);
    CutToIs(s, n, room);
  }

  lemma CutToIs(s: string, n: nat, room: nat)
    requires n >= 2 && n == room + if Parse(s).neg then 1 else 0
    ensures CutTo(s, n) == CutSigned(At(s, FracLen(s)), |Parse(s).whole|, FracLen(s), room)
  {
    hide At, CutSigned;
  }

  lemma ClipParts(s: string, d: Parts, n: nat, room: nat)
    requires Digital(s) && d == Parse(s) && n >= 2 && n == room + if d.neg then 1 else 0
    ensures DigitParts(d) && FracLen(s) == |d.frac| && |CutParts(d, room).frac| <= |d.frac|
    ensures var t := Clip(s, n);
      Parse(t) == CutParts(d, room) && Digital(t) && (Wf(t) <==> Wf(s)) && CutParts(d, room).neg == d.neg
  {
    hide RenderMag, Parse;
    RenderParse(s);
    CutRendered(d, room);
    ParseRender(CutParts(d, room));
  }

  lemma SignOfCut(s: string, t: string, d: Parts, d': Parts, room: nat)
    requires Parse(s) == d && Parse(t) == d' && DigitParts(d) && d'.neg == d.neg && |d'.frac| <= |d.frac|
    requires MagAt(d', |d.frac|) == CutAt(MagAt(d, |d.frac|), |d.whole|, |d.frac|, room)
    ensures FracLen(t) <= FracLen(s) == |d.frac|
    ensures At(t, |d.frac|) == CutSigned(At(s, |d.frac|), |d.whole|, |d.frac|, room)
  {
    hide Parse, Nat, Pow10, CutAt;
    var n := MagAt(d, |d.frac|);
    NatBounds(DigitsAt(d, |d.frac|));
    ZeroCut(|d.whole|, |d.frac|, room);
  }

  lemma CutWithSign(neg: bool, m: int, whole: nat, k: nat, room: nat)
    requires m >= 0
    ensures CutSigned(if neg then -m else m, whole, k, room)
         == if neg then -CutAt(m, whole, k, room) else CutAt(m, whole, k, room)
  {
    hide CutAt;
    ZeroCut(whole, k, room);
  }

  lemma ZeroCut(whole: nat, k: nat, room: nat)
    ensures CutAt(0, whole, k, room) == 0
  {
    NothingCut(k + if room > whole then 0 else whole - room);
  }
}
