// What decimal strings mean. A string such as "-12.50" is read as a sign, integer digits and fraction
// digits; its value at scale k is the integer 10^k times the number it denotes.
module Decimal {

  function Digit(c: char): int { c as int - '0' as int }

  predicate IsDigit(c: char) { '0' <= c <= '9' }

  predicate AllDigits(s: string) { forall i | 0 <= i < |s| :: IsDigit(s[i]) }

  function DigitChar(n: int): (c: char)
    requires 0 <= n <= 9
    ensures IsDigit(c) && Digit(c) == n
  {
    (n + '0' as int) as char
  }

  function Pow10(n: nat): (p: int)
    ensures p >= 1
  {
    if n == 0 then 1 else 10 * Pow10(n - 1)
  }

  // The number a string of digits stands for.
  function Nat(s: string): int {
    if s == "" then 0 else 10 * Nat(s[..|s| - 1]) + Digit(s[|s| - 1])
  }

  function Zeros(n: nat): (s: string)
    ensures |s| == n && AllDigits(s)
  {
    seq(n, _ => '0')
  }

  // ----- Numbers as digit strings -----

  lemma {:induction false} NatConcat(x: string, y: string)
    ensures Nat(x + y) == Nat(x) * Pow10(|y|) + Nat(y)
  {
    if y == "" {
      assert x + y == x;
    } else {
      var y' := y[..|y| - 1];
      assert (x + y)[..|x + y| - 1] == x + y';
      NatConcat(x, y');
      assert 10 * (Nat(x) * Pow10(|y'|)) == Nat(x) * Pow10(|y|);
    }
  }

  lemma {:induction false} NatZeros(n: nat)
    ensures Nat(Zeros(n)) == 0
  {
    if n > 0 {
      assert Zeros(n)[..n - 1] == Zeros(n - 1);
      NatZeros(n - 1);
    }
  }

  lemma NatLeadingZeros(n: nat, s: string)
    ensures Nat(Zeros(n) + s) == Nat(s)
  {
    NatConcat(Zeros(n), s);
    NatZeros(n);
  }

  lemma NatSingle(c: char)
    ensures Nat([c]) == Digit(c)
  {
    assert [c][..0] == "";
  }

  lemma NatCons(c: char, s: string)
    ensures Nat([c] + s) == Digit(c) * Pow10(|s|) + Nat(s)
  {
    NatConcat([c], s);
    NatSingle(c);
    hide Nat, Pow10;
  }

  lemma {:induction false} NatBounds(s: string)
    requires AllDigits(s)
    ensures 0 <= Nat(s) < Pow10(|s|)
  {
    if s != "" { NatBounds(s[..|s| - 1]); }
  }

  // Strings of equal length compare as their first difference does.
  lemma {:induction false} NatLess(x: string, y: string, i: nat)
    requires AllDigits(x) && AllDigits(y) && i < |x| == |y|
    requires x[..i] == y[..i] && x[i] < y[i]
    ensures Nat(x) < Nat(y)
  {
    hide *;
    NatSplitAt(x, i);
    NatSplitAt(y, i);
    DigitOrder(x[i], y[i]);
    LessByOneColumn(Digit(x[i]), Digit(y[i]), Pow10(|x| - 1 - i), Nat(x[i + 1..]), Nat(y[i + 1..]));
  }

  lemma NatSplitAt(x: string, i: nat)
    requires AllDigits(x) && i < |x|
    ensures IsDigit(x[i])
    ensures Nat(x) == Nat(x[..i]) * Pow10(|x| - i) + (Digit(x[i]) * Pow10(|x| - 1 - i) + Nat(x[i + 1..]))
    ensures 0 <= Nat(x[i + 1..]) < Pow10(|x| - 1 - i)
  {
    hide *;
    SplitThree(x, i);
    NatConcat(x[..i], [x[i]] + x[i + 1..]);
    NatCons(x[i], x[i + 1..]);
    NatBounds(x[i + 1..]);
  }

  lemma SplitThree(x: string, i: nat)
    requires AllDigits(x) && i < |x|
    ensures x == x[..i] + ([x[i]] + x[i + 1..]) && |[x[i]] + x[i + 1..]| == |x| - i
    ensures AllDigits(x[i + 1..]) && IsDigit(x[i])
  {
  }

  lemma DigitOrder(a: char, b: char)
    requires IsDigit(a) && IsDigit(b) && a < b
    ensures Digit(a) < Digit(b)
  {
  }

  lemma LessByOneColumn(a: int, b: int, p: int, x: int, y: int)
    requires a < b && 0 <= x < p && 0 <= y
    ensures a * p + x < b * p + y
  {
    assert b * p == a * p + (b - a) * p;
    assert (b - a) * p == p + (b - a - 1) * p;
  }

  // Digit strings of equal length with equal numbers are equal.
  lemma {:induction false} NatInjective(x: string, y: string)
    requires AllDigits(x) && AllDigits(y) && |x| == |y| && Nat(x) == Nat(y)
    ensures x == y
  {
    if x != y {
      var i := FirstDifference(x, y, 0);
      if x[i] < y[i] { NatLess(x, y, i); } else { NatLess(y, x, i); }
    }
  }

  lemma {:induction false} FirstDifference(x: string, y: string, from: nat) returns (i: nat)
    requires |x| == |y| && from <= |x| && x[..from] == y[..from] && x != y
    ensures i < |x| && x[..i] == y[..i] && x[i] != y[i]
    decreases |x| - from
  {
    assert x[..|x|] == x && y[..|y|] == y;
    if x[from] != y[from] {
      i := from;
    } else {
      assert x[..from + 1] == x[..from] + [x[from]] && y[..from + 1] == y[..from] + [y[from]];
      i := FirstDifference(x, y, from + 1);
    }
  }

  lemma {:induction false} Pow10Monotone(m: nat, n: nat)
    requires m <= n
    ensures Pow10(m) <= Pow10(n)
  {
    if m < n { Pow10Monotone(m, n - 1); }
  }

  lemma {:induction false} Pow10Add(m: nat, n: nat)
    ensures Pow10(m + n) == Pow10(m) * Pow10(n)
  {
    if m > 0 {
      Pow10Add(m - 1, n);
      TenTimes(Pow10(m - 1), Pow10(n));
    }
  }

  lemma TenTimes(p: int, q: int)
    ensures 10 * (p * q) == (10 * p) * q
  {
  }

  // ----- Reading a decimal string -----

  // `dotted` tells "5" from "5.".
  datatype Parts = Parts(neg: bool, whole: string, dotted: bool, frac: string)

  // The first '.' at or after i, or the end; what strchr answers.
  function DotFrom(s: string, i: nat): (d: nat)
    requires i <= |s|
    ensures i <= d <= |s|
    ensures d < |s| ==> s[d] == '.'
    ensures forall j | i <= j < d :: s[j] != '.'
    decreases |s| - i
  {
    if i == |s| || s[i] == '.' then i else DotFrom(s, i + 1)
  }

  function ParseMag(neg: bool, p: string): Parts {
    var d := DotFrom(p, 0);
    Parts(neg, p[..d], d < |p|, if d < |p| then p[d + 1..] else "")
  }

  function Parse(s: string): Parts {
    if s != "" && s[0] == '-' then ParseMag(true, s[1..]) else ParseMag(false, s)
  }

  function RenderMag(d: Parts): string { d.whole + if d.dotted then "." + d.frac else "" }

  function Render(d: Parts): string { (if d.neg then "-" else "") + RenderMag(d) }

  predicate DigitParts(d: Parts) {
    AllDigits(d.whole) && AllDigits(d.frac) && (d.dotted || d.frac == "")
  }

  predicate WfParts(d: Parts) { d.whole != "" && DigitParts(d) }

  // An optional minus, any digits, and perhaps a point with any digits.
  predicate Digital(s: string) { DigitParts(Parse(s)) }

  // The same with a digit before the point.
  predicate Wf(s: string) { WfParts(Parse(s)) }

  lemma ParseMagRender(d: Parts)
    requires DigitParts(d)
    ensures ParseMag(d.neg, RenderMag(d)) == d
    ensures d.whole != "" ==> RenderMag(d) != "" && IsDigit(RenderMag(d)[0])
    ensures d.whole == "" && d.dotted ==> RenderMag(d)[0] == '.'
  {
    var p := RenderMag(d);
    var i := DotFrom(p, 0);
    assert p[..|d.whole|] == d.whole;
    assert forall j | 0 <= j < |d.whole| :: p[j] == d.whole[j] && IsDigit(d.whole[j]);
    assert d.dotted ==> p[|d.whole|] == '.' && p[|d.whole| + 1..] == d.frac;
    assert i == |d.whole|;
  }

  lemma ParseRender(d: Parts)
    requires DigitParts(d)
    ensures Parse(Render(d)) == d && Digital(Render(d)) && (d.whole != "" ==> Wf(Render(d)))
  {
    ParseMagRender(d);
    if d.neg {
      assert Render(d)[1..] == RenderMag(d);
    } else {
      assert Render(d) == RenderMag(d);
    }
  }

  lemma RenderParse(s: string)
    ensures Render(Parse(s)) == s
  {
  }

  lemma WfIsDigital(s: string)
    requires Wf(s)
    ensures Digital(s)
  {
  }

  function FracLen(s: string): nat { |Parse(s).frac| }

  // The digits of the magnitude at scale k.
  function DigitsAt(d: Parts, k: nat): string
    requires |d.frac| <= k
  {
    d.whole + d.frac + Zeros(k - |d.frac|)
  }

  // Read as usual: the digits before the point, times ten for each digit after it, and those; each digit counts
  // for itself, ten times as much as in the place behind it.
  lemma ReadAsUsual(d: Parts, x: string, n: nat)
    requires n <= 9
    ensures MagAt(d, |d.frac|) == Nat(d.whole) * Pow10(|d.frac|) + Nat(d.frac)
    ensures Nat("") == 0 && Nat(x + ["0123456789"[n]]) == 10 * Nat(x) + n
    ensures Pow10(0) == 1 && Pow10(n + 1) == 10 * Pow10(n)
  {
    assert DigitsAt(d, |d.frac|) == d.whole + d.frac;
    NatConcat(d.whole, d.frac);
    assert (x + ["0123456789"[n]])[..|x|] == x;
    assert "0123456789"[n] == DigitChar(n);
  }

  // The magnitude at scale k.
  function MagAt(d: Parts, k: nat): int
    requires |d.frac| <= k
  {
    Nat(DigitsAt(d, k))
  }

  function PartsAt(d: Parts, k: nat): int
    requires |d.frac| <= k
  {
    if d.neg then -MagAt(d, k) else MagAt(d, k)
  }

  // The value of a decimal string at scale k.
  function At(s: string, k: nat): int
    requires FracLen(s) <= k
  {
    PartsAt(Parse(s), k)
  }

  // Going to a finer scale multiplies by ten, so equality at one scale is equality at all.
  lemma FinerScale(s: string, k: nat)
    requires FracLen(s) <= k
    ensures At(s, k + 1) == 10 * At(s, k)
  {
    var d := Parse(s);
    assert DigitsAt(d, k + 1)[..|DigitsAt(d, k)|] == DigitsAt(d, k);
  }

  // No leading zeros, no trailing fraction zeros, no trailing point, no "-0".
  predicate CanonicalParts(d: Parts) {
    && WfParts(d)
    && (|d.whole| == 1 || d.whole[0] != '0')
    && (d.dotted ==> d.frac != "" && d.frac[|d.frac| - 1] != '0')
    && !(d.neg && d.whole == "0" && !d.dotted)
  }

  predicate Canonical(s: string) { CanonicalParts(Parse(s)) }

  lemma {:induction false} NatPositive(s: string, i: nat)
    requires AllDigits(s) && i < |s| && s[i] != '0'
    ensures Nat(s) > 0
  {
    if i < |s| - 1 {
      NatPositive(s[..|s| - 1], i);
    } else {
      NatBounds(s[..|s| - 1]);
    }
  }

  // A canonical magnitude that is 0 belongs to "0" alone.
  lemma CanonicalZero(d: Parts, k: nat)
    requires CanonicalParts(d) && |d.frac| <= k
    ensures MagAt(d, k) >= 0
    ensures MagAt(d, k) == 0 <==> d == Parts(false, "0", false, "")
  {
    var s := DigitsAt(d, k);
    NatBounds(s);
    if d.dotted {
      NatPositive(s, |d.whole| + |d.frac| - 1);
    } else if d.whole[0] != '0' {
      NatPositive(s, 0);
    } else {
      assert d.whole == "0";
      assert s == Zeros(k + 1);
      NatZeros(k + 1);
    }
  }

  // More integer digits, without a leading zero, mean a greater magnitude.
  lemma LongerIsGreater(d: Parts, e: Parts, k: nat)
    requires WfParts(d) && WfParts(e) && |d.frac| <= k && |e.frac| <= k
    requires |d.whole| > |e.whole| && d.whole[0] != '0'
    ensures MagAt(d, k) > MagAt(e, k)
  {
    var x, y := DigitsAt(d, k), DigitsAt(e, k);
    var pad := Zeros(|x| - |y|);
    NatLeadingZeros(|x| - |y|, y);
    NatLess(pad + y, x, 0);
  }

  // Equal values have equal canonical strings.
  lemma CanonicalUnique(s: string, t: string, k: nat)
    requires Canonical(s) && Canonical(t) && FracLen(s) <= k && FracLen(t) <= k
    requires At(s, k) == At(t, k)
    ensures s == t
  {
    var d, e := Parse(s), Parse(t);
    CanonicalZero(d, k);
    CanonicalZero(e, k);
    if MagAt(d, k) != 0 {
      assert d.neg == e.neg;
      if |d.whole| > |e.whole| { LongerIsGreater(d, e, k); }
      if |e.whole| > |d.whole| { LongerIsGreater(e, d, k); }
      NatInjective(DigitsAt(d, k), DigitsAt(e, k));
      SameDigitsSameParts(d, e, k);
    }
    RenderParse(s);
    RenderParse(t);
  }

  lemma SameDigitsSameParts(d: Parts, e: Parts, k: nat)
    requires CanonicalParts(d) && CanonicalParts(e) && |d.frac| <= k && |e.frac| <= k
    requires d.neg == e.neg && |d.whole| == |e.whole| && DigitsAt(d, k) == DigitsAt(e, k)
    ensures d == e
  {
    var n, x, y := |d.whole|, DigitsAt(d, k), DigitsAt(e, k);
    assert x[..n] == d.whole && y[..n] == e.whole;
    assert d.dotted ==> x[n + |d.frac| - 1] == d.frac[|d.frac| - 1];
    assert e.dotted ==> y[n + |e.frac| - 1] == e.frac[|e.frac| - 1];
    assert |d.frac| == |e.frac|;
    assert x[n..n + |d.frac|] == d.frac && y[n..n + |e.frac|] == e.frac;
  }

  // ----- Edits that keep the value -----

  lemma StripLeadingZeros(d: Parts, z: nat, k: nat)
    requires DigitParts(d) && (z < |d.whole| || z == 0) && |d.frac| <= k
    requires forall i | 0 <= i < z :: d.whole[i] == '0'
    ensures var d' := d.(whole := d.whole[z..]);
            DigitParts(d') && (d'.whole == "" <==> d.whole == "") && PartsAt(d', k) == PartsAt(d, k)
  {
    var d' := d.(whole := d.whole[z..]);
    assert DigitsAt(d, k) == Zeros(z) + DigitsAt(d', k);
    NatLeadingZeros(z, DigitsAt(d', k));
  }

  lemma StripTrailingZero(d: Parts, k: nat)
    requires DigitParts(d) && d.dotted && d.frac != "" && d.frac[|d.frac| - 1] == '0' && |d.frac| <= k
    ensures var d' := d.(frac := d.frac[..|d.frac| - 1]);
            DigitParts(d') && PartsAt(d', k) == PartsAt(d, k) && Render(d) == Render(d') + "0"
  {
    var d' := d.(frac := d.frac[..|d.frac| - 1]);
    assert d.frac == d'.frac + "0";
    assert DigitsAt(d', k) == DigitsAt(d, k);
  }

  lemma StripPoint(d: Parts, k: nat)
    requires DigitParts(d) && d.dotted && d.frac == ""
    ensures var d' := d.(dotted := false);
            DigitParts(d') && PartsAt(d', k) == PartsAt(d, k) && Render(d) == Render(d') + "."
  {
  }

  lemma DropMinusZero(k: nat)
    ensures PartsAt(Parts(true, "0", false, ""), k) == PartsAt(Parts(false, "0", false, ""), k)
  {
    assert DigitsAt(Parts(true, "0", false, ""), k) == Zeros(k + 1);
    NatZeros(k + 1);
  }

  // ----- Columns -----

  // Magnitudes written under each other: mi integer places, mf fraction places.
  function Aligned(d: Parts, mi: nat, mf: nat): (s: string)
    requires |d.whole| <= mi && |d.frac| <= mf
    ensures |s| == mi + mf
  {
    Zeros(mi - |d.whole|) + DigitsAt(d, mf)
  }

  lemma AlignedValue(d: Parts, mi: nat, mf: nat)
    requires WfParts(d) && |d.whole| <= mi && |d.frac| <= mf
    ensures AllDigits(Aligned(d, mi, mf)) && Nat(Aligned(d, mi, mf)) == MagAt(d, mf)
  {
    NatLeadingZeros(mi - |d.whole|, DigitsAt(d, mf));
  }

  lemma SplitDigit(s: int, p: int)
    requires 0 <= s
    ensures (s % 10) * p + (s / 10) * (10 * p) == s * p
  {
    assert s == 10 * (s / 10) + s % 10;
    assert s * p == (10 * (s / 10)) * p + (s % 10) * p;
  }

  lemma ColumnSum(p: int, da: int, db: int, c: int, r: int, x: int, y: int)
    requires 0 <= da + db + c && r + c * p == x + y
    ensures var s := da + db + c;
            ((s % 10) * p + r) + (s / 10) * (10 * p) == (da * p + x) + (db * p + y)
  {
    SplitDigit(da + db + c, p);
    Distribute(da, db, c, p);
  }

  lemma Distribute(a: int, b: int, c: int, p: int)
    ensures (a + b + c) * p == a * p + b * p + c * p
  {
  }

  lemma ColumnDifference(p: int, da: int, db: int, c: int, r: int, x: int, y: int, b: int)
    requires r - c * p == x - y
    ensures ((da - db - c + 10 * b) * p + r) - b * (10 * p) == (da * p + x) - (db * p + y)
  {
    Distribute(da, -db, -c, p);
    assert (da - db - c + 10 * b) * p == (da - db - c) * p + (10 * b) * p;
    assert (10 * b) * p == b * (10 * p);
  }

  // One column of an addition, right to left: r is what has been written, c the carry into column t - 1.
  lemma AddColumn(x: string, y: string, t: nat, r: string, c: int)
    requires AllDigits(x) && AllDigits(y) && 0 < t <= |x| == |y| && |r| == |x| - t && 0 <= c <= 1
    requires Nat(r) + c * Pow10(|r|) == Nat(x[t..]) + Nat(y[t..])
    ensures var s := Digit(x[t - 1]) + Digit(y[t - 1]) + c;
            && 0 <= s <= 19
            && Nat([DigitChar(s % 10)] + r) + (s / 10) * Pow10(|r| + 1) == Nat(x[t - 1..]) + Nat(y[t - 1..])
  {
    hide *;
    var s := Digit(x[t - 1]) + Digit(y[t - 1]) + c;
    NatFrom(x, t);
    NatFrom(y, t);
    Pow10Next(|r|);
    NatCons(DigitChar(s % 10), r);
    ColumnSum(Pow10(|r|), Digit(x[t - 1]), Digit(y[t - 1]), c, Nat(r), Nat(x[t..]), Nat(y[t..]));
  }

  // The number from column t - 1 on.
  lemma NatFrom(x: string, t: nat)
    requires AllDigits(x) && 0 < t <= |x|
    ensures 0 <= Digit(x[t - 1]) <= 9
    ensures Nat(x[t - 1..]) == Digit(x[t - 1]) * Pow10(|x| - t) + Nat(x[t..])
  {
    assert x[t - 1..] == [x[t - 1]] + x[t..];
    hide Nat, Pow10;
    NatCons(x[t - 1], x[t..]);
  }

  lemma Pow10Next(n: nat)
    ensures Pow10(n + 1) == 10 * Pow10(n)
  {
  }

  // One column of a subtraction; c is the borrow out of column t - 1.
  lemma SubColumn(x: string, y: string, t: nat, r: string, c: int)
    requires AllDigits(x) && AllDigits(y) && 0 < t <= |x| == |y| && |r| == |x| - t && 0 <= c <= 1
    requires Nat(r) - c * Pow10(|r|) == Nat(x[t..]) - Nat(y[t..])
    ensures var d := Digit(x[t - 1]) - Digit(y[t - 1]) - c;
            var b := if d < 0 then 1 else 0;
            && -10 <= d <= 9
            && Nat([DigitChar(d + 10 * b)] + r) - b * Pow10(|r| + 1) == Nat(x[t - 1..]) - Nat(y[t - 1..])
  {
    hide *;
    var d := Digit(x[t - 1]) - Digit(y[t - 1]) - c;
    var b := if d < 0 then 1 else 0;
    NatFrom(x, t);
    NatFrom(y, t);
    Pow10Next(|r|);
    NatCons(DigitChar(d + 10 * b), r);
    ColumnDifference(Pow10(|r|), Digit(x[t - 1]), Digit(y[t - 1]), c, Nat(r), Nat(x[t..]), Nat(y[t..]), b);
  }
}
