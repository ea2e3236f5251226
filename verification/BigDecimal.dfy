// Arbitrary-precision decimal arithmetic on digit strings.
module BigDecimal {
  import opened Decimal

  const MAX_DIGITS := 512

  // What a copy into a buffer with room for n characters leaves of s.
  function Clip(s: string, n: nat): string { if |s| <= n then s else s[..n] }

  function Max(a: nat, b: nat): nat { if a > b then a else b }

  function Sign(n: int): int { if n < 0 then -1 else if n > 0 then 1 else 0 }

  // The scale at which two strings can be compared.
  function Scale(a: string, b: string): (k: nat)
    ensures k >= FracLen(a) && k >= FracLen(b)
  {
    Max(FracLen(a), FracLen(b))
  }

  // s and t denote the same number, t with no more fraction digits than s.
  ghost predicate Same(s: string, t: string) {
    FracLen(t) <= FracLen(s) && At(t, FracLen(s)) == At(s, FracLen(s))
  }

  lemma {:induction false} SameAt(s: string, t: string, k: nat)
    requires Same(s, t) && FracLen(s) <= k
    ensures At(t, k) == At(s, k)
  {
    hide At;
    if k > FracLen(s) {
      SameAt(s, t, k - 1);
      FinerScale(s, k - 1);
      FinerScale(t, k - 1);
    }
  }

  // ----- Normal form -----

  ghost predicate Reads(s: string, d: Parts) { DigitParts(d) && s == Render(d) }

  // A fraction without its trailing zeros.
  function Significant(f: string): string {
    if f != "" && f[|f| - 1] == '0' then Significant(f[..|f| - 1]) else f
  }

  // What is left of a string without a digit before the point: its sign, and the point with the significant
  // digits if there are any.
  function Headless(d: Parts): string {
    Render(Parts(d.neg, "", Significant(d.frac) != "", Significant(d.frac)))
  }

  // Leading zeros go (one digit stays), then trailing fraction zeros and a bare point, then the minus of "-0".
  // The result is in normal form if and only if a digit stands before the point.
  method Normalize(s: string) returns (r: string)
    requires Digital(s)
    ensures Same(s, r) && |r| <= |s|
    ensures Canonical(r) <==> Wf(s)
    ensures Canonical(s) ==> r == s
    ensures !Wf(s) ==> r == Headless(Parse(s))
  {
    if s == "" {
      EmptyStays();
      return "";
    }
    hide *;
    ghost var d, k := Parse(s), FracLen(s);
    FracLenIs(s);
    SignAndMagnitude(s);
    var neg := s[0] == '-';
    var p := if neg then 1 else 0;
    ghost var z;
    r, z := StripLeading(s, p, d);
    StripLeadingZeros(d, z, k);
    ghost var d2;
    r, d2 := TrimFraction(r, p, d.(whole := d.whole[z..]), k);
    RenderOf(r, d2);
    DropMinus(d2, k);
    NormalizeDone(s, z, d2);
    if neg && r[p..] == "0" { r := r[p..]; }
  }

  lemma FracLenIs(s: string)
    requires Digital(s)
    ensures FracLen(s) == |Parse(s).frac| && DigitParts(Parse(s))
  {
  }

  lemma RenderOf(s: string, d: Parts)
    requires Reads(s, d)
    ensures s == Render(d) && DigitParts(d) && (d.neg ==> s != "")
  {
  }

  lemma EmptyStays()
    ensures Same("", "") && !Canonical("") && !Wf("") && Headless(Parse("")) == ""
  {
  }

  lemma SignAndMagnitude(s: string)
    requires Digital(s) && s != ""
    ensures Reads(s, Parse(s)) && (s[0] == '-' <==> Parse(s).neg)
  {
    RenderParse(s);
  }

  ghost function WithoutMinusZero(d: Parts): Parts {
    if d.neg && RenderMag(d) == "0" then Parts(false, "0", false, "") else d
  }

  lemma OnlyZero(d: Parts)
    requires DigitParts(d) && RenderMag(d) == "0"
    ensures d.whole == "0" && !d.dotted && d.frac == ""
  {
    ParseMagRender(d);
    ParseMagRender(Parts(d.neg, "0", false, ""));
  }

  lemma DropMinus(d: Parts, k: nat)
    requires DigitParts(d) && |d.frac| <= k
    requires (|d.whole| <= 1 || d.whole[0] != '0') && (d.dotted ==> d.frac != "" && d.frac[|d.frac| - 1] != '0')
    ensures d.neg ==> Render(d) != ""
    ensures var d' := WithoutMinusZero(d);
            && (d.whole != "" ==> CanonicalParts(d')) && (d.whole == "" ==> d' == d)
            && DigitParts(d') && |d'.frac| <= |d.frac| && PartsAt(d', k) == PartsAt(d, k)
            && Render(d') == (if d.neg && Render(d)[1..] == "0" then Render(d)[1..] else Render(d))
  {
    if RenderMag(d) == "0" { OnlyZero(d); }
    if d.neg {
      assert Render(d)[1..] == RenderMag(d);
      if RenderMag(d) == "0" {
        DropMinusZero(k);
      }
    }
  }

  // Putting the steps together; z zeros have gone from the front, and d is what the trimming left.
  lemma NormalizeDone(s: string, z: nat, d: Parts)
    requires Digital(s) && var d0 := Parse(s);
      && (z < |d0.whole| || z == 0) && d.neg == d0.neg && d.whole == d0.whole[z..]
      && d.frac == Significant(d0.frac) && (d.dotted <==> d.frac != "")
      && DigitParts(d) && |d.frac| <= |d0.frac| && PartsAt(d, |d0.frac|) == PartsAt(d0, |d0.frac|)
    requires var d' := WithoutMinusZero(d);
      && DigitParts(d') && (d.whole != "" ==> CanonicalParts(d')) && (d.whole == "" ==> d' == d)
      && |d'.frac| <= |d.frac| && PartsAt(d', FracLen(s)) == PartsAt(d, FracLen(s))
    ensures var r := Render(WithoutMinusZero(d));
      && Same(s, r) && (Canonical(r) <==> Wf(s)) && (Canonical(s) ==> r == s)
      && (!Wf(s) ==> r == Headless(Parse(s)))
  {
    hide Nat, Significant, DigitsAt, RenderMag, AllDigits;
    var d' := WithoutMinusZero(d);
    ParseRender(d');
    if Canonical(s) { CanonicalUnique(s, Render(d'), FracLen(s)); }
  }

  method StripLeading(s: string, p: nat, ghost d: Parts) returns (r: string, ghost z: nat)
    requires Reads(s, d) && p == if d.neg then 1 else 0
    ensures (z < |d.whole| || z == 0) && (forall i | 0 <= i < z :: d.whole[i] == '0')
    ensures |r| == |s| - z && Reads(r, d.(whole := d.whole[z..]))
    ensures |d.whole| <= z + 1 || d.whole[z] != '0'
  {
    hide *;
    var start := p;
    WholeIn(s, p, d);
    while start < |s| && s[start] == '0' && start + 1 < |s| && s[start + 1] != '.'
      invariant p <= start && (start < p + |d.whole| || start == p)
      invariant forall i | 0 <= i < start - p :: d.whole[i] == '0'
      decreases |s| - start
    {
      start := start + 1;
    }
    z := start - p;
    assert z < |d.whole| ==> s[start] == d.whole[z];
    assert z + 1 < |d.whole| ==> s[start + 1] == d.whole[z + 1] != '.';
    WithoutLeading(s, p, d, z);
    r := s[..p] + s[start..];
  }

  lemma WholeIn(s: string, p: nat, d: Parts)
    requires Reads(s, d) && p == if d.neg then 1 else 0
    ensures p + |d.whole| <= |s|
    ensures forall i | 0 <= i < |d.whole| :: s[p + i] == d.whole[i] && s[p + i] != '.'
    ensures |s| > p + |d.whole| ==> s[p + |d.whole|] == '.'
  {
  }

  lemma WithoutLeading(s: string, p: nat, d: Parts, z: nat)
    requires Reads(s, d) && (p == if d.neg then 1 else 0) && z <= |d.whole| && p + z <= |s|
    ensures Reads(s[..p] + s[p + z..], d.(whole := d.whole[z..]))
  {
    assert s[p..] == RenderMag(d);
    assert s[p + z..] == RenderMag(d.(whole := d.whole[z..]));
  }

  method TrimFraction(s: string, p: nat, ghost d: Parts, ghost k: nat) returns (r: string, ghost d': Parts)
    requires Reads(s, d) && |d.frac| <= k && p == if d.neg then 1 else 0
    ensures |r| <= |s| && Reads(r, d')
    ensures |d'.frac| <= |d.frac| && PartsAt(d', k) == PartsAt(d, k)
    ensures d'.neg == d.neg && d'.whole == d.whole
    ensures d'.frac == Significant(d.frac) && (d'.dotted <==> d'.frac != "")
    ensures d'.dotted ==> d'.frac[|d'.frac| - 1] != '0'
  {
    r, d' := s, d;
    PointIn(s, p, d);
    NoFraction(d);
    var dot := p + DotFrom(s[p..], 0);
    hide *;
    if dot < |s| {
      r, d' := TrimZeros(s, d, k);
      LastOf(r, d');
      if r[|r| - 1] == '.' {
        DropPoint(r, d', k);
        d' := d'.(dotted := false);
        r := r[..|r| - 1];
      }
    }
  }

  lemma NoFraction(d: Parts)
    requires DigitParts(d)
    ensures !d.dotted ==> d.frac == "" == Significant(d.frac)
  {
  }

  method TrimZeros(s: string, ghost d: Parts, ghost k: nat) returns (r: string, ghost d': Parts)
    requires Reads(s, d) && |d.frac| <= k && d.dotted
    ensures |r| <= |s| && Reads(r, d') && d'.dotted && d'.neg == d.neg && d'.whole == d.whole
    ensures |d'.frac| <= |d.frac| && PartsAt(d', k) == PartsAt(d, k)
    ensures d'.frac == Significant(d.frac)
    ensures d'.frac != "" ==> d'.frac[|d'.frac| - 1] != '0'
  {
    r, d' := s, d;
    var len := |s|;
    LastOf(r, d');
    hide *;
    while len > 1 && r[len - 1] == '0'
      invariant 1 <= len == |r| <= |s| && Reads(r, d') && (d'.frac != "" ==> len > 1)
      invariant d'.dotted && d'.neg == d.neg && d'.whole == d.whole
      invariant |d'.frac| <= |d.frac| && PartsAt(d', k) == PartsAt(d, k)
      invariant Significant(d'.frac) == Significant(d.frac)
      invariant r[len - 1] == if d'.frac == "" then '.' else d'.frac[|d'.frac| - 1]
    {
      DropLastZero(r, d', k);
      d' := d'.(frac := d'.frac[..|d'.frac| - 1]);
      len := len - 1;
      r := r[..len];
      LastOf(r, d');
    }
    AllSignificant(d'.frac);
  }

  lemma AllSignificant(f: string)
    ensures f == "" || f[|f| - 1] != '0' ==> Significant(f) == f
  {
  }

  lemma PointIn(s: string, p: nat, d: Parts)
    requires Reads(s, d) && p == if d.neg then 1 else 0
    ensures p <= |s| && (p + DotFrom(s[p..], 0) < |s| <==> d.dotted)
  {
    assert s[p..] == RenderMag(d);
    ParseMagRender(d);
  }

  lemma LastOf(s: string, d: Parts)
    requires Reads(s, d) && d.dotted
    ensures |s| > 0 && s[|s| - 1] == if d.frac == "" then '.' else d.frac[|d.frac| - 1]
    ensures d.frac != "" ==> |s| > 1 && d.frac[|d.frac| - 1] != '.'
  {
  }

  lemma DropLastZero(s: string, d: Parts, k: nat)
    requires Reads(s, d) && d.dotted && d.frac != "" && d.frac[|d.frac| - 1] == '0' && |d.frac| <= k
    ensures var d' := d.(frac := d.frac[..|d.frac| - 1]);
            && s != "" && Reads(s[..|s| - 1], d') && PartsAt(d', k) == PartsAt(d, k)
            && Significant(d'.frac) == Significant(d.frac)
  {
    StripTrailingZero(d, k);
  }

  lemma DropPoint(s: string, d: Parts, k: nat)
    requires Reads(s, d) && d.dotted && d.frac == ""
    ensures var d' := d.(dotted := false);
            s != "" && Reads(s[..|s| - 1], d') && PartsAt(d', k) == PartsAt(d, k)
  {
    StripPoint(d, k);
  }

  // Why a digit must stand before the point: ".5" stays as it is beside "0.5", which has the same value and
  // compares as greater ...
  lemma PointFirstStays()
    ensures Headless(Parse(".5")) == ".5" && At(".5", 1) == At("0.5", 1) && CmpText(".5", "0.5") == -1
  {
    hide DotFrom, Nat;
    PointFirst("5");
    ZeroFirst();
    assert Significant("5") == "5";
    assert Zeros(0) == "" && DigitsAt(Parse(".5"), 1) == "" + "5" + "" == "5";
    assert DigitsAt(Parse("0.5"), 1) == "0" + "5" + "" == Zeros(1) + "5";
    NatLeadingZeros(1, "5");
  }

  // ... and of ".0" and "-.0" no digit is left.
  lemma PointZeroVanishes()
    ensures Headless(Parse(".0")) == "" && Headless(Parse("-.0")) == "-"
  {
    hide DotFrom;
    PointFirst("0");
    assert "0"[..0] == "" && Significant("0") == Significant("") == "";
    assert "-.0"[1..] == ".0";
  }

  lemma ZeroFirst()
    ensures Parse("0.5") == Parts(false, "0", true, "5") && DotFrom("0.5", 0) == 1
  {
    assert DotFrom("0.5", 1) == 1 && DotFrom("0.5", 0) == DotFrom("0.5", 1);
    assert "0.5"[..1] == "0" && "0.5"[2..] == "5";
  }

  lemma PointFirst(f: string)
    requires |f| == 1
    ensures ParseMag(false, "." + f) == Parts(false, "", true, f) && DotFrom("." + f, 0) == 0
  {
    assert ("." + f)[1..] == f;
  }

  // ----- Comparison -----

  // A canonical string without a sign.
  predicate Magnitude(p: string) { Canonical(p) && !Parse(p).neg }

  lemma MagnitudeOf(s: string)
    requires Canonical(s)
    ensures s != "" && (s[0] == '-' <==> Parse(s).neg)
    ensures var p := if s[0] == '-' then s[1..] else s;
            Magnitude(p) && Parse(p) == Parse(s).(neg := false)
  {
    RenderParse(s);
    ParseMagRender(Parse(s));
    ParseRender(Parse(s).(neg := false));
    var p := if s[0] == '-' then s[1..] else s;
    assert p == Render(Parse(s).(neg := false));
  }

  // The first difference of two strings decides, by character; 0 if there is none below n.
  function CmpFrom(a: string, b: string, i: nat, n: nat): int
    requires i <= n <= |a| && n <= |b|
    decreases n - i
  {
    if i == n then 0 else if a[i] == b[i] then CmpFrom(a, b, i + 1, n) else if a[i] > b[i] then 1 else -1
  }

  function Padded(f: string, i: nat): char { if i < |f| then f[i] else '0' }

  function CmpPadded(fa: string, fb: string, i: nat): int
    requires i <= Max(|fa|, |fb|)
    decreases Max(|fa|, |fb|) - i
  {
    if i == Max(|fa|, |fb|) then 0
    else if Padded(fa, i) == Padded(fb, i) then CmpPadded(fa, fb, i + 1)
    else if Padded(fa, i) > Padded(fb, i) then 1 else -1
  }

  function AfterDot(p: string): string { if DotFrom(p, 0) < |p| then p[DotFrom(p, 0) + 1..] else "" }

  // What is compared: first the lengths of the integer parts, then digit by digit.
  function CmpText(a: string, b: string): int {
    var da, db := DotFrom(a, 0), DotFrom(b, 0);
    if da != db then (if da > db then 1 else -1)
    else if CmpFrom(a, b, 0, da) != 0 then CmpFrom(a, b, 0, da)
    else CmpPadded(AfterDot(a), AfterDot(b), 0)
  }

  // Any two strings; of stored magnitudes it is the sign of the difference.
  method CmpAbs(a: string, b: string) returns (c: int)
    ensures c == CmpText(a, b)
    ensures Magnitude(a) && Magnitude(b) ==> c == Sign(At(a, Scale(a, b)) - At(b, Scale(a, b)))
  {
    hide Magnitude, At, Scale, Sign, CmpFrom, CmpPadded;
    if Magnitude(a) && Magnitude(b) { CmpTextIsSign(a, b); }
    var da, db := DotFrom(a, 0), DotFrom(b, 0);
    if da != db { return if da > db then 1 else -1; }
    c := CmpDigits(a, b, da);
    if c != 0 { return; }
    var fa := if da < |a| then a[da + 1..] else "";
    var fb := if db < |b| then b[db + 1..] else "";
    c := CmpFractions(fa, fb);
  }

  // strncmp over the first n characters of both.
  method CmpDigits(a: string, b: string, n: nat) returns (c: int)
    requires n <= |a| && n <= |b|
    ensures c == CmpFrom(a, b, 0, n)
  {
    for i := 0 to n
      invariant CmpFrom(a, b, 0, n) == CmpFrom(a, b, i, n)
    {
      if a[i] != b[i] { return if a[i] > b[i] then 1 else -1; }
    }
    c := 0;
  }

  method CmpFractions(fa: string, fb: string) returns (c: int)
    ensures c == CmpPadded(fa, fb, 0)
  {
    var ml := Max(|fa|, |fb|);
    for i := 0 to ml
      invariant CmpPadded(fa, fb, 0) == CmpPadded(fa, fb, i)
    {
      var ca := Padded(fa, i);
      var cb := Padded(fb, i);
      if ca != cb { return if ca > cb then 1 else -1; }
    }
    c := 0;
  }

  lemma {:induction false} FirstDiffers(a: string, b: string, i: nat, n: nat) returns (at: nat)
    requires i <= n <= |a| && n <= |b|
    ensures var c := CmpFrom(a, b, i, n);
            && (c == 0 ==> forall j | i <= j < n :: a[j] == b[j])
            && (c != 0 ==> i <= at < n && (forall j | i <= j < at :: a[j] == b[j]) && a[at] != b[at]
                           && c == if a[at] > b[at] then 1 else -1)
    decreases n - i
  {
    at := i;
    if i < n && a[i] == b[i] { at := FirstDiffers(a, b, i + 1, n); }
  }

  lemma {:induction false} FirstPaddedDiffers(fa: string, fb: string, i: nat) returns (at: nat)
    requires i <= Max(|fa|, |fb|)
    ensures var c := CmpPadded(fa, fb, i);
            && (c == 0 ==> forall j | i <= j < Max(|fa|, |fb|) :: Padded(fa, j) == Padded(fb, j))
            && (c != 0 ==> i <= at < Max(|fa|, |fb|) && (forall j | i <= j < at :: Padded(fa, j) == Padded(fb, j))
                           && Padded(fa, at) != Padded(fb, at)
                           && c == if Padded(fa, at) > Padded(fb, at) then 1 else -1)
    decreases Max(|fa|, |fb|) - i
  {
    hide Padded;
    at := i;
    if i < Max(|fa|, |fb|) && Padded(fa, i) == Padded(fb, i) { at := FirstPaddedDiffers(fa, fb, i + 1); }
  }

  lemma CmpTextIsSign(a: string, b: string)
    requires Magnitude(a) && Magnitude(b)
    ensures CmpText(a, b) == Sign(At(a, Scale(a, b)) - At(b, Scale(a, b)))
  {
    hide Magnitude, At, Scale, Sign, CmpFrom, CmpPadded, DotFrom, Parse;
    var k, da := Scale(a, b), DotFrom(a, 0);
    CharsOf(a, k);
    CharsOf(b, k);
    if da != DotFrom(b, 0) {
      LongerWins(a, b, k);
    } else {
      var i := FirstDiffers(a, b, 0, da);
      if CmpFrom(a, b, 0, da) != 0 {
        DifferInWhole(a, b, k, i);
      } else {
        WholesAgree(a, b);
        TailsDecide(a, b);
      }
    }
  }

  lemma TailsDecide(a: string, b: string)
    requires Magnitude(a) && Magnitude(b) && SameWhole(a, b)
    ensures CmpPadded(Parse(a).frac, Parse(b).frac, 0) == Sign(At(a, Scale(a, b)) - At(b, Scale(a, b)))
  {
    hide *;
    var k := Scale(a, b);
    ScaleIs(a, b);
    var i := FirstPaddedDiffers(Parse(a).frac, Parse(b).frac, 0);
    if CmpPadded(Parse(a).frac, Parse(b).frac, 0) != 0 {
      DifferInFraction(a, b, k, i);
    } else {
      Agree(a, b, k);
    }
  }

  // Where strchr and the index tests find the digits of the magnitude at scale k.
  lemma CharsOf(p: string, k: nat)
    requires Magnitude(p) && FracLen(p) <= k
    ensures var w := DotFrom(p, 0);
            var f := if w < |p| then p[w + 1..] else "";
            var x := DigitsAt(Parse(p), k);
            && w == |Parse(p).whole| && f == Parse(p).frac
            && |x| == w + k
            && (forall i | 0 <= i < w :: x[i] == p[i])
            && (forall i | 0 <= i < k :: x[w + i] == Padded(f, i))
            && (forall i | w <= i < w + k :: x[i] == Padded(f, i - w))
  {
    MagnitudeOf(p);
  }

  lemma ScaleIs(a: string, b: string)
    ensures Scale(a, b) == Max(|Parse(a).frac|, |Parse(b).frac|)
  {
  }

  lemma LongerWins(a: string, b: string, k: nat)
    requires Magnitude(a) && Magnitude(b) && FracLen(a) <= k && FracLen(b) <= k
    requires |Parse(a).whole| != |Parse(b).whole|
    ensures Sign(At(a, k) - At(b, k)) == if |Parse(a).whole| > |Parse(b).whole| then 1 else -1
  {
    if |Parse(a).whole| > |Parse(b).whole| { LongerIsGreater(Parse(a), Parse(b), k); }
    else { LongerIsGreater(Parse(b), Parse(a), k); }
  }

  ghost predicate SameWhole(a: string, b: string) {
    DotFrom(a, 0) == DotFrom(b, 0) && forall j | 0 <= j < DotFrom(a, 0) :: a[j] == b[j]
  }

  lemma WholesAgree(a: string, b: string)
    requires DotFrom(a, 0) == DotFrom(b, 0) && forall j | 0 <= j < DotFrom(a, 0) :: a[j] == b[j]
    ensures SameWhole(a, b)
  {
  }

  lemma DifferInWhole(a: string, b: string, k: nat, i: nat)
    requires Magnitude(a) && Magnitude(b) && FracLen(a) <= k && FracLen(b) <= k
    requires i < DotFrom(a, 0) == DotFrom(b, 0) && (forall j | 0 <= j < i :: a[j] == b[j]) && a[i] != b[i]
    ensures Sign(At(a, k) - At(b, k)) == if a[i] > b[i] then 1 else -1
  {
    CharsOf(a, k);
    CharsOf(b, k);
    FirstUnequal(a, b, k, i);
  }

  lemma DifferInFraction(a: string, b: string, k: nat, i: nat)
    requires Magnitude(a) && Magnitude(b) && FracLen(a) <= k && FracLen(b) <= k && SameWhole(a, b)
    requires i < k && (forall j | 0 <= j < i :: Padded(Parse(a).frac, j) == Padded(Parse(b).frac, j))
    requires Padded(Parse(a).frac, i) != Padded(Parse(b).frac, i)
    ensures Sign(At(a, k) - At(b, k)) == if Padded(Parse(a).frac, i) > Padded(Parse(b).frac, i) then 1 else -1
  {
    hide *;
    FractionPrefix(a, b, k, i);
    FirstUnequal(a, b, k, DotFrom(a, 0) + i);
  }

  lemma FractionPrefix(a: string, b: string, k: nat, i: nat)
    requires Magnitude(a) && Magnitude(b) && FracLen(a) <= k && FracLen(b) <= k && SameWhole(a, b)
    requires i < k && (forall j | 0 <= j < i :: Padded(Parse(a).frac, j) == Padded(Parse(b).frac, j))
    ensures var x, y, n := DigitsAt(Parse(a), k), DigitsAt(Parse(b), k), DotFrom(a, 0) + i;
            && n < |x| == |y| && (forall j | 0 <= j < n :: x[j] == y[j])
            && x[n] == Padded(Parse(a).frac, i) && y[n] == Padded(Parse(b).frac, i)
  {
    hide Magnitude, DigitsAt, Parse, DotFrom, Padded;
    var x, y, w := DigitsAt(Parse(a), k), DigitsAt(Parse(b), k), DotFrom(a, 0);
    CharsOf(a, k);
    CharsOf(b, k);
    assert |x| == |y| == w + k;
    forall j | 0 <= j < w + i ensures x[j] == y[j] {
      SameDigit(a, b, k, j);
    }
  }

  // Where neither the integer part nor the fraction differs.
  lemma SameDigit(a: string, b: string, k: nat, j: nat)
    requires Magnitude(a) && Magnitude(b) && FracLen(a) <= k && FracLen(b) <= k && SameWhole(a, b)
    requires var w := DotFrom(a, 0);
      j < w + k && (j >= w ==> Padded(Parse(a).frac, j - w) == Padded(Parse(b).frac, j - w))
    ensures var x, y := DigitsAt(Parse(a), k), DigitsAt(Parse(b), k);
      j < |x| && j < |y| && x[j] == y[j]
  {
    hide Magnitude, DigitsAt, Parse, DotFrom, Padded;
    CharsOf(a, k);
    CharsOf(b, k);
  }

  lemma FirstUnequal(a: string, b: string, k: nat, i: nat)
    requires Magnitude(a) && Magnitude(b) && FracLen(a) <= k && FracLen(b) <= k
    requires var x, y := DigitsAt(Parse(a), k), DigitsAt(Parse(b), k);
             i < |x| == |y| && (forall j | 0 <= j < i :: x[j] == y[j]) && x[i] != y[i]
    ensures Sign(At(a, k) - At(b, k)) == if DigitsAt(Parse(a), k)[i] > DigitsAt(Parse(b), k)[i] then 1 else -1
  {
    var x, y := DigitsAt(Parse(a), k), DigitsAt(Parse(b), k);
    assert x[..i] == y[..i];
    if x[i] < y[i] { NatLess(x, y, i); } else { NatLess(y, x, i); }
  }

  lemma Agree(a: string, b: string, k: nat)
    requires Magnitude(a) && Magnitude(b) && FracLen(a) <= k && FracLen(b) <= k && SameWhole(a, b)
    requires forall j | 0 <= j < k :: Padded(Parse(a).frac, j) == Padded(Parse(b).frac, j)
    ensures Sign(At(a, k) - At(b, k)) == 0
  {
    SameAgain(a, b, k);
  }

  lemma SameAgain(a: string, b: string, k: nat)
    requires Magnitude(a) && Magnitude(b) && FracLen(a) <= k && FracLen(b) <= k && SameWhole(a, b)
    requires forall j | 0 <= j < k :: Padded(Parse(a).frac, j) == Padded(Parse(b).frac, j)
    ensures DigitsAt(Parse(a), k) == DigitsAt(Parse(b), k)
  {
    hide Magnitude, At, DigitsAt, Parse, DotFrom, Sign, ParseMag, WfParts;
    CharsOf(a, k);
    CharsOf(b, k);
    assert DigitsAt(Parse(a), k) == DigitsAt(Parse(b), k);
  }
}
