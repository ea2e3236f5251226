// The public operations on canonical decimal strings.
module BigDecimalOps {
  import opened Decimal
  import opened BigDecimal
  import opened BigDecimalCut
  import opened BigDecimalSum

  // Storing a value: it is cut to the buffer and normalized.
  method Create(value: string) returns (digits: string)
    requires Digital(value)
    ensures |digits| < MAX_DIGITS && FracLen(digits) <= FracLen(value)
    ensures At(digits, FracLen(value)) == CutTo(value, MAX_DIGITS - 1)
    ensures Same(value, digits) <==> Keeps(value, MAX_DIGITS - 1)
    ensures |value| < MAX_DIGITS ==> Same(value, digits)
    ensures Canonical(digits) <==> Wf(value)
    ensures Canonical(value) && |value| < MAX_DIGITS ==> digits == value
    ensures !Wf(value) ==> digits == Headless(Parse(Clip(value, MAX_DIGITS - 1)))
  {
    hide Wf, At, CutTo, Canonical, Headless, Keeps, Parse, Digital;
    ClipValue(value, MAX_DIGITS - 1);
    digits := Normalize(Clip(value, MAX_DIGITS - 1));
    SameAt(Clip(value, MAX_DIGITS - 1), digits, FracLen(value));
    KeepsIff(value, MAX_DIGITS - 1);
  }

  function Unsigned(s: string): string { if s != "" && s[0] == '-' then s[1..] else s }

  lemma UnsignedOf(s: string)
    requires Canonical(s)
    ensures s != "" && (s[0] == '-' <==> Parse(s).neg)
    ensures Magnitude(Unsigned(s)) && |Unsigned(s)| <= |s| && Parse(Unsigned(s)) == Parse(s).(neg := false)
    ensures FracLen(Unsigned(s)) == FracLen(s)
    ensures forall k | FracLen(s) <= k :: At(s, k) == if s[0] == '-' then -At(Unsigned(s), k) else At(Unsigned(s), k)
  {
    MagnitudeOf(s);
  }

  lemma MinusParse(s: string)
    requires Wf(s) && !Parse(s).neg
    ensures Parse("-" + s) == Parse(s).(neg := true) && Wf("-" + s)
  {
    hide Parse, AllDigits;
    RenderParse(s);
    var d := Parse(s).(neg := true);
    ParseRender(d);
    assert Render(d) == "-" + RenderMag(d);
    assert Render(Parse(s)) == "" + RenderMag(d) == RenderMag(d);
  }

  lemma SameDigits(d: Parts, e: Parts, k: nat)
    requires |d.frac| <= k && e == d.(neg := true)
    ensures MagAt(e, k) == MagAt(d, k)
  {
    hide Nat;
  }

  lemma WithMinus(s: string)
    requires Wf(s) && !Parse(s).neg
    ensures Wf("-" + s) && FracLen("-" + s) == FracLen(s)
    ensures forall k | FracLen(s) <= k :: At("-" + s, k) == -At(s, k)
  {
    hide Parse, Wf, DigitsAt, Nat;
    MinusParse(s);
    var d, e := Parse(s), Parse("-" + s);
    forall k | FracLen(s) <= k ensures At("-" + s, k) == -At(s, k) {
      assert MagAt(e, k) == MagAt(d, k) by { SameDigits(d, e, k); }
    }
  }

  // Both non-zero magnitudes cannot have opposite signs and be equal, so the sign decides first.
  method Compare(sa: string, sb: string) returns (c: int)
    requires Canonical(sa) && Canonical(sb)
    ensures c == Sign(At(sa, Scale(sa, sb)) - At(sb, Scale(sa, sb)))
  {
    UnsignedOf(sa);
    UnsignedOf(sb);
    var nega, negb := sa[0] == '-', sb[0] == '-';
    if nega != negb { OppositeSigns(sa, sb, Scale(sa, sb)); }
    if nega && !negb { return -1; }
    if !nega && negb { return 1; }
    var pa := if nega then sa[1..] else sa;
    var pb := if negb then sb[1..] else sb;
    c := CmpAbs(pa, pb);
    c := if nega then -c else c;
  }

  lemma OppositeSigns(s: string, t: string, k: nat)
    requires Canonical(s) && Canonical(t) && FracLen(s) <= k && FracLen(t) <= k && Parse(s).neg != Parse(t).neg
    ensures Sign(At(s, k) - At(t, k)) == if Parse(s).neg then -1 else 1
  {
    CanonicalZero(Parse(s), k);
    CanonicalZero(Parse(t), k);
  }

  // The digits before the point that are written for the sum: those of the sum of the magnitudes for equal
  // signs, of their difference for unequal ones.
  function WholeWritten(pa: string, pb: string, nega: bool, negb: bool): nat {
    if nega == negb then SumWhole(pa, pb) else WholeDigits(pa, pb)
  }

  function SumDigits(sa: string, sb: string): nat {
    WholeWritten(Unsigned(sa), Unsigned(sb), Parse(sa).neg, Parse(sb).neg)
  }

  // The characters of n / 10^k that matter have room in the result buffer behind a sign.
  predicate HasRoom(n: int, whole: nat, k: nat) { n == 0 || Needed(Abs(n), whole, k) <= 510 }

  // r is the exact value n at scale k, in canonical form.
  ghost predicate Exactly(r: string, k: nat, n: int) {
    Canonical(r) && FracLen(r) <= k && At(r, k) == n
  }

  // The canonical string of the sum as far as the result buffer holds it.
  ghost predicate Summed(r: string, sa: string, sb: string) {
    var k := Scale(sa, sb);
    && Canonical(r) && FracLen(r) <= k
    && At(r, k) == CutSigned(At(sa, k) + At(sb, k), SumDigits(sa, sb), k, MAX_DIGITS - 2)
  }

  method Add(sa: string, sb: string) returns (r: string)
    requires Canonical(sa) && Canonical(sb) && |sa| < MAX_DIGITS && |sb| < MAX_DIGITS
    ensures Summed(r, sa, sb) && |r| < MAX_DIGITS
    ensures var k := Scale(sa, sb);
            var n := At(sa, k) + At(sb, k);
            Exactly(r, k, n) <==> HasRoom(n, SumDigits(sa, sb), k)
  {
    hide *;
    ghost var k := Scale(sa, sb);
    UnsignedIs(sa, k);
    UnsignedIs(sb, k);
    SameScale(sa, sb);
    var nega, negb := sa[0] == '-', sb[0] == '-';
    var pa := if nega then sa[1..] else sa;
    var pb := if negb then sb[1..] else sb;
    var result := SignedSum(pa, pb, nega, negb);
    WrittenIs(result, pa, pb, nega, negb);
    WfIsDigital(result);
    r := Normalize(result);
    NormalizedAt(result, r, k);
    CanonicalIsWf(r);
    WfIsDigital(r);
    r := Create(r);
    SumDone(sa, sb, r);
  }

  lemma SumDone(sa: string, sb: string, r: string)
    requires Canonical(r) && FracLen(r) <= Scale(sa, sb)
    requires var k := Scale(sa, sb);
             At(r, k) == CutSigned(At(sa, k) + At(sb, k), SumDigits(sa, sb), k, MAX_DIGITS - 2)
    ensures Summed(r, sa, sb)
    ensures var k := Scale(sa, sb);
            var n := At(sa, k) + At(sb, k);
            Exactly(r, k, n) <==> HasRoom(n, SumDigits(sa, sb), k)
  {
    hide At, CutSigned, Needed, Canonical, SumDigits, Abs;
    var k := Scale(sa, sb);
    CutSignedExactIff(At(sa, k) + At(sb, k), SumDigits(sa, sb), k, MAX_DIGITS - 2);
  }

  function Signed(neg: bool, n: int): int { if neg then -n else n }

  lemma UnsignedIs(s: string, k: nat)
    requires Canonical(s) && FracLen(s) <= k
    ensures s != "" && Unsigned(s) == (if s[0] == '-' then s[1..] else s)
    ensures Magnitude(Unsigned(s)) && |Unsigned(s)| <= |s| && FracLen(Unsigned(s)) == FracLen(s)
    ensures At(s, k) == Signed(s[0] == '-', At(Unsigned(s), k))
  {
    UnsignedOf(s);
  }

  // The sum of the signed magnitudes, as far as the result buffer holds it behind a sign.
  ghost predicate Written(result: string, pa: string, pb: string, nega: bool, negb: bool) {
    var k := Scale(pa, pb);
    && Wf(result) && |result| < MAX_DIGITS && FracLen(result) <= k
    && At(result, k) == CutSigned(Signed(nega, At(pa, k)) + Signed(negb, At(pb, k)),
                                  WholeWritten(pa, pb, nega, negb), k, MAX_DIGITS - 2)
  }

  // The sum before it is normalized: equal signs add the magnitudes, unequal ones take the smaller from the
  // greater and give its sign.
  method SignedSum(pa: string, pb: string, nega: bool, negb: bool) returns (result: string)
    requires Magnitude(pa) && Magnitude(pb) && |pa| < MAX_DIGITS && |pb| < MAX_DIGITS
    ensures Written(result, pa, pb, nega, negb)
  {
    assert MAX_DIGITS == 512;
    hide *;
    ghost var k := Scale(pa, pb);
    if nega == negb {
      result := AddPositive(pa, pb, MAX_DIGITS - 1);
      result := WithSign(result, nega, k);
      SumWritten(result, pa, pb, nega);
      return;
    }
    var c := CmpAbs(pa, pb);
    SignIs(At(pa, k), At(pb, k));
    SwapScale(pa, pb);
    if c == 0 {
      result := "0";
      ZeroWritten(pa, pb, nega, negb);
    } else if c > 0 {
      result := SubPositive(pa, pb, MAX_DIGITS - 1);
      CanonicalIsWf(result);
      result := WithSign(result, nega, k);
      DifferenceWritten(result, pa, pb, nega, negb);
    } else {
      result := SubPositive(pb, pa, MAX_DIGITS - 1);
      CanonicalIsWf(result);
      result := WithSign(result, negb, k);
      DifferenceWritten(result, pb, pa, negb, nega);
      WrittenEitherWay(result, pb, pa, negb, nega);
    }
  }

  lemma SumWritten(r: string, pa: string, pb: string, neg: bool)
    requires Magnitude(pa) && Magnitude(pb)
    requires Wf(r) && |r| < MAX_DIGITS && FracLen(r) <= Scale(pa, pb)
    requires var k := Scale(pa, pb);
      At(r, k) == Signed(neg, CutAt(At(pa, k) + At(pb, k), SumWhole(pa, pb), k, MAX_DIGITS - 2))
    ensures Written(r, pa, pb, neg, neg)
  {
    hide At, Wf, Magnitude, SumWhole, CutSigned, CutAt;
    var k := Scale(pa, pb);
    MagnitudesAt(pa, pb, k);
    SignedCut(neg, At(pa, k) + At(pb, k), SumWhole(pa, pb), k);
  }

  // a is the greater one.
  lemma DifferenceWritten(r: string, a: string, b: string, nega: bool, negb: bool)
    requires Magnitude(a) && Magnitude(b) && nega != negb
    requires Wf(r) && |r| < MAX_DIGITS && FracLen(r) <= Scale(a, b)
    requires var k := Scale(a, b);
      At(a, k) >= At(b, k)
      && At(r, k) == Signed(nega, CutAt(At(a, k) - At(b, k), WholeDigits(a, b), k, MAX_DIGITS - 2))
    ensures Written(r, a, b, nega, negb)
  {
    hide At, Wf, Magnitude, WholeDigits, CutSigned, CutAt;
    var k := Scale(a, b);
    SignedCut(nega, At(a, k) - At(b, k), WholeDigits(a, b), k);
  }

  lemma ZeroWritten(pa: string, pb: string, nega: bool, negb: bool)
    requires nega != negb && At(pa, Scale(pa, pb)) == At(pb, Scale(pa, pb))
    ensures Written("0", pa, pb, nega, negb)
  {
    hide At, Wf, FracLen, CutSigned;
    ZeroString(Scale(pa, pb));
    ZeroSigned(WholeWritten(pa, pb, nega, negb), Scale(pa, pb));
  }

  lemma WrittenEitherWay(r: string, a: string, b: string, nega: bool, negb: bool)
    requires Written(r, a, b, nega, negb) && nega != negb
    ensures Written(r, b, a, negb, nega)
  {
    hide At, Wf, WholeDigits, CutSigned;
    SwapScale(a, b);
  }

  lemma WrittenIs(r: string, pa: string, pb: string, nega: bool, negb: bool)
    requires Written(r, pa, pb, nega, negb)
    ensures var k := Scale(pa, pb);
      && Wf(r) && |r| < MAX_DIGITS && FracLen(r) <= k
      && At(r, k) == CutSigned(Signed(nega, At(pa, k)) + Signed(negb, At(pb, k)),
                               WholeWritten(pa, pb, nega, negb), k, MAX_DIGITS - 2)
  {
  }

  lemma SignedCut(neg: bool, m: int, whole: nat, k: nat)
    requires m >= 0
    ensures CutSigned(Signed(neg, m), whole, k, MAX_DIGITS - 2) == Signed(neg, CutAt(m, whole, k, MAX_DIGITS - 2))
  {
    hide CutSigned, CutAt;
    CutWithSign(neg, m, whole, k, MAX_DIGITS - 2);
  }

  lemma ZeroSigned(whole: nat, k: nat)
    ensures CutSigned(0, whole, k, MAX_DIGITS - 2) == 0
  {
    hide CutAt;
    ZeroCut(whole, k, MAX_DIGITS - 2);
  }

  lemma MagnitudesAt(pa: string, pb: string, k: nat)
    requires Magnitude(pa) && Magnitude(pb) && FracLen(pa) <= k && FracLen(pb) <= k
    ensures At(pa, k) >= 0 && At(pb, k) >= 0
  {
    CanonicalZero(Parse(pa), k);
    CanonicalZero(Parse(pb), k);
  }

  // Puts a minus in front if there is to be one.
  method WithSign(s: string, neg: bool, ghost k: nat) returns (r: string)
    requires Wf(s) && !Parse(s).neg && FracLen(s) <= k
    ensures Wf(r) && FracLen(r) == FracLen(s) && |r| <= |s| + 1
    ensures At(r, k) == Signed(neg, At(s, k))
  {
    hide Wf, Parse, At, FracLen;
    r := s;
    if neg {
      WithMinus(s);
      r := "-" + s;
    }
  }

  lemma SameScale(sa: string, sb: string)
    requires Canonical(sa) && Canonical(sb)
    ensures Scale(Unsigned(sa), Unsigned(sb)) == Scale(sa, sb)
    ensures sa != "" && sb != ""
    ensures SumDigits(sa, sb) == WholeWritten(Unsigned(sa), Unsigned(sb), sa[0] == '-', sb[0] == '-')
  {
    UnsignedOf(sa);
    UnsignedOf(sb);
    hide SumWhole, WholeDigits;
  }

  lemma SignIs(a: int, b: int)
    ensures (Sign(a - b) == 0 <==> a == b) && (Sign(a - b) > 0 <==> a > b)
  {
  }

  lemma ZeroString(k: nat)
    ensures Wf("0") && FracLen("0") == 0 && At("0", k) == 0
  {
    var d := Parts(false, "0", false, "");
    ParseRender(d);
    assert Render(d) == "0";
    CanonicalZero(d, k);
  }

  lemma CanonicalIsWf(s: string)
    requires Canonical(s)
    ensures Wf(s)
  {
  }

  lemma SwapScale(a: string, b: string)
    ensures Scale(a, b) == Scale(b, a) && WholeDigits(a, b) == WholeDigits(b, a)
  {
  }

  lemma NormalizedAt(s: string, r: string, k: nat)
    requires Wf(s) && Canonical(r) && Same(s, r) && FracLen(s) <= k
    ensures FracLen(r) <= k && At(r, k) == At(s, k)
  {
    SameAt(s, r, k);
  }

  lemma Exact(r: string, k: nat, n: int)
    requires Canonical(r) && FracLen(r) <= k && At(r, k) == n
    ensures Exactly(r, k, n)
  {
  }

  // The canonical string of the opposite as far as the buffer holds it: a positive number gains a sign.
  ghost predicate Negated(r: string, sa: string) {
    var k := FracLen(sa);
    && Canonical(r) && FracLen(r) <= k
    && At(r, k) == if Parse(sa).neg then -At(sa, k) else -CutTo(sa, MAX_DIGITS - 2)
  }

  function Opposite(d: Parts): Parts { if d == Parts(false, "0", false, "") then d else d.(neg := !d.neg) }

  // A negative number loses its sign, a positive one gains it, zero stays as it is.
  method Negate(sa: string) returns (r: string)
    requires Canonical(sa) && |sa| < MAX_DIGITS
    ensures Negated(r, sa) && |r| < MAX_DIGITS
    ensures Exactly(r, FracLen(sa), -At(sa, FracLen(sa))) <==> sa[0] == '-' || |sa| <= 510
    ensures sa[0] == '-' || |sa| <= 510 ==> Parse(r) == Opposite(Parse(sa))
  {
    assert MAX_DIGITS == 512;
    hide *;
    var tmp;
    SignFirst(sa);
    if sa[0] == '-' {
      tmp := Clip(sa[1..], MAX_DIGITS - 1);
      LosesSign(sa);
    } else if sa == "0" {
      tmp := "0";
      ZeroStays();
    } else {
      tmp := "-" + Clip(sa, MAX_DIGITS - 2);
      GainsSign(sa);
    }
    HandedIs(tmp, sa);
    WfIsDigital(tmp);
    r := Create(tmp);
    NegateDone(sa, tmp, r);
  }

  // What is handed to `Create`: it denotes the opposite as far as the buffer holds it, and is canonical
  // with the opposite sign if the buffer holds all.
  ghost predicate Handed(tmp: string, sa: string) {
    var k := FracLen(sa);
    && Wf(tmp) && |tmp| < MAX_DIGITS && FracLen(tmp) <= k
    && At(tmp, k) == (if Parse(sa).neg then -At(sa, k) else -CutTo(sa, MAX_DIGITS - 2))
    && (Parse(sa).neg || |sa| < MAX_DIGITS - 1 ==> Canonical(tmp) && Parse(tmp) == Opposite(Parse(sa)))
  }

  lemma HandedIs(tmp: string, sa: string)
    requires Handed(tmp, sa)
    ensures Wf(tmp) && |tmp| < MAX_DIGITS
  {
  }

  lemma SignFirst(s: string)
    requires Canonical(s)
    ensures s != "" && (s[0] == '-' <==> Parse(s).neg)
  {
    MagnitudeOf(s);
  }

  lemma LosesSign(s: string)
    requires Canonical(s) && |s| < MAX_DIGITS && s != "" && s[0] == '-'
    ensures Clip(s[1..], MAX_DIGITS - 1) == s[1..] && Wf(s[1..]) && Handed(s[1..], s)
  {
    UnsignedOf(s);
    CanonicalIsWf(s[1..]);
    hide At, CutTo, Wf;
  }

  lemma ZeroStays()
    ensures Wf("0") && Handed("0", "0")
  {
    ZeroString(0);
    var d := Parts(false, "0", false, "");
    ParseRender(d);
    assert Render(d) == "0";
    hide At, CutSigned, Needed;
    CutZero(MAX_DIGITS - 2);
  }

  lemma CutZero(n: nat)
    requires n >= 1
    ensures CutTo("0", n) == 0
  {
    ZeroString(0);
    hide At, CutAt;
    ZeroCut(|Parse("0").whole|, 0, BigDecimalCut.Room("0", n));
  }

  lemma GainsSign(s: string)
    requires Canonical(s) && |s| < MAX_DIGITS && !Parse(s).neg && s != "0"
    ensures var tmp := "-" + Clip(s, MAX_DIGITS - 2);
            Wf(tmp) && Handed(tmp, s)
  {
    hide At, CutTo, Wf, Parse, Digital, Canonical;
    var t := Clip(s, MAX_DIGITS - 2);
    CanonicalIsWf(s);
    WfIsDigital(s);
    ClipValue(s, MAX_DIGITS - 2);
    WithMinus(t);
    NegativeCanonical(s);
    NotZero(s);
  }

  lemma NotZero(s: string)
    requires Canonical(s) && s != "0"
    ensures Opposite(Parse(s)) == Parse(s).(neg := !Parse(s).neg)
  {
    RenderParse(s);
  }

  lemma NegateDone(sa: string, tmp: string, r: string)
    requires Canonical(sa) && |sa| < MAX_DIGITS && Handed(tmp, sa)
    requires Same(tmp, r) && Canonical(r) && (Canonical(tmp) ==> r == tmp) && |r| < MAX_DIGITS
    requires sa != "" && (sa[0] == '-' <==> Parse(sa).neg)
    ensures Negated(r, sa)
    ensures Exactly(r, FracLen(sa), -At(sa, FracLen(sa))) <==> sa[0] == '-' || |sa| < MAX_DIGITS - 1
    ensures sa[0] == '-' || |sa| < MAX_DIGITS - 1 ==> Parse(r) == Opposite(Parse(sa))
  {
    hide At, CutTo, Wf, Parse, Canonical, Keeps, Opposite;
    SameAt(tmp, r, FracLen(sa));
    KeepsIff(sa, MAX_DIGITS - 2);
    CanonicalKeepsIff(sa, MAX_DIGITS - 2);
  }

  lemma NegativeCanonical(s: string)
    requires Canonical(s) && !Parse(s).neg && s != "0"
    ensures Canonical("-" + s) && Parse("-" + s) == Parse(s).(neg := true)
  {
    RenderParse(s);
    var d := Parse(s).(neg := true);
    NegativeParts(Parse(s));
    ParseRender(d);
    hide CanonicalParts, Parse, RenderMag;
    assert Render(d) == "-" + s;
  }

  lemma NegativeParts(d: Parts)
    requires CanonicalParts(d) && !d.neg && Render(d) != "0"
    ensures CanonicalParts(d.(neg := true))
  {
    assert d.whole == "0" && !d.dotted ==> Render(d) == "0";
  }

  // The digits before the point written for the difference.
  function DifferenceDigits(sa: string, sb: string): nat {
    WholeWritten(Unsigned(sa), Unsigned(sb), Parse(sa).neg, !Parse(sb).neg)
  }

  // The sum with the opposite. Where the opposite has room the result is exact if and only if the difference
  // has; a positive subtrahend of 511 characters loses its last one first.
  method Subtract(sa: string, sb: string) returns (r: string, ghost nb: string)
    requires Canonical(sa) && Canonical(sb) && |sa| < MAX_DIGITS && |sb| < MAX_DIGITS
    ensures Negated(nb, sb) && Summed(r, sa, nb) && |r| < MAX_DIGITS
    ensures sb[0] == '-' || |sb| <= 510 ==>
              var k := Scale(sa, sb);
              var n := At(sa, k) - At(sb, k);
              Exactly(r, k, n) <==> HasRoom(n, DifferenceDigits(sa, sb), k)
  {
    hide *;
    SignFirst(sb);
    var negB := Negate(sb);
    NegatedIs(negB, sb);
    r := Add(sa, negB);
    nb := negB;
    if sb[0] == '-' || |sb| <= 510 {
      ExactIs(negB, FracLen(sb), -At(sb, FracLen(sb)));
      OppositeScale(sa, sb, nb);
      OppositeAt(sb, nb, Scale(sa, sb));
      OppositeDigits(sa, sb, nb);
    }
  }

  lemma NegatedIs(r: string, s: string)
    requires Negated(r, s)
    ensures Canonical(r) && FracLen(r) <= FracLen(s)
  {
  }

  lemma OppositeScale(sa: string, sb: string, nb: string)
    requires Parse(nb) == Opposite(Parse(sb))
    ensures Scale(sa, nb) == Scale(sa, sb) && FracLen(nb) == FracLen(sb)
  {
  }

  // Written for the sum with the opposite: as many digits as for the difference.
  lemma OppositeDigits(sa: string, sb: string, nb: string)
    requires Canonical(sa) && Canonical(sb) && Canonical(nb) && Parse(nb) == Opposite(Parse(sb))
    ensures SumDigits(sa, nb) == DifferenceDigits(sa, sb)
  {
    hide Parse, Canonical, WholeDigits;
    SameMagnitude(sb, nb);
    if Parse(sb) == Parts(false, "0", false, "") {
      NoCarry(Unsigned(sa), Unsigned(sb), sa);
    }
  }

  lemma SameMagnitude(sb: string, nb: string)
    requires Canonical(sb) && Canonical(nb) && Parse(nb) == Opposite(Parse(sb))
    ensures Unsigned(nb) == Unsigned(sb) && Parse(Unsigned(sb)) == Parse(sb).(neg := false)
  {
    UnsignedOf(sb);
    UnsignedOf(nb);
    RenderParse(Unsigned(sb));
    RenderParse(Unsigned(nb));
  }

  // Adding 0 carries nothing.
  lemma NoCarry(pa: string, pb: string, sa: string)
    requires Canonical(sa) && pa == Unsigned(sa) && Parse(pb) == Parts(false, "0", false, "")
    ensures SumWhole(pa, pb) == WholeDigits(pa, pb)
  {
    hide Nat, Pow10, DigitsAt, Parse, CanonicalParts, DigitParts, WfParts;
    UnsignedOf(sa);
    var d, k := Parse(pa), Scale(pa, pb);
    ZeroPart();
    CanonicalZero(Parse(pb), k);
    BelowPower(d, k);
    Pow10Monotone(|d.whole| + k, WholeDigits(pa, pb) + k);
  }

  lemma ZeroPart()
    ensures CanonicalParts(Parts(false, "0", false, ""))
  {
  }

  lemma BelowPower(d: Parts, k: nat)
    requires CanonicalParts(d) && |d.frac| <= k
    ensures MagAt(d, k) < Pow10(|d.whole| + k)
  {
    NatBounds(DigitsAt(d, k));
  }

  lemma ExactIs(r: string, k: nat, n: int)
    requires Exactly(r, k, n)
    ensures Canonical(r) && FracLen(r) <= k && At(r, k) == n
  {
  }

  lemma {:induction false} OppositeAt(s: string, t: string, k: nat)
    requires FracLen(t) <= FracLen(s) <= k && At(t, FracLen(s)) == -At(s, FracLen(s))
    ensures At(t, k) == -At(s, k)
  {
    hide At;
    if k > FracLen(s) {
      OppositeAt(s, t, k - 1);
      FinerScale(s, k - 1);
      FinerScale(t, k - 1);
    }
  }
}
