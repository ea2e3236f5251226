// Adding and subtracting decimal strings column by column in a character buffer.
module BigDecimalSum {
  import opened Decimal
  import opened BigDecimal
  import opened BigDecimalCut

  // ----- Addition and subtraction of magnitudes -----

  // What the column loops read at fraction place i, and at whole place i counted from the point.
  function FractionColumn(f: string, i: nat): int { if i < |f| then Digit(f[i]) else 0 }

  function WholeColumn(w: string, i: nat): int { if i < |w| then Digit(w[|w| - 1 - i]) else 0 }

  // Both operands as equally long digit strings, mi whole places before the fraction places.
  ghost predicate Operands(x: string, y: string, a: Parts, b: Parts, mi: nat, mf: nat) {
    && |a.whole| <= mi && |b.whole| <= mi && |a.frac| <= mf && |b.frac| <= mf
    && WfParts(a) && WfParts(b)
    && x == Aligned(a, mi, mf) && y == Aligned(b, mi, mf)
  }

  // r holds the columns from t on of x + y, c the carry out of them.
  ghost predicate Added(x: string, y: string, t: nat, r: string, c: int) {
    && t <= |x| == |y| && |r| == |x| - t && AllDigits(x) && AllDigits(y) && AllDigits(r) && 0 <= c <= 1
    && Nat(r) + c * Pow10(|r|) == Nat(x[t..]) + Nat(y[t..])
  }

  // The same for x - y, c being the borrow.
  ghost predicate Subtracted(x: string, y: string, t: nat, r: string, c: int) {
    && t <= |x| == |y| && |r| == |x| - t && AllDigits(x) && AllDigits(y) && AllDigits(r) && 0 <= c <= 1
    && Nat(r) - c * Pow10(|r|) == Nat(x[t..]) - Nat(y[t..])
  }

  lemma StartColumns(x: string, y: string, a: Parts, b: Parts, mi: nat, mf: nat)
    requires Operands(x, y, a, b, mi, mf)
    ensures |x| == |y| == mi + mf
    ensures Added(x, y, mi + mf, "", 0) && Subtracted(x, y, mi + mf, "", 0)
    ensures Nat(x) == MagAt(a, mf) && Nat(y) == MagAt(b, mf)
  {
    AlignedValue(a, mi, mf);
    AlignedValue(b, mi, mf);
    assert x[mi + mf..] == "" && y[mi + mf..] == "";
  }

  lemma ReadFraction(x: string, y: string, a: Parts, b: Parts, mi: nat, mf: nat, i: nat)
    requires Operands(x, y, a, b, mi, mf) && i < mf
    ensures |x| == |y| == mi + mf
    ensures Digit(x[mi + i]) == FractionColumn(a.frac, i) && Digit(y[mi + i]) == FractionColumn(b.frac, i)
  {
  }

  lemma ReadWhole(x: string, y: string, a: Parts, b: Parts, mi: nat, mf: nat, i: nat)
    requires Operands(x, y, a, b, mi, mf) && i < mi
    ensures |x| == |y| == mi + mf
    ensures Digit(x[mi - 1 - i]) == WholeColumn(a.whole, i) && Digit(y[mi - 1 - i]) == WholeColumn(b.whole, i)
  {
  }

  lemma AddedStep(x: string, y: string, t: nat, r: string, c: int)
    requires Added(x, y, t, r, c) && t > 0
    ensures var s := Digit(x[t - 1]) + Digit(y[t - 1]) + c;
            0 <= s <= 19 && Added(x, y, t - 1, [DigitChar(s % 10)] + r, s / 10)
  {
    AddColumn(x, y, t, r, c);
  }

  lemma SubtractedStep(x: string, y: string, t: nat, r: string, c: int)
    requires Subtracted(x, y, t, r, c) && t > 0
    ensures var d := Digit(x[t - 1]) - Digit(y[t - 1]) - c;
            var b := if d < 0 then 1 else 0;
            -10 <= d <= 9 && Subtracted(x, y, t - 1, [DigitChar(d + 10 * b)] + r, b)
  {
    SubColumn(x, y, t, r, c);
  }

  // The buffer with whole digits w ending at cell mi, then the point and the fraction digits f ending at
  // cell mi + mf; the rest is the zeroes it was cleared with.
  ghost predicate Holds(cells: seq<char>, mi: nat, mf: nat, w: string, f: string, pointed: bool) {
    && |w| <= mi && |f| <= mf && mi + mf + 2 <= |cells|
    && cells[mi - |w|..mi] == w
    && cells[mi + 1 + mf - |f|..mi + 1 + mf] == f
    && cells[mi] == (if pointed then '.' else '\0')
    && forall j | mi + 1 + mf <= j < |cells| :: cells[j] == '\0'
  }

  lemma PutFraction(cells: seq<char>, mi: nat, mf: nat, f: string, c: char)
    requires Holds(cells, mi, mf, "", f, false) && |f| < mf
    ensures Holds(cells[mi + mf - |f| := c], mi, mf, "", [c] + f, false)
  {
    var after := cells[mi + mf - |f| := c];
    assert after[mi + mf - |f|..mi + 1 + mf] == [c] + cells[mi + 1 + mf - |f|..mi + 1 + mf];
  }

  lemma PutPoint(cells: seq<char>, mi: nat, mf: nat, f: string)
    requires Holds(cells, mi, mf, "", f, false)
    ensures Holds(cells[mi := '.'], mi, mf, "", f, true)
  {
    assert cells[mi := '.'][mi + 1 + mf - |f|..mi + 1 + mf] == f;
  }

  lemma PutWhole(cells: seq<char>, mi: nat, mf: nat, w: string, f: string, pointed: bool, c: char)
    requires Holds(cells, mi, mf, w, f, pointed) && |w| < mi
    ensures Holds(cells[mi - 1 - |w| := c], mi, mf, [c] + w, f, pointed)
  {
    var after := cells[mi - 1 - |w| := c];
    assert after[mi - 1 - |w|..mi] == [c] + cells[mi - |w|..mi];
    assert after[mi + 1 + mf - |f|..mi + 1 + mf] == f;
  }

  lemma Cleared(cells: seq<char>, mi: nat, mf: nat)
    requires mi + mf + 2 <= |cells| && forall j | 0 <= j < |cells| :: cells[j] == '\0'
    ensures Holds(cells, mi, mf, "", "", false)
  {
  }

  // The C string in a buffer: everything before the first NUL.
  method CString(tmp: array<char>) returns (s: string)
    requires exists j :: 0 <= j < tmp.Length && tmp[j] == '\0'
    ensures |s| < tmp.Length && s == tmp[..|s|] && tmp[|s|] == '\0' && '\0' !in s
  {
    var n := 0;
    while tmp[n] != '\0'
      invariant n < tmp.Length && '\0' !in tmp[..n]
      decreases tmp.Length - n
    {
      assert tmp[..n + 1] == tmp[..n] + [tmp[n]];
      n := n + 1;
    }
    s := tmp[..n];
  }

  lemma FirstNul(cells: seq<char>, mi: nat, mf: nat, w: string, f: string, s: string)
    requires Holds(cells, mi, mf, w, f, mf > 0) && |w| == mi && |f| == mf && AllDigits(w) && AllDigits(f)
    requires |s| < |cells| && s == cells[..|s|] && cells[|s|] == '\0' && '\0' !in s
    ensures s == RenderMag(Parts(false, w, mf > 0, f))
  {
    var t := RenderMag(Parts(false, w, mf > 0, f));
    assert cells[..mi] == w;
    assert cells[mi + 1..mi + 1 + mf] == f;
    assert cells[..|t|] == t;
    assert cells[|t|] == '\0';
    assert forall j | 0 <= j < |t| :: cells[j] == t[j] && t[j] != '\0';
    assert forall j | 0 <= j < |s| :: cells[j] == s[j] && s[j] in s;
  }

  method AddFractions(tmp: array<char>, fa: string, fb: string, mi: nat, mf: nat,
                      ghost x: string, ghost y: string, ghost a: Parts, ghost b: Parts)
    returns (carry: int, ghost f: string)
    requires Operands(x, y, a, b, mi, mf) && fa == a.frac && fb == b.frac
    requires Holds(tmp[..], mi, mf, "", "", false) && mi + mf + 2 <= tmp.Length
    modifies tmp
    ensures |f| == mf && Added(x, y, mi, f, carry) && Holds(tmp[..], mi, mf, "", f, false)
  {
    hide *;
    StartColumns(x, y, a, b, mi, mf);
    carry, f := 0, "";
    var i: nat := mf;
    while i > 0
      invariant i <= mf && |f| == mf - i
      invariant Added(x, y, mi + i, f, carry)
      invariant Holds(tmp[..], mi, mf, "", f, false)
    {
      i := i - 1;
      ReadFraction(x, y, a, b, mi, mf, i);
      AddedStep(x, y, mi + i + 1, f, carry);
      var s := FractionColumn(fa, i) + FractionColumn(fb, i) + carry;
      carry := s / 10;
      PutFraction(tmp[..], mi, mf, f, DigitChar(s % 10));
      f := [DigitChar(s % 10)] + f;
      ghost var before := tmp[..];
      tmp[mi + 1 + i] := DigitChar(s % 10);
      assert tmp[..] == before[mi + 1 + i := DigitChar(s % 10)];
    }
  }

  method AddWholes(tmp: array<char>, wa: string, wb: string, mi: nat, mf: nat, carry0: int,
                   ghost x: string, ghost y: string, ghost a: Parts, ghost b: Parts, ghost f: string)
    returns (carry: int, ghost w: string)
    requires Operands(x, y, a, b, mi, mf) && wa == a.whole && wb == b.whole
    requires Added(x, y, mi, f, carry0) && |f| == mf
    requires Holds(tmp[..], mi, mf, "", f, mf > 0) && mi + mf + 2 <= tmp.Length
    modifies tmp
    ensures |w| == mi && Added(x, y, 0, w + f, carry) && Holds(tmp[..], mi, mf, w, f, mf > 0)
  {
    hide *;
    carry, w := carry0, "";
    assert "" + f == f;
    var i := 0;
    while i < mi
      invariant i <= mi && |w| == i
      invariant Added(x, y, mi - i, w + f, carry)
      invariant Holds(tmp[..], mi, mf, w, f, mf > 0)
    {
      ReadWhole(x, y, a, b, mi, mf, i);
      AddedStep(x, y, mi - i, w + f, carry);
      var s := WholeColumn(wa, i) + WholeColumn(wb, i) + carry;
      carry := s / 10;
      PutWhole(tmp[..], mi, mf, w, f, mf > 0, DigitChar(s % 10));
      assert [DigitChar(s % 10)] + (w + f) == ([DigitChar(s % 10)] + w) + f;
      w := [DigitChar(s % 10)] + w;
      ghost var before := tmp[..];
      tmp[mi - 1 - i] := DigitChar(s % 10);
      assert tmp[..] == before[mi - 1 - i := DigitChar(s % 10)];
      i := i + 1;
    }
  }

  // Digits before the point of two magnitudes written under each other.
  function WholeDigits(a: string, b: string): nat { Max(|Parse(a).whole|, |Parse(b).whole|) }

  // Those of their sum as it is written: one more if the last carry is not 0.
  function SumWhole(a: string, b: string): nat {
    var k := Scale(a, b);
    WholeDigits(a, b) + if At(a, k) + At(b, k) >= Pow10(WholeDigits(a, b) + k) then 1 else 0
  }

  // Adds two magnitudes. The sum is cut to the buffer.
  method AddPositive(a: string, b: string, bufsz: nat) returns (buf: string)
    requires Magnitude(a) && Magnitude(b) && |a| < MAX_DIGITS && |b| < MAX_DIGITS && bufsz > 2
    ensures Wf(buf) && !Parse(buf).neg && |buf| < bufsz
    ensures FracLen(buf) <= Scale(a, b)
    ensures At(buf, Scale(a, b))
         == CutAt(At(a, Scale(a, b)) + At(b, Scale(a, b)), SumWhole(a, b), Scale(a, b), bufsz - 1)
  {
    hide *;
    Setup(a, b);
    var wa, fa := Cut(a);
    var wb, fb := Cut(b);
    var text, carry;
    ghost var w, f;
    text, carry, w, f := SumBuffer(wa, fa, wb, fb, Parse(a), Parse(b));
    SumRead(a, b, w, f, carry, text);
    if carry != 0 { text := [DigitChar(carry)] + text; }
    ClippedMagnitude(text, bufsz - 1);
    buf := Clip(text, bufsz - 1);
  }

  // A written number without a sign, cut to n characters.
  lemma ClippedMagnitude(text: string, n: nat)
    requires Wf(text) && !Parse(text).neg && n >= 2
    ensures var t, k := Clip(text, n), FracLen(text);
      && Wf(t) && Digital(t) && !Parse(t).neg && |t| <= n && FracLen(t) <= k
      && At(t, k) == CutAt(At(text, k), |Parse(text).whole|, k, n)
  {
    hide At, Digital, CutAt;
    WfIsDigital(text);
    ClipValue(text, n);
    CutToIs(text, n, n);
    NotNegative(text);
  }

  lemma NotNegative(s: string)
    requires Wf(s) && !Parse(s).neg
    ensures At(s, FracLen(s)) >= 0
  {
    NatBounds(DigitsAt(Parse(s), FracLen(s)));
  }

  // The work in the buffer: fraction columns, the point, whole columns; the last carry is left over.
  method SumBuffer(wa: string, fa: string, wb: string, fb: string, ghost a: Parts, ghost b: Parts)
    returns (text: string, carry: int, ghost w: string, ghost f: string)
    requires wa == a.whole && fa == a.frac && wb == b.whole && fb == b.frac
    requires Lined(a, b)
    ensures |w| == Max(|a.whole|, |b.whole|) && |f| == Max(|a.frac|, |b.frac|)
    ensures Fits(a, b) && Added(Over(a, b), Over(b, a), 0, w + f, carry)
    ensures text == RenderMag(Parts(false, w, |f| > 0, f))
  {
    hide *;
    var mi, mf := Max(|wa|, |wb|), Max(|fa|, |fb|);
    LinedUp(a, b);
    ghost var x, y := Over(a, b), Over(b, a);
    var tmp := new char[2 * MAX_DIGITS](_ => '\0');
    Cleared(tmp[..], mi, mf);
    carry, f := AddFractions(tmp, fa, fb, mi, mf, x, y, a, b);
    if mf > 0 {
      PutPoint(tmp[..], mi, mf, f);
      ghost var before := tmp[..];
      tmp[mi] := '.';
      assert tmp[..] == before[mi := '.'];
    }
    carry, w := AddWholes(tmp, wa, wb, mi, mf, carry, x, y, a, b, f);
    EndsInNul(tmp[..], mi, mf, w, f, mf > 0);
    assert tmp[..][mi + mf + 1] == tmp[mi + mf + 1];
    text := CString(tmp);
    AddedDigits(x, y, w + f, carry);
    DigitsOfJoin(w, f);
    FirstNul(tmp[..], mi, mf, w, f, text);
  }

  lemma AddedDigits(x: string, y: string, r: string, c: int)
    requires Added(x, y, 0, r, c)
    ensures AllDigits(r) && 0 <= c <= 1
  {
  }

  ghost predicate Fits(a: Parts, b: Parts) {
    && |a.whole| <= Max(|a.whole|, |b.whole|) && |a.frac| <= Max(|a.frac|, |b.frac|)
    && |b.whole| <= Max(|b.whole|, |a.whole|) && |b.frac| <= Max(|b.frac|, |a.frac|)
  }

  lemma AlwaysFits(a: Parts, b: Parts)
    ensures Fits(a, b)
  {
  }

  // a written out with as many places as a and b need together.
  ghost function Over(a: Parts, b: Parts): string {
    AlwaysFits(a, b);
    Aligned(a, Max(|a.whole|, |b.whole|), Max(|a.frac|, |b.frac|))
  }

  ghost predicate Lined(a: Parts, b: Parts) {
    && WfParts(a) && WfParts(b)
    && Max(|a.whole|, |b.whole|) + Max(|a.frac|, |b.frac|) + 2 <= 2 * MAX_DIGITS
  }

  lemma LinedUp(a: Parts, b: Parts)
    requires Lined(a, b)
    ensures var mi, mf := Max(|a.whole|, |b.whole|), Max(|a.frac|, |b.frac|);
            Fits(a, b) && mi + mf + 2 <= 2 * MAX_DIGITS && Operands(Over(a, b), Over(b, a), a, b, mi, mf)
  {
  }

  lemma EndsInNul(cells: seq<char>, mi: nat, mf: nat, w: string, f: string, pointed: bool)
    requires Holds(cells, mi, mf, w, f, pointed)
    ensures mi + mf + 1 < |cells| && cells[mi + mf + 1] == '\0'
  {
  }

  lemma WholeOf(p: string)
    requires Magnitude(p)
    ensures var w := DotFrom(p, 0);
            && w <= |p| && p[..w] == Parse(p).whole
            && (if w < |p| then p[w + 1..] else "") == Parse(p).frac
    ensures WfParts(Parse(p)) && !Parse(p).neg && |Parse(p).whole| + |Parse(p).frac| <= |p|
  {
    MagnitudeOf(p);
    RenderParse(p);
  }

  // The cut at the point.
  method Cut(p: string) returns (w: string, f: string)
    requires Magnitude(p)
    ensures w == Parse(p).whole && f == Parse(p).frac
  {
    WholeOf(p);
    var d := DotFrom(p, 0);
    return p[..d], if d < |p| then p[d + 1..] else "";
  }

  lemma Setup(a: string, b: string)
    requires Magnitude(a) && Magnitude(b) && |a| < MAX_DIGITS && |b| < MAX_DIGITS
    ensures Lined(Parse(a), Parse(b)) && Scale(a, b) == Max(|Parse(a).frac|, |Parse(b).frac|)
  {
    WholeOf(a);
    WholeOf(b);
  }

  // Digits with a point among them, read as a decimal string.
  lemma JoinedString(w: string, f: string)
    requires AllDigits(w) && AllDigits(f) && w != ""
    ensures var t := RenderMag(Parts(false, w, |f| > 0, f));
            && Wf(t) && !Parse(t).neg && |Parse(t).whole| == |w|
            && FracLen(t) == |f| && At(t, |f|) == Nat(w + f)
  {
    var d := Parts(false, w, |f| > 0, f);
    ParseRender(d);
    assert Render(d) == RenderMag(d);
    assert DigitsAt(d, |f|) == w + f;
    hide Nat, Pow10;
  }

  lemma CarriedString(w: string, f: string, carry: int)
    requires 0 <= carry <= 9 && AllDigits(w) && AllDigits(f) && w != ""
    ensures var text := RenderMag(Parts(false, w, |f| > 0, f));
            var t := if carry != 0 then [DigitChar(carry)] + text else text;
            && Wf(t) && !Parse(t).neg && |Parse(t).whole| == |w| + (if carry != 0 then 1 else 0)
            && FracLen(t) == |f| && At(t, |f|) == Nat(w + f) + carry * Pow10(|w + f|)
  {
    hide Parse, RenderMag, Nat, Pow10, At, Wf, AllDigits;
    if carry != 0 {
      var c := [DigitChar(carry)];
      CarryInFront(c[0], w, f);
      JoinedString(c + w, f);
      assert (c + w) + f == c + (w + f);
      NatCons(DigitChar(carry), w + f);
    } else {
      JoinedString(w, f);
    }
  }

  lemma CarryInFront(c: char, w: string, f: string)
    requires IsDigit(c) && AllDigits(w)
    ensures AllDigits([c] + w)
    ensures RenderMag(Parts(false, [c] + w, |f| > 0, f)) == [c] + RenderMag(Parts(false, w, |f| > 0, f))
  {
  }

  lemma AddedUp(a: Parts, b: Parts, r: string, c: int)
    requires Lined(a, b) && Fits(a, b) && Added(Over(a, b), Over(b, a), 0, r, c)
    ensures Nat(r) + c * Pow10(|r|) == MagAt(a, Max(|a.frac|, |b.frac|)) + MagAt(b, Max(|a.frac|, |b.frac|))
  {
    var x, y := Over(a, b), Over(b, a);
    LinedUp(a, b);
    StartColumns(x, y, a, b, Max(|a.whole|, |b.whole|), Max(|a.frac|, |b.frac|));
    assert x[0..] == x && y[0..] == y;
  }

  // The finished buffer with the last carry in front, read back.
  lemma SumRead(a: string, b: string, w: string, f: string, carry: int, text: string)
    requires Magnitude(a) && Magnitude(b) && Lined(Parse(a), Parse(b)) && Fits(Parse(a), Parse(b))
    requires |w| == Max(|Parse(a).whole|, |Parse(b).whole|) && |f| == Max(|Parse(a).frac|, |Parse(b).frac|)
    requires Added(Over(Parse(a), Parse(b)), Over(Parse(b), Parse(a)), 0, w + f, carry)
    requires text == RenderMag(Parts(false, w, |f| > 0, f))
    ensures 0 <= carry <= 1
    ensures var t := if carry != 0 then [DigitChar(carry)] + text else text;
            && Wf(t) && !Parse(t).neg && |Parse(t).whole| == SumWhole(a, b)
            && FracLen(t) == Scale(a, b) && At(t, Scale(a, b)) == At(a, Scale(a, b)) + At(b, Scale(a, b))
  {
    hide Nat, Pow10, DigitsAt, Added, AllDigits, RenderMag, Magnitude, Over, MagAt, Lined;
    AddedUp(Parse(a), Parse(b), w + f, carry);
    AddedDigits(Over(Parse(a), Parse(b)), Over(Parse(b), Parse(a)), w + f, carry);
    NatBounds(w + f);
    OneOrNone(carry, Pow10(|w + f|));
    DigitsOfJoin(w, f);
    WholeNotEmpty(a);
    WholeNotEmpty(b);
    CarriedString(w, f, carry);
  }

  lemma WholeNotEmpty(p: string)
    requires Magnitude(p)
    ensures Parse(p).whole != "" && !Parse(p).neg
  {
  }

  lemma DigitsOfJoin(w: string, f: string)
    requires AllDigits(w + f)
    ensures AllDigits(w) && AllDigits(f)
  {
    assert forall i | 0 <= i < |w| :: w[i] == (w + f)[i];
    assert forall i | 0 <= i < |f| :: f[i] == (w + f)[|w| + i];
  }

  method SubFractions(tmp: array<char>, fa: string, fb: string, mi: nat, mf: nat,
                      ghost x: string, ghost y: string, ghost a: Parts, ghost b: Parts)
    returns (borrow: int, ghost f: string)
    requires Operands(x, y, a, b, mi, mf) && fa == a.frac && fb == b.frac
    requires Holds(tmp[..], mi, mf, "", "", false) && mi + mf + 2 <= tmp.Length
    modifies tmp
    ensures |f| == mf && Subtracted(x, y, mi, f, borrow) && Holds(tmp[..], mi, mf, "", f, false)
  {
    hide *;
    StartColumns(x, y, a, b, mi, mf);
    borrow, f := 0, "";
    var i: nat := mf;
    while i > 0
      invariant i <= mf && |f| == mf - i
      invariant Subtracted(x, y, mi + i, f, borrow)
      invariant Holds(tmp[..], mi, mf, "", f, false)
    {
      i := i - 1;
      ReadFraction(x, y, a, b, mi, mf, i);
      SubtractedStep(x, y, mi + i + 1, f, borrow);
      var d := FractionColumn(fa, i) - FractionColumn(fb, i) - borrow;
      if d < 0 { d := d + 10; borrow := 1; } else { borrow := 0; }
      PutFraction(tmp[..], mi, mf, f, DigitChar(d));
      f := [DigitChar(d)] + f;
      ghost var before := tmp[..];
      tmp[mi + 1 + i] := DigitChar(d);
      assert tmp[..] == before[mi + 1 + i := DigitChar(d)];
    }
  }

  method SubWholes(tmp: array<char>, wa: string, wb: string, mi: nat, mf: nat, borrow0: int,
                   ghost x: string, ghost y: string, ghost a: Parts, ghost b: Parts, ghost f: string)
    returns (borrow: int, ghost w: string)
    requires Operands(x, y, a, b, mi, mf) && wa == a.whole && wb == b.whole
    requires Subtracted(x, y, mi, f, borrow0) && |f| == mf
    requires Holds(tmp[..], mi, mf, "", f, mf > 0) && mi + mf + 2 <= tmp.Length
    modifies tmp
    ensures |w| == mi && Subtracted(x, y, 0, w + f, borrow) && Holds(tmp[..], mi, mf, w, f, mf > 0)
  {
    hide *;
    borrow, w := borrow0, "";
    assert "" + f == f;
    var i := 0;
    while i < mi
      invariant i <= mi && |w| == i
      invariant Subtracted(x, y, mi - i, w + f, borrow)
      invariant Holds(tmp[..], mi, mf, w, f, mf > 0)
    {
      ReadWhole(x, y, a, b, mi, mf, i);
      SubtractedStep(x, y, mi - i, w + f, borrow);
      var d := WholeColumn(wa, i) - WholeColumn(wb, i) - borrow;
      if d < 0 { d := d + 10; borrow := 1; } else { borrow := 0; }
      PutWhole(tmp[..], mi, mf, w, f, mf > 0, DigitChar(d));
      assert [DigitChar(d)] + (w + f) == ([DigitChar(d)] + w) + f;
      w := [DigitChar(d)] + w;
      ghost var before := tmp[..];
      tmp[mi - 1 - i] := DigitChar(d);
      assert tmp[..] == before[mi - 1 - i := DigitChar(d)];
      i := i + 1;
    }
  }

  method DifferenceBuffer(wa: string, fa: string, wb: string, fb: string, ghost a: Parts, ghost b: Parts)
    returns (text: string, borrow: int, ghost w: string, ghost f: string)
    requires wa == a.whole && fa == a.frac && wb == b.whole && fb == b.frac
    requires Lined(a, b)
    ensures |w| == Max(|a.whole|, |b.whole|) && |f| == Max(|a.frac|, |b.frac|)
    ensures Fits(a, b) && Subtracted(Over(a, b), Over(b, a), 0, w + f, borrow)
    ensures text == RenderMag(Parts(false, w, |f| > 0, f))
  {
    hide *;
    var mi, mf := Max(|wa|, |wb|), Max(|fa|, |fb|);
    LinedUp(a, b);
    ghost var x, y := Over(a, b), Over(b, a);
    var tmp := new char[2 * MAX_DIGITS](_ => '\0');
    Cleared(tmp[..], mi, mf);
    borrow, f := SubFractions(tmp, fa, fb, mi, mf, x, y, a, b);
    if mf > 0 {
      PutPoint(tmp[..], mi, mf, f);
      ghost var before := tmp[..];
      tmp[mi] := '.';
      assert tmp[..] == before[mi := '.'];
    }
    borrow, w := SubWholes(tmp, wa, wb, mi, mf, borrow, x, y, a, b, f);
    EndsInNul(tmp[..], mi, mf, w, f, mf > 0);
    assert tmp[..][mi + mf + 1] == tmp[mi + mf + 1];
    text := CString(tmp);
    SubtractedDigits(x, y, w + f, borrow);
    DigitsOfJoin(w, f);
    FirstNul(tmp[..], mi, mf, w, f, text);
  }

  lemma SubtractedDigits(x: string, y: string, r: string, c: int)
    requires Subtracted(x, y, 0, r, c)
    ensures AllDigits(r) && 0 <= c <= 1
  {
  }

  // Subtracts the smaller magnitude from the greater. The borrow left over is 0: nothing is missing at the top.
  // The difference is cut to the buffer before it is normalized.
  method SubPositive(a: string, b: string, bufsz: nat) returns (buf: string)
    requires Magnitude(a) && Magnitude(b) && |a| < MAX_DIGITS && |b| < MAX_DIGITS && bufsz > 2
    requires At(a, Scale(a, b)) >= At(b, Scale(a, b))
    ensures Canonical(buf) && !Parse(buf).neg && |buf| < bufsz
    ensures FracLen(buf) <= Scale(a, b)
    ensures At(buf, Scale(a, b))
         == CutAt(At(a, Scale(a, b)) - At(b, Scale(a, b)), WholeDigits(a, b), Scale(a, b), bufsz - 1)
  {
    hide *;
    Setup(a, b);
    var wa, fa := Cut(a);
    var wb, fb := Cut(b);
    var text, borrow;
    ghost var w, f;
    text, borrow, w, f := DifferenceBuffer(wa, fa, wb, fb, Parse(a), Parse(b));
    DifferenceRead(a, b, w, f, borrow, text);
    assert borrow == 0;
    ClippedMagnitude(text, bufsz - 1);
    buf := Normalize(Clip(text, bufsz - 1));
    NormalMagnitude(Clip(text, bufsz - 1), buf, Scale(a, b));
  }

  lemma SubtractedAll(a: Parts, b: Parts, r: string, c: int)
    requires Lined(a, b) && Fits(a, b) && Subtracted(Over(a, b), Over(b, a), 0, r, c)
    ensures Nat(r) - c * Pow10(|r|) == MagAt(a, Max(|a.frac|, |b.frac|)) - MagAt(b, Max(|a.frac|, |b.frac|))
  {
    var x, y := Over(a, b), Over(b, a);
    LinedUp(a, b);
    StartColumns(x, y, a, b, Max(|a.whole|, |b.whole|), Max(|a.frac|, |b.frac|));
    assert x[0..] == x && y[0..] == y;
  }

  lemma SubtractedDown(a: Parts, b: Parts, r: string, c: int)
    requires Lined(a, b) && Fits(a, b) && Subtracted(Over(a, b), Over(b, a), 0, r, c)
    requires MagAt(a, Max(|a.frac|, |b.frac|)) >= MagAt(b, Max(|a.frac|, |b.frac|))
    ensures c == 0 && Nat(r) == MagAt(a, Max(|a.frac|, |b.frac|)) - MagAt(b, Max(|a.frac|, |b.frac|))
  {
    hide *;
    SubtractedAll(a, b, r, c);
    SubtractedDigits(Over(a, b), Over(b, a), r, c);
    NatBounds(r);
    OneOrNone(c, Pow10(|r|));
  }

  lemma OneOrNone(c: int, p: int)
    requires 0 <= c <= 1
    ensures c * p == if c == 1 then p else 0
  {
  }

  lemma DifferenceRead(a: string, b: string, w: string, f: string, borrow: int, text: string)
    requires Magnitude(a) && Magnitude(b) && Lined(Parse(a), Parse(b)) && Fits(Parse(a), Parse(b))
    requires At(a, Scale(a, b)) >= At(b, Scale(a, b))
    requires |w| == Max(|Parse(a).whole|, |Parse(b).whole|) && |f| == Max(|Parse(a).frac|, |Parse(b).frac|)
    requires Subtracted(Over(Parse(a), Parse(b)), Over(Parse(b), Parse(a)), 0, w + f, borrow)
    requires text == RenderMag(Parts(false, w, |f| > 0, f))
    ensures borrow == 0
    ensures Wf(text) && !Parse(text).neg && |Parse(text).whole| == WholeDigits(a, b)
    ensures FracLen(text) == Scale(a, b) && At(text, Scale(a, b)) == At(a, Scale(a, b)) - At(b, Scale(a, b))
  {
    hide Nat, Pow10, DigitsAt, Subtracted, AllDigits, RenderMag, Magnitude, Over, MagAt, Lined;
    WholeNotEmpty(a);
    WholeNotEmpty(b);
    SubtractedDown(Parse(a), Parse(b), w + f, borrow);
    SubtractedDigits(Over(Parse(a), Parse(b)), Over(Parse(b), Parse(a)), w + f, borrow);
    DigitsOfJoin(w, f);
    JoinedString(w, f);
  }

  // Normalizing a string without a sign leaves it without one.
  lemma NormalMagnitude(s: string, r: string, k: nat)
    requires Wf(s) && !Parse(s).neg && Canonical(r) && Same(s, r) && FracLen(s) <= k
    ensures !Parse(r).neg && FracLen(r) <= k && At(r, k) == At(s, k)
  {
    NatBounds(DigitsAt(Parse(s), FracLen(s)));
    CanonicalZero(Parse(r), FracLen(s));
    SameAt(s, r, k);
  }
}
