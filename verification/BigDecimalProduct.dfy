// Grade-school multiplication in an array of cells, and where the point goes.
module BigDecimalProduct {
  import opened Decimal
  import opened BigDecimal
  import opened BigDecimalCut
  import opened BigDecimalOps

  // ----- Cells -----

  // The number a row of cells stands for; a cell may hold more than one digit's worth.
  function CellsValue(s: seq<int>): int {
    if s == [] then 0 else 10 * CellsValue(s[..|s| - 1]) + s[|s| - 1]
  }

  lemma {:induction false} CellsUpdate(s: seq<int>, k: nat, v: int)
    requires k < |s|
    ensures CellsValue(s[k := v]) == CellsValue(s) + (v - s[k]) * Pow10(|s| - 1 - k)
  {
    var n := |s| - 1;
    if k == n {
      assert s[k := v][..n] == s[..n];
    } else {
      assert s[k := v][..n] == s[..n][k := v];
      CellsUpdate(s[..n], k, v);
      TimesTen(v - s[k], Pow10(n - 1 - k));
    }
  }

  lemma TimesTen(a: int, p: int)
    ensures 10 * (a * p) == a * (10 * p)
  {
  }

  lemma {:induction false} CellsZero(s: seq<int>)
    requires forall i | 0 <= i < |s| :: s[i] == 0
    ensures CellsValue(s) == 0
  {
    if s != [] { CellsZero(s[..|s| - 1]); }
  }

  lemma {:induction false} CellsDigits(s: seq<int>, t: string)
    requires |s| == |t| && AllDigits(t) && forall i | 0 <= i < |s| :: Digit(t[i]) == s[i]
    ensures Nat(t) == CellsValue(s)
  {
    if s != [] { CellsDigits(s[..|s| - 1], t[..|t| - 1]); }
  }

  // One cell of the inner loop: the digit stays at p2, the carry goes to p1 = p2 - 1.
  lemma CellStep(s: seq<int>, p2: nat, mul: int)
    requires 0 < p2 < |s| && 0 <= mul + s[p2]
    ensures var sum := mul + s[p2];
            CellsValue(s[p2 := sum % 10][p2 - 1 := s[p2 - 1] + sum / 10]) == CellsValue(s) + mul * Pow10(|s| - 1 - p2)
  {
    var sum := mul + s[p2];
    var p := Pow10(|s| - 1 - p2);
    CellsUpdate(s, p2, sum % 10);
    CellsUpdate(s[p2 := sum % 10], p2 - 1, s[p2 - 1] + sum / 10);
    assert Pow10(|s| - 1 - (p2 - 1)) == 10 * p;
    hide CellsValue, Pow10;
    CarryUp(s[p2], mul, sum, p);
  }

  lemma CarryUp(was: int, mul: int, sum: int, p: int)
    requires sum == mul + was && sum >= 0
    ensures (sum % 10 - was) * p + (sum / 10) * (10 * p) == mul * p
  {
    SplitDigit(sum, p);
    assert (sum % 10 - was) * p == (sum % 10) * p - was * p;
    assert sum * p == mul * p + was * p;
  }

  // ----- The loops -----

  // What stands in the cells when the outer loop has done the digits of x after i, and the inner loop
  // the digits of y after j for digit i: x[i+1..] * y, and x[i] * y[j+1..] one place further left.
  ghost function Done(x: string, y: string, i: int, j: int): int
    requires -1 <= i < |x| && -1 <= j < |y|
  {
    Nat(x[i + 1..]) * Nat(y)
    + if i >= 0 then Digit(x[i]) * Pow10(|x| - 1 - i) * Nat(y[j + 1..]) else 0
  }

  // In row i, with cell t about to be worked on: every cell is a digit, but t, which took the last carry,
  // may be as great as 18; the cells no row has reached are 0.
  ghost predicate CellsOk(s: seq<int>, i: int, t: int) {
    && (forall k | 0 <= k < |s| :: 0 <= s[k] <= if k == t then 18 else 9)
    && (forall k | 0 <= k <= i && k < |s| && k != t :: s[k] == 0)
    && (t == i && 0 <= t < |s| ==> s[t] <= 9)
  }

  lemma CellsStep(s: seq<int>, i: nat, t: nat, mul: int)
    requires i < t < |s| && CellsOk(s, i, t) && 0 <= mul <= 81
    ensures var sum := mul + s[t];
            && s[t] <= 18 && 0 <= sum / 10 <= 9
            && CellsOk(s[t := sum % 10][t - 1 := s[t - 1] + sum / 10], i, t - 1)
            && CellsValue(s[t := sum % 10][t - 1 := s[t - 1] + sum / 10]) == CellsValue(s) + mul * Pow10(|s| - 1 - t)
  {
    hide CellsValue, Pow10;
    CellStep(s, t, mul);
  }

  // Between rows every cell is a single digit, and 0 up to cell i.
  ghost predicate BetweenRows(s: seq<int>, i: int) {
    (forall k | 0 <= k < |s| :: 0 <= s[k] <= 9) && (forall k | 0 <= k <= i && k < |s| :: s[k] == 0)
  }

  lemma RowCells(s: seq<int>, i: nat, t: nat)
    requires i < t
    ensures BetweenRows(s, i) ==> CellsOk(s, i, t)
    ensures CellsOk(s, i, i) ==> BetweenRows(s, i - 1)
  {
  }

  lemma RowBegins(x: string, y: string, i: nat)
    requires i < |x| && y != ""
    ensures Done(x, y, i, |y| - 1) == Nat(x[i + 1..]) * Nat(y)
  {
    assert y[|y|..] == "";
  }

  lemma RowEnds(x: string, y: string, i: nat)
    requires i < |x| && y != ""
    ensures Done(x, y, i, -1) == Nat(x[i..]) * Nat(y)
  {
    assert x[i..] == [x[i]] + x[i + 1..];
    NatCons(x[i], x[i + 1..]);
    assert y[0..] == y;
    hide Nat, Pow10;
    AddProducts(Nat(x[i + 1..]), Digit(x[i]) * Pow10(|x| - 1 - i), Nat(y));
  }

  lemma AddProducts(a: int, b: int, c: int)
    ensures a * c + b * c == (b + a) * c
  {
  }

  lemma RowStep(x: string, y: string, i: nat, j: nat)
    requires i < |x| && j < |y|
    ensures Done(x, y, i, j - 1) == Done(x, y, i, j) + DigitMul(x[i], y[j]) * Pow10(|x| - 1 - i + (|y| - 1 - j))
  {
    assert y[j..] == [y[j]] + y[j + 1..];
    NatCons(y[j], y[j + 1..]);
    Pow10Add(|x| - 1 - i, |y| - 1 - j);
    hide Nat, Pow10;
    var p, q := Pow10(|x| - 1 - i), Pow10(|y| - 1 - j);
    RowProduct(Digit(x[i]), p, Digit(y[j]), q, Nat(y[j + 1..]));
  }

  lemma RowProduct(a: int, p: int, b: int, q: int, n: int)
    ensures a * p * (b * q + n) == a * p * n + (a * b) * (p * q)
  {
    assert a * p * (b * q + n) == a * p * (b * q) + a * p * n;
    assert a * p * (b * q) == (a * b) * (p * q);
  }

  function DigitMul(a: char, b: char): int { Digit(a) * Digit(b) }

  lemma DigitProduct(a: char, b: char)
    requires IsDigit(a) && IsDigit(b)
    ensures 0 <= DigitMul(a, b) <= 81
  {
    var x, y := Digit(a), Digit(b);
    assert x * y <= 9 * y;
  }

  // The inner loop for digit i of x.
  method Row(x: string, y: string, i: nat, product: array<int>, ghost s0: seq<int>) returns (ghost s: seq<int>)
    requires AllDigits(x) && AllDigits(y) && y != "" && i < |x|
    requires |s0| == |x| + |y| <= product.Length && s0 == product[..|s0|]
    requires RowsDone(s0, x, y, i)
    modifies product
    ensures |s| == |s0| && s == product[..|s|]
    ensures RowsDone(s, x, y, i - 1)
  {
    hide *;
    RowsAre(s0, x, y, i);
    var j := |y| - 1;
    s := s0;
    RowBegins(x, y, i);
    RowEnds(x, y, i);
    RowCells(s, i, i + |y|);
    while j >= 0
      invariant -1 <= j < |y| && |s| == |s0| && s == product[..|s|]
      invariant CellsValue(s) == Done(x, y, i, j) && CellsOk(s, i, i + j + 1)
    {
      var mul := DigitMul(x[i], y[j]);
      DigitsAre(x, i);
      DigitsAre(y, j);
      DigitProduct(x[i], y[j]);
      var p2 := i + j + 1;
      var sum := mul + product[p2];
      assert s[p2] == product[p2];
      CellsStep(s, i, p2, mul);
      RowStep(x, y, i, j);
      s := StoreCell(product, p2, sum, s);
      j := j - 1;
    }
    RowCells(s, i, i + 1);
    AreRows(s, x, y, i - 1);
  }

  // The rows for the digits of x after i stand in the cells.
  ghost predicate RowsDone(s: seq<int>, x: string, y: string, i: int)
    requires -1 <= i < |x|
  {
    CellsValue(s) == Nat(x[i + 1..]) * Nat(y) && BetweenRows(s, i)
  }

  lemma RowsAre(s: seq<int>, x: string, y: string, i: int)
    requires -1 <= i < |x| && RowsDone(s, x, y, i)
    ensures CellsValue(s) == Nat(x[i + 1..]) * Nat(y) && BetweenRows(s, i)
  {
  }

  lemma AreRows(s: seq<int>, x: string, y: string, i: int)
    requires -1 <= i < |x| && CellsValue(s) == Nat(x[i + 1..]) * Nat(y) && BetweenRows(s, i)
    ensures RowsDone(s, x, y, i)
  {
  }

  method StoreCell(product: array<int>, p2: nat, sum: int, ghost s: seq<int>) returns (ghost s': seq<int>)
    requires 0 < p2 < |s| <= product.Length && s == product[..|s|]
    modifies product
    ensures s' == s[p2 := sum % 10][p2 - 1 := s[p2 - 1] + sum / 10]
    ensures |s'| == |s| && s' == product[..|s|]
  {
    s' := s[p2 := sum % 10][p2 - 1 := s[p2 - 1] + sum / 10];
    product[p2] := sum % 10;
    product[p2 - 1] := product[p2 - 1] + sum / 10;
  }

  lemma DigitsAre(s: string, i: nat)
    requires AllDigits(s) && i < |s|
    ensures IsDigit(s[i])
  {
  }

  // The two nested loops. All cells are single digits in the end and stand for the product.
  method Multiply(x: string, y: string) returns (product: array<int>, plen: nat)
    requires AllDigits(x) && AllDigits(y) && x != "" && y != "" && |x| + |y| <= 2 * MAX_DIGITS
    ensures fresh(product) && plen == |x| + |y| <= product.Length
    ensures CellsValue(product[..plen]) == Nat(x) * Nat(y)
    ensures forall k | 0 <= k < plen :: 0 <= product[k] <= 9
  {
    product := new int[2 * MAX_DIGITS](_ => 0);
    plen := |x| + |y|;
    ghost var s := product[..plen];
    var i := |x| - 1;
    CellsBegin(x, y, s);
    hide *;
    while i >= 0
      invariant -1 <= i < |x| && |s| == plen && s == product[..plen]
      invariant RowsDone(s, x, y, i)
    {
      s := Row(x, y, i, product, s);
      i := i - 1;
    }
    RowsAre(s, x, y, -1);
    assert x[0..] == x;
    CellsEnd(s);
    assert forall k | 0 <= k < plen :: s[k] == product[k];
  }

  lemma CellsBegin(x: string, y: string, s: seq<int>)
    requires x != "" && y != "" && |s| == |x| + |y| && forall k | 0 <= k < |s| :: s[k] == 0
    ensures RowsDone(s, x, y, |x| - 1)
  {
    CellsZero(s);
    assert x[|x|..] == "";
  }

  lemma CellsEnd(s: seq<int>)
    requires BetweenRows(s, -1)
    ensures forall k | 0 <= k < |s| :: 0 <= s[k] <= 9
  {
  }

  // ----- From operands to cells, from cells to a string -----

  // Copies everything but the point.
  method WithoutPoint(p: string) returns (digits: string)
    requires Magnitude(p)
    ensures digits == Parse(p).whole + Parse(p).frac
    ensures AllDigits(digits) && digits != "" && |digits| <= |p|
    ensures Nat(digits) == At(p, FracLen(p))
  {
    ghost var d := Parse(p);
    ghost var w := |d.whole|;
    hide *;
    CutAtPoint(p);
    digits := "";
    assert p[..0] == "";
    for i := 0 to |p|
      invariant digits == if i <= w then p[..i] else d.whole + p[w + 1..i]
    {
      if p[i] != '.' {
        assert i < w ==> p[..i] + [p[i]] == p[..i + 1];
        assert i > w ==> p[w + 1..i] + [p[i]] == p[w + 1..i + 1];
        digits := digits + [p[i]];
      } else {
        assert d.whole + p[w + 1..w + 1] == d.whole;
      }
    }
    assert p[..|p|] == p;
    assert w < |p| ==> p[w + 1..|p|] == d.frac;
    assert d.whole + "" == d.whole;
  }

  lemma CutAtPoint(p: string)
    requires Magnitude(p)
    ensures var d := Parse(p);
            var w := |d.whole|;
            && 0 < w <= |p| && p[..w] == d.whole && (w == |p| ==> d.frac == "") && (w < |p| ==> p[w + 1..] == d.frac)
            && (forall i | 0 <= i < |p| :: p[i] == '.' <==> i == w)
            && AllDigits(d.whole + d.frac) && |d.whole + d.frac| <= |p|
            && Nat(d.whole + d.frac) == At(p, FracLen(p))
  {
    hide *;
    PlainMagnitude(p);
    CutRendered(Parse(p));
    ValueOfDigits(p);
  }

  lemma PlainMagnitude(p: string)
    requires Magnitude(p)
    ensures Wf(p) && WfParts(Parse(p)) && !Parse(p).neg && p == RenderMag(Parse(p))
  {
    MagnitudeOf(p);
    RenderParse(p);
    hide RenderMag, Parse;
    assert "" + RenderMag(Parse(p)) == RenderMag(Parse(p));
  }

  lemma ValueOfDigits(p: string)
    requires Wf(p) && !Parse(p).neg
    ensures Nat(Parse(p).whole + Parse(p).frac) == At(p, FracLen(p))
  {
    var d := Parse(p);
    assert DigitsAt(d, |d.frac|) == d.whole + d.frac;
  }

  lemma CutRendered(d: Parts)
    requires WfParts(d)
    ensures var p, w := RenderMag(d), |d.whole|;
            && 0 < w <= |p| && p[..w] == d.whole && (w == |p| ==> d.frac == "") && (w < |p| ==> p[w + 1..] == d.frac)
            && (forall i | 0 <= i < |p| :: p[i] == '.' <==> i == w)
            && AllDigits(d.whole + d.frac) && |d.whole + d.frac| <= |p|
  {
    var p, w := RenderMag(d), |d.whole|;
    assert forall i | 0 <= i < w :: p[i] == d.whole[i] && IsDigit(d.whole[i]);
    assert forall i | w < i < |p| :: p[i] == d.frac[i - w - 1] && IsDigit(p[i]);
  }

  // The cells as characters, without leading zeros; the last cell always stays.
  method CellString(product: array<int>, plen: nat) returns (t: string)
    requires 0 < plen <= product.Length && forall k | 0 <= k < plen :: 0 <= product[k] <= 9
    ensures AllDigits(t) && 0 < |t| <= plen && Nat(t) == CellsValue(product[..plen])
    ensures |t| > 1 ==> t[0] != '0'
  {
    var start := 0;
    while start < plen - 1 && product[start] == 0
      invariant start < plen && forall k | 0 <= k < start :: product[k] == 0
    {
      start := start + 1;
    }
    t := "";
    for k := start to plen
      invariant |t| == k - start && AllDigits(t)
      invariant forall i | 0 <= i < |t| :: Digit(t[i]) == product[start + i]
    {
      t := t + [DigitChar(product[k])];
    }
    ghost var all := Zeros(start) + t;
    assert forall i | 0 <= i < plen :: Digit(all[i]) == product[..plen][i];
    CellsDigits(product[..plen], all);
    NatLeadingZeros(start, t);
  }

  // Where the point goes among the digits t of a product with td decimal places.
  function Placed(neg: bool, t: string, td: nat): Parts {
    if |t| <= td then Parts(neg, "0", true, Zeros(td - |t|) + t)
    else Parts(neg, t[..|t| - td], td > 0, t[|t| - td..])
  }

  lemma PlacedBefore(neg: bool, t: string, td: nat)
    requires AllDigits(t) && |t| <= td
    ensures var d := Placed(neg, t, td);
            WfParts(d) && |d.frac| == td && PartsAt(d, td) == if neg then -Nat(t) else Nat(t)
  {
    hide Nat, Zeros, WfParts, AllDigits, DigitsAt, Placed;
    DigitsBefore(neg, t, td);
    NatLeadingZeros(1 + (td - |t|), t);
  }

  lemma DigitsBefore(neg: bool, t: string, td: nat)
    requires AllDigits(t) && |t| <= td
    ensures var d := Placed(neg, t, td);
            WfParts(d) && |d.frac| == td && d.neg == neg && DigitsAt(d, td) == Zeros(1 + (td - |t|)) + t
  {
    hide Nat;
    var d := Placed(neg, t, td);
    assert Zeros(1 + (td - |t|)) == "0" + Zeros(td - |t|);
    assert d.frac + Zeros(0) == d.frac;
  }

  lemma PlacedInside(neg: bool, t: string, td: nat)
    requires AllDigits(t) && |t| > td
    ensures var d := Placed(neg, t, td);
            WfParts(d) && |d.frac| == td && PartsAt(d, td) == if neg then -Nat(t) else Nat(t)
  {
    var d := Placed(neg, t, td);
    hide Nat;
    assert DigitsAt(d, td) == t;
  }

  method PlacePoint(neg: bool, t: string, td: nat) returns (result: string)
    requires AllDigits(t) && t != ""
    ensures result == Render(Placed(neg, t, td))
  {
    var pointPos := |t| - td;
    if pointPos <= 0 {
      result := PointBefore(neg, t, -pointPos);
    } else {
      result := PointInside(neg, t, pointPos, td);
    }
  }

  method PointBefore(neg: bool, t: string, zeros: nat) returns (result: string)
    ensures result == Render(Placed(neg, t, |t| + zeros))
  {
    hide Nat, AllDigits;
    result := (if neg then "-" else "") + "0.";
    ghost var before := result;
    for k := 0 to zeros
      invariant result == before + Zeros(k)
    {
      assert Zeros(k + 1) == Zeros(k) + "0";
      result := result + "0";
    }
    before := result;
    for k := 0 to |t|
      invariant result == before + t[..k]
    {
      assert t[..k + 1] == t[..k] + [t[k]];
      result := result + [t[k]];
    }
    assert t[..|t|] == t;
    assert result == (if neg then "-" else "") + ("0" + ("." + (Zeros(zeros) + t)));
  }

  method PointInside(neg: bool, t: string, pointPos: nat, td: nat) returns (result: string)
    requires pointPos > 0 && pointPos + td == |t|
    ensures result == Render(Placed(neg, t, td))
  {
    hide *;
    var sign := if neg then "-" else "";
    result := sign;
    NoChars(t, pointPos, td);
    for k := 0 to |t|
      invariant result == sign + WithPoint(t, pointPos, td, k)
    {
      NextChar(t, pointPos, td, k);
      if k == pointPos && td > 0 { result := result + "."; }
      result := result + [t[k]];
    }
    AllChars(neg, t, pointPos, td);
  }

  lemma NoChars(t: string, pointPos: nat, td: nat)
    requires pointPos > 0 && pointPos + td == |t|
    ensures WithPoint(t, pointPos, td, 0) == ""
  {
  }

  lemma AllChars(neg: bool, t: string, pointPos: nat, td: nat)
    requires pointPos > 0 && pointPos + td == |t|
    ensures (if neg then "-" else "") + WithPoint(t, pointPos, td, |t|) == Render(Placed(neg, t, td))
  {
    assert t[..|t|] == t && t[pointPos..|t|] == t[pointPos..];
    assert td == 0 ==> t[..pointPos] == t;
  }

  // The first k characters of t, with the point after pointPos of them.
  ghost function WithPoint(t: string, pointPos: nat, td: nat, k: nat): string
    requires pointPos <= |t| && k <= |t|
  {
    if k <= pointPos || td == 0 then t[..k] else t[..pointPos] + ("." + t[pointPos..k])
  }

  lemma NextChar(t: string, pointPos: nat, td: nat, k: nat)
    requires pointPos + td == |t| && k < |t|
    ensures WithPoint(t, pointPos, td, k + 1)
         == WithPoint(t, pointPos, td, k) + (if k == pointPos && td > 0 then "." else "") + [t[k]]
  {
    assert t[..k + 1] == t[..k] + [t[k]];
    if k >= pointPos { assert t[pointPos..k + 1] == t[pointPos..k] + [t[k]]; }
  }

  // ----- The whole operation -----

  // The exact product e is always found; what is stored is as much of it as the number's buffer holds.
  method MultiplyDecimal(sa: string, sb: string) returns (r: string, ghost e: string)
    requires Canonical(sa) && Canonical(sb) && |sa| < MAX_DIGITS && |sb| < MAX_DIGITS
    ensures Exactly(e, FracLen(sa) + FracLen(sb), At(sa, FracLen(sa)) * At(sb, FracLen(sb)))
    ensures Canonical(r) && |r| < MAX_DIGITS && FracLen(r) <= FracLen(e)
    ensures At(r, FracLen(e)) == CutTo(e, MAX_DIGITS - 1)
    ensures Exactly(r, FracLen(sa) + FracLen(sb), At(sa, FracLen(sa)) * At(sb, FracLen(sb))) <==> |e| <= 511
  {
    hide *;
    OperandOf(sa);
    OperandOf(sb);
    var nega, negb := sa[0] == '-', sb[0] == '-';
    var pa := if nega then sa[1..] else sa;
    var pb := if negb then sb[1..] else sb;
    var negResult := nega != negb;
    var ia := WithoutPoint(pa);
    var ib := WithoutPoint(pb);
    var totalDec := FracLen(pa) + FracLen(pb);
    var product, plen := Multiply(ia, ib);
    var t := CellString(product, plen);
    var result := PlacePoint(negResult, t, totalDec);
    ProductString(sa, sb, pa, pb, negResult, t, result);
    WfIsDigital(result);
    var normal := Normalize(result);
    NormalizedAt(result, normal, totalDec);
    e := normal;
    Exact(e, totalDec, At(sa, FracLen(sa)) * At(sb, FracLen(sb)));
    CanonicalIsWf(e);
    WfIsDigital(e);
    r := Create(normal);
    StoredExactlyIff(e, r, totalDec, At(sa, FracLen(sa)) * At(sb, FracLen(sb)));
  }

  // A canonical value of the same number is the same string, so only a string that fits is stored exactly.
  lemma StoredExactlyIff(e: string, r: string, k: nat, n: int)
    requires Exactly(e, k, n) && Canonical(r) && |r| < MAX_DIGITS && (|e| < MAX_DIGITS ==> r == e)
    ensures Exactly(r, k, n) <==> |e| <= 511
  {
    hide Canonical, At;
    if Exactly(r, k, n) { CanonicalUnique(r, e, k); }
  }

  lemma OperandOf(s: string)
    requires Canonical(s)
    ensures s != "" && (s[0] == '-' <==> Parse(s).neg)
    ensures Unsigned(s) == (if s[0] == '-' then s[1..] else s)
    ensures Magnitude(Unsigned(s)) && |Unsigned(s)| <= |s| && FracLen(Unsigned(s)) == FracLen(s)
    ensures At(s, FracLen(s)) == if Parse(s).neg then -At(Unsigned(s), FracLen(s)) else At(Unsigned(s), FracLen(s))
  {
    UnsignedOf(s);
  }

  lemma ProductString(sa: string, sb: string, pa: string, pb: string, neg: bool, t: string, result: string)
    requires Canonical(sa) && Canonical(sb) && pa == Unsigned(sa) && pb == Unsigned(sb)
    requires neg == (Parse(sa).neg != Parse(sb).neg)
    requires AllDigits(t) && t != "" && Nat(t) == At(pa, FracLen(pa)) * At(pb, FracLen(pb))
    requires result == Render(Placed(neg, t, FracLen(pa) + FracLen(pb)))
    ensures Wf(result) && FracLen(result) == FracLen(pa) + FracLen(pb) == FracLen(sa) + FracLen(sb)
    ensures At(result, FracLen(sa) + FracLen(sb)) == At(sa, FracLen(sa)) * At(sb, FracLen(sb))
  {
    hide *;
    OperandOf(sa);
    OperandOf(sb);
    var td, v := FracLen(pa) + FracLen(pb), At(pa, FracLen(pa)) * At(pb, FracLen(pb));
    PlacedString(neg, t, td, result);
    Signs(At(pa, FracLen(pa)), At(pb, FracLen(pb)));
  }

  lemma PlacedString(neg: bool, t: string, td: nat, result: string)
    requires AllDigits(t) && t != "" && result == Render(Placed(neg, t, td))
    ensures Wf(result) && FracLen(result) == td && At(result, td) == if neg then -Nat(t) else Nat(t)
  {
    if |t| <= td { PlacedBefore(neg, t, td); } else { PlacedInside(neg, t, td); }
    hide Placed, PartsAt;
    ParseRender(Placed(neg, t, td));
  }

  lemma Signs(a: int, b: int)
    ensures (-a) * b == -(a * b) && a * (-b) == -(a * b) && (-a) * (-b) == a * b
  {
  }
}
