/** The comparison and arithmetic operators, each with the digit loop it
    runs: carry propagation, borrow propagation, shift-and-add
    multiplication and restoring long division. */
module Arithmetic {
  import opened Decimal
  import opened BigInts
  import opened Conversions

  /* ---------- Reference arithmetic on integers ---------- */

  function AbsInt(a: int): nat
  {
    if a < 0 then -a else a
  }

  /** Division rounding toward zero. */
  function TruncDiv(a: int, b: int): int
    requires b != 0
  {
    var q := AbsInt(a) / AbsInt(b);
    if (a < 0) == (b < 0) then q else -q
  }

  /** The remainder of `TruncDiv`, carrying the sign of the dividend. */
  function TruncRem(a: int, b: int): int
    requires b != 0
  {
    var m := AbsInt(a) % AbsInt(b);
    if a < 0 then -m else m
  }

  function Power(b: int, n: nat): int
  {
    if n == 0 then 1 else Power(b, n - 1) * b
  }

  /** Truncating division: quotient times divisor plus remainder gives back
      the dividend, the remainder is smaller than the divisor and is zero or
      has the dividend's sign, and the quotient never overshoots. */
  lemma TruncDivision(a: int, b: int)
    requires b != 0
    ensures a == TruncDiv(a, b) * b + TruncRem(a, b)
    ensures AbsInt(TruncRem(a, b)) < AbsInt(b)
    ensures TruncRem(a, b) == 0 || (TruncRem(a, b) < 0 <==> a < 0)
    ensures AbsInt(TruncDiv(a, b) * b) <= AbsInt(a)
  {
    var n: int, d: int := AbsInt(a), AbsInt(b);
    var q: int := n / d;
    Euclid(n, d);
    NegMul(q, d);
    assert q * d >= 0 by {
      assert q >= 0 && d > 0;
    }
  }

  lemma Euclid(n: int, d: int)
    requires d > 0 && n >= 0
    ensures n == (n / d) * d + n % d && 0 <= n % d < d && n / d >= 0
  {
  }

  lemma NegMul(q: int, d: int)
    ensures (-q) * d == -(q * d) && q * (-d) == -(q * d) && (-q) * (-d) == q * d
  {
  }

  lemma DivModUnique(n: nat, b: nat, q: nat, r: nat)
    requires 0 <= r < b && n == q * b + r
    ensures q == n / b && r == n % b
  {
    var q', r' := n / b, n % b;
    assert n == q' * b + r';
    if q' > q {
      MulLeftMono(b, q + 1, q');
    } else if q' < q {
      MulLeftMono(b, q' + 1, q);
    }
  }

  /* ---------- Comparison ---------- */

  /** `<`: signs first, then digit counts (reversed for negatives), then
      digits from the most significant (reversed for negatives). */
  method Less(x: BigInt, y: BigInt) returns (b: bool)
    ensures x.sign != y.sign ==> (b <==> x.sign < y.sign)
    ensures WellFormed(x) && WellFormed(y) && x.sign == y.sign ==> (b <==> IntVal(x) < IntVal(y))
    ensures Canonical(x) && Canonical(y) ==> (b <==> IntVal(x) < IntVal(y))
  {
    if x.sign != y.sign {
      b := x.sign < y.sign;
      if Canonical(x) && Canonical(y) {
        CanonicalSign(x);
        CanonicalSign(y);
      }
      return;
    }
    if |x.num| != |y.num| {
      b := if x.sign == 1 then |x.num| < |y.num| else |x.num| > |y.num|;
      if WellFormed(x) && WellFormed(y) {
        if |x.num| < |y.num| {
          MagShorter(x.num, y.num);
        } else {
          MagShorter(y.num, x.num);
        }
      }
      return;
    }
    var i := |x.num|;
    while i > 0
      invariant 0 <= i <= |x.num|
      invariant x.num[i..] == y.num[i..]
    {
      i := i - 1;
      if x.num[i] != y.num[i] {
        b := if x.sign == 1 then x.num[i] < y.num[i] else x.num[i] > y.num[i];
        if x.num[i] < y.num[i] {
          MagFirstDifference(x.num, y.num, i);
        } else {
          MagFirstDifference(y.num, x.num, i);
        }
        return;
      }
      assert x.num[i..] == [x.num[i]] + x.num[i + 1..];
      assert y.num[i..] == [y.num[i]] + y.num[i + 1..];
    }
    assert x.num == x.num[0..] && y.num == y.num[0..];
    b := false;
  }

  /** `>`: `y < x`. */
  method Greater(x: BigInt, y: BigInt) returns (b: bool)
    ensures Canonical(x) && Canonical(y) ==> (b <==> IntVal(x) > IntVal(y))
  {
    b := Less(y, x);
  }

  /** `<=`: `x < y` or `x == y`. */
  method LessEq(x: BigInt, y: BigInt) returns (b: bool)
    ensures Canonical(x) && Canonical(y) ==> (b <==> IntVal(x) <= IntVal(y))
  {
    b := Less(x, y);
    b := b || Equal(x, y);
  }

  /** `>=`: `x > y` or `x == y`. */
  method GreaterEq(x: BigInt, y: BigInt) returns (b: bool)
    ensures Canonical(x) && Canonical(y) ==> (b <==> IntVal(x) >= IntVal(y))
  {
    b := Greater(x, y);
    b := b || Equal(x, y);
  }

  /* ---------- Addition and subtraction ---------- */

  /** The carry loop of `+`: one digit per place while either operand has
      digits left or a carry is outstanding. */
  method AddMagnitudes(p: seq<Digit>, q: seq<Digit>) returns (c: seq<Digit>)
    ensures Mag(c) == Mag(p) + Mag(q)
    ensures |c| <= (if |p| < |q| then |q| else |p|) + 1
    ensures |p| > 0 || |q| > 0 ==> |c| > 0
  {
    var m := if |p| < |q| then |q| else |p|;
    c := [];
    var i, carry := 0, 0;
    MagBelowZero(p);
    MagBelowZero(q);
    while i < |p| || i < |q| || carry != 0
      invariant 0 <= i <= m + 1 && |c| == i
      invariant 0 <= carry <= 1
      invariant i > m ==> carry == 0
      invariant Mag(c) + carry * Pow10(i) == MagBelow(p, i) + MagBelow(q, i)
      decreases m + 1 - i
    {
      var sum := carry + DigitAt(p, i) + DigitAt(q, i);
      MagBelowStep(p, i);
      MagBelowStep(q, i);
      MagAppend(c, sum % 10);
      CarryStep(sum, carry, DigitAt(p, i), DigitAt(q, i), Pow10(i));
      c := c + [sum % 10];
      carry := sum / 10;
      i := i + 1;
    }
  }

  lemma CarryStep(sum: int, carry: int, dp: int, dq: int, p: int)
    requires sum == carry + dp + dq
    ensures (sum % 10) * p + (sum / 10) * (10 * p) == carry * p + dp * p + dq * p
  {
    assert sum == 10 * (sum / 10) + sum % 10;
    assert (sum / 10) * (10 * p) == (10 * (sum / 10)) * p;
    assert (sum % 10) * p + (10 * (sum / 10)) * p == sum * p;
  }

  /** The borrow loop of `-`, run over the places of `p` when |p| >= |q|: it
      ends with no borrow outstanding. */
  method SubtractMagnitudes(p: seq<Digit>, q: seq<Digit>) returns (c: seq<Digit>, borrow: int)
    requires Mag(q) <= Mag(p)
    ensures |c| == |p|
    ensures borrow == 0
    ensures Mag(c) == Mag(p) - Mag(q)
  {
    c := [];
    var i := 0;
    borrow := 0;
    MagBelowZero(q);
    assert p[..0] == [];
    while i < |p|
      invariant 0 <= i <= |p| && |c| == i
      invariant borrow == 0 || borrow == 1
      invariant Mag(c) == Mag(p[..i]) - MagBelow(q, i) + borrow * Pow10(i)
    {
      var borrowIn := borrow;
      borrow := p[i] - borrow - DigitAt(q, i);
      var digit: Digit := if borrow >= 0 then borrow else borrow + 10;
      SubtractStep(p, q, c, i, borrowIn, digit, if borrow >= 0 then 0 else 1);
      c := c + [digit];
      borrow := if borrow >= 0 then 0 else 1;
      i := i + 1;
    }
    assert p[..i] == p;
    MagBound(p);
    MagBelowAll(q, |p|);
    MagBound(c);
    if borrow == 1 {
      assert false;
    }
  }

  /** One place of the borrow loop. */
  lemma SubtractStep(p: seq<Digit>, q: seq<Digit>, c: seq<Digit>, i: nat,
                     borrowIn: int, digit: Digit, borrowOut: int)
    requires i < |p| && |c| == i
    requires Mag(c) == Mag(p[..i]) - MagBelow(q, i) + borrowIn * Pow10(i)
    requires digit - 10 * borrowOut == p[i] - borrowIn - DigitAt(q, i)
    ensures Mag(c + [digit]) == Mag(p[..i + 1]) - MagBelow(q, i + 1) + borrowOut * Pow10(i + 1)
  {
    MagBelowStep(q, i);
    assert p[..i + 1] == p[..i] + [p[i]];
    MagAppend(p[..i], p[i]);
    MagAppend(c, digit);
    PlaceDifference(digit, borrowOut, p[i], borrowIn, DigitAt(q, i), Pow10(i));
  }

  lemma PlaceDifference(digit: int, borrowOut: int, dp: int, borrowIn: int, dq: int, w: int)
    requires digit - 10 * borrowOut == dp - borrowIn - dq
    ensures borrowIn * w + digit * w == dp * w - dq * w + borrowOut * (10 * w)
  {
    assert digit * w - (10 * borrowOut) * w == dp * w - borrowIn * w - dq * w;
  }

  /** `+`: operands of opposite signs go to `-` with the second negated;
      otherwise the magnitudes are added and the common sign kept. */
  method Plus(x: BigInt, y: BigInt) returns (r: BigInt)
    requires Valid(x) && Valid(y)
    ensures Canonical(r) && IntVal(r) == IntVal(x) + IntVal(y)
    ensures x.sign == y.sign ==> |r.num| <= (if |x.num| < |y.num| then |y.num| else |x.num|) + 1
    decreases if x.sign != y.sign then 2 else 0
  {
    if x.sign != y.sign {
      r := Minus(x, Neg(y));
      return;
    }
    var c := AddMagnitudes(x.num, y.num);
    r := Normalize(BigInt(c, 1), x.sign);
    TrimMag(c);
  }

  /** `-`: operands of opposite signs go to `+` with the second negated;
      when |x| < |y| the difference |y| - |x| is taken and given the opposite
      sign; otherwise the borrow loop subtracts the magnitudes. */
  method Minus(x: BigInt, y: BigInt) returns (r: BigInt)
    requires Valid(x) && Valid(y)
    ensures Canonical(r) && IntVal(r) == IntVal(x) - IntVal(y)
    decreases if x.sign != y.sign then 2 else if Mag(x.num) < Mag(y.num) then 1 else 0
  {
    if x.sign != y.sign {
      r := Plus(x, Neg(y));
      return;
    }
    var s := x.sign;
    var lt := Less(Abs(x), Abs(y));
    if lt {
      var t := Minus(Abs(y), Abs(x));
      CanonicalSign(t);
      r := Normalize(Neg(t), -s);
      return;
    }
    var c, borrow := SubtractMagnitudes(x.num, y.num);
    r := Normalize(BigInt(c, 1), s);
  }

  /* ---------- Multiplication ---------- */

  /** `*`: for the digit k at each place of `x`, adds the shifted `y` k times,
      then shifts `y` one more place by inserting a units zero. */
  method Mul(x: BigInt, y: BigInt) returns (r: BigInt)
    requires Valid(x) && Valid(y)
    ensures Canonical(r) && IntVal(r) == IntVal(x) * IntVal(y)
  {
    var c := DigitLiteral(0);
    var a := y;
    var i := 0;
    assert x.num[..0] == [];
    while i < |x.num|
      invariant 0 <= i <= |x.num|
      invariant Valid(a) && a.sign == y.sign
      invariant IntVal(a) == IntVal(y) * Pow10(i)
      invariant Canonical(c) && IntVal(c) == IntVal(y) * Mag(x.num[..i])
    {
      var k := x.num[i];
      ghost var base := IntVal(c);
      ghost var added := 0;
      while k > 0
        invariant 0 <= k <= x.num[i] && added == x.num[i] - k
        invariant Canonical(c) && IntVal(c) == base + added * IntVal(a)
      {
        c := Plus(c, a);
        AddOnce(base, added, IntVal(a));
        added := added + 1;
        k := k - 1;
      }
      ShiftAddPlace(x.num, i, IntVal(y), base, IntVal(a));
      ShiftValue(a);
      a := BigInt([0] + a.num, a.sign);
      i := i + 1;
    }
    assert x.num[..i] == x.num;
    CanonicalSign(c);
    SignedProduct(x.sign, y.sign, Mag(x.num), Mag(y.num), IntVal(c));
    r := Normalize(c, x.sign * a.sign);
  }

  /** Inserting a units zero multiplies the value by ten. */
  lemma ShiftValue(a: BigInt)
    ensures IntVal(BigInt([0] + a.num, a.sign)) == 10 * IntVal(a)
  {
    MagShift(a.num);
    var m := Mag(a.num);
    assert a.sign * (10 * m) == 10 * (a.sign * m);
  }

  lemma AddOnce(base: int, added: int, v: int)
    ensures base + added * v + v == base + (added + 1) * v
  {
  }

  /** One outer step of the multiplication loop: the partial product covers
      one more place of `xs`, and the addend is ten times larger. */
  lemma ShiftAddPlace(xs: seq<Digit>, i: nat, v: int, base: int, shifted: int)
    requires i < |xs|
    requires base == v * Mag(xs[..i]) && shifted == v * Pow10(i)
    ensures base + xs[i] * shifted == v * Mag(xs[..i + 1])
    ensures 10 * shifted == v * Pow10(i + 1)
  {
    assert xs[..i + 1] == xs[..i] + [xs[i]];
    MagAppend(xs[..i], xs[i]);
    ShiftAddStep(v, Mag(xs[..i]), xs[i], Pow10(i));
  }

  lemma ShiftAddStep(v: int, low: int, d: int, p: int)
    ensures v * low + d * (v * p) == v * (low + d * p)
    ensures 10 * (v * p) == v * (10 * p)
  {
  }

  lemma SignedProduct(sx: int, sy: int, mx: nat, my: nat, c: int)
    requires sx == 1 || sx == -1
    requires sy == 1 || sy == -1
    requires c == sy * my * mx
    ensures (if c < 0 then -c else c) == mx * my
    ensures sx * sy * (if c < 0 then -c else c) == (sx * mx) * (sy * my)
  {
    assert my * mx >= 0;
  }

  /* ---------- Division and remainder ---------- */

  lemma QuotientDigit(k: int, b: int, rem: int, start: int)
    requires b > 0 && rem >= b && rem + k * b == start && start < 10 * b
    ensures k + 1 <= 9
  {
    if k + 1 >= 10 {
      MulLeftMono(b, 10, k + 1);
    }
  }

  lemma LongDivisionStep(xi: int, q: int, b: int, rem: int, start: int, d: int, c: int)
    requires start == 10 * rem + xi && c + d * b == start
    ensures xi + 10 * (q * b + rem) == c + (d + 10 * q) * b
  {
  }

  /** One outer step of long division: writing quotient digit `count` at
      place `i` keeps the dividend's upper places equal to quotient times
      divisor plus remainder. */
  lemma QuotientPlace(xs: seq<Digit>, before: seq<Digit>, after: seq<Digit>, i: nat,
                      b: int, rem: int, start: int, count: Digit, c: int)
    requires i < |xs| && |before| == |xs| + 1 && after == before[i := count]
    requires Mag(xs[i + 1..]) == Mag(before[i + 1..]) * b + rem
    requires start == 10 * rem + xs[i] && c + count * b == start
    ensures Mag(xs[i..]) == Mag(after[i..]) * b + c
  {
    assert after[i + 1..] == before[i + 1..];
    MagFrom(xs, i);
    MagFrom(after, i);
    LongDivisionStep(xs[i], Mag(before[i + 1..]), b, rem, start, count, c);
  }

  /** Truncating division of signed magnitudes. */
  lemma TruncDivOfSigns(sx: int, sy: int, mx: nat, my: nat)
    requires sx == 1 || sx == -1
    requires sy == 1 || sy == -1
    requires my > 0
    ensures TruncDiv(sx * mx, sy * my) == sx * sy * (mx / my)
    ensures TruncRem(sx * mx, sy * my) == sx * (mx % my)
  {
    assert AbsInt(sx * mx) == mx && AbsInt(sy * my) == my;
    if mx == 0 {
      assert mx / my == 0 && mx % my == 0;
    }
  }

  lemma ZerosPrefix(s: seq<Digit>, i: nat)
    requires i < |s| && s[..i + 1] == Zeros(i + 1)
    ensures s[..i] == Zeros(i) && s[i] == 0
  {
    assert s[..i] == s[..i + 1][..i];
    assert Zeros(i + 1) == Zeros(i) + [0];
  }

  /** The quotient of `/` starts as the default value "0" with one more
      '0' appended per dividend digit. */
  method QuotientZeros(n: nat) returns (d: BigInt)
    ensures d == BigInt(Zeros(n + 1), 1)
  {
    d := FromInt(0);
    CanonicalZero(d);
    var j := 0;
    while j < n
      invariant 0 <= j <= n
      invariant d == BigInt(Zeros(j + 1), 1)
    {
      d := BigInt(d.num + [0], d.sign);
      j := j + 1;
    }
  }

  /** Digits `q` and remainder `rem` of the magnitude division give the
      truncated quotient once normalized with the product of the signs. */
  lemma QuotientValue(x: BigInt, y: BigInt, q: seq<Digit>, rem: nat)
    requires Valid(x) && Valid(y) && |q| > 0
    requires rem < Mag(y.num) && Mag(x.num) == Mag(q) * Mag(y.num) + rem
    ensures Canonical(Normalized(q, x.sign * y.sign))
    ensures IntVal(Normalized(q, x.sign * y.sign)) == TruncDiv(IntVal(x), IntVal(y))
  {
    DivModUnique(Mag(x.num), Mag(y.num), Mag(q), rem);
    TruncDivOfSigns(x.sign, y.sign, Mag(x.num), Mag(y.num));
    NormalizedCanonical(q, x.sign * y.sign);
  }

  /** A remainder `rem` of the magnitude division gives the truncated
      remainder once normalized with the dividend's sign. */
  lemma RemainderValue(x: BigInt, y: BigInt, quot: nat, rem: seq<Digit>)
    requires Valid(x) && Valid(y) && |rem| > 0
    requires Mag(rem) < Mag(y.num) && Mag(x.num) == quot * Mag(y.num) + Mag(rem)
    ensures Canonical(Normalized(rem, x.sign))
    ensures IntVal(Normalized(rem, x.sign)) == TruncRem(IntVal(x), IntVal(y))
  {
    DivModUnique(Mag(x.num), Mag(y.num), quot, Mag(rem));
    TruncDivOfSigns(x.sign, y.sign, Mag(x.num), Mag(y.num));
    NormalizedCanonical(rem, x.sign);
  }

  /** One step of long division: the running remainder gets a units zero
      inserted, then the next dividend digit, parsed from its one-character
      text, is added. */
  method BringDown(c: BigInt, d: Digit) returns (c': BigInt)
    requires Canonical(c) && c.sign == 1
    ensures Canonical(c') && c'.sign == 1
    ensures Mag(c'.num) == 10 * Mag(c.num) + d
  {
    MagShift(c.num);
    c' := BigInt([0] + c.num, c.sign);
    var digit := DigitLiteral(d);
    assert IntVal(c') == 10 * Mag(c.num);
    c' := Plus(c', digit);
    CanonicalSign(c');
  }

  /** The inner loop of `/`: subtracts the divisor from the running
      remainder while it is not less, counting the subtractions in the
      quotient digit at place `i`. */
  method SubtractDivisor(c: BigInt, a: BigInt, d: BigInt, i: nat) returns (c': BigInt, d': BigInt)
    requires Canonical(c) && c.sign == 1 && WellFormed(a) && a.sign == 1 && Mag(a.num) > 0
    requires Mag(c.num) < 10 * Mag(a.num)
    requires Valid(d) && d.sign == 1 && i < |d.num| && d.num[i] == 0
    ensures Canonical(c') && c'.sign == 1 && Mag(c'.num) < Mag(a.num)
    ensures |d'.num| == |d.num| && d' == BigInt(d.num[i := d'.num[i]], 1)
    ensures Mag(c'.num) + d'.num[i] * Mag(a.num) == Mag(c.num)
  {
    ghost var b := Mag(a.num);
    c', d' := c, d;
    ghost var count: nat := 0;
    assert d == BigInt(d.num[i := count], 1);
    var lt := Less(c', a);
    while !lt
      invariant Canonical(c') && c'.sign == 1
      invariant count <= 9 && d' == BigInt(d.num[i := count], 1)
      invariant Mag(c'.num) + count * b == Mag(c.num)
      invariant lt <==> Mag(c'.num) < b
      decreases Mag(c'.num)
    {
      QuotientDigit(count, b, Mag(c'.num), Mag(c.num));
      ghost var m := Mag(c'.num);
      c' := Minus(c', a);
      CanonicalSign(c');
      AddOnce(m - b, count, b);
      d' := BigInt(d'.num[i := d'.num[i] + 1], d'.sign);
      count := count + 1;
      lt := Less(c', a);
    }
  }

  /** `/`: long division from the most significant digit; each quotient
      digit counts how often the divisor is subtracted from the running
      remainder. A zero divisor is refused. */
  method Div(x: BigInt, y: BigInt) returns (r: Result<BigInt>)
    requires Valid(x) && WellFormed(y)
    ensures r.Err? <==> IntVal(y) == 0
    ensures r.Err? ==> r.error == DivisionByZero
    ensures r.Ok? ==> Canonical(r.value) && IntVal(r.value) == TruncDiv(IntVal(x), IntVal(y))
  {
    TrimmedZero(y.num);
    if |y.num| == 1 && y.num[0] == 0 {
      return Err(DivisionByZero);
    }
    ghost var b := Mag(y.num);
    var c := DigitLiteral(0);
    var d := QuotientZeros(|x.num|);
    var dSign := x.sign * y.sign;
    var a := BigInt(y.num, 1);
    var i := |x.num|;
    assert Zeros(i + 1) == Zeros(i) + [0];
    assert d.num[..i] == Zeros(i) && d.num[i..] == [0];
    while i > 0
      invariant 0 <= i <= |x.num|
      invariant |d.num| == |x.num| + 1 && d.sign == 1
      invariant d.num[..i] == Zeros(i)
      invariant Canonical(c) && c.sign == 1 && Mag(c.num) < b
      invariant Mag(x.num[i..]) == Mag(d.num[i..]) * b + Mag(c.num)
    {
      i := i - 1;
      ghost var rem := Mag(c.num);
      c := BringDown(c, x.num[i]);
      ghost var start := Mag(c.num);
      ghost var before := d.num;
      ZerosPrefix(before, i);
      c, d := SubtractDivisor(c, a, d, i);
      assert d.num[..i] == before[..i];
      QuotientPlace(x.num, before, d.num, i, b, rem, start, d.num[i], Mag(c.num));
    }
    assert x.num[0..] == x.num && d.num[0..] == d.num;
    QuotientValue(x, y, d.num, Mag(c.num));
    var q := Normalize(d, dSign);
    r := Ok(q);
  }

  /** The inner loop of `%`: subtracts the divisor from the running
      remainder while it is not less; `count` is the number of subtractions. */
  method ReduceRemainder(c: BigInt, a: BigInt) returns (c': BigInt, ghost count: nat)
    requires Canonical(c) && c.sign == 1 && WellFormed(a) && a.sign == 1 && Mag(a.num) > 0
    ensures Canonical(c') && c'.sign == 1 && Mag(c'.num) < Mag(a.num)
    ensures Mag(c'.num) + count * Mag(a.num) == Mag(c.num)
  {
    ghost var b := Mag(a.num);
    c', count := c, 0;
    var lt := Less(c', a);
    while !lt
      invariant Canonical(c') && c'.sign == 1
      invariant Mag(c'.num) + count * b == Mag(c.num)
      invariant lt <==> Mag(c'.num) < b
      decreases Mag(c'.num)
    {
      ghost var m := Mag(c'.num);
      c' := Minus(c', a);
      CanonicalSign(c');
      AddOnce(m - b, count, b);
      count := count + 1;
      lt := Less(c', a);
    }
  }

  /** `%`: the running remainder of the same long division, given the
      dividend's sign. A zero divisor is refused. */
  method Mod(x: BigInt, y: BigInt) returns (r: Result<BigInt>)
    requires Valid(x) && WellFormed(y)
    ensures r.Err? <==> IntVal(y) == 0
    ensures r.Err? ==> r.error == DivisionByZero
    ensures r.Ok? ==> Canonical(r.value) && IntVal(r.value) == TruncRem(IntVal(x), IntVal(y))
  {
    TrimmedZero(y.num);
    if |y.num| == 1 && y.num[0] == 0 {
      return Err(DivisionByZero);
    }
    ghost var b := Mag(y.num);
    var c := DigitLiteral(0);
    var a := BigInt(y.num, 1);
    var i := |x.num|;
    ghost var quot: nat := 0;
    while i > 0
      invariant 0 <= i <= |x.num|
      invariant Canonical(c) && c.sign == 1 && Mag(c.num) < b
      invariant Mag(x.num[i..]) == quot * b + Mag(c.num)
    {
      i := i - 1;
      ghost var rem := Mag(c.num);
      c := BringDown(c, x.num[i]);
      ghost var start := Mag(c.num);
      ghost var count: nat;
      c, count := ReduceRemainder(c, a);
      MagFrom(x.num, i);
      LongDivisionStep(x.num[i], quot, b, rem, start, count, Mag(c.num));
      quot := count + 10 * quot;
    }
    assert x.num[0..] == x.num;
    RemainderValue(x, y, quot, c.num);
    var m := Normalize(c, x.sign);
    r := Ok(m);
  }

  /* ---------- Exponentiation ---------- */

  /** `pow` (and `^`): `exp` repeated multiplications starting from 1. */
  method Pow(a: BigInt, exp: nat) returns (r: BigInt)
    requires Valid(a)
    requires exp < 0x1_0000_0000
    ensures Canonical(r) && IntVal(r) == Power(IntVal(a), exp)
  {
    var temp := FromInt(1);
    var i := 1;
    while i <= exp
      invariant 1 <= i <= exp + 1
      invariant Canonical(temp) && IntVal(temp) == Power(IntVal(a), i - 1)
    {
      temp := Mul(temp, a);
      i := i + 1;
    }
    r := temp;
  }
}
