/** The value of an arbitrary-precision signed decimal integer: its digits
    least-significant first, a sign of +1 or -1, normalization, and the
    expression-level operators (negation, absolute value, equality). */
module BigInts {
  import opened Decimal

  /** `num` holds the decimal digits, units digit first; `sign` is +1 or -1. */
  datatype BigInt = BigInt(num: seq<Digit>, sign: int)

  datatype Error = DivisionByZero | InvalidFormat

  datatype Result<T> = Ok(value: T) | Err(error: Error)

  /** What every value the operators build satisfies: at least one digit and a sign of +1 or -1. */
  predicate Valid(x: BigInt)
  {
    |x.num| > 0 && (x.sign == 1 || x.sign == -1)
  }

  /** Valid with no most-significant zero digit; zero may still carry sign -1. */
  predicate WellFormed(x: BigInt)
  {
    Valid(x) && Trimmed(x.num)
  }

  /** The unique representation: well-formed, and zero has sign +1. */
  predicate Canonical(x: BigInt)
  {
    WellFormed(x) && (x.num == [0] ==> x.sign == 1)
  }

  /** The integer that `x` stands for. */
  function IntVal(x: BigInt): int
  {
    x.sign * Mag(x.num)
  }

  function Zero(): BigInt
  {
    BigInt([0], 1)
  }

  /** Strips the most-significant zeros of `num` and gives the result sign
      +1 when it is zero and `newSign` otherwise. */
  function Normalized(num: seq<Digit>, newSign: int): BigInt
  {
    var t := Trim(num);
    BigInt(t, if |t| == 1 && t[0] == 0 then 1 else newSign)
  }

  /** Normalizing keeps the magnitude, fixes the sign of zero and yields the canonical form. */
  lemma NormalizedCanonical(num: seq<Digit>, newSign: int)
    requires |num| > 0 && (newSign == 1 || newSign == -1)
    ensures Canonical(Normalized(num, newSign))
    ensures Mag(Normalized(num, newSign).num) == Mag(num)
    ensures Normalized(num, newSign).sign == if Mag(num) == 0 then 1 else newSign
    ensures IntVal(Normalized(num, newSign)) == newSign * Mag(num)
  {
    TrimMag(num);
    TrimmedZero(Trim(num));
  }

  /** Normalization on a canonical value changes nothing. */
  lemma NormalizedOfCanonical(x: BigInt)
    requires Canonical(x)
    ensures Normalized(x.num, x.sign) == x
  {
    TrimmedZero(x.num);
  }

  /** A canonical value is determined by the integer it stands for. */
  lemma CanonicalUnique(x: BigInt, y: BigInt)
    requires Canonical(x) && Canonical(y)
    requires IntVal(x) == IntVal(y)
    ensures x == y
  {
    TrimmedZero(x.num);
    TrimmedZero(y.num);
    SignedMagnitude(x.sign, Mag(x.num), y.sign, Mag(y.num));
    TrimmedUnique(x.num, y.num);
  }

  lemma SignedMagnitude(sx: int, mx: nat, sy: int, my: nat)
    requires sx == 1 || sx == -1
    requires sy == 1 || sy == -1
    requires sx * mx == sy * my
    ensures mx == my && (mx != 0 ==> sx == sy)
  {
  }

  /** The canonical form of zero. */
  lemma CanonicalZero(x: BigInt)
    requires Canonical(x) && IntVal(x) == 0
    ensures x == Zero()
  {
    CanonicalUnique(x, Zero());
  }

  /** A canonical value has sign -1 exactly when it is negative. */
  lemma CanonicalSign(x: BigInt)
    requires Canonical(x)
    ensures x.sign == -1 <==> IntVal(x) < 0
    ensures Mag(x.num) == if IntVal(x) < 0 then -IntVal(x) else IntVal(x)
  {
    TrimmedZero(x.num);
  }

  /** Removes most-significant zero digits one at a time from the top, then
      sets the sign: +1 for zero, `newSign` otherwise. The sign `x` had is ignored. */
  method Normalize(x: BigInt, newSign: int) returns (r: BigInt)
    ensures r == Normalized(x.num, newSign)
    ensures Valid(x) && (newSign == 1 || newSign == -1) ==>
              Canonical(r) && IntVal(r) == newSign * Mag(x.num)
  {
    var num := x.num;
    var i := |num| - 1;
    while i > 0 && num[i] == 0
      invariant i == |num| - 1
      invariant Trim(num) == Trim(x.num)
    {
      num := num[..i];
      i := i - 1;
    }
    r := BigInt(num, if |num| == 1 && num[0] == 0 then 1 else newSign);
    if Valid(x) && (newSign == 1 || newSign == -1) {
      NormalizedCanonical(x.num, newSign);
    }
  }

  /** Unary minus: flips the sign of a copy and does not normalize, so the
      negation of zero is the non-canonical [0] with sign -1. */
  function Neg(x: BigInt): (r: BigInt)
    ensures IntVal(r) == -IntVal(x)
    ensures Valid(x) ==> Valid(r)
    ensures Canonical(x) ==> (Canonical(r) <==> IntVal(x) != 0)
  {
    if Canonical(x) then TrimmedZero(x.num); BigInt(x.num, -x.sign) else BigInt(x.num, -x.sign)
  }

  /** The absolute value: a copy normalized with sign +1. */
  function Abs(x: BigInt): (r: BigInt)
    ensures Valid(x) ==> Canonical(r) && IntVal(r) == Mag(x.num)
    ensures Valid(x) ==> IntVal(r) == if IntVal(x) < 0 then -IntVal(x) else IntVal(x)
  {
    if Valid(x) then NormalizedCanonical(x.num, 1); Normalized(x.num, 1) else Normalized(x.num, 1)
  }

  /** The number of decimal digits stored. */
  function Digits(x: BigInt): (n: nat)
    ensures WellFormed(x) && IntVal(x) != 0 ==>
              n > 0 && Pow10(n - 1) <= Mag(x.num) < Pow10(n)
    ensures WellFormed(x) && Mag(x.num) == 0 ==> n == 1
  {
    if WellFormed(x) && IntVal(x) != 0 then
      MagBound(x.num);
      if |x.num| > 1 then MagTop(x.num); |x.num| else |x.num|
    else if WellFormed(x) then
      TrimmedZero(x.num); |x.num|
    else
      |x.num|
  }

  /** `==`: structural equality of sign and digits. */
  function Equal(x: BigInt, y: BigInt): (b: bool)
    ensures Canonical(x) && Canonical(y) ==> (b <==> IntVal(x) == IntVal(y))
  {
    if Canonical(x) && Canonical(y) && IntVal(x) == IntVal(y) then
      CanonicalUnique(x, y); x.sign == y.sign && x.num == y.num
    else
      x.sign == y.sign && x.num == y.num
  }

  /** `!=`: some difference in sign or digits. */
  function NotEqual(x: BigInt, y: BigInt): (b: bool)
    ensures b == !Equal(x, y)
    ensures Canonical(x) && Canonical(y) ==> (b <==> IntVal(x) != IntVal(y))
  {
    x.sign != y.sign || x.num != y.num
  }
}
