/** The big integer as an object: the assignment, compound-assignment and
    increment operators overwrite the object's digits and sign in place. */
module Objects {
  import opened Decimal
  import opened BigInts
  import opened Conversions
  import opened Arithmetic

  class MutableBigInt {
    /** The decimal digits, units digit first. */
    var num: seq<Digit>
    /** +1 or -1. */
    var sign: int

    /** The value the object currently holds. */
    function Value(): BigInt
      reads this
    {
      BigInt(num, sign)
    }

    /** The object invariant: at least one digit and a sign of +1 or -1.
        The object may hold the non-canonical -0, which unary minus yields
        and copy assignment stores. */
    predicate Valid()
      reads this
    {
      BigInts.Valid(Value())
    }

    /** The default constructor assigns 0. */
    constructor ()
      ensures Valid() && Canonical(Value()) && IntVal(Value()) == 0
      ensures Value() == Zero()
    {
      var z := FromInt(0);
      CanonicalZero(z);
      num, sign := z.num, z.sign;
    }

    /** Construction from an integer assigns it. */
    constructor OfInt(a: int)
      ensures Valid() && Canonical(Value()) && IntVal(Value()) == a
    {
      var v := FromInt(a);
      num, sign := v.num, v.sign;
    }

    /** Copy assignment: stores any valid value as it is, -0 included. */
    method Assign(v: BigInt)
      requires BigInts.Valid(v)
      modifies this
      ensures Valid() && Value() == v
    {
      num, sign := v.num, v.sign;
    }

    /** Assignment from an integer: through its decimal text. */
    method AssignInt(a: int)
      modifies this
      ensures Value() == FromInt(a)
      ensures Valid() && Canonical(Value()) && IntVal(Value()) == a
    {
      var v := FromInt(a);
      num, sign := v.num, v.sign;
    }

    /** Assignment from text. Text outside the numeral grammar is refused
        and leaves the object as it was. */
    method AssignText(s: string) returns (r: Result<BigInt>)
      modifies this
      ensures r == Parse(s)
      ensures r.Ok? ==> Value() == r.value && Valid() && Canonical(Value())
      ensures r.Ok? ==> IntVal(Value()) == (if s[0] == '-' then -1 else 1) * TextValue(IntegerPart(s))
      ensures r.Err? ==> Value() == old(Value())
    {
      r := Parse(s);
      if r.Ok? {
        num, sign := r.value.num, r.value.sign;
      }
    }

    /** `+=`: the object becomes the sum; the new value is returned. */
    method AddAssign(a: BigInt) returns (r: BigInt)
      requires Valid() && BigInts.Valid(a)
      modifies this
      ensures Valid() && Canonical(Value()) && r == Value()
      ensures IntVal(Value()) == old(IntVal(Value())) + IntVal(a)
    {
      var v := Plus(Value(), a);
      num, sign := v.num, v.sign;
      r := Value();
    }

    /** `-=`: the object becomes the difference; the new value is returned. */
    method SubAssign(a: BigInt) returns (r: BigInt)
      requires Valid() && BigInts.Valid(a)
      modifies this
      ensures Valid() && Canonical(Value()) && r == Value()
      ensures IntVal(Value()) == old(IntVal(Value())) - IntVal(a)
    {
      var v := Minus(Value(), a);
      num, sign := v.num, v.sign;
      r := Value();
    }

    /** `*=`: the object becomes the product; the new value is returned. */
    method MulAssign(a: BigInt) returns (r: BigInt)
      requires Valid() && BigInts.Valid(a)
      modifies this
      ensures Valid() && Canonical(Value()) && r == Value()
      ensures IntVal(Value()) == old(IntVal(Value())) * IntVal(a)
    {
      var v := Mul(Value(), a);
      num, sign := v.num, v.sign;
      r := Value();
    }

    /** `/=`: the object becomes the truncated quotient. A zero divisor is
        refused and leaves the object as it was. */
    method DivAssign(a: BigInt) returns (r: Result<BigInt>)
      requires Valid() && WellFormed(a)
      modifies this
      ensures r.Err? <==> IntVal(a) == 0
      ensures r.Err? ==> r.error == DivisionByZero && Value() == old(Value())
      ensures Valid()
      ensures r.Ok? ==> Canonical(Value()) && r.value == Value()
      ensures r.Ok? ==> IntVal(Value()) == TruncDiv(old(IntVal(Value())), IntVal(a))
    {
      r := Div(Value(), a);
      if r.Ok? {
        num, sign := r.value.num, r.value.sign;
      }
    }

    /** `%=`: the object becomes the remainder. A zero divisor is refused
        and leaves the object as it was. */
    method ModAssign(a: BigInt) returns (r: Result<BigInt>)
      requires Valid() && WellFormed(a)
      modifies this
      ensures r.Err? <==> IntVal(a) == 0
      ensures r.Err? ==> r.error == DivisionByZero && Value() == old(Value())
      ensures Valid()
      ensures r.Ok? ==> Canonical(Value()) && r.value == Value()
      ensures r.Ok? ==> IntVal(Value()) == TruncRem(old(IntVal(Value())), IntVal(a))
    {
      r := Mod(Value(), a);
      if r.Ok? {
        num, sign := r.value.num, r.value.sign;
      }
    }

    /** Prefix `++`: `+= 1`, returning the new value. */
    method PreIncrement() returns (r: BigInt)
      requires Valid()
      modifies this
      ensures Valid() && Canonical(Value()) && r == Value()
      ensures IntVal(Value()) == old(IntVal(Value())) + 1
    {
      r := AddAssign(FromInt(1));
    }

    /** Prefix `--`: `-= 1`, returning the new value. */
    method PreDecrement() returns (r: BigInt)
      requires Valid()
      modifies this
      ensures Valid() && Canonical(Value()) && r == Value()
      ensures IntVal(Value()) == old(IntVal(Value())) - 1
    {
      r := SubAssign(FromInt(1));
    }

    /** Postfix `++`: increments the object and returns a copy of its old value. */
    method PostIncrement() returns (r: BigInt)
      requires Valid()
      modifies this
      ensures Valid() && Canonical(Value()) && r == old(Value())
      ensures IntVal(Value()) == IntVal(r) + 1
    {
      r := Value();
      var _ := PreIncrement();
    }

    /** Postfix `--`: decrements the object and returns a copy of its old value. */
    method PostDecrement() returns (r: BigInt)
      requires Valid()
      modifies this
      ensures Valid() && Canonical(Value()) && r == old(Value())
      ensures IntVal(Value()) == IntVal(r) - 1
    {
      r := Value();
      var _ := PreDecrement();
    }
  }

  /** Incrementing then decrementing restores a canonical object exactly:
      both leave a canonical value, and the canonical form of a value is
      unique. An object holding -0 comes back as +0 instead. */
  method IncrementThenDecrement(x: MutableBigInt)
    requires x.Valid() && Canonical(x.Value())
    modifies x
    ensures x.Value() == old(x.Value())
  {
    var _ := x.PreIncrement();
    var _ := x.PreDecrement();
    CanonicalUnique(x.Value(), old(x.Value()));
  }

  /** Negating zero and storing the result gives an object holding -0;
      `++` then `--` turns it into the canonical +0. */
  method NegativeZeroIncrementDecrement(x: MutableBigInt)
    modifies x
    ensures x.Value() == Zero()
  {
    x.Assign(Neg(Zero()));
    assert x.Value() == BigInt([0], -1);
    var _ := x.PreIncrement();
    var _ := x.PreDecrement();
    CanonicalZero(x.Value());
  }
}
