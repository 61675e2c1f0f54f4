/** Conversions between big integers and decimal text, and between big
    integers and (unbounded) integers. */
module Conversions {
  import opened Decimal
  import opened BigInts

  predicate IsDigitChar(c: char)
  {
    '0' <= c <= '9'
  }

  predicate AllDigits(t: string)
  {
    forall i :: 0 <= i < |t| ==> IsDigitChar(t[i])
  }

  function CharDigit(c: char): Digit
    requires IsDigitChar(c)
  {
    c as int - '0' as int
  }

  function DigitChar(d: Digit): (c: char)
    ensures IsDigitChar(c) && CharDigit(c) == d
  {
    ('0' as int + d) as char
  }

  /** The index of the first '.' in `t`, or |t| when there is none. */
  function DotPos(t: string): (k: nat)
    ensures k <= |t|
    ensures k < |t| ==> t[k] == '.'
    ensures forall j :: 0 <= j < k ==> t[j] != '.'
  {
    if t == [] || t[0] == '.' then 0 else 1 + DotPos(t[1..])
  }

  /** The text after a leading '-', if there is one. */
  function Unsigned(s: string): string
  {
    if |s| > 0 && s[0] == '-' then s[1..] else s
  }

  /** The digits before the first '.', once a leading '-' is removed. */
  function IntegerPart(s: string): string
  {
    Unsigned(s)[..DotPos(Unsigned(s))]
  }

  /** The accepted numerals: ['-'] digit+ ['.' digit*]. */
  predicate IsNumeral(s: string)
  {
    var t := Unsigned(s);
    var k := DotPos(t);
    0 < k && AllDigits(t[..k]) && (k < |t| ==> AllDigits(t[k + 1..]))
  }

  /** The value of a run of digit characters read most-significant first. */
  function TextValue(t: string): nat
    requires AllDigits(t)
  {
    if t == [] then 0 else 10 * TextValue(t[..|t| - 1]) + CharDigit(t[|t| - 1])
  }

  /** The digits of `t` in reverse order: the last character becomes the units digit. */
  function ReverseDigits(t: string): (ds: seq<Digit>)
    requires AllDigits(t)
    ensures |ds| == |t|
  {
    if t == [] then [] else [CharDigit(t[|t| - 1])] + ReverseDigits(t[..|t| - 1])
  }

  /** The digits of `ds` as characters, most-significant first. */
  function DigitText(ds: seq<Digit>): (t: string)
    ensures |t| == |ds| && AllDigits(t)
  {
    if ds == [] then "" else DigitText(ds[1..]) + [DigitChar(ds[0])]
  }

  lemma {:induction false} ReverseDigitsValue(t: string)
    requires AllDigits(t)
    ensures Mag(ReverseDigits(t)) == TextValue(t)
  {
    if t != [] {
      var ds := ReverseDigits(t);
      assert ds[1..] == ReverseDigits(t[..|t| - 1]);
      ReverseDigitsValue(t[..|t| - 1]);
    }
  }

  lemma {:induction false} ReverseDigitText(ds: seq<Digit>)
    ensures ReverseDigits(DigitText(ds)) == ds
  {
    if ds != [] {
      var t := DigitText(ds);
      assert t[..|t| - 1] == DigitText(ds[1..]);
      ReverseDigitText(ds[1..]);
    }
  }

  lemma {:induction false} DotPosDigits(t: string)
    requires AllDigits(t)
    ensures DotPos(t) == |t|
  {
    if t != [] {
      DotPosDigits(t[1..]);
    }
  }

  /** Parsing, as assignment from a string: a leading '-' makes the sign -1,
      everything from the first '.' on is dropped without rounding, the digits
      are reversed to units-first order, and the result is normalized. Text
      outside the numeral grammar is refused. */
  function Parse(s: string): (r: Result<BigInt>)
    ensures r.Ok? <==> IsNumeral(s)
    ensures r.Err? ==> r.error == InvalidFormat
    ensures r.Ok? ==> Canonical(r.value)
    ensures r.Ok? ==>
              IntVal(r.value) == (if s[0] == '-' then -1 else 1) * TextValue(IntegerPart(s))
    ensures r.Ok? ==> (r.value.sign == -1 <==> s[0] == '-' && TextValue(IntegerPart(s)) != 0)
  {
    if !IsNumeral(s) then Err(InvalidFormat)
    else
      var digits := IntegerPart(s);
      var newSign := if s[0] == '-' then -1 else 1;
      ReverseDigitsValue(digits);
      NormalizedCanonical(ReverseDigits(digits), newSign);
      Ok(Normalized(ReverseDigits(digits), newSign))
  }

  /** One digit character parses to that digit. */
  lemma ParseDigit(d: Digit)
    ensures Parse([DigitChar(d)]) == Ok(BigInt([d], 1))
  {
    var s := [DigitChar(d)];
    assert Unsigned(s) == s;
    DotPosDigits(s);
    assert IntegerPart(s) == s;
    assert ReverseDigits(s) == [d];
  }

  /** The value constructed from the text of one digit, as in `BigInt c("0")`
      or the one-character substring added in long division. */
  method DigitLiteral(d: Digit) returns (r: BigInt)
    ensures r == BigInt([d], 1)
    ensures Canonical(r) && IntVal(r) == d
  {
    ParseDigit(d);
    r := Parse([DigitChar(d)]).value;
    assert [d][1..] == [] && Mag([d]) == d;
  }

  /** Decimal text: '-' when the sign is -1, then the digits most-significant first. */
  function ToString(x: BigInt): (r: string)
    ensures |r| == |x.num| + (if x.sign == -1 then 1 else 0)
    ensures |r| > 0 && r[0] == '-' <==> x.sign == -1
  {
    (if x.sign == -1 then "-" else "") + DigitText(x.num)
  }

  /** Text produced by `ToString` parses back to the normalized value; a
      canonical value comes back unchanged. */
  lemma ParseToString(x: BigInt)
    requires Valid(x)
    ensures Parse(ToString(x)) == Ok(Normalized(x.num, x.sign))
    ensures IntVal(Parse(ToString(x)).value) == IntVal(x)
    ensures Canonical(x) ==> Parse(ToString(x)) == Ok(x)
  {
    var s := ToString(x);
    var t := DigitText(x.num);
    assert Unsigned(s) == t;
    DotPosDigits(t);
    assert IntegerPart(s) == t;
    ReverseDigitText(x.num);
    NormalizedCanonical(x.num, x.sign);
    if Canonical(x) {
      NormalizedOfCanonical(x);
    }
  }

  /** Printing, parsing and printing again gives the first text. */
  lemma ToStringStable(x: BigInt)
    requires Canonical(x)
    ensures IsNumeral(ToString(x))
    ensures ToString(Parse(ToString(x)).value) == ToString(x)
  {
    ParseToString(x);
  }

  /** Canonical text has no most-significant zero and no "-0". */
  lemma ToStringCanonical(x: BigInt)
    requires Canonical(x)
    ensures ToString(x) == "0" || ToString(x)[if x.sign == -1 then 1 else 0] != '0'
    ensures ToString(x)[0] == '-' <==> IntVal(x) < 0
  {
    CanonicalSign(x);
    var t := DigitText(x.num);
    var n := |x.num|;
    assert t == DigitText(x.num[1..]) + [DigitChar(x.num[0])];
    DigitTextFirst(x.num);
    if n == 1 && x.num[0] == 0 {
      assert ToString(x) == "0";
    }
  }

  lemma {:induction false} DigitTextFirst(ds: seq<Digit>)
    requires |ds| > 0
    ensures DigitText(ds)[0] == DigitChar(ds[|ds| - 1])
  {
    if |ds| > 1 {
      DigitTextFirst(ds[1..]);
    }
  }

  /** The decimal text of a natural number, with no leading zero. */
  function NatText(n: nat): (t: string)
    ensures |t| > 0 && AllDigits(t)
    ensures TextValue(t) == n
    ensures n > 0 ==> t[0] != '0'
  {
    if n < 10 then [DigitChar(n)]
    else
      var t := NatText(n / 10) + [DigitChar(n % 10)];
      assert t[..|t| - 1] == NatText(n / 10);
      t
  }

  /** The decimal text of an integer: '-' for a negative one, then its digits. */
  function IntToString(a: int): string
  {
    if a < 0 then "-" + NatText(-a) else NatText(a)
  }

  /** Assignment from an integer: its decimal text, parsed. */
  function FromInt(a: int): (r: BigInt)
    ensures Canonical(r) && IntVal(r) == a
  {
    var s := IntToString(a);
    var t := if a < 0 then NatText(-a) else NatText(a);
    assert Unsigned(s) == t;
    DotPosDigits(t);
    assert IntegerPart(s) == t;
    Parse(s).value
  }

  /** The conversion to an integer: digits accumulated from the most
      significant down, then the sign applied. */
  method ToInt(x: BigInt) returns (r: int)
    ensures r == IntVal(x)
  {
    var acc := 0;
    var i := |x.num|;
    while i > 0
      invariant 0 <= i <= |x.num|
      invariant acc == Mag(x.num[i..])
    {
      i := i - 1;
      MagFrom(x.num, i);
      acc := acc * 10 + x.num[i];
    }
    assert x.num[0..] == x.num;
    r := acc * x.sign;
  }

  /** Parsing drops most-significant zeros. */
  lemma ParseLeadingZeros()
    ensures Parse("007") == Parse("7") == Ok(BigInt([7], 1))
  {
    ParseDigit(7);
    assert Unsigned("007") == "007";
    DotPosDigits("007");
    assert IntegerPart("007") == "007";
    assert ReverseDigits("007") == [7, 0, 0];
    assert [7, 0, 0][..2] == [7, 0] && [7, 0][..1] == [7];
    assert Trim([7, 0, 0]) == [7];
  }

  /** Parsing truncates the fractional part instead of rounding it. */
  lemma ParseFraction()
    ensures Parse("3.99") == Parse("3") == Ok(BigInt([3], 1))
  {
    ParseDigit(3);
    assert Unsigned("3.99") == "3.99";
    assert DotPos("3.99") == 1;
    assert IntegerPart("3.99") == "3";
  }

  /** Parsing "-0" gives the canonical zero with sign +1, printed as "0". */
  lemma ParseNegativeZero()
    ensures Parse("-0") == Parse("0") == Ok(Zero())
    ensures ToString(Parse("-0").value) == "0"
  {
    ParseDigit(0);
    assert Unsigned("-0") == "0";
    assert IntegerPart("-0") == "0";
  }
}
