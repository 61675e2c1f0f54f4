# BigInt: arbitrary-precision signed decimal integers

This project models `rxh::BigInt` from `BigInt.h`. A BigInt stores its
magnitude as a string of decimal digits, units digit first (`num`), and
keeps a separate `sign` of +1 or -1. The operators are the grade-school
algorithms:

- `+` propagates a carry;
- `-` propagates a borrow, and swaps the operands when |x| < |y|;
- `*` adds the shifted multiplicand once per unit of each digit;
- `/` and `%` do restoring long division, subtracting the divisor while
  the running remainder is not less than it.

Every arithmetic result, of `+`, `-`, `*`, `/`, `%` and `abs`, goes through
`normalize`. It erases the most-significant zeros and gives zero the sign +1.
Unary minus is the exception (see below).

## How the model is organised

- `decimal.dfy` (module `Decimal`): digit sequences and the natural numbers
  they denote (`Mag`), trimming, and the place-value facts the loops need.
- `bigint.dfy` (module `BigInts`): the value `BigInt(num, sign)`, its
  meaning `IntVal(x) = sign * Mag(num)`, and three predicates.
  `Valid` means non-empty with sign ±1. `WellFormed` adds trimmed digits.
  `Canonical` also requires zero to have sign +1.
  This module also holds `normalize` (a method with the erase loop),
  unary minus, `abs`, `digits`, `==` and `!=`.
- `conversions.dfy` (module `Conversions`): assignment from text and from
  integers, `to_string`, and the digit-accumulating cast to an integer.
- `arithmetic.dfy` (module `Arithmetic`): `<`, `>`, `<=`, `>=`, `+`, `-`,
  `*`, `/`, `%` and `pow`, each a method running the source's loop. Each is
  proved against integer arithmetic. `/` and `%` are compared with
  division truncating toward zero (`TruncDiv` and `TruncRem`).
- `objects.dfy` (module `Objects`): the class `MutableBigInt` with fields
  `num` and `sign`. The assignment, compound-assignment and increment
  operators overwrite those fields in place.

BigInt is a value type in C++: the binary operators take and return copies.
They are therefore modelled as methods from values to values. Only the
operators that overwrite `*this` work on the class.

Unary minus follows the code: it flips the sign of a copy and does not
normalize. The negation of zero is therefore the non-canonical `[0]` with
sign -1. `+`, `-` and `*` accept such operands (they only require `Valid`),
and their results are canonical again. An object can hold -0 too: copy
assignment (`Assign`) stores any valid value, so the class invariant is
`Valid`, and the operators on the object promise a canonical result.

## Model

| member | source | states |
|---|---|---|
| BigInts.Normalize | BigInt.h:132-137 | The result's digits are the input's with most-significant zeros removed. Its sign is +1 for zero and `newSign` otherwise. The result is canonical and denotes `newSign` times the input's magnitude. |
| BigInts.NormalizedCanonical | BigInt.h:132-137 | Normalizing keeps the magnitude, gives the canonical form, and sets the sign to +1 exactly when the magnitude is zero. |
| BigInts.NormalizedOfCanonical | BigInt.h:132-137 | Normalizing a canonical value changes nothing. |
| BigInts.CanonicalUnique | BigInt.h:124-125 | Two canonical values that denote the same integer are identical: the representation is unique. |
| BigInts.CanonicalSign | BigInt.h:124-125 | A canonical value has sign -1 exactly when it is negative, and its digits denote its absolute value. |
| BigInts.Neg | BigInt.h:73 | Unary minus negates the value and keeps it valid. On a canonical input the result is canonical exactly when the input is nonzero, because -0 keeps sign -1. |
| BigInts.Abs | BigInt.h:116 | `abs` is canonical and denotes the absolute value. |
| BigInts.Digits | BigInt.h:63 | For a well-formed nonzero value, `digits()` is the n with 10^(n-1) <= magnitude < 10^n; for a well-formed zero (+0 or -0) it is 1. |
| BigInts.Equal | BigInt.h:103 | On canonical values, structural `==` holds exactly when the integers are equal. |
| BigInts.NotEqual | BigInt.h:104 | `!=` is the negation of `==`, and on canonical values holds exactly when the integers differ. |
| Conversions.Parse | BigInt.h:144-151 | Text is accepted exactly when it matches `['-'] digit+ ['.' digit*]`; other text gives `InvalidFormat`. An accepted result is canonical and denotes the digits before the '.', negated when there is a leading '-'. Its sign is -1 exactly when the text starts with '-' and the value is nonzero. |
| Conversions.ParseDigit | BigInt.h:144-151 | The text of a single digit parses to that one-digit value. |
| Conversions.ParseLeadingZeros | BigInt.h:144-151 | "007" parses to the same value as "7": most-significant zeros are dropped. |
| Conversions.ParseFraction | BigInt.h:144-151 | "3.99" parses to 3: the fraction is truncated, not rounded. |
| Conversions.ParseNegativeZero | BigInt.h:144-151 | "-0" parses to canonical zero with sign +1, and prints back as "0". |
| Conversions.DigitLiteral | BigInt.h:202 | Constructing from the text of one digit, as in `BigInt c("0")`, gives the canonical one-digit value of that digit. |
| Conversions.ToString | BigInt.h:257-262 | `to_string` has one character per digit plus a leading '-', and begins with '-' exactly when the sign is -1. |
| Conversions.ParseToString | BigInt.h:257-262 | For any valid x, untrimmed digits and -0 included, parsing `to_string(x)` gives the normalized x, with the same value. A canonical x comes back `==` to itself. |
| Conversions.ToStringStable | BigInt.h:257-262 | The text of a canonical value is a valid numeral, and printing its parse gives the same text again. |
| Conversions.ToStringCanonical | BigInt.h:257-262 | Canonical text is "0" or has no leading zero, and begins with '-' exactly when the value is negative. |
| Conversions.NatText | BigInt.h:139-142 | The decimal text of a natural number is a non-empty run of digits denoting that number, with no leading '0' unless the number is 0. |
| Conversions.FromInt | BigInt.h:139-142 | Assignment from an integer, through its decimal text, gives the canonical value denoting that integer. |
| Conversions.ToInt | BigInt.h:248-255 | The cast accumulates the digits from the most significant down, applies the sign, and yields exactly the denoted integer. |
| Arithmetic.TruncDivision | BigInt.h:200-223 | For a nonzero divisor, quotient times divisor plus remainder is the dividend. The remainder is smaller than the divisor in absolute value, and is zero or has the dividend's sign. |
| Arithmetic.Less | BigInt.h:157-165 | Different signs are decided by the sign. On well-formed operands of equal sign, and on any canonical operands, `<` agrees with integer order. |
| Arithmetic.Greater | BigInt.h:101 | On canonical operands `>` agrees with integer order. |
| Arithmetic.LessEq | BigInt.h:106 | On canonical operands `<=` agrees with integer order. |
| Arithmetic.GreaterEq | BigInt.h:107 | On canonical operands `>=` agrees with integer order. |
| Arithmetic.AddMagnitudes | BigInt.h:170-174 | The carry loop yields digits denoting the sum of the magnitudes, with at most one more digit than the longer operand. |
| Arithmetic.Plus | BigInt.h:167-176 | `+` is canonical and denotes the integer sum. With equal signs it has at most max(len)+1 digits. |
| Arithmetic.SubtractMagnitudes | BigInt.h:183-187 | When the subtrahend's magnitude is at most the minuend's, the borrow loop yields one digit per place of the minuend. Those digits denote the difference, and no borrow is outstanding at the end. |
| Arithmetic.Minus | BigInt.h:178-189 | `-` is canonical and denotes the integer difference, including the swapped case when abs(x) < abs(y). |
| Arithmetic.Mul | BigInt.h:191-198 | `*` is canonical and denotes the integer product. Its sign is the product of the signs, and a zero product has sign +1. |
| Arithmetic.QuotientZeros | BigInt.h:202-203 | The quotient starts as the default "0" plus one more zero per dividend digit: exactly n+1 zero digits, sign +1. |
| Arithmetic.BringDown | BigInt.h:206-207 | Inserting a units zero into the remainder and adding the next dividend digit gives ten times the remainder plus that digit, in canonical form. |
| Arithmetic.SubtractDivisor | BigInt.h:208 | The inner subtraction loop of `/` leaves a remainder below the divisor. The quotient digit it counts in place stays within 0..9, and remainder plus digit times divisor equals the starting remainder. |
| Arithmetic.QuotientValue | BigInt.h:200-211 | When the quotient digits and the final remainder split the dividend's magnitude, normalizing the digits with the product of the signs gives the truncated quotient. |
| Arithmetic.Div | BigInt.h:200-211 | `/` refuses exactly the zero divisor. Otherwise the result is canonical and denotes the quotient truncated toward zero. |
| Arithmetic.Mod | BigInt.h:213-223 | `%` refuses exactly the zero divisor. Otherwise the result is canonical and denotes the remainder of truncated division, which has the dividend's sign. |
| Arithmetic.ReduceRemainder | BigInt.h:220 | The inner loop of `%` leaves a canonical remainder below the divisor that differs from the starting one by a multiple of the divisor. |
| Arithmetic.RemainderValue | BigInt.h:213-223 | When a remainder below the divisor completes the dividend's magnitude, normalizing it with the dividend's sign gives the truncated remainder. |
| Arithmetic.Pow | BigInt.h:242-246 | `pow(a, exp)` (also `a ^ exp`) is canonical and denotes a^exp, and is 1 when exp is 0. |
| Objects.MutableBigInt.constructor | BigInt.h:59 | A default-constructed object holds canonical zero. |
| Objects.MutableBigInt.OfInt | BigInt.h:60 | An object constructed from an integer holds it. |
| Objects.MutableBigInt.Assign | BigInt.h:56-130 | The compiler-generated copy assignment stores any valid value unchanged, the non-canonical -0 included. |
| Objects.MutableBigInt.AssignInt | BigInt.h:139-142 | Assigning an integer makes the object hold exactly that integer, in canonical form. |
| Objects.MutableBigInt.AssignText | BigInt.h:144-151 | Assigning text stores the parse of an accepted numeral. Refused text leaves the object unchanged. |
| Objects.MutableBigInt.AddAssign | BigInt.h:86 | `+=` makes the object hold the old value plus the operand and returns the new value. The new state is canonical even when the old one was -0. |
| Objects.MutableBigInt.SubAssign | BigInt.h:87 | `-=` makes the object hold the old value minus the operand and returns the new value. The new state is canonical even when the old one was -0. |
| Objects.MutableBigInt.MulAssign | BigInt.h:88 | `*=` makes the object hold the old value times the operand and returns the new value. The new state is canonical even when the old one was -0. |
| Objects.MutableBigInt.DivAssign | BigInt.h:89 | `/=` makes the object hold the truncated quotient, in canonical form. A zero divisor is refused and the object is left unchanged. |
| Objects.MutableBigInt.ModAssign | BigInt.h:90 | `%=` makes the object hold the truncated remainder, in canonical form. A zero divisor is refused and the object is left unchanged. |
| Objects.MutableBigInt.PreIncrement | BigInt.h:93 | `++x` adds one and returns the new value. The new state is canonical even when the old one was -0. |
| Objects.MutableBigInt.PreDecrement | BigInt.h:94 | `--x` subtracts one and returns the new value. The new state is canonical even when the old one was -0. |
| Objects.MutableBigInt.PostIncrement | BigInt.h:96 | `x++` adds one and returns the old value. The new state is canonical even when the old one was -0. |
| Objects.MutableBigInt.PostDecrement | BigInt.h:97 | `x--` subtracts one and returns the old value. The new state is canonical even when the old one was -0. |
| Objects.IncrementThenDecrement | BigInt.h:93-94 | For a canonical object, `++x` followed by `--x` restores it exactly, digits and sign. |
| Objects.NegativeZeroIncrementDecrement | BigInt.h:93-94 | An object holding -0 (zero negated and stored) comes back from `++x` then `--x` as the canonical +0, so the restoration above needs a canonical start. |

## Left out

- Stream I/O and `print` (BigInt.h:225-240) are not modelled. They only write or read characters; `to_string` and text assignment cover the conversions they rely on.
- Division by zero: BigInt.h:201 and BigInt.h:214 "guard" the zero divisor with a native division by zero, which is undefined behaviour in C++. `Div`, `Mod`, `DivAssign` and `ModAssign` return `Err(DivisionByZero)` instead.
- Conversions.Parse: the code does no validation. Text such as "", "-", ".5" or "12a" produces an empty or non-digit `num`. The model refuses any text outside `['-'] digit+ ['.' digit*]` with `InvalidFormat`, so nothing is claimed about malformed input.
- Conversions.ToInt: the cast targets a native integer type; the model accumulates into an unbounded integer, so overflow and wrap-around are not modelled.
- Template assignment and construction (BigInt.h:60, BigInt.h:139-142) are specialised to integers. Floating-point arguments, which go through `std::to_string` of a float, are not modelled.
- Construction from text through the template constructor (BigInt.h:60 with a string argument) is not modelled, because a constructor has no way to refuse bad text. Text assignment (`AssignText`) covers it. `operator=(const char*)` (BigInt.h:153-155) forwards to the string assignment and has no member of its own.
- Unary `+` (BigInt.h:74) returns an unchanged copy and has no member. `inverseSign` (BigInt.h:129) is part of `Neg`.
- Arithmetic.Less: on arbitrary valid operands only the differing-sign case is stated. With untrimmed digits the digit-count step (BigInt.h:159-160) does not follow integer order. With a -0 operand the sign step (BigInt.h:158) does not: -0 < +0 holds although both are zero. -0 against another negative value is ordered correctly, and the well-formed same-sign clause covers that case.
- Arithmetic.Greater, Arithmetic.LessEq and Arithmetic.GreaterEq: stated for canonical operands only, for the same reason.
- Arithmetic.Pow: the exponent is an `unsigned int`, modelled as a natural below 2^32.
- Arithmetic.Div, Arithmetic.Mod: the divisor must be well formed (no most-significant zero), because the inner loop relies on `<`, which compares digit counts. Every value the operators produce is well formed (canonical, except the -0 of unary minus, which is still well formed), so this always holds for divisors built from them.
- In `*`, the loop header reads `num[num.size()]` once after the last place. That is the string terminator and its value is discarded, so the model does not represent that read.
- The speed of the naive multiplication and division, and the memory layout of `std::string`, are not modelled.
- main.cpp, a demonstration program, is not part of this model.
