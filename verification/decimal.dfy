/** Decimal digit sequences stored least-significant digit first, and the
    natural numbers they denote. Everything the big-integer operations need
    to know about place value is proved here once. */
module Decimal {

  type Digit = d: int | 0 <= d <= 9

  function Pow10(n: nat): (r: nat)
    ensures r >= 1
  {
    if n == 0 then 1 else 10 * Pow10(n - 1)
  }

  /** The magnitude denoted by `ds`, whose first element is the units digit. */
  function Mag(ds: seq<Digit>): nat
  {
    if ds == [] then 0 else ds[0] + 10 * Mag(ds[1..])
  }

  /** The digit at place `i`, or 0 beyond the most significant digit. */
  function DigitAt(ds: seq<Digit>, i: nat): Digit
  {
    if i < |ds| then ds[i] else 0
  }

  /** The magnitude of the places below `i`, that is, `Mag(ds) mod 10^i`. */
  function MagBelow(ds: seq<Digit>, i: nat): nat
  {
    if i < |ds| then Mag(ds[..i]) else Mag(ds)
  }

  /** Non-empty, with no most-significant zero unless the sequence is exactly [0]. */
  predicate Trimmed(ds: seq<Digit>)
  {
    |ds| > 0 && (|ds| == 1 || ds[|ds| - 1] != 0)
  }

  /** `ds` with its most-significant zeros removed, keeping at least one digit. */
  function Trim(ds: seq<Digit>): seq<Digit>
  {
    if |ds| > 1 && ds[|ds| - 1] == 0 then Trim(ds[..|ds| - 1]) else ds
  }

  function Zeros(n: nat): (z: seq<Digit>)
    ensures |z| == n
    ensures forall i :: 0 <= i < n ==> z[i] == 0
  {
    if n == 0 then [] else Zeros(n - 1) + [0]
  }

  lemma Pow10Step(n: nat)
    ensures Pow10(n + 1) == 10 * Pow10(n)
  {
  }

  lemma {:induction false} Pow10Monotone(m: nat, n: nat)
    requires m <= n
    ensures Pow10(m) <= Pow10(n)
  {
    if m < n {
      Pow10Monotone(m, n - 1);
    }
  }

  /** Appending a most-significant digit adds it at place |s|. */
  lemma {:induction false} MagAppend(s: seq<Digit>, d: Digit)
    ensures Mag(s + [d]) == Mag(s) + d * Pow10(|s|)
  {
    if s == [] {
      assert s + [d] == [d];
      assert [d][1..] == [];
    } else {
      assert (s + [d])[0] == s[0];
      assert (s + [d])[1..] == s[1..] + [d];
      MagAppend(s[1..], d);
      AppendStep(s[0], Mag(s[1..]), d, Pow10(|s| - 1));
    }
  }

  /** Inserting a units digit 0 multiplies the magnitude by ten. */
  lemma MagShift(s: seq<Digit>)
    ensures Mag([0] + s) == 10 * Mag(s)
  {
    assert ([0] + s)[1..] == s;
  }

  lemma {:induction false} MagZeros(n: nat, s: seq<Digit>)
    ensures Mag(Zeros(n) + s) == Pow10(n) * Mag(s)
  {
    if n > 0 {
      assert Zeros(n) + s == [0] + (Zeros(n - 1) + s) by {
        ZerosFront(n);
      }
      MagShift(Zeros(n - 1) + s);
      MagZeros(n - 1, s);
      ScaleByTen(Pow10(n - 1), Mag(s));
    } else {
      assert Zeros(n) + s == s;
    }
  }

  lemma ZerosFront(n: nat)
    requires n > 0
    ensures Zeros(n) == [0] + Zeros(n - 1)
  {
    assert Zeros(n) == [0] + Zeros(n - 1);
  }

  /** A magnitude of k digits is below 10^k. */
  lemma {:induction false} MagBound(s: seq<Digit>)
    ensures Mag(s) < Pow10(|s|)
  {
    if s != [] {
      MagBound(s[1..]);
    }
  }

  /** A trimmed sequence of two or more digits is at least 10^(k-1). */
  lemma MagTop(s: seq<Digit>)
    requires Trimmed(s) && |s| > 1
    ensures Mag(s) >= Pow10(|s| - 1)
  {
    var n := |s| - 1;
    assert s == s[..n] + [s[n]];
    MagAppend(s[..n], s[n]);
  }

  /** Splitting at place n: the low n digits plus 10^n times the rest. */
  lemma {:induction false} MagSplit(s: seq<Digit>, n: nat)
    requires n <= |s|
    ensures Mag(s) == Mag(s[..n]) + Pow10(n) * Mag(s[n..])
    decreases |s| - n
  {
    if n == |s| {
      assert s[..n] == s && s[n..] == [];
    } else {
      MagSplit(s, n + 1);
      MagFrom(s, n);
      assert s[..n + 1] == s[..n] + [s[n]];
      MagAppend(s[..n], s[n]);
      var p, hi := Pow10(n), Mag(s[n + 1..]);
      assert Pow10(n + 1) == 10 * p;
      Distribute(p, s[n], hi);
    }
  }

  /** Reading from place i: the digit there plus ten times the places above. */
  lemma MagFrom(s: seq<Digit>, i: nat)
    requires i < |s|
    ensures Mag(s[i..]) == s[i] + 10 * Mag(s[i + 1..])
  {
    assert s[i..][1..] == s[i + 1..];
  }

  /** One more place of `MagBelow`. */
  lemma MagBelowStep(s: seq<Digit>, i: nat)
    ensures MagBelow(s, i + 1) == MagBelow(s, i) + DigitAt(s, i) * Pow10(i)
  {
    if i < |s| {
      assert s[..i + 1] == s[..i] + [s[i]];
      MagAppend(s[..i], s[i]);
      if i + 1 == |s| {
        assert s[..i + 1] == s;
      }
    }
  }

  lemma MagBelowZero(s: seq<Digit>)
    ensures MagBelow(s, 0) == 0
  {
    if 0 < |s| {
      assert s[..0] == [];
    }
  }

  /** A magnitude below 10^n has no nonzero digit at place n or above. */
  lemma MagBelowAll(s: seq<Digit>, n: nat)
    requires Mag(s) < Pow10(n)
    ensures MagBelow(s, n) == Mag(s)
  {
    if n < |s| {
      MagSplit(s, n);
      HighZero(Mag(s[..n]), Pow10(n), Mag(s[n..]));
    }
  }

  lemma HighZero(low: nat, p: nat, high: nat)
    requires low + p * high < p
    ensures high == 0
  {
    if high > 0 {
      MulLeftMono(p, 1, high);
    }
  }

  /** Removing most-significant zeros does not change the magnitude. */
  lemma {:induction false} TrimMag(s: seq<Digit>)
    ensures Mag(Trim(s)) == Mag(s)
    ensures |s| > 0 ==> Trimmed(Trim(s))
    ensures |Trim(s)| <= |s| && Trim(s) == s[..|Trim(s)|]
  {
    if |s| > 1 && s[|s| - 1] == 0 {
      var n := |s| - 1;
      TrimMag(s[..n]);
      assert s == s[..n] + [0];
      MagAppend(s[..n], 0);
      assert s[..n][..|Trim(s)|] == s[..|Trim(s)|];
    }
  }

  /** The only trimmed sequence denoting zero is [0]. */
  lemma TrimmedZero(s: seq<Digit>)
    requires Trimmed(s)
    ensures Mag(s) == 0 <==> s == [0]
  {
    if |s| > 1 {
      MagTop(s);
      Pow10Monotone(1, |s| - 1);
    } else {
      assert s[1..] == [];
    }
  }

  /** Trimmed digit sequences are a unique representation of the naturals. */
  lemma {:induction false} TrimmedUnique(a: seq<Digit>, b: seq<Digit>)
    requires Trimmed(a) && Trimmed(b)
    requires Mag(a) == Mag(b)
    ensures a == b
  {
    if |a| == 1 && |b| == 1 {
      assert a[1..] == [] && b[1..] == [];
    } else if |a| == 1 {
      MagTop(b);
      assert false;
    } else if |b| == 1 {
      MagTop(a);
      assert false;
    } else {
      LowDigit(a[0], Mag(a[1..]), b[0], Mag(b[1..]));
      assert a[1..][|a| - 2] == a[|a| - 1] && b[1..][|b| - 2] == b[|b| - 1];
      TrimmedUnique(a[1..], b[1..]);
      assert a == [a[0]] + a[1..] && b == [b[0]] + b[1..];
    }
  }

  /** The units digit and the places above it are determined by the magnitude. */
  lemma LowDigit(a0: Digit, ha: nat, b0: Digit, hb: nat)
    requires a0 + 10 * ha == b0 + 10 * hb
    ensures a0 == b0 && ha == hb
  {
  }

  /** Among trimmed sequences, fewer digits means a smaller magnitude. */
  lemma MagShorter(a: seq<Digit>, b: seq<Digit>)
    requires Trimmed(a) && Trimmed(b) && |a| < |b|
    ensures Mag(a) < Mag(b)
  {
    MagBound(a);
    MagTop(b);
    Pow10Monotone(|a|, |b| - 1);
  }

  /** Equal-length sequences that agree above place i and differ at i are
      ordered by their digits at i. */
  lemma MagFirstDifference(a: seq<Digit>, b: seq<Digit>, i: nat)
    requires |a| == |b| && i < |a|
    requires a[i + 1..] == b[i + 1..] && a[i] < b[i]
    ensures Mag(a) < Mag(b)
  {
    var p := Pow10(i);
    MagSplit(a, i);
    MagSplit(b, i);
    MagFrom(a, i);
    MagFrom(b, i);
    MagBound(a[..i]);
    PlaceOrder(p, Mag(a[..i]), Mag(b[..i]), Mag(a[i..]), Mag(b[i..]));
  }

  lemma PlaceOrder(p: nat, lowA: nat, lowB: nat, highA: nat, highB: nat)
    requires lowA < p && highA < highB
    ensures lowA + p * highA < lowB + p * highB
  {
    MulLeftMono(p, highA + 1, highB);
  }

  lemma ScaleByTen(p: int, m: int)
    ensures (10 * p) * m == 10 * (p * m)
  {
  }

  lemma AppendStep(d0: int, rest: int, d: int, p: int)
    ensures d0 + 10 * (rest + d * p) == (d0 + 10 * rest) + d * (10 * p)
  {
  }

  lemma Distribute(p: int, d: int, hi: int)
    ensures p * (d + 10 * hi) == d * p + (10 * p) * hi
  {
  }

  lemma MulLeftMono(p: nat, m: nat, n: nat)
    requires m <= n
    ensures p * m <= p * n
  {
  }
}
