/** Decimal digits of naturals and of billionths, independent of whether they
    are written as characters (the exposition) or as bytes (RESP). */
module Decimal {

  type Digit = d: nat | d < 10

  /** Left-to-right accumulation, the way both readers build a number. */
  function Accumulate(acc: nat, ds: seq<Digit>): (v: nat)
    ensures v >= acc
    decreases ds
  {
    if ds == [] then acc else Accumulate(acc * 10 + ds[0], ds[1..])
  }

  function Value(ds: seq<Digit>): nat {
    Accumulate(0, ds)
  }

  lemma {:induction false} AccumulateAppend(acc: nat, a: seq<Digit>, b: seq<Digit>)
    ensures Accumulate(acc, a + b) == Accumulate(Accumulate(acc, a), b)
    decreases a
  {
    if a == [] {
      assert a + b == b;
    } else {
      assert (a + b)[1..] == a[1..] + b;
      AccumulateAppend(acc * 10 + a[0], a[1..], b);
    }
  }

  /** The canonical digits of `n`, and their value. */
  function Digits(n: nat): (ds: seq<Digit>)
    ensures |ds| > 0
    ensures Value(ds) == n
  {
    if n < 10 then
      assert Accumulate(n, []) == n;
      [n]
    else
      AccumulateAppend(0, Digits(n / 10), [n % 10]);
      Digits(n / 10) + [n % 10]
  }

  function Pow10(k: nat): (p: nat)
    ensures p > 0
  {
    if k == 0 then 1 else 10 * Pow10(k - 1)
  }

  lemma MulMonotone(a: nat, b: nat, p: nat)
    ensures a <= b ==> a * p <= b * p
  {
    if a <= b {
      assert b * p == a * p + (b - a) * p;
    }
  }

  /** Splits f into its leading digit at scale p and the rest. */
  function Lead(f: nat, p: nat): (r: (Digit, nat))
    requires p > 0 && f < 10 * p
    ensures f == r.0 * p + r.1 && r.1 < p
  {
    MulMonotone(10, f / p, p);
    assert f == (f / p) * p + f % p;
    (f / p, f % p)
  }

  /** Fraction digits of f / 10^k without trailing zeros. */
  function Fraction(f: nat, k: nat): (ds: seq<Digit>)
    requires f < Pow10(k)
    ensures |ds| <= k
    ensures ds == [] <==> f == 0
    decreases k
  {
    if f == 0 then []
    else
      var (d, rest) := Lead(f, Pow10(k - 1));
      [d] + Fraction(rest, k - 1)
  }

  /** What the digits after the point are worth. */
  function FractionValue(ds: seq<Digit>): real {
    if ds == [] then 0.0 else (ds[0] as real + FractionValue(ds[1..])) / 10.0
  }

  lemma ShiftLeft(d: real, v: real, p: real)
    ensures (d + v) / 10.0 * (10.0 * p) == d * p + v * p
  {
    assert (d + v) / 10.0 * 10.0 == d + v;
    assert (d + v) / 10.0 * (10.0 * p) == (d + v) / 10.0 * 10.0 * p;
  }

  lemma {:induction false} ProductAsReal(d: nat, p: nat)
    ensures (d * p) as real == d as real * p as real
  {
    if d == 0 {
    } else {
      ProductAsReal(d - 1, p);
      assert d * p == (d - 1) * p + p;
      assert d as real * p as real == (d - 1) as real * p as real + p as real;
    }
  }

  /** `x` is f parts of scale q. */
  predicate Worth(x: real, f: nat, q: nat) {
    x * q as real == f as real
  }

  /** One more digit `d` in front of a fraction worth `rest` at scale p. */
  lemma LeadingDigit(d: nat, rest: nat, v: real, p: nat, f: nat)
    requires Worth(v, rest, p) && f == d * p + rest
    ensures Worth((d as real + v) / 10.0, f, 10 * p)
  {
    ProductAsReal(d, p);
    ShiftLeft(d as real, v, p as real);
  }

  lemma {:induction false} FractionIsExact(f: nat, k: nat)
    requires f < Pow10(k)
    ensures Worth(FractionValue(Fraction(f, k)), f, Pow10(k))
    decreases k
  {
    hide Fraction, Pow10, Worth;
    if f == 0 {
      NoFraction(k);
    } else {
      FractionUnfolds(f, k);
      var p := Pow10(k - 1);
      var (d, rest) := Lead(f, p);
      FractionIsExact(rest, k - 1);
      LeadingDigit(d, rest, FractionValue(Fraction(rest, k - 1)), p, f);
    }
  }

  lemma NoFraction(k: nat)
    ensures Pow10(k) > 0 && Worth(FractionValue(Fraction(0, k)), 0, Pow10(k))
  {
  }

  lemma FractionUnfolds(f: nat, k: nat)
    requires 0 < f < Pow10(k)
    ensures k > 0 && Pow10(k) == 10 * Pow10(k - 1)
    ensures var (d, rest) := Lead(f, Pow10(k - 1));
            FractionValue(Fraction(f, k)) == (d as real + FractionValue(Fraction(rest, k - 1))) / 10.0
  {
    var (d, rest) := Lead(f, Pow10(k - 1));
    assert Fraction(f, k)[1..] == Fraction(rest, k - 1);
  }
}
