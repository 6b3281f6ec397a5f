/** Positional numerals, most significant digit first. */
module Radix {

  function Abs(n: int): nat { if n < 0 then -n else n }

  ghost predicate Numeral(ds: seq<nat>, base: nat) {
    forall d <- ds :: d < base
  }

  /** No leading zero. */
  predicate Minimal(ds: seq<nat>) {
    ds == [] || ds[0] != 0
  }

  function Value(ds: seq<nat>, base: nat): nat {
    if ds == [] then 0 else Value(ds[..|ds| - 1], base) * base + ds[|ds| - 1]
  }

  function Digits(n: nat, base: nat): (ds: seq<nat>)
    requires base >= 2
    ensures Numeral(ds, base) && Minimal(ds) && (ds == [] <==> n == 0)
  {
    if n == 0 then []
    else
      DivLess(n, base);
      Digits(n / base, base) + [n % base]
  }

  function Pow(base: nat, k: nat): (p: nat)
    ensures base > 0 ==> p > 0
  {
    if k == 0 then 1 else Pow(base, k - 1) * base
  }

  function Zeros(k: nat): (zs: seq<nat>)
    ensures |zs| == k && forall i | 0 <= i < k :: zs[i] == 0
  {
    seq(k, _ => 0)
  }

  lemma MulMonotone(a: int, b: int, k: nat)
    requires a <= b
    ensures a * k <= b * k
  {
  }

  lemma MulAssoc(a: int, b: int, c: int)
    ensures a * (b * c) == (a * b) * c
  {
  }

  lemma DivLess(n: nat, base: nat)
    requires n > 0 && base >= 2
    ensures n / base < n && n == (n / base) * base + n % base
  {
  }

  lemma QuotientUnique(q: int, r: nat, q': int, r': nat, base: nat)
    requires r < base && r' < base && q * base + r == q' * base + r'
    ensures q == q' && r == r'
  {
    if q < q' {
      MulMonotone(q + 1, q', base);
    } else if q' < q {
      MulMonotone(q' + 1, q, base);
    }
  }

  lemma DivModUnique(q: nat, r: nat, base: nat)
    requires r < base
    ensures (q * base + r) / base == q && (q * base + r) % base == r
  {
    var n := q * base + r;
    assert n == (n / base) * base + n % base;
    QuotientUnique(q, r, n / base, n % base, base);
  }

  /** Digits spell the number they come from. */
  lemma {:induction false} ValueDigits(n: nat, base: nat)
    requires base >= 2
    ensures Value(Digits(n, base), base) == n
  {
    if n > 0 {
      DivLess(n, base);
      ValueDigits(n / base, base);
      ValueAppend(Digits(n / base, base), n % base, base);
    }
  }

  lemma ValueAppend(ds: seq<nat>, d: nat, base: nat)
    ensures Value(ds + [d], base) == Value(ds, base) * base + d
  {
    assert (ds + [d])[..|ds|] == ds;
  }

  /** A numeral without leading zeros is the one its value has. */
  lemma {:induction false} DigitsValue(ds: seq<nat>, base: nat)
    requires base >= 2 && Numeral(ds, base) && Minimal(ds)
    ensures Digits(Value(ds, base), base) == ds
  {
    if ds != [] {
      var front, d := ds[..|ds| - 1], ds[|ds| - 1];
      assert d in ds;
      assert forall x <- front :: x in ds;
      assert ds == front + [d];
      DigitsValue(front, base);
      DigitsAppend(Value(front, base), d, base);
    }
  }

  lemma DigitsAppend(v: nat, d: nat, base: nat)
    requires base >= 2 && d < base && (v > 0 || d > 0)
    ensures Digits(v * base + d, base) == Digits(v, base) + [d]
  {
    DivModUnique(v, d, base);
    MulMonotone(0, v, base);
    if v > 0 { MulMonotone(1, v, base); }
    UnfoldDigits(v * base + d, base);
  }

  lemma UnfoldDigits(n: nat, base: nat)
    requires base >= 2 && n > 0
    ensures Digits(n, base) == Digits(n / base, base) + [n % base]
  {
  }

  lemma {:induction false} LeadingZeros(k: nat, ds: seq<nat>, base: nat)
    ensures Value(Zeros(k) + ds, base) == Value(ds, base)
  {
    if ds != [] {
      var all := Zeros(k) + ds;
      assert all[..|all| - 1] == Zeros(k) + ds[..|ds| - 1];
      LeadingZeros(k, ds[..|ds| - 1], base);
    } else if k > 0 {
      assert (Zeros(k) + ds)[..k - 1] == Zeros(k - 1) + [];
      LeadingZeros(k - 1, [], base);
    } else {
      assert Zeros(k) + ds == [];
    }
  }

  lemma {:induction false} ValueBound(ds: seq<nat>, base: nat)
    requires Numeral(ds, base) && base >= 2
    ensures Value(ds, base) < Pow(base, |ds|)
    ensures ds != [] && ds[0] != 0 ==> Value(ds, base) >= Pow(base, |ds| - 1)
  {
    if ds != [] {
      var front, d := ds[..|ds| - 1], ds[|ds| - 1];
      assert d in ds && forall x <- front :: x in ds;
      assert |ds| > 1 ==> front[0] == ds[0];
      ValueBound(front, base);
      BoundStep(Value(front, base), d, Pow(base, |front|), base);
      if |ds| > 1 && ds[0] != 0 {
        MulMonotone(Pow(base, |front| - 1), Value(front, base), base);
      }
    }
  }

  function Remainder(n: nat, p: nat): nat
    requires p > 0
  {
    n % p
  }

  function Composed(q: nat, p: nat, r: nat): nat { q * p + r }

  /** A numeral in two parts. */
  lemma {:induction false} ValueSplit(hi: seq<nat>, lo: seq<nat>, base: nat)
    ensures Value(hi + lo, base) == Composed(Value(hi, base), Pow(base, |lo|), Value(lo, base))
  {
    if lo == [] {
      assert hi + lo == hi;
    } else {
      var front, d := lo[..|lo| - 1], lo[|lo| - 1];
      ValueSplit(hi, front, base);
      assert (hi + lo)[..|hi + lo| - 1] == hi + front;
      SplitStep(Value(hi, base), Pow(base, |front|), Value(front, base), base);
    }
  }

  lemma SplitStep(h: nat, p: nat, l: nat, base: nat)
    ensures (h * p + l) * base == h * (p * base) + l * base
  {
  }

  /** The last `k` digits are the remainder modulo the k-th power of the base. */
  lemma ValueTail(ds: seq<nat>, k: nat, base: nat)
    requires base >= 2 && Numeral(ds, base) && k <= |ds|
    ensures Remainder(Value(ds, base), Pow(base, k)) == Value(ds[|ds| - k..], base)
  {
    hide Value, Pow, Remainder;
    var hi, lo := ds[..|ds| - k], ds[|ds| - k..];
    assert ds == hi + lo;
    assert forall d <- lo :: d in ds;
    TailOf(hi, lo, base);
  }

  lemma TailOf(hi: seq<nat>, lo: seq<nat>, base: nat)
    requires base >= 2 && Numeral(lo, base)
    ensures Remainder(Value(hi + lo, base), Pow(base, |lo|)) == Value(lo, base)
  {
    hide Value, Pow, Composed, Remainder, Numeral;
    ValueSplit(hi, lo, base);
    ValueBound(lo, base);
    RemainderIs(Value(hi, base), Pow(base, |lo|), Value(lo, base));
  }

  lemma RemainderIs(q: nat, p: nat, r: nat)
    requires r < p
    ensures Remainder(Composed(q, p, r), p) == r
  {
    DivModUnique(q, r, p);
  }

  lemma {:induction false} PowMonotone(base: nat, j: nat, k: nat)
    requires base > 0 && j <= k
    ensures Pow(base, j) <= Pow(base, k)
  {
    if j < k {
      PowMonotone(base, j, k - 1);
      MulMonotone(1, base, Pow(base, k - 1));
    }
  }

  /** Of one length, only one numeral has a given value. */
  lemma {:induction false} ValueInjective(ds: seq<nat>, es: seq<nat>, base: nat)
    requires base >= 2 && Numeral(ds, base) && Numeral(es, base) && |ds| == |es|
    requires Value(ds, base) == Value(es, base)
    ensures ds == es
  {
    if ds != [] {
      var front, front', d, d' := ds[..|ds| - 1], es[..|es| - 1], ds[|ds| - 1], es[|es| - 1];
      assert d in ds && d' in es;
      assert (forall x <- front :: x in ds) && (forall x <- front' :: x in es);
      QuotientUnique(Value(front, base), d, Value(front', base), d', base);
      ValueInjective(front, front', base);
      assert ds == front + [d] && es == front' + [d'];
    }
  }

  lemma {:induction false} PowSplit(base: nat, j: nat, k: nat)
    ensures Pow(base, j + k) == Pow(base, j) * Pow(base, k)
  {
    if k > 0 {
      PowSplit(base, j, k - 1);
      assert Pow(base, j + k) == Pow(base, j + (k - 1)) * base;
      MulAssoc(Pow(base, j), Pow(base, k - 1), base);
    }
  }

  lemma BoundStep(v: nat, d: nat, p: nat, base: nat)
    requires v < p && d < base
    ensures v * base + d < p * base
  {
    MulMonotone(v + 1, p, base);
  }
}
