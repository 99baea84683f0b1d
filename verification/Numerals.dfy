/** Positional numerals in an arbitrary base, most significant digit first. */
module Numerals {

  function Pow(b: nat, e: nat): nat {
    if e == 0 then 1 else b * Pow(b, e - 1)
  }

  ghost predicate IsDigits(base: nat, ds: seq<nat>) {
    forall i :: 0 <= i < |ds| ==> ds[i] < base
  }

  /** The number a digit string denotes. */
  function Value(base: nat, ds: seq<nat>): nat {
    if ds == [] then 0 else Value(base, ds[..|ds| - 1]) * base + ds[|ds| - 1]
  }

  /** The digit string of `n` without leading zeros; empty for zero. */
  function Digits(base: nat, n: nat): seq<nat>
    requires base >= 2
  {
    if n == 0 then [] else DivLess(n, base); Digits(base, n / base) + [n % base]
  }

  function LeadingZeros(ds: seq<nat>): (k: nat)
    ensures k <= |ds|
    ensures forall i :: 0 <= i < k ==> ds[i] == 0
    ensures k < |ds| ==> ds[k] != 0
  {
    if ds == [] || ds[0] != 0 then 0 else 1 + LeadingZeros(ds[1..])
  }

  function Zeros(k: nat): (z: seq<nat>)
    ensures |z| == k && forall i :: 0 <= i < k ==> z[i] == 0
  {
    seq(k, _ => 0)
  }

  /** Leading zeros copied one for one, the rest rewritten in the other base. */
  function Rebase(from: nat, to: nat, ds: seq<nat>): seq<nat>
    requires to >= 2
  {
    Zeros(LeadingZeros(ds)) + Digits(to, Value(from, ds))
  }

  lemma DivLess(n: nat, base: nat)
    requires n > 0 && base >= 2
    ensures n / base < n
  {
    assert n == (n / base) * base + n % base;
    MulMono(base, 2, n / base);
  }

  lemma MulMono(a: nat, b: nat, c: nat)
    requires b <= a
    ensures b * c <= a * c
  {
  }

  lemma DivModUnique(q: nat, base: nat, r: nat)
    requires r < base
    ensures (q * base + r) / base == q && (q * base + r) % base == r
  {
    var n := q * base + r;
    var q', r' := n / base, n % base;
    assert n == q' * base + r';
    if q < q' {
      MulMono(q', q + 1, base);
    } else if q' < q {
      MulMono(q, q' + 1, base);
    }
  }

  lemma {:induction false} DigitsAreDigits(base: nat, n: nat)
    requires base >= 2
    ensures IsDigits(base, Digits(base, n))
    ensures n > 0 ==> |Digits(base, n)| > 0 && Digits(base, n)[0] != 0
  {
    if n > 0 {
      DivLess(n, base);
      DigitsAreDigits(base, n / base);
      if n / base == 0 {
        assert n == (n / base) * base + n % base;
      }
    }
  }

  lemma {:induction false} ValueOfDigits(base: nat, n: nat)
    requires base >= 2
    ensures Value(base, Digits(base, n)) == n
  {
    if n > 0 {
      DivLess(n, base);
      ValueOfDigits(base, n / base);
      var ds := Digits(base, n);
      assert ds[..|ds| - 1] == Digits(base, n / base);
    }
  }

  /** A digit string without a leading zero is the only one for its value. */
  lemma {:induction false} DigitsOfValue(base: nat, ds: seq<nat>)
    requires base >= 2 && IsDigits(base, ds)
    requires ds == [] || ds[0] != 0
    ensures Digits(base, Value(base, ds)) == ds
    ensures ds != [] ==> Value(base, ds) > 0
  {
    if ds != [] {
      var init, last := ds[..|ds| - 1], ds[|ds| - 1];
      DigitsOfValue(base, init);
      DivModUnique(Value(base, init), base, last);
      if init != [] {
        MulMono(Value(base, init), 1, base);
      }
    }
  }

  lemma {:induction false} ValueSkipsZeros(base: nat, k: nat, ds: seq<nat>)
    ensures Value(base, Zeros(k) + ds) == Value(base, ds)
  {
    var all := Zeros(k) + ds;
    if ds != [] {
      assert all[..|all| - 1] == Zeros(k) + ds[..|ds| - 1];
      ValueSkipsZeros(base, k, ds[..|ds| - 1]);
    } else if k > 0 {
      assert all[..|all| - 1] == Zeros(k - 1) + [];
      ValueSkipsZeros(base, k - 1, []);
    }
  }

  lemma {:induction false} LeadingZerosOf(k: nat, ds: seq<nat>)
    requires ds == [] || ds[0] != 0
    ensures LeadingZeros(Zeros(k) + ds) == k
  {
    var all := Zeros(k) + ds;
    assert forall i :: 0 <= i < k ==> all[i] == 0;
    assert ds != [] ==> all[k] == ds[0];
  }

  lemma SplitLeadingZeros(ds: seq<nat>)
    ensures ds == Zeros(LeadingZeros(ds)) + ds[LeadingZeros(ds)..]
  {
  }

  /** Rewriting to another base and back is the identity. */
  lemma {:induction false} RebaseInverse(from: nat, to: nat, ds: seq<nat>)
    requires from >= 2 && to >= 2 && IsDigits(from, ds)
    ensures IsDigits(to, Rebase(from, to, ds))
    ensures Rebase(to, from, Rebase(from, to, ds)) == ds
    ensures LeadingZeros(Rebase(from, to, ds)) == LeadingZeros(ds)
  {
    var z, n := LeadingZeros(ds), Value(from, ds);
    var rest := ds[z..];
    SplitLeadingZeros(ds);
    ValueSkipsZeros(from, z, rest);
    DigitsOfValue(from, rest);
    DigitsAreDigits(to, n);
    LeadingZerosOf(z, Digits(to, n));
    ValueSkipsZeros(to, z, Digits(to, n));
    ValueOfDigits(to, n);
  }

  lemma {:induction false} PowPositive(b: nat, e: nat)
    requires b > 0
    ensures Pow(b, e) > 0
  {
    if e > 0 {
      PowPositive(b, e - 1);
      MulMono(b, 1, Pow(b, e - 1));
    }
  }

  lemma MulMono2(a: nat, b: nat, p: nat, q: nat)
    requires a <= b && p <= q
    ensures a * p <= b * q
    ensures a < b && 0 < q ==> a * p < b * q
  {
    MulMono(q, p, a);
    MulMono(b, a, q);
    if a < b && 0 < q {
      assert b * q == a * q + (b - a) * q;
      MulMono(b - a, 1, q);
    }
  }

  /** A numeral of k digits lies below base^k, and above base^(k-1) unless it starts with zero. */
  lemma {:induction false} ValueBounds(base: nat, ds: seq<nat>)
    requires base >= 1 && IsDigits(base, ds)
    ensures Value(base, ds) < Pow(base, |ds|)
    ensures ds != [] && ds[0] != 0 ==> Pow(base, |ds| - 1) <= Value(base, ds)
  {
    if ds != [] {
      var init, last := ds[..|ds| - 1], ds[|ds| - 1];
      ValueBounds(base, init);
      NextValueBounds(base, Value(base, init), last, Pow(base, |init|));
      if |init| > 0 && ds[0] != 0 {
        NextValueFloor(base, Value(base, init), last, Pow(base, |init| - 1));
      }
    }
  }

  lemma NextValueBounds(base: nat, v: nat, last: nat, p: nat)
    requires v < p && last < base
    ensures v * base + last < base * p
  {
    MulMono2(v + 1, p, base, base);
    assert (v + 1) * base == v * base + base;
  }

  lemma NextValueFloor(base: nat, v: nat, last: nat, p: nat)
    requires p <= v
    ensures base * p <= v * base + last
  {
    MulMono2(p, v, base, base);
  }

  lemma MulAssoc(a: nat, b: nat, c: nat)
    ensures a * (b * c) == (a * b) * c
  {
  }

  lemma {:induction false} PowAdd(b: nat, x: nat, y: nat)
    ensures Pow(b, x + y) == Pow(b, x) * Pow(b, y)
  {
    if x > 0 {
      PowAdd(b, x - 1, y);
      MulAssoc(b, Pow(b, x - 1), Pow(b, y));
    }
  }

  lemma {:induction false} PowTimes(b: nat, x: nat, k: nat)
    ensures Pow(b, x * k) == Pow(Pow(b, x), k)
  {
    if k > 0 {
      PowTimes(b, x, k - 1);
      assert x * k == x + x * (k - 1);
      PowAdd(b, x, x * (k - 1));
    }
  }

  lemma {:induction false} PowBaseMono(a: nat, b: nat, e: nat)
    requires a <= b
    ensures Pow(a, e) <= Pow(b, e)
    ensures a < b && e > 0 ==> Pow(a, e) < Pow(b, e)
  {
    if e > 0 {
      PowBaseMono(a, b, e - 1);
      if b > 0 {
        PowPositive(b, e - 1);
      }
      MulMono2(a, b, Pow(a, e - 1), Pow(b, e - 1));
    }
  }

  lemma {:induction false} PowExponentMono(b: nat, x: nat, y: nat)
    requires b > 0 && x <= y
    ensures Pow(b, x) <= Pow(b, y)
  {
    PowAdd(b, x, y - x);
    PowPositive(b, y - x);
    MulMono(Pow(b, y - x), 1, Pow(b, x));
  }
}
