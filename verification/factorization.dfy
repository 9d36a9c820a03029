/** `PrimeFactorization`: trial division by the primes below a power of ten
    that exceeds the square root, collecting `(prime, exponent)` pairs. */
module Factorization {
  import opened Arith
  import opened Primality

  /** One `(prime factor, exponent)` tuple of the result list. */
  datatype Factor = Factor(prime: int, exponent: nat)

  /** The number the factors multiply to. */
  function Product(fs: seq<Factor>): int {
    if |fs| == 0 then 1 else Pow(fs[0].prime, fs[0].exponent) * Product(fs[1..])
  }

  /** Primes with positive exponents, strictly ascending, all in `[lo, hi)`. */
  ghost predicate FactorsIn(fs: seq<Factor>, lo: int, hi: int) {
    (forall k :: 0 <= k < |fs| ==> Prime(fs[k].prime) && fs[k].exponent >= 1 && lo <= fs[k].prime < hi)
    && (forall k, l :: 0 <= k < l < |fs| ==> fs[k].prime < fs[l].prime)
  }

  /** No number in `[2, i)` divides `n`. */
  ghost predicate NoDivisorBelow(n: int, i: int) {
    forall d :: 2 <= d < i ==> !Divides(d, n)
  }

  lemma QuotientSmaller(n: int, p: int)
    requires n >= 1 && p >= 2 && n % p == 0
    ensures 1 <= n / p < n
  {
    var q := n / p;
    assert n == p * q;
    assert q != 0;
    assert q >= 0;
    MulAtLeast(q, p);
    assert q * p == q + q * (p - 1);
  }

  lemma DivideStep(n: int, p: int, rest: int, c: nat)
    requires p >= 2 && n % p == 0 && rest * Pow(p, c) == n / p
    ensures rest * Pow(p, c + 1) == n
  {
    var q := Pow(p, c);
    assert Pow(p, c + 1) == p * q;
    assert rest * (p * q) == p * (rest * q);
    assert n == p * (n / p);
  }

  /** The inner loop that divides `n` by `p` for as long as `p` divides it,
      counting the divisions: the count and the cofactor left. */
  function DivideOut(n: int, p: int): (cr: (nat, int))
    requires n >= 1 && p >= 2
    ensures cr.1 >= 1 && cr.1 % p != 0 && cr.1 * Pow(p, cr.0) == n
    decreases n
  {
    if n % p == 0 then
      QuotientSmaller(n, p);
      var cr := DivideOut(n / p, p);
      DivideStep(n, p, cr.1, cr.0);
      (cr.0 + 1, cr.1)
    else (0, n)
  }

  /** The bound of the trial loop: ten to the power one more than half the
      truncated decimal logarithm of `n`, where that logarithm is
      `Digits(n) - 1`. */
  function RootBound(n: int): int
    requires n >= 1
  {
    Pow(10, (Digits(n) - 1) / 2 + 1)
  }

  /** The bound is past the square root of `n`. */
  lemma RootBoundAboveRoot(n: int)
    requires n >= 1
    ensures RootBound(n) >= 10 && n < RootBound(n) * RootBound(n)
  {
    var d := Digits(n);
    var h := (d - 1) / 2 + 1;
    PowAdd(10, h, h);
    PowMono(10, d, h + h);
    PowMono(10, 1, h);
  }

  /** The state of the trial loop: the factors found and the cofactor left. */
  datatype TrialResult = TrialResult(factors: seq<Factor>, rest: int)

  /** The trial loop from divisor `i` up to `bound`. It ends when `i`
      reaches the bound or breaks once the cofactor is 1. */
  function Trial(n: int, i: int, bound: int): (t: TrialResult)
    requires n >= 1 && i >= 2
    ensures FactorsIn(t.factors, i, bound)
    decreases bound - i
  {
    if i >= bound then TrialResult([], n)
    else if !IsPrime(i) then Trial(n, i + 1, bound)
    else
      var d := DivideOut(n, i);
      var head := if d.0 > 0 then [Factor(i, d.0)] else [];
      if d.1 == 1 then TrialResult(head, 1)
      else
        var t := Trial(d.1, i + 1, bound);
        HeadFactors(i, d.0, t.factors, bound);
        TrialResult(head + t.factors, t.rest)
  }

  /** Putting the factor `i`, if it was found, in front of factors from
      `i + 1` on keeps the list ascending. */
  lemma HeadFactors(i: int, c: nat, fs: seq<Factor>, bound: int)
    requires Prime(i) && i < bound && FactorsIn(fs, i + 1, bound)
    ensures FactorsIn((if c > 0 then [Factor(i, c)] else []) + fs, i, bound)
  {
    if c > 0 {
      FactorsCons(Factor(i, c), fs, i, bound);
    } else {
      assert [] + fs == fs;
    }
  }

  lemma ProductCons(f: Factor, fs: seq<Factor>)
    ensures Product([f] + fs) == Pow(f.prime, f.exponent) * Product(fs)
  {
    assert ([f] + fs)[1..] == fs;
  }

  lemma {:induction false} ProductAppend(fs: seq<Factor>, f: Factor)
    ensures Product(fs + [f]) == Product(fs) * Pow(f.prime, f.exponent)
    decreases |fs|
  {
    if |fs| == 0 {
      assert fs + [f] == [f] + [];
      ProductCons(f, []);
    } else {
      assert (fs + [f])[1..] == fs[1..] + [f];
      ProductAppend(fs[1..], f);
      var x, y, z := Pow(fs[0].prime, fs[0].exponent), Product(fs[1..]), Pow(f.prime, f.exponent);
      MulAssoc(x, y, z);
    }
  }

  lemma Regroup(p: int, f: int, r: int, rest: int, n: int)
    requires f * r == rest && rest * p == n
    ensures (p * f) * r == n
  {
    assert (p * f) * r == p * (f * r);
  }

  /** A divisor of what is left after dividing out is a divisor of `n`. */
  lemma DivisorOfRest(n: int, p: int, d: int)
    requires n >= 1 && p >= 2 && d >= 2 && Divides(d, DivideOut(n, p).1)
    ensures Divides(d, n)
  {
    var cr := DivideOut(n, p);
    ModUnique(n, cr.1, Pow(p, cr.0), 0);
    DividesTrans(d, cr.1, n);
  }

  /** A composite `i` has a divisor below it; so when nothing below `i`
      divides `n`, neither does `i`. */
  lemma CompositeSkip(n: int, i: int)
    requires i >= 2 && !Prime(i) && NoDivisorBelow(n, i)
    ensures NoDivisorBelow(n, i + 1)
  {
    if Divides(i, n) {
      var d :| 2 <= d < i && Divides(d, i);
      DividesTrans(d, i, n);
    }
  }

  /** The factors found times the cofactor left is the input. */
  lemma {:induction false} TrialProduct(n: int, i: int, bound: int)
    requires n >= 1 && i >= 2
    ensures Trial(n, i, bound).rest >= 1
    ensures Product(Trial(n, i, bound).factors) * Trial(n, i, bound).rest == n
    decreases bound - i
  {
    if i < bound {
      if !IsPrime(i) {
        TrialProduct(n, i + 1, bound);
      } else {
        var d := DivideOut(n, i);
        var head := if d.0 > 0 then [Factor(i, d.0)] else [];
        assert Product(head) == Pow(i, d.0) by {
          if d.0 > 0 {
            ProductCons(Factor(i, d.0), []);
          }
        }
        if d.1 != 1 {
          TrialProduct(d.1, i + 1, bound);
          var t := Trial(d.1, i + 1, bound);
          if d.0 > 0 {
            ProductCons(Factor(i, d.0), t.factors);
          } else {
            assert head + t.factors == t.factors;
          }
          Regroup(Pow(i, d.0), Product(t.factors), t.rest, d.1, n);
        }
      }
    }
  }

  lemma FactorsCons(f: Factor, fs: seq<Factor>, lo: int, hi: int)
    requires Prime(f.prime) && f.exponent >= 1 && lo <= f.prime < hi
    requires FactorsIn(fs, f.prime + 1, hi)
    ensures FactorsIn([f] + fs, lo, hi)
  {
    forall k | 0 <= k < |fs| + 1
      ensures ([f] + fs)[k] == (if k == 0 then f else fs[k - 1])
    {
    }
  }

  /** The factors found are ascending primes in `[i, bound)`, and the loop
      stops with cofactor 1 or with a cofactor that no number below the
      bound divides. */
  lemma {:induction false} TrialFactors(n: int, i: int, bound: int)
    requires n >= 1 && i >= 2 && NoDivisorBelow(n, i)
    ensures FactorsIn(Trial(n, i, bound).factors, i, bound)
    ensures Trial(n, i, bound).rest == 1 || NoDivisorBelow(Trial(n, i, bound).rest, Max(i, bound))
    decreases bound - i
  {
    if i < bound {
      if !IsPrime(i) {
        CompositeSkip(n, i);
        TrialFactors(n, i + 1, bound);
      } else {
        var d := DivideOut(n, i);
        if d.1 != 1 {
          forall e | 2 <= e < i + 1
            ensures !Divides(e, d.1)
          {
            if e < i && Divides(e, d.1) {
              DivisorOfRest(n, i, e);
            }
          }
          TrialFactors(d.1, i + 1, bound);
        }
      }
    }
  }

  /** Below `bound^2`, a number with no divisor under `bound` is prime. */
  lemma LeftoverPrime(r: int, bound: int)
    requires 2 <= r < bound * bound && bound >= 1 && NoDivisorBelow(r, bound)
    ensures Prime(r) && r >= bound
  {
    if r < bound {
      assert Divides(r, r);
    }
    forall d | 2 <= d < r
      ensures !Divides(d, r)
    {
      if Divides(d, r) {
        SmallCofactor(r, d, bound - 1);
      }
    }
  }

  lemma CofactorBelow(f: int, r: int, n: int)
    requires f * r == n && r >= 1 && n >= 1
    ensures r <= n
  {
    if f >= 1 {
      MulAtLeast(r, f);
    }
  }

  /** What the trial loop from 2 yields for a composite or unit `n`:
      ascending primes below the bound, and a cofactor that is 1 or a prime
      at least the bound. */
  lemma TrialFromTwo(n: int)
    requires n >= 1
    ensures var t := Trial(n, 2, RootBound(n));
      FactorsIn(t.factors, 2, RootBound(n)) && Product(t.factors) * t.rest == n &&
      (t.rest == 1 || (Prime(t.rest) && t.rest >= RootBound(n)))
  {
    var bound := RootBound(n);
    TrialProduct(n, 2, bound);
    TrialFactors(n, 2, bound);
    RootBoundAboveRoot(n);
    var t := Trial(n, 2, bound);
    if t.rest > 1 {
      CofactorBelow(Product(t.factors), t.rest, n);
      LeftoverPrime(t.rest, bound);
    }
  }

  /** A prime factorization of `n`: ascending primes with positive
      exponents whose product is `n`. */
  ghost predicate IsFactorization(fs: seq<Factor>, n: int) {
    (forall k :: 0 <= k < |fs| ==> Prime(fs[k].prime) && fs[k].exponent >= 1)
    && (forall k, l :: 0 <= k < l < |fs| ==> fs[k].prime < fs[l].prime)
    && Product(fs) == n
  }

  /** Appending a prime larger than every factor completes a factorization. */
  lemma AppendLeftover(fs: seq<Factor>, r: int, n: int, bound: int)
    requires FactorsIn(fs, 2, bound) && Prime(r) && r >= bound && Product(fs) * r == n
    ensures IsFactorization(fs + [Factor(r, 1)], n)
  {
    ProductAppend(fs, Factor(r, 1));
    assert Pow(r, 1) == r;
    var fs' := fs + [Factor(r, 1)];
    forall k | 0 <= k < |fs'|
      ensures fs'[k] == (if k < |fs| then fs[k] else Factor(r, 1))
    {
    }
    assert FactorsIn(fs', 2, r + 1);
  }

  /** `PrimeFactorization(n)` as written: the cofactor left after the trial
      loop is not added to the list, which still holds only primes with
      positive exponents, ascending. */
  function PrimeFactorizationAsWritten(n: int): (fs: seq<Factor>)
    requires n >= 1
    ensures forall k :: 0 <= k < |fs| ==> Prime(fs[k].prime) && fs[k].exponent >= 1
    ensures forall k, l :: 0 <= k < l < |fs| ==> fs[k].prime < fs[l].prime
  {
    if IsPrime(n) then [Factor(n, 1)]
    else Trial(n, 2, RootBound(n)).factors
  }

  /** The factorization the callers rely on: the list above with the
      leftover prime cofactor appended. */
  function PrimeFactorization(n: int): (fs: seq<Factor>)
    requires n >= 1
    ensures IsFactorization(fs, n)
  {
    if IsPrime(n) then
      ProductCons(Factor(n, 1), []);
      [Factor(n, 1)]
    else
      TrialFromTwo(n);
      var t := Trial(n, 2, RootBound(n));
      if t.rest > 1 then
        AppendLeftover(t.factors, t.rest, n, RootBound(n));
        t.factors + [Factor(t.rest, 1)]
      else
        assert Product(t.factors) * 1 == Product(t.factors);
        t.factors
  }

  /** The list as written is the full factorization, or the full one with
      its last factor, of exponent 1, dropped. */
  lemma AsWrittenDropsAtMostLast(n: int)
    requires n >= 1
    ensures var fs, ws := PrimeFactorization(n), PrimeFactorizationAsWritten(n);
      ws == fs || (|fs| >= 1 && ws == fs[..|fs| - 1] && fs[|fs| - 1].exponent == 1)
  {
    if !IsPrime(n) {
      var t := Trial(n, 2, RootBound(n));
      assert (t.factors + [Factor(t.rest, 1)])[..|t.factors|] == t.factors;
    }
  }

  /** 22 is `2 * 11`, but the list as written holds only the factor 2. */
  lemma AsWrittenMisses22()
    ensures PrimeFactorizationAsWritten(22) == [Factor(2, 1)]
    ensures Product(PrimeFactorizationAsWritten(22)) == 2
    ensures PrimeFactorization(22) == [Factor(2, 1), Factor(11, 1)]
  {
    assert !IsPrime(22) by {
      assert Divides(2, 22);
    }
    assert RootBound(22) == 10;
    assert DivideOut(22, 2) == (1, 11);
    assert Trial(11, 10, 10) == TrialResult([], 11);
    assert !IsPrime(9) by { assert Divides(3, 9); }
    assert Trial(11, 9, 10) == TrialResult([], 11);
    assert !IsPrime(8) by { assert Divides(2, 8); }
    assert Trial(11, 8, 10) == TrialResult([], 11);
    assert IsPrime(7) && DivideOut(11, 7) == (0, 11);
    assert Trial(11, 7, 10) == TrialResult([], 11);
    assert !IsPrime(6) by { assert Divides(2, 6); }
    assert Trial(11, 6, 10) == TrialResult([], 11);
    assert IsPrime(5) && DivideOut(11, 5) == (0, 11);
    assert Trial(11, 5, 10) == TrialResult([], 11);
    assert !IsPrime(4) by { assert Divides(2, 4); }
    assert Trial(11, 4, 10) == TrialResult([], 11);
    assert IsPrime(3) && DivideOut(11, 3) == (0, 11);
    assert Trial(11, 3, 10) == TrialResult([], 11);
    assert IsPrime(2);
    assert Trial(22, 2, 10) == TrialResult([Factor(2, 1)], 11);
    ProductCons(Factor(2, 1), []);
  }
}
