/** The primality tests of `Utilities`: the deterministic trial division used
    for small numbers (`isPrime`), one Miller-Rabin witness round
    (`IsComposite`), and the exact test that the rest of the model uses in
    place of the probabilistic `IsPrime` driver. */
module Primality {
  import opened Arith

  /** The `j`-th divisor `f + 6 * j` of the wheel that starts at `f`. */
  function WheelDivisor(f: int, j: nat): int {
    f + 6 * j
  }

  /** The wheel divisor `d` or the one two above it divides `n`. */
  predicate WheelHits(n: int, d: int) {
    Divides(d, n) || Divides(d + 2, n)
  }

  /** The 6k +- 1 wheel of `isPrime`: the trial divisors `f` and `f + 2` for
      `f = 5, 11, 17, ...` while `f` does not exceed the root `r`. It clears
      `n` exactly when no wheel divisor up to `r` hits. */
  function WheelClear(n: int, r: int, f: int): (clear: bool)
    requires f >= 5
    ensures clear <==> forall j: nat :: WheelDivisor(f, j) <= r ==> !WheelHits(n, WheelDivisor(f, j))
    decreases r - f
  {
    if f > r then true
    else if n % f == 0 then assert WheelHits(n, WheelDivisor(f, 0)); false
    else if n % (f + 2) == 0 then assert WheelHits(n, WheelDivisor(f, 0)); false
    else
      WheelShift(n, r, f, f + 6);
      WheelClear(n, r, f + 6)
  }

  /** Past a divisor `f` that misses, the wheel from `f` hits exactly when
      the wheel from the next divisor `g == f + 6` does. */
  lemma WheelShift(n: int, r: int, f: int, g: int)
    requires f >= 5 && g == f + 6 && !WheelHits(n, f)
    ensures (forall j: nat :: WheelDivisor(g, j) <= r ==> !WheelHits(n, WheelDivisor(g, j)))
      <==> (forall j: nat :: WheelDivisor(f, j) <= r ==> !WheelHits(n, WheelDivisor(f, j)))
  {
    forall j: nat | WheelDivisor(f, j) <= r && j > 0
      ensures WheelDivisor(f, j) == WheelDivisor(g, j - 1)
    {
    }
    forall j: nat | WheelDivisor(g, j) <= r
      ensures WheelDivisor(g, j) == WheelDivisor(f, j + 1)
    {
    }
    assert WheelDivisor(f, 0) == f;
  }

  /** `isPrime(n)` exactly as written, for every `int`, including the
      nonpositive ones that fall into the `n < 4` branch. For every positive
      `n` it holds exactly when `n` is prime. */
  function IsPrimeSmall(n: int): (b: bool)
    ensures n >= 1 ==> (b <==> Prime(n))
  {
    if n == 1 then false
    else if n < 4 then true
    else if n % 2 == 0 then assert Divides(2, n); false
    else if n < 9 then SmallOddPrime(n); true
    else if n % 3 == 0 then assert Divides(3, n); false
    else
      NoDivisorBelowFive(n);
      WheelClearCorrect(n, ISqrt(n), 5);
      WheelClear(n, ISqrt(n), 5)
  }

  lemma SmallOddPrime(n: int)
    requires 4 <= n < 9 && n % 2 == 1
    ensures Prime(n)
  {
    assert n == 5 || n == 7;
    forall d | 2 <= d < n
      ensures !Divides(d, n)
    {
      assert d == 2 || d == 3 || d == 4 || d == 5 || d == 6;
    }
  }

  lemma NoDivisorBelowFive(n: int)
    requires n % 2 == 1 && n % 3 != 0
    ensures forall d :: 2 <= d < 5 ==> !Divides(d, n)
  {
    forall d | 2 <= d < 5
      ensures !Divides(d, n)
    {
      if d == 4 && Divides(d, n) {
        DividesTrans(2, 4, n);
      }
    }
  }

  lemma RootBelow(r: int, n: int)
    requires r >= 5 && r * r <= n
    ensures r + 2 < n
  {
    assert r * r == 5 * r + r * (r - 5);
    assert r * (r - 5) >= 0;
  }

  /** The wheel finds a divisor exactly when `n` is composite, provided no
      number below the current divisor `f` divides `n`. */
  lemma {:induction false} WheelClearCorrect(n: int, r: int, f: int)
    requires n >= 2 && n % 2 == 1 && n % 3 != 0
    requires f >= 5 && f % 6 == 5
    requires r >= 0 && r * r <= n < (r + 1) * (r + 1)
    requires forall d :: 2 <= d < f ==> !Divides(d, n)
    ensures WheelClear(n, r, f) <==> Prime(n)
    decreases r - f
  {
    if f > r {
      NoDivisorToRoot(n, r);
      assert WheelClear(n, r, f);
    } else if n % f == 0 {
      WheelHit(n, r, f, f);
      assert !WheelClear(n, r, f);
    } else if n % (f + 2) == 0 {
      WheelHit(n, r, f, f + 2);
      assert !WheelClear(n, r, f);
    } else {
      WheelStep(n, f);
      assert (f + 6) % 6 == 5;
      WheelClearCorrect(n, r, f + 6);
      assert WheelClear(n, r, f) == WheelClear(n, r, f + 6);
    }
  }

  /** A wheel divisor within two of the root is a proper divisor. */
  lemma WheelHit(n: int, r: int, f: int, d: int)
    requires 5 <= f <= r && f <= d <= f + 2 && r * r <= n && n % d == 0
    ensures !Prime(n)
  {
    RootBelow(r, n);
    assert Divides(d, n);
  }

  /** Nothing up to the root divides `n`, so `n` is prime. */
  lemma NoDivisorToRoot(n: int, r: int)
    requires n >= 2 && r >= 0 && n < (r + 1) * (r + 1)
    requires forall d :: 2 <= d <= r ==> !Divides(d, n)
    ensures Prime(n)
  {
    forall d | 2 <= d < n
      ensures !Divides(d, n)
    {
      if Divides(d, n) {
        SmallCofactor(n, d, r);
      }
    }
  }

  /** Past `f` and `f + 2`, the next wheel divisor is `f + 6`: `f + 1`,
      `f + 3` and `f + 5` are even and `f + 4` is a multiple of 3. */
  lemma WheelStep(n: int, f: int)
    requires n % 2 == 1 && n % 3 != 0 && f >= 5 && f % 6 == 5
    requires forall d :: 2 <= d < f ==> !Divides(d, n)
    requires !Divides(f, n) && !Divides(f + 2, n)
    ensures forall d :: 2 <= d < f + 6 ==> !Divides(d, n)
  {
    forall d | f < d < f + 6 && d != f + 2
      ensures !Divides(d, n)
    {
      var c := if d == f + 4 then 3 else 2;
      assert Divides(c, d);
      if Divides(d, n) {
        DividesTrans(c, d, n);
      }
    }
  }

  /** `isPrime` accepts every nonpositive number, none of which is prime. */
  lemma IsPrimeSmallAcceptsNonPositive(n: int)
    requires n <= 0
    ensures IsPrimeSmall(n) && !Prime(n)
  {
  }

  /** The primality test used by the rest of the model: `isPrime` with the
      nonpositive inputs rejected. The probabilistic `IsPrime` driver is taken
      to answer exactly. */
  function IsPrime(n: int): (b: bool)
    ensures b <==> Prime(n)
  {
    if n < 2 then false else IsPrimeSmall(n)
  }

  // ---------------------------------------------------------------------
  // One Miller-Rabin round

  /** The decomposition `x == 2^k * q` with `q` odd, computed by halving. */
  function OddPart(x: int): (kq: (nat, int))
    requires x >= 1
    ensures kq.1 >= 1 && kq.1 % 2 == 1 && Pow(2, kq.0) * kq.1 == x
    decreases x
  {
    if x % 2 == 0 then
      var (k, q) := OddPart(x / 2);
      assert Pow(2, k + 1) * q == 2 * (Pow(2, k) * q);
      (k + 1, q)
    else (0, x)
  }

  /** `q * 2^i`, the exponent reached after `i` squarings of `a^q`. */
  function Doubled(q: nat, i: nat): nat {
    q * Pow(2, i)
  }

  lemma DoubledStep(q: nat, i: nat)
    requires i > 0
    ensures Doubled(q, i) == Doubled(q, i - 1) + Doubled(q, i - 1)
  {
    assert Pow(2, i) == 2 * Pow(2, i - 1);
  }

  /** `a` is a strong witness of probable primality for the odd `n`:
      with `n - 1 == 2^k * q`, either `a^q` is 1 modulo `n` or one of
      `a^(q * 2^i)`, `i < k`, is `n - 1` modulo `n`. */
  predicate StrongProbablePrime(n: int, a: int)
    requires n >= 2
  {
    var k, q := OddPart(n - 1).0, OddPart(n - 1).1;
    Pow(a, q) % n == 1 || exists i :: 0 <= i < k && Pow(a, Doubled(q, i)) % n == n - 1
  }

  /** The values `x, x^2, x^4, ...` modulo `n` that the witness loop visits. */
  function Squarings(x: int, i: nat, n: int): int
    requires n > 0
  {
    if i == 0 then x else ModPow(Squarings(x, i - 1, n), 2, n)
  }

  lemma SquareMod(a: int, e: nat, n: int)
    requires n > 0
    ensures ModPow(Pow(a, e) % n, 2, n) == Pow(a, e + e) % n
  {
    var x := Pow(a, e);
    assert Pow(x % n, 2) == (x % n) * (x % n);
    MulModMod(x, x, n);
    PowAdd(a, e, e);
  }

  /** Repeated squaring of `a^q mod n` walks through `a^(q * 2^i) mod n`. */
  lemma {:induction false} SquaringsArePowers(a: int, q: nat, i: nat, n: int)
    requires n > 0
    ensures Squarings(Pow(a, q) % n, i, n) == Pow(a, Doubled(q, i)) % n
  {
    if i == 0 {
      assert Doubled(q, 0) == q;
    } else {
      SquaringsArePowers(a, q, i - 1, n);
      DoubledStep(q, i);
      SquareMod(a, Doubled(q, i - 1), n);
    }
  }

  /** The loop's form of the strong-probable-prime condition. */
  lemma StrongProbablePrimeBySquaring(n: int, a: int, k: nat, q: nat)
    requires n >= 2 && OddPart(n - 1) == (k, q)
    ensures StrongProbablePrime(n, a) <==>
      (Pow(a, q) % n == 1 || exists i :: 0 <= i < k && Squarings(Pow(a, q) % n, i, n) == n - 1)
  {
    if exists i :: 0 <= i < k && Pow(a, Doubled(q, i)) % n == n - 1 {
      var i :| 0 <= i < k && Pow(a, Doubled(q, i)) % n == n - 1;
      SquaringsArePowers(a, q, i, n);
    }
    if exists i :: 0 <= i < k && Squarings(Pow(a, q) % n, i, n) == n - 1 {
      var i :| 0 <= i < k && Squarings(Pow(a, q) % n, i, n) == n - 1;
      SquaringsArePowers(a, q, i, n);
    }
  }

  /** `IsComposite(n, a)`: the even and shared-factor shortcuts, then the
      strong-probable-prime test of witness `a`. */
  method IsComposite(n: int, a: int) returns (composite: bool)
    requires n >= 2 && a >= 0
    ensures n % 2 == 0 ==> composite
    ensures n % 2 == 1 && 1 < Gcd(n, a) < n ==> composite
    ensures n % 2 == 1 && !(1 < Gcd(n, a) < n) ==> (composite <==> !StrongProbablePrime(n, a))
  {
    if n % 2 == 0 {
      return true;
    }
    var g := Gcd(n, a);
    if 1 < g && g < n {
      return true;
    }
    var k, q := Decompose(n - 1);
    StrongProbablePrimeBySquaring(n, a, k, q);
    var x0 := ModPow(a, q, n);
    ModOfMod(Pow(a, q), n);
    if x0 % n == 1 {
      return false;
    }
    var hit := SquaringHits(x0, k, n);
    return !hit;
  }

  /** The halving loop of `IsComposite`: `x == 2^k * q` with `q` odd. */
  method Decompose(x: int) returns (k: nat, q: int)
    requires x >= 1
    ensures OddPart(x) == (k, q)
  {
    q := x;
    k := 0;
    while q % 2 == 0
      invariant q >= 1
      invariant OddPart(x) == (OddPart(q).0 + k, OddPart(q).1)
      decreases q
    {
      q := q / 2;
      k := k + 1;
    }
    assert OddPart(q) == (0, q);
  }

  /** The squaring loop of `IsComposite`: whether one of the first `k`
      squarings of `x0` is `n - 1`. */
  method SquaringHits(x0: int, k: nat, n: int) returns (hit: bool)
    requires n >= 2 && 0 <= x0 < n
    ensures hit <==> exists i :: 0 <= i < k && Squarings(x0, i, n) == n - 1
  {
    var x := x0;
    var i := 0;
    while i < k
      invariant 0 <= i <= k
      invariant 0 <= x < n
      invariant x == Squarings(x0, i, n)
      invariant forall j :: 0 <= j < i ==> Squarings(x0, j, n) != n - 1
    {
      ModUnique(x, n, 0, x);
      if x % n == n - 1 {
        assert Squarings(x0, i, n) == n - 1;
        return true;
      }
      x := ModPow(x, 2, n);
      i := i + 1;
    }
    return false;
  }

  lemma PowZero(e: nat)
    requires e >= 1
    ensures Pow(0, e) == 0
  {
  }

  /** A zero witness makes the round answer composite for every odd `n >= 3`,
      prime or not: the gcd of `n` and 0 is `n`, so the shortcut does not
      apply, and every power `0^(q * 2^i)` is 0, neither 1 nor `n - 1`. */
  lemma ZeroWitnessRejects(n: int)
    requires n >= 3 && n % 2 == 1
    ensures !(1 < Gcd(n, 0) < n) && !StrongProbablePrime(n, 0)
  {
    var k, q := OddPart(n - 1).0, OddPart(n - 1).1;
    PowZero(q);
    forall i | 0 <= i < k
      ensures Pow(0, Doubled(q, i)) % n != n - 1
    {
      MulAtLeast(q, Pow(2, i));
      PowZero(Doubled(q, i));
    }
  }

  /** `IsComposite(n, 0)` is true for every odd `n >= 3`, the primes included. */
  method ZeroWitnessComposite(n: int) returns (composite: bool)
    requires n >= 3 && n % 2 == 1
    ensures composite
  {
    composite := IsComposite(n, 0);
    ZeroWitnessRejects(n);
  }

  /** The two shortcuts of `IsComposite` never reject a prime above 2. */
  lemma ShortcutsSound(n: int, a: int)
    requires n >= 3 && a >= 0
    requires n % 2 == 0 || 1 < Gcd(n, a) < n
    ensures !Prime(n)
  {
    if n % 2 == 0 {
      assert Divides(2, n);
    } else {
      GcdDivides(n, a);
      assert Divides(Gcd(n, a), n);
    }
  }
}
