/** Integer helpers shared by the model: the C# division operators, powers,
    Euclid's gcd, primality, integer roots and logarithms, and the facts about
    congruences that the proofs rest on. */
module Arith {

  function Abs(x: int): nat { if x < 0 then -x else x }

  function Max(a: int, b: int): int { if a < b then b else a }

  function Min(a: int, b: int): int { if a < b then a else b }

  /** `System.Random.Next(bound)` for a nonnegative bound: a value in
      `[0, bound)`, or 0 when the bound is 0. */
  predicate NextInRange(x: int, bound: int) {
    if bound == 0 then x == 0 else 0 <= x < bound
  }

  /** `new BigInteger(bytes)` for `bytes` random bytes: a two's-complement
      value of `8 * bytes` bits, so 0 when there are no bytes. */
  predicate SignedBytes(x: int, bytes: nat) {
    -Pow(256, bytes) <= 2 * x < Pow(256, bytes)
  }

  /** `d` is a (nonzero) divisor of `n`. */
  predicate Divides(d: int, n: int) { d != 0 && n % d == 0 }

  /** The textbook definition of a prime. */
  predicate Prime(n: int) {
    n >= 2 && forall d :: 2 <= d < n ==> !Divides(d, n)
  }

  function Pow(b: int, e: nat): (r: int)
    ensures b > 0 ==> r > 0
    decreases e
  {
    if e == 0 then 1 else b * Pow(b, e - 1)
  }

  /** `BigInteger.ModPow(b, e, m)` for a nonnegative base and a positive modulus. */
  function ModPow(b: int, e: nat, m: int): int
    requires m > 0
  {
    Pow(b, e) % m
  }

  /** C#'s integer `/`: the quotient is truncated toward zero. */
  function TDiv(a: int, b: int): int
    requires b != 0
  {
    var q := Abs(a) / Abs(b);
    if (a < 0) == (b < 0) then q else -q
  }

  /** C#'s integer `%`: the remainder of the magnitudes, carrying the sign
      of the dividend. */
  function TMod(a: int, b: int): int
    requires b != 0
  {
    if a < 0 then -(Abs(a) % Abs(b)) else Abs(a) % Abs(b)
  }

  /** The identity C# guarantees for its two operators:
      `(a / b) * b + a % b == a`. */
  lemma DivModIdentity(a: int, b: int)
    requires b != 0
    ensures b * TDiv(a, b) + TMod(a, b) == a
  {
    var q, rm := Abs(a) / Abs(b), Abs(a) % Abs(b);
    assert Abs(a) == Abs(b) * q + rm;
    if b < 0 {
      assert b * q == -(Abs(b) * q);
      assert b * -q == Abs(b) * q;
    }
  }

  /** Euclid's algorithm, the reference definition of the gcd. */
  function Gcd(a: nat, b: nat): nat
    decreases b
  {
    if b == 0 then a else Gcd(b, a % b)
  }

  /** Floor of the square root: the floating-point root truncated to an integer. */
  function ISqrt(n: nat): (r: nat)
    ensures r * r <= n < (r + 1) * (r + 1)
  {
    if n == 0 then 0
    else
      var s := ISqrt(n - 1);
      if (s + 1) * (s + 1) <= n then s + 1 else s
  }

  /** Floor of the base-256 logarithm: the natural logarithm of `x` divided by
      that of 256, truncated to an integer. */
  function ILog256(x: int): (k: nat)
    requires x >= 1
    ensures Pow(256, k) <= x < Pow(256, k + 1)
  {
    if x < 256 then 0 else 1 + ILog256(x / 256)
  }

  /** Number of decimal digits of `x`; `floor(log10 x) == Digits(x) - 1`. */
  function Digits(x: int): (d: nat)
    requires x >= 1
    ensures d >= 1 && Pow(10, d - 1) <= x < Pow(10, d)
  {
    if x < 10 then 1 else 1 + Digits(x / 10)
  }

  // ---------------------------------------------------------------------
  // Division and congruences

  lemma ModUnique(x: int, m: int, q: int, r: int)
    requires m > 0 && x == m * q + r && 0 <= r < m
    ensures x % m == r && x / m == q
  {
    var q', r' := x / m, x % m;
    assert m * (q - q') == r' - r;
    if q - q' >= 1 {
      MulAtLeast(m, q - q');
    } else if q - q' <= -1 {
      MulAtLeast(m, q' - q);
    }
  }

  lemma MulAssoc(x: int, y: int, z: int)
    ensures x * (y * z) == (x * y) * z
  {
  }

  lemma MulAtLeast(m: int, k: int)
    requires m > 0 && k >= 1
    ensures m * k >= m
  {
    assert m * k == m + m * (k - 1);
    assert m * (k - 1) >= 0;
  }

  lemma ModAddMultiple(x: int, k: int, m: int)
    requires m > 0
    ensures (x + m * k) % m == x % m
  {
    ModUnique(x + m * k, m, x / m + k, x % m);
  }

  lemma ModOfMod(x: int, m: int)
    requires m > 0
    ensures (x % m) % m == x % m
  {
    ModUnique(x % m, m, 0, x % m);
  }

  lemma Distribute(m: int, q: int, r: int, c: int)
    ensures (m * q + r) * c == m * (q * c) + r * c
  {
  }

  /** `(m * q + r) * c` leaves the same remainder as `r * c`. */
  lemma MulResidue(m: int, q: int, r: int, c: int)
    requires m > 0
    ensures ((m * q + r) * c) % m == (r * c) % m
  {
    Distribute(m, q, r, c);
    ModAddMultiple(r * c, q * c, m);
  }

  lemma CongMul(a: int, b: int, c: int, m: int)
    requires m > 0 && a % m == b % m
    ensures (a * c) % m == (b * c) % m
  {
    var qa, qb, r := a / m, b / m, a % m;
    assert a == m * qa + r;
    assert b == m * qb + r;
    MulResidue(m, qa, r, c);
    MulResidue(m, qb, r, c);
  }

  lemma CongAdd(a: int, b: int, c: int, d: int, m: int)
    requires m > 0 && a % m == b % m && c % m == d % m
    ensures (a + c) % m == (b + d) % m
  {
    var ka, kc := a / m - b / m, c / m - d / m;
    assert a - b == m * ka;
    assert c - d == m * kc;
    assert m * ka + m * kc == m * (ka + kc);
    ModAddMultiple(b + d, ka + kc, m);
  }

  /** Residues taken modulo `m` are also congruent modulo every divisor of `m`. */
  lemma CongDivisor(a: int, b: int, m: int, d: int)
    requires m > 0 && d > 0 && m % d == 0 && a % m == b % m
    ensures a % d == b % d
  {
    var k := m / d;
    assert m == d * k;
    assert a == d * (k * (a / m)) + a % m;
    assert b == d * (k * (b / m)) + a % m;
    ModAddMultiple(a % m, k * (a / m), d);
    ModAddMultiple(a % m, k * (b / m), d);
  }

  lemma TModCong(x: int, m: int)
    requires m > 0
    ensures TMod(x, m) % m == x % m
  {
    DivModIdentity(x, m);
    ModAddMultiple(TMod(x, m), TDiv(x, m), m);
  }

  lemma TModNonneg(x: int, m: int)
    requires m > 0 && x >= 0
    ensures TMod(x, m) == x % m
  {
  }

  lemma MulModMod(x: int, y: int, m: int)
    requires m > 0
    ensures ((x % m) * (y % m)) % m == (x * y) % m
  {
    ModOfMod(x, m);
    ModOfMod(y, m);
    CongMul(x % m, x, y % m, m);
    CongMul(y % m, y, x, m);
  }

  // ---------------------------------------------------------------------
  // Powers

  lemma {:induction false} PowAdd(b: int, x: nat, y: nat)
    ensures Pow(b, x + y) == Pow(b, x) * Pow(b, y)
    decreases x
  {
    if x > 0 {
      PowAdd(b, x - 1, y);
      assert Pow(b, x + y) == b * Pow(b, (x - 1) + y);
      MulAssoc(b, Pow(b, x - 1), Pow(b, y));
    }
  }

  lemma {:induction false} PowMul(a: int, b: int, n: nat)
    ensures Pow(a * b, n) == Pow(a, n) * Pow(b, n)
    decreases n
  {
    if n > 0 {
      PowMul(a, b, n - 1);
      MulRearrange(a, b, Pow(a, n - 1), Pow(b, n - 1));
    }
  }

  lemma {:induction false} PowMono(b: int, x: nat, y: nat)
    requires b >= 1 && x <= y
    ensures Pow(b, x) <= Pow(b, y)
    decreases y
  {
    if x < y {
      PowMono(b, x, y - 1);
      assert Pow(b, y) == b * Pow(b, y - 1);
      MulAtLeast(Pow(b, y - 1), b);
    }
  }

  lemma MulRearrange(a: int, b: int, x: int, y: int)
    ensures (a * b) * (x * y) == (a * x) * (b * y)
  {
  }

  /** A power of a number congruent to 1 is congruent to 1. */
  lemma {:induction false} PowCongOne(x: int, n: nat, m: int)
    requires m > 0 && x % m == 1 % m
    ensures Pow(x, n) % m == 1 % m
    decreases n
  {
    if n > 0 {
      var p := Pow(x, n - 1);
      PowCongOne(x, n - 1, m);
      CongMul(p, 1, x, m);
      assert Pow(x, n) == p * x;
      assert (p * x) % m == x % m;
    }
  }

  /** Powers of a unit and of its inverse cancel: `Pow(r, n) * Pow(s, n)` is 1 modulo `m`. */
  lemma PowInverse(r: int, s: int, n: nat, m: int)
    requires m > 0 && (r * s) % m == 1 % m
    ensures (Pow(r, n) * Pow(s, n)) % m == 1 % m
  {
    PowMul(r, s, n);
    PowCongOne(r * s, n, m);
  }

  // ---------------------------------------------------------------------
  // Divisibility and the gcd

  lemma DividesTrans(c: int, d: int, n: int)
    requires c > 0 && Divides(c, d) && Divides(d, n)
    ensures Divides(c, n)
  {
    var k := n / d;
    var j := d / c;
    assert n == d * k;
    assert d == c * j;
    assert n == c * (j * k);
    ModAddMultiple(0, j * k, c);
  }

  lemma DividesLinear(d: int, a: int, b: int, x: int)
    requires d > 0 && a % d == 0 && b % d == 0
    ensures (a - x * b) % d == 0
  {
    assert a == d * (a / d);
    assert b == d * (b / d);
    assert a - x * b == d * (a / d - x * (b / d));
    ModAddMultiple(0, a / d - x * (b / d), d);
  }

  lemma {:induction false} GcdDivides(a: nat, b: nat)
    requires a > 0 || b > 0
    ensures Gcd(a, b) > 0 && Divides(Gcd(a, b), a) && Divides(Gcd(a, b), b)
    decreases b
  {
    if b > 0 {
      GcdDivides(b, a % b);
      var g := Gcd(a, b);
      // a == b * (a / b) + a % b, and g divides both b and a % b
      DividesLinear(g, a % b, b, -(a / b));
      assert a % b - (-(a / b)) * b == a;
    }
  }

  /** Every common divisor of `a` and `b` divides their gcd. */
  lemma {:induction false} GcdGreatest(a: nat, b: nat, d: int)
    requires d > 0 && a % d == 0 && b % d == 0
    ensures Gcd(a, b) % d == 0
    decreases b
  {
    if b > 0 {
      DividesLinear(d, a, b, a / b);
      assert a - (a / b) * b == a % b;
      GcdGreatest(b, a % b, d);
    }
  }

  /** A divisor larger than the root is paired with one at most the root. */
  lemma SmallCofactor(n: int, d: int, r: int)
    requires 2 <= d < n && Divides(d, n) && r >= 0 && n < (r + 1) * (r + 1)
    ensures exists e :: 2 <= e <= r && Divides(e, n)
  {
    var e := n / d;
    assert n == d * e;
    assert e >= 2;
    ModUnique(n, e, d, 0);
    if d <= r {
      assert Divides(d, n);
    } else {
      if e > r {
        MulGrows(r + 1, d, e);
        assert false;
      }
      assert Divides(e, n);
    }
  }

  lemma MulGrows(c: int, x: int, y: int)
    requires c >= 0 && x >= c && y >= c
    ensures x * y >= c * c
  {
    assert x * y - c * c == (x - c) * y + c * (y - c);
    assert (x - c) * y >= 0;
    assert c * (y - c) >= 0;
  }
}
