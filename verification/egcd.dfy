/** `ExtendedGCD`: the iterative extended Euclidean algorithm, run with C#'s
    truncating quotient, and the modular inverse it yields. */
module ExtendedEuclid {
  import opened Arith

  /** Returns Bezout coefficients `x`, `y` and the gcd `g` of `a` and `b`.
      With a negative input the remainders follow the sign of the dividend,
      so `g` is the gcd up to sign; for nonnegative inputs it is the gcd. */
  method ExtendedGcd(a: int, b: int) returns (x: int, y: int, g: int)
    ensures a * x + b * y == g
    ensures Abs(g) == Gcd(Abs(a), Abs(b))
    ensures a >= 0 && b >= 0 ==> g == Gcd(a, b)
  {
    var s, t, r := 0, 1, b;
    var oldS, oldT, oldR := 1, 0, a;
    while r != 0
      invariant oldR == a * oldS + b * oldT
      invariant r == a * s + b * t
      invariant Gcd(Abs(oldR), Abs(r)) == Gcd(Abs(a), Abs(b))
      invariant a >= 0 && b >= 0 ==> oldR >= 0 && r >= 0
      decreases Abs(r)
    {
      var quotient := TDiv(oldR, r);
      BezoutStep(a, b, oldS, oldT, s, t, quotient);
      RemainderStep(oldR, r);

      var prov := r;
      r := oldR - quotient * prov;
      oldR := prov;

      prov := s;
      s := oldS - quotient * s;
      oldS := prov;

      prov := t;
      t := oldT - quotient * t;
      oldT := prov;
    }
    return oldS, oldT, oldR;
  }

  /** One update keeps a remainder a combination of `a` and `b`. */
  lemma BezoutStep(a: int, b: int, oldS: int, oldT: int, s: int, t: int, q: int)
    ensures (a * oldS + b * oldT) - q * (a * s + b * t) == a * (oldS - q * s) + b * (oldT - q * t)
  {
    assert q * (a * s + b * t) == a * (q * s) + b * (q * t);
  }

  /** The new remainder is C#'s `oldR % r`, so the gcd of the pair is kept. */
  lemma RemainderStep(oldR: int, r: int)
    requires r != 0
    ensures oldR - TDiv(oldR, r) * r == TMod(oldR, r)
    ensures Gcd(Abs(r), Abs(TMod(oldR, r))) == Gcd(Abs(oldR), Abs(r))
  {
    var q := TDiv(oldR, r);
    DivModIdentity(oldR, r);
    assert q * r == r * q;
    assert Abs(TMod(oldR, r)) == Abs(oldR) % Abs(r);
  }

  /** The test `constructR` applies to the coefficient it keeps: when
      `r * x + m * y == 1`, `r * x` reduces to 1 modulo `m`, and C#'s `%`
      yields either 1 or `1 - m` depending on the sign of `r * x`. */
  lemma InverseCheck(r: int, m: int, x: int, y: int)
    requires m > 1 && r * x + m * y == 1
    ensures (r * x) % m == 1
    ensures TMod(r * x, m) == 1 || TMod(r * x, m) == 1 - m
  {
    InverseResidue(r * x, m, y);
  }

  lemma InverseResidue(z: int, m: int, y: int)
    requires m > 1 && z + m * y == 1
    ensures z % m == 1
    ensures TMod(z, m) == 1 || TMod(z, m) == 1 - m
  {
    assert z == 1 + m * -y;
    ModAddMultiple(1, -y, m);
    if z < 0 {
      assert Abs(z) == m * (y - 1) + (m - 1);
      ModUnique(Abs(z), m, y - 1, m - 1);
    }
  }
}
