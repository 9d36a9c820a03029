/** `HomomorphicEncryptor`: a plaintext is cut into three pieces whose sum is
    the plaintext plus multiples of `m'`, and piece `t` is scaled by
    `r^(t + 1)` modulo `m`. Decryption unscales with the inverse of `r`, sums
    and reduces modulo `m'`. The parameters are taken as given; the random
    cuts and multipliers are parameters too. */
module Homomorphic {
  import opened Arith

  /** The encryptor's fields `m`, `m_`, `r` and `rinverse`. */
  datatype Params = Params(m: int, mPrime: int, r: int, rInverse: int)

  /** What `constructM` and `constructR` establish when they finish: `m` is
      positive, `m'` (the product of the last three multipliers of `m`) is a
      nonzero divisor of it, and `rinverse` is an inverse of `r` modulo `m`.
      The multipliers are signed, so `m'` can be negative. */
  predicate GeneratedParams(p: Params) {
    p.m > 0 && p.mPrime != 0 && p.m % p.mPrime == 0 && (p.r * p.rInverse) % p.m == 1 % p.m
  }

  /** The parameters decryption is stated for: generated ones with `m'`
      positive, which the generation does not guarantee. */
  predicate ValidParams(p: Params) {
    GeneratedParams(p) && p.mPrime > 0
  }

  /** The random choices of one split: two cut values and the three
      multipliers of `m'` added to the pieces. */
  datatype SplitDraws = SplitDraws(cut1: int, cut2: int, k0: int, k1: int, k2: int)

  /** `split` hands over to `tinySplit` when the base-256 size of `a` is at
      most 1; for `a <= 0` the logarithm is not finite and the size is taken
      to be at most 1 as well. */
  predicate Tiny(a: int) {
    a < 1 || ILog256(a) <= 1
  }

  /** The documented ranges of the draws of `tinySplit`: `rand.Next(a)`,
      then `rand.Next` of the first cut, then three `rand.Next(256)`. */
  predicate TinyDraws(a: int, d: SplitDraws) {
    NextInRange(d.cut1, a) && NextInRange(d.cut2, d.cut1)
    && 0 <= d.k0 < 256 && 0 <= d.k1 < 256 && 0 <= d.k2 < 256
  }

  /** The documented ranges of the draws of the large path of `split`: a
      signed value of `size - 1` random bytes, a signed value of as many
      bytes as the base-256 size of what is left, and three signed bytes. */
  predicate LargeDraws(a: int, d: SplitDraws)
    requires a >= 1
  {
    ILog256(a) >= 1 && SignedBytes(d.cut1, ILog256(a) - 1)
    && a - d.cut1 >= 1 && SignedBytes(d.cut2, ILog256(a - d.cut1))
    && SignedBytes(d.k0, 1) && SignedBytes(d.k1, 1) && SignedBytes(d.k2, 1)
  }

  /** The draws `split(a)` takes on the path it follows. */
  predicate SplitDrawsOk(a: int, d: SplitDraws) {
    if Tiny(a) then TinyDraws(a, d) else LargeDraws(a, d)
  }

  /** `tinySplit(a)`: the pieces `a - c1`, `c1 - c2` and `c2`, each with its
      multiple of `m'` added. */
  function TinySplit(mPrime: int, a: int, d: SplitDraws): (pieces: seq<int>)
    requires a >= 0 && TinyDraws(a, d)
    ensures |pieces| == 3
    ensures pieces[0] + pieces[1] + pieces[2] == a + mPrime * (d.k0 + d.k1 + d.k2)
  {
    var i := a - d.cut1;
    var j := a - i - d.cut2;
    var k := a - i - j;
    [i + mPrime * d.k0, j + mPrime * d.k1, k + mPrime * d.k2]
  }

  /** Before the multiples of `m'` are added, the tiny pieces are
      nonnegative and sum to `a`. */
  lemma TinyPiecesNonnegative(mPrime: int, a: int, d: SplitDraws)
    requires a >= 0 && TinyDraws(a, d)
    ensures var pieces := TinySplit(mPrime, a, d);
      pieces[0] - mPrime * d.k0 >= 0 && pieces[1] - mPrime * d.k1 >= 0 && pieces[2] - mPrime * d.k2 >= 0
  {
  }

  /** `split(a)`: the large path cuts `a` into `i`, `j` and `a - i - j`
      with signed random values, then adds a signed multiple of `m'` to
      each piece. */
  function Split(mPrime: int, a: int, d: SplitDraws): (pieces: seq<int>)
    requires a >= 0 && SplitDrawsOk(a, d)
    ensures |pieces| == 3
    ensures pieces[0] + pieces[1] + pieces[2] == a + mPrime * (d.k0 + d.k1 + d.k2)
  {
    if Tiny(a) then TinySplit(mPrime, a, d)
    else
      var i, j := d.cut1, d.cut2;
      var k := a - i - j;
      [i + d.k0 * mPrime, j + d.k1 * mPrime, k + d.k2 * mPrime]
  }

  /** The size test of `split` is the bound `256^2` of the comment above
      `tinySplit`. */
  lemma TinyBelow65536(a: int)
    requires a >= 0
    ensures Tiny(a) <==> a < 65536
  {
    assert Pow(256, 2) == 65536;
    if a >= 1 {
      var s := ILog256(a);
      if s >= 2 {
        PowMono(256, 2, s);
      } else {
        PowMono(256, s + 1, 2);
      }
    }
  }

  /** The first cut of the large path takes less than `a`, so the logarithm
      of what is left is defined: the requirement `a - cut1 >= 1` of
      `LargeDraws` is met by every draw of `size - 1` bytes. */
  lemma LargeCutLeavesPositive(a: int, cut1: int)
    requires a >= 1 && !Tiny(a) && SignedBytes(cut1, ILog256(a) - 1)
    ensures a - cut1 >= 1
  {
    var s := ILog256(a);
    var h := Pow(256, s - 1);
    assert Pow(256, s) == 256 * h;
    assert 2 * cut1 < h;
  }

  // ---------------------------------------------------------------------
  // Encryption and decryption

  /** Share `t` of a piece `x`: `(x * r^(t + 1)) % m` with C#'s `%`. */
  function Scale(p: Params, x: int, t: nat): int
    requires p.m > 0
  {
    TMod(x * Pow(p.r, t + 1), p.m)
  }

  /** `Encrypt(a)`: an empty list when `a > m'`, otherwise the three scaled
      pieces of `split(a)`. The guard comes first, so only a plaintext that
      passes it reaches `split`, where a negative `a` makes `rand.Next`
      throw. */
  function Encrypt(p: Params, a: int, d: SplitDraws): (c: seq<int>)
    requires GeneratedParams(p) && (a > p.mPrime || (a >= 0 && SplitDrawsOk(a, d)))
    ensures c == [] <==> a > p.mPrime
    ensures c != [] ==> |c| == 3 && forall t :: 0 <= t < 3 ==> -p.m < c[t] < p.m
  {
    if a > p.mPrime then []
    else
      var x := Split(p.mPrime, a, d);
      [Scale(p, x[0], 0), Scale(p, x[1], 1), Scale(p, x[2], 2)]
  }

  /** Step `t` of the first loop of `Decrypt`: unscale by `rinverse^(t + 1)`
      and move a negative residue into `[0, m)`. */
  function Unscale(p: Params, c: int, t: nat): (u: int)
    requires p.m > 0
    ensures 0 <= u < p.m
  {
    var x := TMod(c * Pow(p.rInverse, t + 1), p.m);
    if x < 0 then x + p.m else x
  }

  /** The sum of the unscaled shares from position `t` on. */
  function UnscaledSum(p: Params, c: seq<int>, t: nat): (s: int)
    requires p.m > 0
    ensures s >= 0
    decreases |c| - t
  {
    if t >= |c| then 0 else Unscale(p, c[t], t) + UnscaledSum(p, c, t + 1)
  }

  /** `Decrypt(c)`: the unscaled shares summed and reduced modulo `m'`. */
  function Decrypt(p: Params, c: seq<int>): (a: int)
    requires GeneratedParams(p)
    ensures 0 <= a < Abs(p.mPrime)
  {
    TMod(UnscaledSum(p, c, 0), p.mPrime)
  }

  /** Component-wise addition of two ciphertexts modulo `m`, with C#'s `%`. */
  function AddCiphertexts(p: Params, x: seq<int>, y: seq<int>): (z: seq<int>)
    requires p.m > 0 && |x| == |y|
    ensures |z| == |x|
  {
    seq(|x|, t requires 0 <= t < |x| => TMod(x[t] + y[t], p.m))
  }

  // ---------------------------------------------------------------------
  // Why decryption undoes encryption

  /** The fix-up of a negative C# residue yields the Euclidean residue. */
  lemma NormalizeResidue(v: int, m: int)
    requires m > 0
    ensures var z := TMod(v, m); (if z < 0 then z + m else z) == v % m
  {
    var z := TMod(v, m);
    TModCong(v, m);
    if z < 0 {
      ModAddMultiple(z, 1, m);
      ModUnique(z + m, m, 0, z + m);
    } else {
      ModUnique(z, m, 0, z);
    }
  }

  /** Unscaling a share congruent to `x * r^(t + 1)` recovers `x` modulo `m`. */
  lemma UnscaleOfCong(p: Params, c: int, x: int, t: nat)
    requires ValidParams(p) && c % p.m == (x * Pow(p.r, t + 1)) % p.m
    ensures Unscale(p, c, t) == x % p.m
  {
    var m, rp, sp := p.m, Pow(p.r, t + 1), Pow(p.rInverse, t + 1);
    NormalizeResidue(c * sp, m);
    CongMul(c, x * rp, sp, m);
    MulAssoc(x, rp, sp);
    PowInverse(p.r, p.rInverse, t + 1, m);
    CongMul(rp * sp, 1, x, m);
    assert (rp * sp) * x == x * (rp * sp);
  }

  /** A share unscales to its piece modulo `m`. */
  lemma UnscaleScale(p: Params, x: int, t: nat)
    requires ValidParams(p)
    ensures Unscale(p, Scale(p, x, t), t) == x % p.m
  {
    TModCong(x * Pow(p.r, t + 1), p.m);
    UnscaleOfCong(p, Scale(p, x, t), x, t);
  }

  /** The sum of two shares, reduced modulo `m`, unscales to the sum of their
      pieces modulo `m`. */
  lemma UnscaleSumOfShares(p: Params, x: int, y: int, t: nat)
    requires ValidParams(p)
    ensures Unscale(p, TMod(Scale(p, x, t) + Scale(p, y, t), p.m), t) == (x + y) % p.m
  {
    var m, rp := p.m, Pow(p.r, t + 1);
    var cx, cy := Scale(p, x, t), Scale(p, y, t);
    TModCong(x * rp, m);
    TModCong(y * rp, m);
    TModCong(cx + cy, m);
    CongAdd(cx, x * rp, cy, y * rp, m);
    assert x * rp + y * rp == (x + y) * rp;
    UnscaleOfCong(p, TMod(cx + cy, m), x + y, t);
  }

  lemma UnscaledSumOfThree(p: Params, c: seq<int>)
    requires p.m > 0 && |c| == 3
    ensures UnscaledSum(p, c, 0) == Unscale(p, c[0], 0) + Unscale(p, c[1], 1) + Unscale(p, c[2], 2)
  {
    assert UnscaledSum(p, c, 3) == 0;
    assert UnscaledSum(p, c, 2) == Unscale(p, c[2], 2);
  }

  /** Residues modulo `m` sum to the same value modulo `m'` as the numbers
      they come from, because `m'` divides `m`. */
  lemma SumOfResidues(w0: int, w1: int, w2: int, m: int, mPrime: int)
    requires m > 0 && mPrime > 0 && m % mPrime == 0
    ensures (w0 % m + w1 % m + w2 % m) % mPrime == (w0 + w1 + w2) % mPrime
  {
    ModOfMod(w0, m);
    ModOfMod(w1, m);
    ModOfMod(w2, m);
    CongAdd(w0 % m, w0, w1 % m, w1, m);
    ModOfMod(w0 % m + w1 % m, m);
    CongAdd(w0 % m + w1 % m, w0 + w1, w2 % m, w2, m);
    CongDivisor(w0 % m + w1 % m + w2 % m, w0 + w1 + w2, m, mPrime);
  }

  /** A ciphertext of three shares that unscale to `w0`, `w1` and `w2`
      modulo `m` decrypts to their sum modulo `m'`. */
  lemma DecryptOfShares(p: Params, c: seq<int>, w0: int, w1: int, w2: int)
    requires ValidParams(p) && |c| == 3
    requires Unscale(p, c[0], 0) == w0 % p.m
    requires Unscale(p, c[1], 1) == w1 % p.m
    requires Unscale(p, c[2], 2) == w2 % p.m
    ensures Decrypt(p, c) == (w0 + w1 + w2) % p.mPrime
  {
    UnscaledSumOfThree(p, c);
    TModNonneg(UnscaledSum(p, c, 0), p.mPrime);
    SumOfResidues(w0, w1, w2, p.m, p.mPrime);
  }

  /** An accepted plaintext is encrypted to the shares of its split pieces. */
  lemma EncryptShares(p: Params, a: int, d: SplitDraws)
    requires ValidParams(p) && 0 <= a <= p.mPrime && SplitDrawsOk(a, d)
    ensures var x := Split(p.mPrime, a, d);
      Encrypt(p, a, d) == [Scale(p, x[0], 0), Scale(p, x[1], 1), Scale(p, x[2], 2)]
  {
  }

  /** Decryption undoes encryption: every accepted plaintext comes back
      reduced modulo `m'`. */
  lemma RoundTrip(p: Params, a: int, d: SplitDraws)
    requires ValidParams(p) && 0 <= a <= p.mPrime && SplitDrawsOk(a, d)
    ensures |Encrypt(p, a, d)| == 3
    ensures Decrypt(p, Encrypt(p, a, d)) == a % p.mPrime
  {
    var x := Split(p.mPrime, a, d);
    EncryptShares(p, a, d);
    var c := Encrypt(p, a, d);
    UnscaleScale(p, x[0], 0);
    UnscaleScale(p, x[1], 1);
    UnscaleScale(p, x[2], 2);
    DecryptOfShares(p, c, x[0], x[1], x[2]);
    ModAddMultiple(a, d.k0 + d.k1 + d.k2, p.mPrime);
  }

  /** In particular a plaintext below `m'` comes back unchanged. */
  lemma RoundTripBelow(p: Params, a: int, d: SplitDraws)
    requires ValidParams(p) && 0 <= a < p.mPrime && SplitDrawsOk(a, d)
    ensures Decrypt(p, Encrypt(p, a, d)) == a
  {
    RoundTrip(p, a, d);
    ModUnique(a, p.mPrime, 0, a);
  }

  /** The sum of the shares of two ciphertexts, share by share. */
  lemma AddShares(p: Params, x: seq<int>, y: seq<int>)
    requires ValidParams(p) && |x| == 3 && |y| == 3
    ensures var z := AddCiphertexts(p, [Scale(p, x[0], 0), Scale(p, x[1], 1), Scale(p, x[2], 2)],
                                       [Scale(p, y[0], 0), Scale(p, y[1], 1), Scale(p, y[2], 2)]);
      |z| == 3 && Decrypt(p, z) == (x[0] + y[0] + (x[1] + y[1]) + (x[2] + y[2])) % p.mPrime
  {
    var z := AddCiphertexts(p, [Scale(p, x[0], 0), Scale(p, x[1], 1), Scale(p, x[2], 2)],
                               [Scale(p, y[0], 0), Scale(p, y[1], 1), Scale(p, y[2], 2)]);
    UnscaleSumOfShares(p, x[0], y[0], 0);
    UnscaleSumOfShares(p, x[1], y[1], 1);
    UnscaleSumOfShares(p, x[2], y[2], 2);
    DecryptOfShares(p, z, x[0] + y[0], x[1] + y[1], x[2] + y[2]);
  }

  /** The additive homomorphism: the component-wise sum of two ciphertexts
      under the same parameters decrypts to the sum of the plaintexts
      modulo `m'`. */
  lemma Additive(p: Params, a: int, da: SplitDraws, b: int, db: SplitDraws)
    requires ValidParams(p)
    requires 0 <= a <= p.mPrime && SplitDrawsOk(a, da)
    requires 0 <= b <= p.mPrime && SplitDrawsOk(b, db)
    ensures |Encrypt(p, a, da)| == |Encrypt(p, b, db)| == 3
    ensures Decrypt(p, AddCiphertexts(p, Encrypt(p, a, da), Encrypt(p, b, db))) == (a + b) % p.mPrime
  {
    var x, y := Split(p.mPrime, a, da), Split(p.mPrime, b, db);
    EncryptShares(p, a, da);
    EncryptShares(p, b, db);
    AddShares(p, x, y);
    SumOfTwoSplits(p.mPrime, x[0] + x[1] + x[2], a, da.k0 + da.k1 + da.k2, y[0] + y[1] + y[2], b, db.k0 + db.k1 + db.k2);
  }

  /** Two sums that are `a` and `b` plus multiples of `m'` add up to `a + b`
      modulo `m'`. */
  lemma SumOfTwoSplits(mPrime: int, sx: int, a: int, ka: int, sy: int, b: int, kb: int)
    requires mPrime > 0 && sx == a + mPrime * ka && sy == b + mPrime * kb
    ensures (sx + sy) % mPrime == (a + b) % mPrime
  {
    assert mPrime * ka + mPrime * kb == mPrime * (ka + kb);
    ModAddMultiple(a + b, ka + kb, mPrime);
  }

  /** Above `m'` the encryptor returns no shares, and an empty ciphertext
      decrypts to 0. */
  lemma OutOfRangeIsEmpty(p: Params, a: int, d: SplitDraws)
    requires ValidParams(p) && a > p.mPrime && SplitDrawsOk(a, d)
    ensures Encrypt(p, a, d) == [] && Decrypt(p, Encrypt(p, a, d)) == 0
  {
    assert UnscaledSum(p, [], 0) == 0;
    ModUnique(0, p.mPrime, 0, 0);
  }

  /** The range guard lets `m'` itself through, and it decrypts to 0. */
  lemma TopValueDecryptsToZero(p: Params, d: SplitDraws)
    requires ValidParams(p) && SplitDrawsOk(p.mPrime, d)
    ensures |Encrypt(p, p.mPrime, d)| == 3
    ensures Decrypt(p, Encrypt(p, p.mPrime, d)) == 0 != p.mPrime
  {
    RoundTrip(p, p.mPrime, d);
    ModUnique(p.mPrime, p.mPrime, 1, 0);
  }

  /** With a negative `m'` the range guard rejects every plaintext above
      `m'`, every nonnegative one included, so the encryptor as written
      returns no shares, and the empty list decrypts to 0. */
  lemma NegativeModulusRejectsAll(p: Params, a: int, d: SplitDraws)
    requires GeneratedParams(p) && p.mPrime < 0 && a > p.mPrime
    ensures Encrypt(p, a, d) == [] && Decrypt(p, Encrypt(p, a, d)) == 0
  {
    assert UnscaledSum(p, [], 0) == 0;
  }

  /** The generated parameters with `m'` replaced by its absolute value,
      which still divides `m`. */
  function PositiveModulus(p: Params): (q: Params)
    requires GeneratedParams(p)
    ensures ValidParams(q) && q.mPrime == Abs(p.mPrime)
    ensures q.m == p.m && q.r == p.r && q.rInverse == p.rInverse
  {
    NegatedDivisor(p.m, p.mPrime);
    Params(p.m, Abs(p.mPrime), p.r, p.rInverse)
  }

  lemma NegatedDivisor(m: int, k: int)
    requires k != 0 && m % k == 0
    ensures m % Abs(k) == 0
  {
    if k < 0 {
      assert m == k * (m / k);
      assert m == -k * -(m / k);
      ModAddMultiple(0, -(m / k), -k);
    }
  }

  /** With `m'` taken positive, every generated parameter set encrypts each
      plaintext below `|m'|` and decrypts it back. */
  lemma PositiveModulusRoundTrip(p: Params, a: int, d: SplitDraws)
    requires GeneratedParams(p) && 0 <= a < Abs(p.mPrime) && SplitDrawsOk(a, d)
    ensures |Encrypt(PositiveModulus(p), a, d)| == 3
    ensures Decrypt(PositiveModulus(p), Encrypt(PositiveModulus(p), a, d)) == a
  {
    RoundTripBelow(PositiveModulus(p), a, d);
  }

  // ---------------------------------------------------------------------
  // The guard as intended

  /** The outcome of a guarded encryption: the shares, or an out-of-range
      failure. */
  datatype Encryption = Shares(shares: seq<int>) | OutOfRange

  /** `Encrypt` with the guard `a >= m'`, signalling the failure instead of
      returning an empty list. */
  function EncryptChecked(p: Params, a: int, d: SplitDraws): (e: Encryption)
    requires ValidParams(p) && a >= 0 && SplitDrawsOk(a, d)
    ensures e.Shares? <==> a < p.mPrime
    ensures e.Shares? ==> |e.shares| == 3 && forall t :: 0 <= t < 3 ==> -p.m < e.shares[t] < p.m
  {
    if a >= p.mPrime then OutOfRange else Shares(Encrypt(p, a, d))
  }

  /** The guarded encryption accepts exactly the plaintexts below `m'`, and
      every one of them decrypts back to itself. */
  lemma CheckedRoundTrip(p: Params, a: int, d: SplitDraws)
    requires ValidParams(p) && a >= 0 && SplitDrawsOk(a, d)
    ensures EncryptChecked(p, a, d).Shares? <==> a < p.mPrime
    ensures EncryptChecked(p, a, d).Shares? ==> Decrypt(p, EncryptChecked(p, a, d).shares) == a
  {
    if a < p.mPrime {
      RoundTripBelow(p, a, d);
    }
  }
}
