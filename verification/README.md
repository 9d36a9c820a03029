# Mental Poker number-theory core, modelled in Dafny

This project models the shared engine of a Mental Poker implementation, the
`Utilities.cs` file of the `MentalPoker` project. It covers the following parts:

- the small-number primality test `isPrime`;
- one Miller–Rabin round, `IsComposite`;
- the extended Euclidean algorithm, `ExtendedGCD`;
- the Knuth shuffle, `RandomPermutation`;
- trial-division `PrimeFactorization`;
- the Lucas-test scan `GetPrimitiveRoots`;
- the masked card matrix `CardMatrix`: construction, `GetCard`, `Transform` and `==`;
- the additive secret-splitting `HomomorphicEncryptor`: `split`, `tinySplit`, `Encrypt` and `Decrypt`.

Modules follow the parts of the source:

- `Arith` holds shared integer facts. It also defines C#'s truncating `/` and `%`, as `TDiv` and `TMod`.
- `Primality`, `ExtendedEuclid` and `Permutation` model the routines of the same names.
- `Factorization` and `PrimitiveRoots` model the two routines for primitive roots.
- `Cards` models `CardMatrix`; `Homomorphic` models `HomomorphicEncryptor`.

Randomness is turned into parameters: the shuffle draws, the Miller–Rabin witness, the card columns, the mask multipliers and the split cuts. Each draw is constrained to the range its source call documents:

- `System.Random.Next(bound)` is a value in `[0, bound)`, or 0 when the bound is 0 (`Arith.NextInRange`).
- `new BigInteger(bytes)` is a two's-complement value of that many bytes (`Arith.SignedBytes`).

Floating point is replaced by exact integer functions:

- `Math.Sqrt` becomes the integer square root `Arith.ISqrt`.
- `BigInteger.Log10` becomes the decimal digit count `Arith.Digits`.
- `BigInteger.Log(a) / BigInteger.Log(256)` becomes the base-256 floor logarithm `Arith.ILog256`.

The encryptor's generated fields `(m, m_, r, rinverse)` are a `Homomorphic.Params` value. `Homomorphic.GeneratedParams` states what the generation establishes when it finishes:
- `m > 0`;
- `m_` is a nonzero divisor of `m`;
- `r * rinverse` is 1 modulo `m`.

The multipliers are signed, so `m_` can be negative. `Homomorphic.ValidParams` adds the assumption `m_ > 0`. The round-trip and additivity properties are stated only under it; `Encrypt` and `Decrypt` themselves are defined for every generated parameter set.

The model follows the code as written:

- `Encrypt` rejects only `a > m_`, and it answers with an empty list rather than an error.
- The split pieces of the large path are signed and can be negative.
- The shares are C# residues in `(-m, m)`.
- `GetPrimitiveRoots` tests candidates against the factor list that `PrimeFactorization` returns, which can lack the largest prime factor. `PrimitiveRoots.GetPrimitiveRootsCorrected` is the same scan over the full factorization.
- The shuffle swaps position `i` with a position drawn from `[i, n)`. That is a correct forward Fisher–Yates: `Permutation.EveryArrangementReachable` proves that every arrangement is produced by some admissible draws.

## Model

| member | source | states |
|---|---|---|
| `Primality.IsPrimeSmall` | CryptoFinal/MentalPoker/Utilities.cs:17-46 | `isPrime` branch for branch, for every `int`; for every `n >= 1` it is true exactly when `n` is prime |
| `Primality.WheelClear` | CryptoFinal/MentalPoker/Utilities.cs:31-44 | the loop over `f = 5, 11, ...` up to the root, testing `f` and `f + 2`; it finishes with true exactly when no divisor `f + 6j` up to the root, nor the one two above it, divides `n` |
| `Primality.WheelShift` | CryptoFinal/MentalPoker/Utilities.cs:34-42 | when `f` and `f + 2` miss, the wheel from `f` hits exactly when the wheel from `f + 6` does |
| `Primality.WheelClearCorrect` | CryptoFinal/MentalPoker/Utilities.cs:31-44 | for odd `n` not divisible by 3 and with no divisor below `f`, the 6k±1 wheel from `f` up to `floor(sqrt n)` finds no divisor exactly when `n` is prime |
| `Primality.IsPrimeSmallAcceptsNonPositive` | CryptoFinal/MentalPoker/Utilities.cs:19-22 | `isPrime` as written returns true for every `n <= 0`, and none of these is prime |
| `Primality.IsPrime` | CryptoFinal/MentalPoker/Utilities.cs:81-107 | the primality test the rest of the model uses is true exactly for primes |
| `Primality.OddPart` | CryptoFinal/MentalPoker/Utilities.cs:56-62 | `x == 2^k * q` with `q` odd and positive |
| `Primality.Decompose` | CryptoFinal/MentalPoker/Utilities.cs:56-62 | the halving loop stops with the `k` and odd `q` for which `n - 1 == 2^k * q` |
| `Primality.SquaringsArePowers` | CryptoFinal/MentalPoker/Utilities.cs:64-74 | after `i` modular squarings of `a^q mod n`, the value is `a^(q * 2^i) mod n` |
| `Primality.StrongProbablePrimeBySquaring` | CryptoFinal/MentalPoker/Utilities.cs:64-76 | the loop's test (`a^q` is 1, or one of the first `k` squarings is `n - 1`) is the strong-probable-prime condition on the powers `a^(q * 2^i)` |
| `Primality.SquaringHits` | CryptoFinal/MentalPoker/Utilities.cs:69-74 | the squaring loop finds `n - 1` exactly when one of the first `k` squarings equals it |
| `Primality.IsComposite` | CryptoFinal/MentalPoker/Utilities.cs:49-77 | an even `n`, or an odd `n` that shares a proper factor with `a`, is reported composite; otherwise the answer is exactly that `a` is not a strong witness of probable primality |
| `Primality.ZeroWitnessRejects` | CryptoFinal/MentalPoker/Utilities.cs:49-77 | for odd `n >= 3` and witness 0, neither shortcut applies and 0 is not a strong witness of probable primality |
| `Primality.ZeroWitnessComposite` | CryptoFinal/MentalPoker/Utilities.cs:49-77 | `IsComposite(n, 0)` answers true for every odd `n >= 3`, primes included |
| `Primality.ShortcutsSound` | CryptoFinal/MentalPoker/Utilities.cs:51-54 | the two early `true` answers are never given for a prime above 2 |
| `ExtendedEuclid.ExtendedGcd` | CryptoFinal/MentalPoker/Utilities.cs:114-141 | the returned `(x, y, g)` satisfy `a*x + b*y == g`, with `abs(g) == gcd(abs(a), abs(b))`, and `g == gcd(a, b)` for nonnegative inputs |
| `ExtendedEuclid.RemainderStep` | CryptoFinal/MentalPoker/Utilities.cs:126-129 | the new remainder `old_r - quotient * r` is C#'s `old_r % r` and keeps the gcd of the pair |
| `ExtendedEuclid.InverseCheck` | CryptoFinal/MentalPoker/Utilities.cs:422-431 | when `r*x + m*y == 1` and `m > 1`, `(r * x) % m` is 1 or `1 - m`, so the inverse test in `constructR` always passes |
| `Permutation.ShuffleFrom` | CryptoFinal/MentalPoker/Utilities.cs:151-157 | the remaining swaps keep the length and the multiset of elements |
| `Permutation.ShuffleKeeps` | CryptoFinal/MentalPoker/Utilities.cs:151-157 | positions outside `[i, n)` are never moved by the swaps from step `i` on |
| `Permutation.RandomPermutation` | CryptoFinal/MentalPoker/Utilities.cs:147-160 | the loop computes the shuffle for the given draws: a rearrangement of the input that leaves the positions from `n` on unchanged |
| `Permutation.ReachFrom` | CryptoFinal/MentalPoker/Utilities.cs:151-157 | every rearrangement of positions `[i, n)` is produced by some continuation of the draws already made, each in range |
| `Permutation.EveryArrangementReachable` | CryptoFinal/MentalPoker/Utilities.cs:147-160 | every rearrangement of the first `n` positions is the result for some admissible draws |
| `Factorization.DivideOut` | CryptoFinal/MentalPoker/Utilities.cs:182-187 | the inner loop leaves a cofactor not divisible by `i` which, times `i^c`, is the input |
| `Factorization.RootBoundAboveRoot` | CryptoFinal/MentalPoker/Utilities.cs:175 | the bound `10^((int)(log10 n / 2) + 1)` is at least 10 and its square exceeds `n` |
| `Factorization.Trial` | CryptoFinal/MentalPoker/Utilities.cs:177-194 | the trial loop: skip non-primes, divide out each prime, record it when it divided, stop at the bound or once the cofactor is 1; the factors recorded are ascending primes in `[i, bound)` with positive exponents |
| `Factorization.TrialProduct` | CryptoFinal/MentalPoker/Utilities.cs:177-194 | the factors found, multiplied, times the cofactor left equal the input |
| `Factorization.TrialFactors` | CryptoFinal/MentalPoker/Utilities.cs:177-194 | the factors found are ascending primes with positive exponents below the bound; the cofactor left is 1 or has no divisor below the bound |
| `Factorization.TrialFromTwo` | CryptoFinal/MentalPoker/Utilities.cs:175-196 | from divisor 2 the leftover cofactor is 1 or a prime at least the bound |
| `Factorization.PrimeFactorizationAsWritten` | CryptoFinal/MentalPoker/Utilities.cs:164-198 | as written: `[(n, 1)]` for a prime, otherwise the trial loop's factors without the leftover cofactor; the list holds ascending primes with positive exponents |
| `Factorization.PrimeFactorization` | CryptoFinal/MentalPoker/Utilities.cs:164-198 | corrected: ascending primes with positive exponents whose product is `n` |
| `Factorization.AsWrittenDropsAtMostLast` | CryptoFinal/MentalPoker/Utilities.cs:164-198 | the list as written is the full factorization, or the full factorization without its last factor, which has exponent 1 |
| `Factorization.AsWrittenMisses22` | CryptoFinal/MentalPoker/Utilities.cs:175-196 | as written, 22 yields only `(2, 1)`, whose product is 2; the corrected list is `(2, 1), (11, 1)` |
| `PrimitiveRoots.CandidatesExact` | CryptoFinal/MentalPoker/Utilities.cs:208-225 | the reference list holds exactly the numbers in `[g, field)` that pass the test against every listed factor, strictly ascending |
| `PrimitiveRoots.TestCandidate` | CryptoFinal/MentalPoker/Utilities.cs:210-215 | the inner loop's flag is true exactly when `g^((field - 1) / q) mod field != 1` for every listed `q` |
| `PrimitiveRoots.Scan` | CryptoFinal/MentalPoker/Utilities.cs:208-232 | the scan returns the first `max(number, 1)` passing candidates, or all of them |
| `PrimitiveRoots.GetPrimitiveRoots` | CryptoFinal/MentalPoker/Utilities.cs:201-233 | as written, over the factor list `PrimeFactorization` returns for `field - 1`: the result is the first `max(number, 1)` passing candidates; each lies in `[2, field)` and passes; the values ascend; no passing candidate below the last one returned is skipped; `field < 2` yields nothing |
| `PrimitiveRoots.GetPrimitiveRootsCorrected` | CryptoFinal/MentalPoker/Utilities.cs:201-233 | corrected: the same scan and the same guarantees over the full prime factorization of `field - 1` |
| `PrimitiveRoots.CorrectedPassesAsWritten` | CryptoFinal/MentalPoker/Utilities.cs:205-215 | every candidate that passes against all prime factors of `field - 1` also passes against the list as written |
| `PrimitiveRoots.AsWrittenAccepts22` | CryptoFinal/MentalPoker/Utilities.cs:201-233 | with the factor list as written, 22 passes the test of `GetPrimitiveRoots` for the field 23 although `22^2 mod 23 == 1`; with the full factorization it fails |
| `Cards.FloorModulus` | CryptoFinal/MentalPoker/Utilities.cs:265-271 | the modulus becomes 53 when below 53 and is kept otherwise |
| `Cards.Shuffled` | CryptoFinal/MentalPoker/Utilities.cs:280-286 | the shuffled deck holds each card `1 .. 52` exactly once |
| `Cards.BuildMatrix` | CryptoFinal/MentalPoker/Utilities.cs:277-304 | `buildMatrix`, with the random column and masks as parameters; its contract states only the 52 by 52 shape, and what the entries encode is stated by `Cards.BuildMatrixEncodes` |
| `Cards.NewCardMatrix` | CryptoFinal/MentalPoker/Utilities.cs:265-274 | the constructor: floor the modulus at 53, then build the matrix from the shuffled deck; the modulus kept is `FloorModulus(prime)` and the matrix is 52 by 52 |
| `Cards.BuildMatrixEncodes` | CryptoFinal/MentalPoker/Utilities.cs:277-304 | every entry is nonnegative; its residue is the row's card in the chosen column and 0 elsewhere |
| `Cards.NewEncodesShuffle` | CryptoFinal/MentalPoker/Utilities.cs:265-304 | a new matrix has modulus at least 53 and encodes the shuffled deck |
| `Cards.FirstResidue` | CryptoFinal/MentalPoker/Utilities.cs:309-316 | the scan returns 0 exactly when every residue is 0, and otherwise the residue of the first column whose residue is nonzero |
| `Cards.GetCard` | CryptoFinal/MentalPoker/Utilities.cs:307-317 | `GetCard(index)` is 0 exactly when every residue of the row is 0, and otherwise the residue of the first column whose residue is nonzero |
| `Cards.GetCardOfEncoding` | CryptoFinal/MentalPoker/Utilities.cs:307-317 | in an encoding matrix, exactly one entry per row has a nonzero residue, and `GetCard` returns the row's card |
| `Cards.DealtOfEncoding` | CryptoFinal/MentalPoker/Utilities.cs:307-317 | reading all 52 rows of an encoding matrix gives back its cards |
| `Cards.NewDealsShuffle` | CryptoFinal/MentalPoker/Utilities.cs:265-317 | after construction `GetCard(i)` is the `i`-th card of the shuffle, so the rows hold each of `1 .. 52` once |
| `Cards.Transform` | CryptoFinal/MentalPoker/Utilities.cs:320-337 | the new modulus is `newPrime` and the matrix keeps its shape |
| `Cards.TransformEncodes` | CryptoFinal/MentalPoker/Utilities.cs:320-337 | to a modulus above 52, the transformed matrix encodes the same cards in the same columns |
| `Cards.SameFrom` | CryptoFinal/MentalPoker/Utilities.cs:341-347 | the loop answers true exactly when the rows from `i` on read the same card in both matrices |
| `Cards.Same` | CryptoFinal/MentalPoker/Utilities.cs:339-348 | `a == b` exactly when every row of `a` reads the same card in `b` |
| `Cards.TransformKeepsCards` | CryptoFinal/MentalPoker/Utilities.cs:320-348 | to a modulus above 52, every row reads the same card and the result is `==` to the original |
| `Cards.SmallModulusLosesCard` | CryptoFinal/MentalPoker/Utilities.cs:320-337 | `Transform` does not floor its modulus: to a modulus `p` in `[1, 52]`, the row holding card `p` reads 0 and the result is not `==` |
| `Cards.TransformSameIff` | CryptoFinal/MentalPoker/Utilities.cs:320-348 | for a full deck and a positive new modulus, the result is `==` to the original exactly when the modulus is at least 53 |
| `Homomorphic.TinySplit` | CryptoFinal/MentalPoker/Utilities.cs:473-501 | three pieces whose sum is `a` plus `m_` times the sum of the multipliers |
| `Homomorphic.TinyPiecesNonnegative` | CryptoFinal/MentalPoker/Utilities.cs:478-486 | before the multiples of `m_` are added, the three tiny pieces are nonnegative |
| `Homomorphic.Split` | CryptoFinal/MentalPoker/Utilities.cs:436-470 | on both paths, three pieces whose sum is `a` plus `m_` times the sum of the multipliers |
| `Homomorphic.TinyBelow65536` | CryptoFinal/MentalPoker/Utilities.cs:440-443 | the size test sends exactly the values below `256^2` to `tinySplit` |
| `Homomorphic.LargeCutLeavesPositive` | CryptoFinal/MentalPoker/Utilities.cs:446-450 | the first cut of the large path leaves a positive remainder, so its logarithm is defined |
| `Homomorphic.Encrypt` | CryptoFinal/MentalPoker/Utilities.cs:503-516 | for every generated parameter set and every plaintext the guard rejects or that is nonnegative: the list is empty exactly when `a > m_`; otherwise it has three shares, each in `(-m, m)` |
| `Homomorphic.Unscale` | CryptoFinal/MentalPoker/Utilities.cs:522-527 | each unscaled share lies in `[0, m)` |
| `Homomorphic.Decrypt` | CryptoFinal/MentalPoker/Utilities.cs:518-534 | for every generated parameter set, whatever the sign of `m_`, the plaintext recovered lies in `[0, abs(m_))` |
| `Homomorphic.UnscaleScale` | CryptoFinal/MentalPoker/Utilities.cs:512-527 | unscaling share `t` of a piece recovers the piece modulo `m` |
| `Homomorphic.RoundTrip` | CryptoFinal/MentalPoker/Utilities.cs:503-534 | for `0 <= a <= m_`, `Decrypt(Encrypt(a)) == a mod m_` |
| `Homomorphic.RoundTripBelow` | CryptoFinal/MentalPoker/Utilities.cs:503-534 | for `0 <= a < m_`, `Decrypt(Encrypt(a)) == a` |
| `Homomorphic.Additive` | CryptoFinal/MentalPoker/Utilities.cs:503-534 | adding two ciphertexts share by share modulo `m` decrypts to `(a + b) mod m_` |
| `Homomorphic.OutOfRangeIsEmpty` | CryptoFinal/MentalPoker/Utilities.cs:505-509 | above `m_` the ciphertext is empty, and it decrypts to 0 |
| `Homomorphic.TopValueDecryptsToZero` | CryptoFinal/MentalPoker/Utilities.cs:505-534 | `a == m_` passes the guard, gives three shares, and decrypts to 0 |
| `Homomorphic.NegativeModulusRejectsAll` | CryptoFinal/MentalPoker/Utilities.cs:400-509 | with a negative `m_` from the generation, `Encrypt` returns the empty list for every `a > m_`, every `a >= 0` included, and that list decrypts to 0 |
| `Homomorphic.PositiveModulus` | CryptoFinal/MentalPoker/Utilities.cs:375-401 | corrected: replacing `m_` by its absolute value gives parameters with a positive `m_` dividing `m`, the rest unchanged |
| `Homomorphic.PositiveModulusRoundTrip` | CryptoFinal/MentalPoker/Utilities.cs:375-534 | corrected: with `m_` taken positive, every plaintext below it gives three shares that decrypt back to it |
| `Homomorphic.EncryptChecked` | CryptoFinal/MentalPoker/Utilities.cs:503-516 | corrected guard: an out-of-range failure exactly when `a >= m_`, otherwise the three shares of `Encrypt`, each in `(-m, m)` |
| `Homomorphic.CheckedRoundTrip` | CryptoFinal/MentalPoker/Utilities.cs:503-534 | corrected guard: the plaintexts accepted are exactly those below `m_`, and each decrypts back to itself |

## Left out

- `constructM` and `constructR` are not modelled. Their parameter generation is an unbounded retry over random signed bytes. `Homomorphic.GeneratedParams` states what they establish when they finish. `m_` is nonzero, because a zero multiplier keeps `m` at 0 and the loop never ends. The inverse test in `constructR` is covered by `ExtendedEuclid.InverseCheck`.
- `Homomorphic.ValidParams` assumes `m_ > 0`, which the source does not guarantee. Each multiplier of `constructM` (Utilities.cs:383-400) is a signed 2-byte value in `[-32768, 32767]`. `m_` is negative whenever an odd number of the last three multipliers are. The guard `a > m_` then rejects every `a >= 0`, and `Encrypt` always returns the empty list, which decrypts to 0 (`Homomorphic.NegativeModulusRejectsAll`). The round-trip and additivity properties are stated only for `m_ > 0`.
- `Primality.IsPrime` replaces the probabilistic driver by exact primality. That ignores the driver's false negatives. The driver draws each witness as the absolute value of `size - 2` random bytes (Utilities.cs:91-98), which is 0 with probability `256^-(size - 2)`. A zero witness makes `IsComposite` answer true for every odd `n >= 3`, primes included (`Primality.ZeroWitnessComposite`). So a prime in `[256^3, 256^4)` is rejected with probability about 0.32 over 100 rounds. One round, `IsComposite`, is modelled in full.
- `BitCommit` is not modelled: it is a random prime search plus a single `ModPow`.
- Random sources (`RandomNumberGenerator`, `System.Random`) are not modelled. Every draw is a parameter constrained to its documented range.
- Floating-point rounding is not modelled. The logarithms and square root become exact integer functions. For `a <= 0` the `split` size is taken to be at most 1, so zero goes to `tinySplit`.
- The `(int)` casts that can overflow are not modelled. Values are unbounded integers.
- Console output is not modelled.
- The in-place mutation of the arrays and lists is not modelled. `RandomPermutation`, `Transform` and `Decrypt` all mutate their argument; the model returns new values.
- `Primality.IsComposite` assumes `a >= 0`, as the driver guarantees. It is modelled only for `n >= 2`: at `n == 1` the source's halving loop (Utilities.cs:58-62) never ends, because `q` starts at 0 and stays even. `Primality.Decompose` requires `x >= 1` for that reason. The driver never reaches it, since it sends every number below `256^3` to `isPrime`.
- `Factorization.PrimeFactorization` requires `n >= 1`. For smaller `n`, `IsPrime` takes the logarithm of a nonpositive number, which is not finite, so its size cast lands below 3 and `isPrime` decides. `isPrime` accepts every `n <= 0`, so the source returns `[(n, 1)]` without reaching `Log10`. When `n` is below the `int` range, the `(int)n` cast throws instead. `PrimitiveRoots.GetPrimitiveRoots` does compute that factorization for `field < 2` and then discards it; the model returns the empty list directly.
- `PrimitiveRoots.GetPrimitiveRoots` does not state that the values returned are primitive roots. That would need the order of the multiplicative group. It states the Lucas test the code applies.
- `Homomorphic.Encrypt` requires `a > m_` or `a >= 0`. A negative `a <= m_` passes the guard and reaches `rand.Next` in `split` with a negative bound, which throws. When `m_ < 0`, a negative `a > m_` is rejected by the guard and gives the empty list, which the model covers. No caller passes a negative value.
- `Cards.Transform` requires `newPrime >= 0` and a nonzero old modulus. The source throws on those inputs: `rand.Next` with a negative bound, or `%` by zero.
- The generated `m` is at least `10^100`: the loop stops only once `m` reaches that bound. There is no upper bound, since a negative `m` keeps being multiplied and a last sign flip can land far above `10^200`. The model does not use the lower bound: it holds for every positive `m` divisible by `m_`.
- The `FastMentalPoker` and `PracticalMentalPoker` protocols, their `MockSetup` harnesses, the `DNC` placeholder and `Program.Main` are not part of this model.

## Findings

| source | as written | input that shows it | evidently intended | confidence | as-written member | corrected member |
|---|---|---|---|---|---|---|
| CryptoFinal/MentalPoker/Utilities.cs:19-22 | `isPrime` reaches `n < 4` and returns true for every `n <= 0` | `isPrime(0)`, `isPrime(-7)` | only primes accepted | not executed | `Primality.IsPrimeSmallAcceptsNonPositive` | `Primality.IsPrime` |
| CryptoFinal/MentalPoker/Utilities.cs:175-197 | the cofactor left after trial division is never added to the list | `PrimeFactorization(22)` gives `[(2, 1)]`, so 22, whose order is 2, passes the test of `GetPrimitiveRoots(23, _)` | the leftover prime `11` appended: `[(2, 1), (11, 1)]` | not executed | `Factorization.AsWrittenMisses22`, `PrimitiveRoots.AsWrittenAccepts22` | `Factorization.PrimeFactorization`, `PrimitiveRoots.GetPrimitiveRootsCorrected` |
| CryptoFinal/MentalPoker/Utilities.cs:505 | the guard `a > m_` lets `a == m_` through, and it decrypts to 0 | `Encrypt(m_)` | reject `a >= m_`, so that every accepted plaintext decrypts to itself | not executed | `Homomorphic.TopValueDecryptsToZero` | `Homomorphic.EncryptChecked`, `Homomorphic.CheckedRoundTrip` |
| CryptoFinal/MentalPoker/Utilities.cs:383-400 | the multipliers are signed, so `m_`, the product of the last three, is negative whenever an odd number of them are; the guard `a > m_` then rejects every plaintext | a run whose last three multipliers are `-2, 3, 5`, giving `m_ == -30` | `m_` positive, for instance its absolute value, which still divides `m` | not executed | `Homomorphic.NegativeModulusRejectsAll` | `Homomorphic.PositiveModulus`, `Homomorphic.PositiveModulusRoundTrip` |
