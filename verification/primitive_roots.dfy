/** `GetPrimitiveRoots`: scans `g = 2, 3, ...` below the field and keeps the
    candidates that pass the Lucas test against every prime factor of
    `field - 1`, until `number` of them are found. */
module PrimitiveRoots {
  import opened Arith
  import opened Factorization

  /** Every listed factor has a positive prime. */
  predicate PositiveFactors(fs: seq<Factor>) {
    forall j :: 0 <= j < |fs| ==> fs[j].prime > 0
  }

  /** The exponent `(field - 1) / q` of the test for the factor `q`. */
  function LucasExponent(field: int, q: int): nat
    requires field >= 1 && q > 0
  {
    (field - 1) / q
  }

  /** The Lucas test: `g^((field - 1) / q) mod field != 1` for every listed
      prime `q`. */
  predicate Passes(field: int, fs: seq<Factor>, g: int)
    requires field >= 2 && PositiveFactors(fs)
  {
    forall j :: 0 <= j < |fs| ==> ModPow(g, LucasExponent(field, fs[j].prime), field) != 1
  }

  /** Reference definition: every candidate in `[g, field)` that passes, in
      ascending order. */
  function Candidates(field: int, fs: seq<Factor>, g: int): seq<int>
    requires field >= 2 && PositiveFactors(fs)
    decreases field - g
  {
    if g >= field then []
    else (if Passes(field, fs, g) then [g] else []) + Candidates(field, fs, g + 1)
  }

  /** The candidates list holds exactly the passing numbers in `[g, field)`,
      strictly ascending. */
  lemma {:induction false} CandidatesExact(field: int, fs: seq<Factor>, g: int)
    requires field >= 2 && PositiveFactors(fs)
    ensures forall k :: 0 <= k < |Candidates(field, fs, g)| ==>
      g <= Candidates(field, fs, g)[k] < field && Passes(field, fs, Candidates(field, fs, g)[k])
    ensures forall x :: g <= x < field && Passes(field, fs, x) ==> x in Candidates(field, fs, g)
    ensures forall k, l :: 0 <= k < l < |Candidates(field, fs, g)| ==>
      Candidates(field, fs, g)[k] < Candidates(field, fs, g)[l]
    decreases field - g
  {
    if g < field {
      CandidatesExact(field, fs, g + 1);
      var rest := Candidates(field, fs, g + 1);
      var c := Candidates(field, fs, g);
      var head := if Passes(field, fs, g) then [g] else [];
      assert c == head + rest;
      forall k | 0 <= k < |c|
        ensures c[k] == (if k < |head| then g else rest[k - |head|])
      {
      }
    }
  }

  /** The scan has got as far as `x`: either it ran to the end of the field
      without filling the count, or `x` is at most the last root returned. */
  predicate Reached(roots: seq<int>, number: int, x: int) {
    |roots| < Max(number, 1) || (|roots| > 0 && x <= roots[|roots| - 1])
  }

  /** The inner loop of the scan: the test of `g` against each listed factor
      in turn, stopping at the first that fails. */
  method TestCandidate(field: int, factorization: seq<Factor>, g: int) returns (flag: bool)
    requires field >= 2 && PositiveFactors(factorization)
    ensures flag <==> Passes(field, factorization, g)
  {
    flag := true;
    var i := 0;
    while i < |factorization|
      invariant 0 <= i <= |factorization|
      invariant flag <==> forall j :: 0 <= j < i ==>
        ModPow(g, LucasExponent(field, factorization[j].prime), field) != 1
    {
      flag := flag && ModPow(g, LucasExponent(field, factorization[i].prime), field) != 1;
      if !flag {
        return;
      }
      i := i + 1;
    }
  }

  /** Every prime of a factorization is positive, as the Lucas test needs. */
  lemma PrimesPositive(fs: seq<Factor>)
    requires forall k :: 0 <= k < |fs| ==> Prime(fs[k].prime)
    ensures PositiveFactors(fs)
  {
  }

  /** `GetPrimitiveRoots(field, number)` as written: the scan runs over the
      list `PrimeFactorization` returns for `field - 1`, which may lack the
      largest prime factor. At least one root is returned when one exists,
      since the count is tested only after a root has been added. Below 2
      the scan is empty and nothing is returned. */
  method GetPrimitiveRoots(field: int, number: int) returns (roots: seq<int>)
    ensures field < 2 ==> roots == []
    ensures field >= 2 ==> var all := Candidates(field, PrimeFactorizationAsWritten(field - 1), 2);
      roots == all[..Min(|all|, Max(number, 1))]
    ensures field >= 2 ==> forall k :: 0 <= k < |roots| ==>
      2 <= roots[k] < field && Passes(field, PrimeFactorizationAsWritten(field - 1), roots[k])
    ensures forall k, l :: 0 <= k < l < |roots| ==> roots[k] < roots[l]
    ensures |roots| <= Max(number, 1)
    ensures field >= 2 ==> forall x ::
      2 <= x < field && Passes(field, PrimeFactorizationAsWritten(field - 1), x) && Reached(roots, number, x) ==> x in roots
  {
    if field < 2 {
      return [];
    }
    var factorization := PrimeFactorizationAsWritten(field - 1);
    PrimesPositive(factorization);
    roots := Scan(field, factorization, number);
    PrefixFacts(Candidates(field, factorization, 2), roots, number, field, factorization);
  }

  /** The scan over the full prime factorization of `field - 1`, with the
      leftover cofactor included: every value returned passes the test
      against every prime factor of `field - 1`. */
  method GetPrimitiveRootsCorrected(field: int, number: int) returns (roots: seq<int>)
    ensures field < 2 ==> roots == []
    ensures field >= 2 ==> var all := Candidates(field, PrimeFactorization(field - 1), 2);
      roots == all[..Min(|all|, Max(number, 1))]
    ensures field >= 2 ==> forall k :: 0 <= k < |roots| ==>
      2 <= roots[k] < field && Passes(field, PrimeFactorization(field - 1), roots[k])
    ensures forall k, l :: 0 <= k < l < |roots| ==> roots[k] < roots[l]
    ensures |roots| <= Max(number, 1)
    ensures field >= 2 ==> forall x ::
      2 <= x < field && Passes(field, PrimeFactorization(field - 1), x) && Reached(roots, number, x) ==> x in roots
  {
    if field < 2 {
      return [];
    }
    var factorization := PrimeFactorization(field - 1);
    PrimesPositive(factorization);
    roots := Scan(field, factorization, number);
    PrefixFacts(Candidates(field, factorization, 2), roots, number, field, factorization);
  }

  /** The loop of `GetPrimitiveRoots` over candidates `g = 2 .. field - 1`
      for a given list of factors. */
  method Scan(field: int, factorization: seq<Factor>, number: int) returns (roots: seq<int>)
    requires field >= 2 && PositiveFactors(factorization)
    ensures var all := Candidates(field, factorization, 2);
      roots == all[..Min(|all|, Max(number, 1))]
  {
    ghost var all := Candidates(field, factorization, 2);
    roots := [];
    var count := number;
    var flag := true;
    var g := 2;
    while g < field
      invariant 2 <= g <= field
      invariant flag
      invariant roots + Candidates(field, factorization, g) == all
      invariant count == number - |roots|
      invariant |roots| == 0 || count > 0
    {
      flag := TestCandidate(field, factorization, g);
      if !flag {
        flag := true;
        g := g + 1;
        continue;
      }
      assert Candidates(field, factorization, g) == [g] + Candidates(field, factorization, g + 1);
      assert roots + Candidates(field, factorization, g) == (roots + [g]) + Candidates(field, factorization, g + 1);
      roots := roots + [g];
      count := count - 1;
      if count <= 0 {
        StopAtCount(all, roots, Candidates(field, factorization, g + 1), number);
        return;
      }
      g := g + 1;
    }
    StopAtEnd(all, roots, number);
  }

  /** Leaving the scan once the count is used up: `roots` is a prefix of
      `all` of length `Max(number, 1)`. */
  lemma StopAtCount(all: seq<int>, roots: seq<int>, rest: seq<int>, number: int)
    requires roots + rest == all && |roots| >= 1 && number - |roots| <= 0
    requires |roots| == 1 || number - (|roots| - 1) > 0
    ensures roots == all[..Min(|all|, Max(number, 1))]
  {
    assert all[..|roots|] == roots;
  }

  /** Leaving the scan at the end of the field without filling the count. */
  lemma StopAtEnd(all: seq<int>, roots: seq<int>, number: int)
    requires roots == all && (|roots| == 0 || number - |roots| > 0)
    ensures roots == all[..Min(|all|, Max(number, 1))]
  {
  }

  /** What the method's postconditions derive from: `roots` is the prefix of
      the candidates list of the length the count allows. */
  lemma PrefixFacts(all: seq<int>, roots: seq<int>, number: int, field: int, fs: seq<Factor>)
    requires field >= 2 && PositiveFactors(fs) && all == Candidates(field, fs, 2)
    requires roots == all[..Min(|all|, Max(number, 1))]
    ensures forall k :: 0 <= k < |roots| ==> 2 <= roots[k] < field && Passes(field, fs, roots[k])
    ensures forall k, l :: 0 <= k < l < |roots| ==> roots[k] < roots[l]
    ensures |roots| <= Max(number, 1)
    ensures forall x :: 2 <= x < field && Passes(field, fs, x) && Reached(roots, number, x) ==> x in roots
  {
    CandidatesExact(field, fs, 2);
    assert forall k :: 0 <= k < |roots| ==> roots[k] == all[k];
    forall x | 2 <= x < field && Passes(field, fs, x) && Reached(roots, number, x)
      ensures x in roots
    {
      var k :| 0 <= k < |all| && all[k] == x;
      IndexBelow(all, |roots|, k, Reached(roots, number, x) && |roots| < Max(number, 1));
      assert roots[k] == x;
    }
  }

  /** In an ascending list, an entry not above the last one of a prefix lies
      in that prefix; so does every entry when the prefix is the whole list. */
  lemma IndexBelow(all: seq<int>, n: int, k: int, whole: bool)
    requires 0 <= k < |all| && 0 <= n <= |all|
    requires forall i, j :: 0 <= i < j < |all| ==> all[i] < all[j]
    requires whole ==> n == |all|
    requires !whole ==> n > 0 && all[k] <= all[n - 1]
    ensures k < n
  {
  }

  /** The list as written is the full factorization with at most its last
      factor missing, so the as-written test is weaker: every candidate
      that passes against all prime factors of `field - 1` also passes as
      written. */
  lemma CorrectedPassesAsWritten(field: int, g: int)
    requires field >= 2
    ensures PositiveFactors(PrimeFactorization(field - 1))
    ensures PositiveFactors(PrimeFactorizationAsWritten(field - 1))
    ensures Passes(field, PrimeFactorization(field - 1), g) ==>
      Passes(field, PrimeFactorizationAsWritten(field - 1), g)
  {
    var fs, ws := PrimeFactorization(field - 1), PrimeFactorizationAsWritten(field - 1);
    PrimesPositive(fs);
    PrimesPositive(ws);
    AsWrittenDropsAtMostLast(field - 1);
    assert forall j :: 0 <= j < |ws| ==> ws[j] == fs[j];
  }

  /** With the list as written for 22, the scan of the field 23 tests only
      the factor 2, and 22 passes although its square is 1. */
  lemma AsWrittenAccepts22()
    ensures PositiveFactors(PrimeFactorizationAsWritten(22))
    ensures Passes(23, PrimeFactorizationAsWritten(22), 22)
    ensures ModPow(22, 2, 23) == 1
    ensures !Passes(23, PrimeFactorization(22), 22)
  {
    AsWrittenMisses22();
    PowersOf22();
    assert LucasExponent(23, 2) == 11 && LucasExponent(23, 11) == 2;
    var ws := PrimeFactorizationAsWritten(22);
    assert ws[0].prime == 2;
    var fs := PrimeFactorization(22);
    assert fs[1].prime == 11;
    assert ModPow(22, LucasExponent(23, fs[1].prime), 23) == 1;
  }

  lemma PowersOf22()
    ensures ModPow(22, 11, 23) == 22 && ModPow(22, 2, 23) == 1
  {
    assert Pow(22, 2) == 484 == 23 * 21 + 1;
    assert Pow(22, 11) == 584318301411328 == 23 * 25405143539622 + 22;
  }
}
