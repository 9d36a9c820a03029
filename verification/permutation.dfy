/** `RandomPermutation`: the forward Knuth shuffle that, for `i = 0 .. n - 2`,
    swaps position `i` with position `i + j` for a draw `j` in `[0, n - i)`.
    The draws are parameters; the source takes them from `System.Random`. */
module Permutation {

  /** The documented range of the draws: `draws[i]` is the value
      `rand.Next(n - i)` taken at step `i`, for every step `i < n - 1`. */
  predicate DrawsInRange(n: int, draws: seq<int>) {
    |draws| >= n - 1 && forall i :: 0 <= i < n - 1 ==> 0 <= draws[i] < n - i
  }

  function Swap<T>(s: seq<T>, i: int, j: int): (r: seq<T>)
    requires 0 <= i < |s| && 0 <= j < |s|
    ensures |r| == |s| && multiset(r) == multiset(s)
  {
    s[i := s[j]][j := s[i]]
  }

  /** The shuffle from step `i` on. Every swap stays inside `[i, n)`, so the
      result is a rearrangement that leaves the positions before `i` and the
      positions from `n` on as they were. */
  function ShuffleFrom<T>(s: seq<T>, n: int, i: int, draws: seq<int>): (r: seq<T>)
    requires 0 <= i && n <= |s| && DrawsInRange(n, draws)
    ensures |r| == |s| && multiset(r) == multiset(s)
    decreases n - i
  {
    if i >= n - 1 then s
    else ShuffleFrom(Swap(s, i, i + draws[i]), n, i + 1, draws)
  }

  /** A position outside `[i, n)` is never touched by the steps from `i` on. */
  lemma {:induction false} ShuffleKeeps<T>(s: seq<T>, n: int, i: int, draws: seq<int>, k: int)
    requires 0 <= i && n <= |s| && DrawsInRange(n, draws)
    requires 0 <= k < |s| && (k < i || n <= k)
    ensures ShuffleFrom(s, n, i, draws)[k] == s[k]
    decreases n - i
  {
    if i < n - 1 {
      var s' := Swap(s, i, i + draws[i]);
      ShuffleStep(s, n, i, draws);
      ShuffleKeeps(s', n, i + 1, draws, k);
      assert s'[k] == s[k];
    }
  }

  /** `RandomPermutation(n, sequence)` with its random draws made explicit. */
  method RandomPermutation<T>(n: int, sequence: seq<T>, draws: seq<int>) returns (r: seq<T>)
    requires n <= |sequence| && DrawsInRange(n, draws)
    ensures r == ShuffleFrom(sequence, n, 0, draws)
    ensures |r| == |sequence| && multiset(r) == multiset(sequence)
    ensures forall k :: 0 <= k < |sequence| && n <= k ==> r[k] == sequence[k]
  {
    r := sequence;
    var i := 0;
    while i < n - 1
      invariant 0 <= i && |r| == |sequence|
      invariant ShuffleFrom(r, n, i, draws) == ShuffleFrom(sequence, n, 0, draws)
    {
      var j := draws[i];
      ghost var before := r;
      var t := r[i];
      r := r[i := r[i + j]];
      r := r[i + j := t];
      assert r == Swap(before, i, i + j);
      i := i + 1;
    }
    forall k | 0 <= k < |sequence| && n <= k
      ensures r[k] == sequence[k]
    {
      ShuffleKeeps(sequence, n, 0, draws, k);
    }
  }

  lemma ShuffleStep<T>(s: seq<T>, n: int, i: int, draws: seq<int>)
    requires 0 <= i < n - 1 && n <= |s| && DrawsInRange(n, draws)
    ensures ShuffleFrom(s, n, i, draws) == ShuffleFrom(Swap(s, i, i + draws[i]), n, i + 1, draws)
  {
  }

  /** `t` agrees with `s` outside the window `[i, n)`. */
  ghost predicate SameOutside<T>(s: seq<T>, t: seq<T>, i: int, n: int)
    requires |t| == |s|
  {
    forall j :: 0 <= j < |s| && (j < i || n <= j) ==> t[j] == s[j]
  }

  /** The draw that brings `t[i]` to position `i`. */
  lemma FindDraw<T>(s: seq<T>, n: int, i: int, t: seq<T>) returns (k: int)
    requires 0 <= i < n <= |s| && n <= |t|
    requires multiset(s[i..n]) == multiset(t[i..n])
    ensures 0 <= k < n - i && s[i + k] == t[i]
  {
    assert t[i..n] == [t[i]] + t[i + 1..n];
    assert t[i] in multiset(t[i..n]);
    assert t[i] in s[i..n];
    k :| 0 <= k < n - i && s[i..n][k] == t[i];
  }

  /** Swapping inside the window is swapping in the window. */
  lemma SwapWindow<T>(s: seq<T>, n: int, i: int, k: int)
    requires 0 <= i && 0 <= k < n - i && n <= |s|
    ensures Swap(s, i, i + k)[i..n] == Swap(s[i..n], 0, k)
  {
  }

  lemma SplitHead<T>(s: seq<T>, i: int, n: int)
    requires 0 <= i < n <= |s|
    ensures s[i..n] == [s[i]] + s[i + 1..n]
  {
  }

  lemma CancelOne<T>(x: T, a: seq<T>, b: seq<T>)
    requires multiset([x] + a) == multiset([x] + b)
    ensures multiset(a) == multiset(b)
  {
    var m := multiset([x]);
    assert multiset([x] + a) == m + multiset(a);
    assert multiset([x] + b) == m + multiset(b);
    assert (m + multiset(a)) - m == multiset(a);
    assert (m + multiset(b)) - m == multiset(b);
  }

  /** After that swap the positions `(i, n)` hold a rearrangement of `t`'s. */
  lemma SwapTail<T>(s: seq<T>, n: int, i: int, k: int, t: seq<T>)
    requires 0 <= i && 0 <= k < n - i && n <= |s| && n <= |t|
    requires multiset(s[i..n]) == multiset(t[i..n]) && s[i + k] == t[i]
    ensures multiset(Swap(s, i, i + k)[i + 1..n]) == multiset(t[i + 1..n])
  {
    var s' := Swap(s, i, i + k);
    SwapWindow(s, n, i, k);
    assert multiset(s'[i..n]) == multiset(s[i..n]);
    SplitHead(s', i, n);
    SplitHead(t, i, n);
    assert s'[i] == t[i];
    CancelOne(t[i], s'[i + 1..n], t[i + 1..n]);
  }

  /** ... and `t` agrees with the swapped sequence outside `[i + 1, n)`. */
  lemma SwapOutside<T>(s: seq<T>, n: int, i: int, k: int, t: seq<T>)
    requires 0 <= i && 0 <= k < n - i && n <= |s| && |t| == |s|
    requires SameOutside(s, t, i, n) && s[i + k] == t[i]
    ensures SameOutside(Swap(s, i, i + k), t, i + 1, n)
  {
    var s' := Swap(s, i, i + k);
    forall j | 0 <= j < |s| && (j < i + 1 || n <= j)
      ensures t[j] == s'[j]
    {
      if j == i {
        assert s'[j] == s[i + k];
      } else {
        assert s'[j] == s[j];
      }
    }
  }

  /** With at most one position left in the window, agreeing outside it and
      holding the same elements inside it means being equal. */
  lemma Settled<T>(s: seq<T>, n: int, i: int, t: seq<T>)
    requires 0 <= i <= n <= |s| && |t| == |s| && n - 1 <= i
    requires SameOutside(s, t, i, n) && multiset(s[i..n]) == multiset(t[i..n])
    ensures s == t
  {
    if i == n - 1 {
      assert s[i..n] == [s[i]] && t[i..n] == [t[i]];
      assert s[i] in multiset(t[i..n]);
    }
    assert forall k :: 0 <= k < |s| ==> s[k] == t[k];
  }

  /** Every rearrangement of the positions from `i` up to `n` is produced by
      some admissible continuation of the draws `acc` already made. */
  lemma {:induction false} ReachFrom<T>(s: seq<T>, n: int, i: int, t: seq<T>, acc: seq<int>)
    returns (draws: seq<int>)
    requires 0 <= i <= n <= |s| && |t| == |s| && |acc| == i
    requires forall k :: 0 <= k < i ==> 0 <= acc[k] < n - k
    requires SameOutside(s, t, i, n) && multiset(s[i..n]) == multiset(t[i..n])
    ensures |draws| >= i && DrawsInRange(n, draws) && draws[..i] == acc
    ensures ShuffleFrom(s, n, i, draws) == t
    decreases n - i
  {
    if i >= n - 1 {
      draws := acc;
      Settled(s, n, i, t);
    } else {
      var k := ReachStep(s, n, i, t, acc);
      draws := ReachFrom(Swap(s, i, i + k), n, i + 1, t, acc + [k]);
      PrefixLast(draws, acc, k);
      ReachJoin(s, n, i, k, draws, t);
    }
  }

  /** The draw taken at step `i`, and the facts the remaining steps need. */
  lemma ReachStep<T>(s: seq<T>, n: int, i: int, t: seq<T>, acc: seq<int>) returns (k: int)
    requires 0 <= i < n - 1 && n <= |s| && |t| == |s| && |acc| == i
    requires forall k :: 0 <= k < i ==> 0 <= acc[k] < n - k
    requires SameOutside(s, t, i, n) && multiset(s[i..n]) == multiset(t[i..n])
    ensures 0 <= k < n - i && Swap(s, i, i + k)[i] == t[i]
    ensures SameOutside(Swap(s, i, i + k), t, i + 1, n)
    ensures multiset(Swap(s, i, i + k)[i + 1..n]) == multiset(t[i + 1..n])
    ensures forall j :: 0 <= j < i + 1 ==> 0 <= (acc + [k])[j] < n - j
  {
    k := FindDraw(s, n, i, t);
    SwapTail(s, n, i, k, t);
    SwapOutside(s, n, i, k, t);
    var acc' := acc + [k];
    assert forall j :: 0 <= j < i ==> acc'[j] == acc[j];
  }

  /** The draws found for the steps after `i` also serve step `i`. */
  lemma ReachJoin<T>(s: seq<T>, n: int, i: int, k: int, draws: seq<int>, t: seq<T>)
    requires 0 <= i < n - 1 && n <= |s| && DrawsInRange(n, draws) && draws[i] == k
    requires ShuffleFrom(Swap(s, i, i + k), n, i + 1, draws) == t
    ensures ShuffleFrom(s, n, i, draws) == t
  {
    ShuffleStep(s, n, i, draws);
  }

  lemma PrefixLast(draws: seq<int>, acc: seq<int>, k: int)
    requires |draws| > |acc| && draws[..|acc| + 1] == acc + [k]
    ensures draws[|acc|] == k && draws[..|acc|] == acc
  {
    var i := |acc|;
    assert draws[..i + 1][i] == draws[i];
    assert draws[..i] == draws[..i + 1][..i];
  }

  lemma EveryArrangementReachable<T>(s: seq<T>, n: int, t: seq<T>)
    requires 0 <= n <= |s| && |t| == |s|
    requires multiset(s[..n]) == multiset(t[..n]) && s[n..] == t[n..]
    ensures exists draws :: DrawsInRange(n, draws) && ShuffleFrom(s, n, 0, draws) == t
  {
    assert s[0..n] == s[..n] && t[0..n] == t[..n];
    forall k | 0 <= k < |s| && n <= k
      ensures t[k] == s[k]
    {
      assert s[k] == s[n..][k - n] && t[k] == t[n..][k - n];
    }
    var draws := ReachFrom(s, n, 0, t, []);
  }
}
