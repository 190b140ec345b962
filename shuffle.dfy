/**
 * Durstenfeld's form of the Fisher-Yates shuffle over a copy of the input.
 *
 * The random source is injected: the k-th value it yields decides the index
 * `j` swapped with `i = n - 1 - k` on the k-th iteration. The model takes the
 * draws either as those indices directly (`draws`) or as exact values in
 * [0, 1) (`Ratio`), turned into indices by `DrawIndex`.
 */
module Shuffle {

  /** `draws` can drive a shuffle of `n` items: one draw per iteration, each in [0, i]. */
  predicate DrawsFit(n: nat, draws: seq<nat>) {
    n <= |draws| + 1 && forall k :: 0 <= k < n - 1 ==> draws[k] <= n - 1 - k
  }

  /** `s` with the elements at `i` and `j` exchanged. */
  function Swap<T>(s: seq<T>, i: nat, j: nat): (r: seq<T>)
    requires i < |s| && j < |s|
    ensures |r| == |s|
  {
    s[i := s[j]][j := s[i]]
  }

  lemma SwapPermutes<T>(s: seq<T>, i: nat, j: nat)
    requires i < |s| && j < |s|
    ensures multiset(Swap(s, i, j)) == multiset(s)
  {
  }

  /** The iterations `i`, `i - 1`, ..., `1` of the shuffle loop, applied to `s`. */
  function Steps<T>(s: seq<T>, i: int, draws: seq<nat>): (r: seq<T>)
    requires i < |s| && DrawsFit(|s|, draws)
    ensures |r| == |s|
    decreases i
  {
    if i <= 0 then s else Steps(Swap(s, i, draws[|s| - 1 - i]), i - 1, draws)
  }

  /** What `shuffle` returns for `s` when the random source yields `draws`. */
  function Shuffled<T>(s: seq<T>, draws: seq<nat>): seq<T>
    requires DrawsFit(|s|, draws)
  {
    Steps(s, |s| - 1, draws)
  }

  /** The remaining iterations only permute their input. */
  lemma {:induction false} StepsPermutes<T>(s: seq<T>, i: int, draws: seq<nat>)
    requires i < |s| && DrawsFit(|s|, draws)
    ensures multiset(Steps(s, i, draws)) == multiset(s)
    decreases i
  {
    if i > 0 {
      SwapPermutes(s, i, draws[|s| - 1 - i]);
      StepsPermutes(Swap(s, i, draws[|s| - 1 - i]), i - 1, draws);
    }
  }

  /** The iterations from `i` down never touch a position above `i`. */
  lemma {:induction false} StepsKeepsSuffix<T>(s: seq<T>, i: int, draws: seq<nat>)
    requires i < |s| && DrawsFit(|s|, draws)
    ensures forall m :: 0 <= m < |s| && i < m ==> Steps(s, i, draws)[m] == s[m]
    decreases i
  {
    if i > 0 {
      StepsKeepsSuffix(Swap(s, i, draws[|s| - 1 - i]), i - 1, draws);
    }
  }

  /** The result is a permutation of the input: same length, same multiset of elements. */
  lemma ShuffledIsPermutation<T>(s: seq<T>, draws: seq<nat>)
    requires DrawsFit(|s|, draws)
    ensures |Shuffled(s, draws)| == |s|
    ensures multiset(Shuffled(s, draws)) == multiset(s)
  {
    StepsPermutes(s, |s| - 1, draws);
  }

  /** The loop does no iteration for fewer than two items, so such inputs come back as they are. */
  lemma ShortInputUnchanged<T>(s: seq<T>, draws: seq<nat>)
    requires |s| <= 1 && DrawsFit(|s|, draws)
    ensures Shuffled(s, draws) == s
  {
  }

  /** `shuffle(items, randomFn)`: copy the items, then swap in place from the top index down. */
  method Shuffle<T>(items: array<T>, draws: seq<nat>) returns (copy: array<T>)
    requires DrawsFit(items.Length, draws)
    ensures fresh(copy)
    ensures copy[..] == Shuffled(items[..], draws)
    ensures multiset(copy[..]) == multiset(items[..])
  {
    copy := new T[items.Length](k requires 0 <= k < items.Length reads items => items[k]);
    assert copy[..] == items[..];
    ghost var result := Shuffled(items[..], draws);
    var i := copy.Length - 1;
    while i > 0
      invariant -1 <= i < copy.Length
      invariant Steps(copy[..], i, draws) == result
    {
      var j := draws[copy.Length - 1 - i];
      ghost var before := copy[..];
      copy[i], copy[j] := copy[j], copy[i];
      assert copy[..] == Swap(before, i, j);
      i := i - 1;
    }
    ShuffledIsPermutation(items[..], draws);
  }

  /** A value of the random source, `num / den`, in [0, 1) when `num < den`. */
  datatype Ratio = Ratio(num: nat, den: nat)

  predicate InUnitInterval(r: Ratio) {
    r.num < r.den
  }

  /** `Math.floor(r * (i + 1))`: the index drawn on the iteration for `i`. */
  function DrawIndex(r: Ratio, i: nat): (j: nat)
    requires InUnitInterval(r)
    ensures j <= i
    ensures j * r.den <= r.num * (i + 1) < (j + 1) * r.den
  {
    FloorBelow(r.num, r.den, i);
    r.num * (i + 1) / r.den
  }

  /** For `num < den`, the floor of `num * (i + 1) / den` lies in [0, i]. */
  lemma FloorBelow(num: nat, den: nat, i: nat)
    requires num < den
    ensures 0 <= num * (i + 1) / den <= i
    ensures (num * (i + 1) / den) * den <= num * (i + 1) < (num * (i + 1) / den + 1) * den
  {
    var p := num * (i + 1);
    var q := p / den;
    assert p == q * den + p % den && 0 <= p % den < den;
    assert p < den * (i + 1) by {
      MulStrict(num, den, i + 1);
    }
  }

  lemma MulStrict(a: nat, b: nat, n: nat)
    requires a < b && 0 < n
    ensures a * n < b * n
  {
    assert b * n == a * n + (b - a) * n;
  }

  /** The index draws made from the values `rs` of the random source, for `n` items. */
  function DrawsFrom(rs: seq<Ratio>, n: nat): (draws: seq<nat>)
    requires n <= |rs| + 1
    requires forall k :: 0 <= k < n - 1 ==> InUnitInterval(rs[k])
    ensures DrawsFit(n, draws)
  {
    seq(if n == 0 then 0 else n - 1, k requires 0 <= k < n - 1 => DrawIndex(rs[k], n - 1 - k))
  }

  /** Every random value 0.2 (one fifth) draws index 0 for four items. */
  lemma FifthsDrawZero()
    ensures DrawsFrom([Ratio(1, 5), Ratio(1, 5), Ratio(1, 5)], 4) == [0, 0, 0]
  {
    var d := DrawsFrom([Ratio(1, 5), Ratio(1, 5), Ratio(1, 5)], 4);
    assert DrawIndex(Ratio(1, 5), 3) == 0;
    assert DrawIndex(Ratio(1, 5), 2) == 0;
    assert DrawIndex(Ratio(1, 5), 1) == 0;
    assert d[0] == 0 && d[1] == 0 && d[2] == 0;
  }

  /** Drawing index 0 on iterations `i` down to 1 rotates the prefix `t[..i + 1]` left by one. */
  lemma {:induction false} StepsWithZeroDraws<T>(t: seq<T>, i: int, draws: seq<nat>)
    requires 1 <= i < |t| && DrawsFit(|t|, draws)
    requires forall k :: 0 <= k < |draws| ==> draws[k] == 0
    ensures Steps(t, i, draws) == t[1..i + 1] + [t[0]] + t[i + 1..]
    decreases i
  {
    var u := Swap(t, i, 0);
    assert draws[|t| - 1 - i] == 0;
    assert Steps(t, i, draws) == Steps(u, i - 1, draws);
    if i == 1 {
      assert Steps(u, 0, draws) == u;
      assert u == t[1..2] + [t[0]] + t[2..];
    } else {
      assert t[1..i + 1] == t[1..i] + [t[i]];
      StepsWithZeroDraws(u, i - 1, draws);
      assert u[1..i] == t[1..i];
      assert u[i..] == [t[0]] + t[i + 1..];
      calc {
        u[1..i] + [u[0]] + u[i..];
        t[1..i] + [t[i]] + ([t[0]] + t[i + 1..]);
        t[1..i + 1] + [t[0]] + t[i + 1..];
      }
    }
  }

  /** When every draw is 0 the shuffle rotates its input left by one place. */
  lemma ZeroDrawsRotate<T>(s: seq<T>, draws: seq<nat>)
    requires 2 <= |s| && DrawsFit(|s|, draws)
    requires forall k :: 0 <= k < |draws| ==> draws[k] == 0
    ensures Shuffled(s, draws) == s[1..] + [s[0]]
    ensures Shuffled(s, draws) != s || forall k :: 0 <= k < |s| ==> s[k] == s[0]
  {
    StepsWithZeroDraws(s, |s| - 1, draws);
    var r := Shuffled(s, draws);
    assert r == s[1..] + [s[0]];
    if r == s {
      forall k | 0 <= k < |s| ensures s[k] == s[0] {
        AllEqualToFirst(s, k);
      }
    }
  }

  lemma {:induction false} AllEqualToFirst<T>(s: seq<T>, k: nat)
    requires 1 <= |s| && k < |s| && s[1..] + [s[0]] == s
    ensures s[k] == s[0]
  {
    if k > 0 {
      assert s[k] == (s[1..] + [s[0]])[k - 1];
      AllEqualToFirst(s, k - 1);
    }
  }

  /** With index 0 drawn every time, four items come back rotated, unlike the input. */
  lemma ShuffleOfFourWithZeroDraws()
    ensures Shuffled(["a", "b", "c", "d"], [0, 0, 0]) == ["b", "c", "d", "a"]
  {
    var s: seq<string> := ["a", "b", "c", "d"];
    ZeroDrawsRotate(s, [0, 0, 0]);
    assert s[1..] + [s[0]] == ["b", "c", "d", "a"];
  }

  /**
   * Two shuffles of the same items driven by the same random values give the
   * same order. This follows from `Shuffle`'s contract: its result is a
   * function of the items and the draws alone.
   */
  method ReplayIsDeterministic<T>(items: array<T>, rs: seq<Ratio>) returns (first: array<T>, second: array<T>)
    requires items.Length <= |rs| + 1
    requires forall k :: 0 <= k < items.Length - 1 ==> InUnitInterval(rs[k])
    ensures first[..] == second[..]
  {
    first := Shuffle(items, DrawsFrom(rs, items.Length));
    second := Shuffle(items, DrawsFrom(rs, items.Length));
  }
}
