/**
 `randomize_list`: the list is shuffled `times` times in a row. One shuffle
 is the Fisher–Yates pass Python's `random.shuffle` performs: for `i` from
 the last position down to 1, a random `j` in `[0, i]` is drawn and the
 values at `i` and `j` are exchanged. The random draws are a parameter, so
 every property below holds whatever the generator returns.
 */
module Shuffle {
  import opened Seqs

  /**
   Draws that one pass over `n` values can consume: the `k`-th draw, made for
   position `i = n - 1 - k`, lies in `[0, i]`.
   */
  predicate ValidPass(draws: seq<nat>, n: nat) {
    && |draws| == (if n == 0 then 0 else n - 1)
    && forall k :: 0 <= k < |draws| ==> draws[k] < n - k
  }

  /** Draws for `times` passes over `n` values. */
  predicate ValidPasses(passes: seq<seq<nat>>, n: nat) {
    forall k :: 0 <= k < |passes| ==> ValidPass(passes[k], n)
  }

  /**
   One `shuffle` pass. The swap at the last position is made first; the
   remaining steps touch only the positions before it.
   */
  function ShufflePass<T>(s: seq<T>, draws: seq<nat>): (r: seq<T>)
    requires ValidPass(draws, |s|)
    ensures |r| == |s|
    ensures multiset(r) == multiset(s)
    decreases |s|
  {
    if |s| <= 1 then s
    else
      var last := |s| - 1;
      var swapped := Swap(s, last, draws[0]);
      assert swapped == swapped[..last] + [swapped[last]];
      ShufflePass(swapped[..last], draws[1..]) + [swapped[last]]
  }

  /** `randomize_list(s, times)`: one pass per iteration of `range(0, times)`. */
  function RandomizeList<T>(s: seq<T>, times: int, passes: seq<seq<nat>>): (r: seq<T>)
    requires |passes| == Rounds(times)
    requires ValidPasses(passes, |s|)
    ensures |r| == |s|
    ensures multiset(r) == multiset(s)
    ensures times <= 0 ==> r == s
  {
    ApplyPasses(s, passes)
  }

  function ApplyPasses<T>(s: seq<T>, passes: seq<seq<nat>>): (r: seq<T>)
    requires ValidPasses(passes, |s|)
    ensures |r| == |s|
    ensures multiset(r) == multiset(s)
    decreases |passes|
  {
    if |passes| == 0 then s
    else ApplyPasses(ShufflePass(s, passes[0]), passes[1..])
  }

  /** Passes compose left to right: the last pass acts on what the earlier ones produced. */
  lemma {:induction false} ApplyPassesSnoc<T>(s: seq<T>, earlier: seq<seq<nat>>, final: seq<nat>)
    requires ValidPasses(earlier, |s|) && ValidPass(final, |s|)
    ensures ValidPasses(earlier + [final], |s|)
    ensures ApplyPasses(s, earlier + [final]) == ShufflePass(ApplyPasses(s, earlier), final)
    decreases |earlier|
  {
    var all := earlier + [final];
    if |earlier| > 0 {
      assert all[1..] == earlier[1..] + [final];
      ApplyPassesSnoc(ShufflePass(s, earlier[0]), earlier[1..], final);
    } else {
      assert all[1..] == [];
    }
  }

  /**
   The draws under which one pass turns `s` into its rearrangement `t`:
   at each step, the position in the unshuffled prefix where the value `t`
   wants at the current last position sits.
   */
  function DrawsFor<T(==)>(s: seq<T>, t: seq<T>): (draws: seq<nat>)
    requires multiset(s) == multiset(t)
    ensures ValidPass(draws, |s|)
    decreases |s|
  {
    assert |s| == |multiset(s)| == |t|;
    if |s| <= 1 then []
    else
      var last := |s| - 1;
      assert t == t[..last] + [t[last]];
      assert t[last] in multiset(s);
      var j := IndexOf(s, t[last]);
      var swapped := Swap(s, last, j);
      PrefixPermutation(swapped, t);
      [j] + DrawsFor(swapped[..last], t[..last])
  }

  /** Rearrangements that agree on their last value agree, as multisets, on what precedes it. */
  lemma PrefixPermutation<T>(a: seq<T>, b: seq<T>)
    requires multiset(a) == multiset(b)
    requires |a| > 0 && |b| == |a| && a[|a| - 1] == b[|b| - 1]
    ensures multiset(a[..|a| - 1]) == multiset(b[..|b| - 1])
  {
    var n := |a| - 1;
    assert a == a[..n] + [a[n]];
    assert b == b[..n] + [b[n]];
    assert multiset(a) == multiset(a[..n]) + multiset{a[n]};
    assert multiset(b) == multiset(b[..n]) + multiset{a[n]};
    assert multiset(a[..n]) == multiset(a) - multiset{a[n]};
    assert multiset(b[..n]) == multiset(b) - multiset{a[n]};
  }

  /** Every rearrangement of `s` is the outcome of some single `shuffle` pass. */
  lemma {:induction false} ShufflePassReachesEvery<T>(s: seq<T>, t: seq<T>)
    requires multiset(s) == multiset(t)
    ensures ShufflePass(s, DrawsFor(s, t)) == t
    decreases |s|
  {
    assert |s| == |multiset(s)| == |t|;
    if |s| > 1 {
      var last := |s| - 1;
      assert t == t[..last] + [t[last]];
      assert t[last] in multiset(s);
      var j := IndexOf(s, t[last]);
      var swapped := Swap(s, last, j);
      PrefixPermutation(swapped, t);
      var draws := DrawsFor(s, t);
      assert draws[0] == j && draws[1..] == DrawsFor(swapped[..last], t[..last]);
      ShufflePassReachesEvery(swapped[..last], t[..last]);
    }
  }

  /**
   The outcomes of `randomize_list` are exactly the rearrangements of its
   input: every outcome is one (the contract of `RandomizeList`), and
   whatever the first `times - 1` passes did, the last pass can still
   produce any rearrangement.
   */
  lemma {:induction false} RandomizeListReachesEvery<T>(s: seq<T>, t: seq<T>, times: int, earlier: seq<seq<nat>>)
    requires multiset(s) == multiset(t)
    requires times >= 1 && |earlier| == times - 1
    requires ValidPasses(earlier, |s|)
    ensures ValidPasses(earlier + [DrawsFor(ApplyPasses(s, earlier), t)], |s|)
    ensures RandomizeList(s, times, earlier + [DrawsFor(ApplyPasses(s, earlier), t)]) == t
  {
    var u := ApplyPasses(s, earlier);
    var final := DrawsFor(u, t);
    ApplyPassesSnoc(s, earlier, final);
    ShufflePassReachesEvery(u, t);
  }

  /** Shuffling never introduces or removes a repeat: the result is duplicate-free exactly when the input is. */
  lemma PermutationKeepsNoDup<T>(s: seq<T>, r: seq<T>)
    requires multiset(r) == multiset(s)
    ensures NoDup(r) <==> NoDup(s)
  {
    NoDupMultiset(s);
    NoDupMultiset(r);
  }
}
