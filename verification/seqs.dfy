/** Order-preserving selection from a sequence, the shape of the list
    comprehensions the store operations are written with. */
module Seqs {

  /** `[x for x in s if keep(x)]` */
  function Filter<T(!new)>(s: seq<T>, keep: T -> bool): (r: seq<T>)
    ensures |r| <= |s|
    ensures forall x | x in r :: keep(x)
    ensures forall x :: multiset(r)[x] == if keep(x) then multiset(s)[x] else 0
    ensures |r| == |s| ==> r == s
    ensures |r| < |s| <==> exists i | 0 <= i < |s| :: !keep(s[i])
  {
    if |s| == 0 then []
    else
      var rest := Filter(s[1..], keep);
      assert s == [s[0]] + s[1..];
      assert forall i | 1 <= i < |s| :: s[i] == s[1..][i - 1];
      if keep(s[0]) then [s[0]] + rest else rest
  }

  /** `r` is the subsequence of `s` at the strictly increasing positions `idx`. */
  ghost predicate SubsequenceAt<T>(r: seq<T>, s: seq<T>, idx: seq<nat>) {
    && |idx| == |r|
    && (forall m | 0 <= m < |idx| :: idx[m] < |s| && r[m] == s[idx[m]])
    && (forall a, b | 0 <= a < b < |idx| :: idx[a] < idx[b])
  }

  /** The positions `k..|s|` of `s` whose element passes `keep`, in order. */
  function KeptFrom<T>(s: seq<T>, keep: T -> bool, k: nat): (idx: seq<nat>)
    requires k <= |s|
    ensures forall m | 0 <= m < |idx| :: k <= idx[m] < |s|
    ensures forall a, b | 0 <= a < b < |idx| :: idx[a] < idx[b]
    ensures forall j | k <= j < |s| :: j in idx <==> keep(s[j])
    ensures forall j | j in idx :: k <= j < |s| && keep(s[j])
    decreases |s| - k
  {
    if k == |s| then []
    else (if keep(s[k]) then [k] else []) + KeptFrom(s, keep, k + 1)
  }

  lemma {:induction false} FilterAtKept<T(!new)>(s: seq<T>, keep: T -> bool, k: nat)
    requires k <= |s|
    ensures SubsequenceAt(Filter(s[k..], keep), s, KeptFrom(s, keep, k))
    decreases |s| - k
  {
    if k < |s| {
      FilterAtKept(s, keep, k + 1);
      var rest := Filter(s[k + 1..], keep);
      var idx := KeptFrom(s, keep, k + 1);
      assert s[k..][1..] == s[k + 1..];
      assert s[k..][0] == s[k];
      if keep(s[k]) {
        assert Filter(s[k..], keep) == [s[k]] + rest;
        assert KeptFrom(s, keep, k) == [k] + idx;
        SubsequenceCons(s, k, rest, idx);
      } else {
        assert Filter(s[k..], keep) == rest;
        assert KeptFrom(s, keep, k) == idx;
      }
    }
  }

  /** Putting position `k` in front of a subsequence taken after `k`. */
  lemma SubsequenceCons<T>(s: seq<T>, k: nat, rest: seq<T>, idx: seq<nat>)
    requires k < |s| && SubsequenceAt(rest, s, idx)
    requires forall m | 0 <= m < |idx| :: k < idx[m]
    ensures SubsequenceAt([s[k]] + rest, s, [k] + idx)
  {
  }

  /** The filter keeps exactly the elements that pass the test, in their
      original order: it is the subsequence of `s` at the positions whose
      element passes, and at no other positions. */
  lemma FilterIsSelection<T(!new)>(s: seq<T>, keep: T -> bool)
    ensures var idx := KeptFrom(s, keep, 0);
            && SubsequenceAt(Filter(s, keep), s, idx)
            && forall j | 0 <= j < |s| :: j in idx <==> keep(s[j])
  {
    FilterAtKept(s, keep, 0);
    assert s[0..] == s;
  }
}
