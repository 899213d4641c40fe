/**
 * Permutations: the leaves of the swap/recurse/swap-back generator `permute`.
 *
 * `Leaves(t, idx)` lists, in the order reached, the buffer contents at which
 * permute(t, idx) arrives at `idx == length`. Each iteration i of the loop at
 * depth idx swaps positions idx and i, recurses, and swaps back, so it starts
 * from t again; `Branches(t, idx, i)` is what iterations i.. contribute.
 */
module Permutations {
  import opened Tiles
  import opened Subsequences

  function Leaves<T(==)>(t: seq<T>, idx: nat): seq<seq<T>>
    requires idx <= |t|
    decreases |t| - idx, 1, 0
  {
    if idx == |t| then [t] else Branches(t, idx, idx)
  }

  function Branches<T(==)>(t: seq<T>, idx: nat, i: nat): seq<seq<T>>
    requires idx < |t| && idx <= i <= |t|
    decreases |t| - idx, 0, |t| - i
  {
    if i == |t| then [] else Leaves(Swapped(t, idx, i), idx + 1) + Branches(t, idx, i + 1)
  }

  /** One more iteration of permute's loop: the leaves of branch i join those already reached. */
  lemma BranchesStep<T>(t: seq<T>, idx: nat, i: nat, done: seq<seq<T>>, leaves: seq<seq<T>>)
    requires idx <= i < |t|
    requires Leaves(t, idx) == done + Branches(t, idx, i)
    requires leaves == Leaves(Swapped(t, idx, i), idx + 1)
    ensures Leaves(t, idx) == (done + leaves) + Branches(t, idx, i + 1)
  {
    assert Branches(t, idx, i) == leaves + Branches(t, idx, i + 1);
    assert done + (leaves + Branches(t, idx, i + 1)) == (done + leaves) + Branches(t, idx, i + 1);
  }

  // ----- count -----

  /** permute(t, idx) reaches exactly (|t| - idx)! leaves. */
  lemma {:induction false} LeavesCount<T>(t: seq<T>, idx: nat)
    requires idx <= |t|
    ensures |Leaves(t, idx)| == Fact(|t| - idx)
    decreases |t| - idx, 1, 0
  {
    if idx < |t| {
      var f := Fact(|t| - idx - 1);
      BranchesCount(t, idx, idx, f);
      RepeatedSum(|t| - idx, f);
    }
  }

  /** Iterations i.. of the loop at depth idx reach (|t| - i) lots of f leaves, f being (|t| - idx - 1)!. */
  lemma {:induction false} BranchesCount<T>(t: seq<T>, idx: nat, i: nat, f: nat)
    requires idx < |t| && idx <= i <= |t| && f == Fact(|t| - idx - 1)
    ensures |Branches(t, idx, i)| == Times(|t| - i, f)
    decreases |t| - idx, 0, |t| - i
  {
    if i < |t| {
      var w := Swapped(t, idx, i);
      LeavesCount(w, idx + 1);
      BranchesCount(t, idx, i + 1, f);
      assert |w| - (idx + 1) == |t| - idx - 1;
    }
  }

  /** k lots of f, by repeated addition. */
  function Times(k: nat, f: nat): nat
  {
    if k == 0 then 0 else f + Times(k - 1, f)
  }

  lemma {:induction false} RepeatedSum(k: nat, f: nat)
    ensures Times(k, f) == k * f
  {
    if k > 0 {
      RepeatedSum(k - 1, f);
    }
  }

  // ----- every leaf is a rearrangement that keeps the fixed prefix -----

  predicate Rearranges<T(==)>(u: seq<T>, t: seq<T>, idx: nat)
    requires idx <= |t|
  {
    |u| == |t| && u[..idx] == t[..idx] && multiset(u) == multiset(t)
  }

  /** Each leaf of permute(t, idx) is a rearrangement of t that leaves positions below idx untouched. */
  lemma {:induction false} LeavesRearrange<T>(t: seq<T>, idx: nat)
    requires idx <= |t|
    ensures forall u :: u in Leaves(t, idx) ==> Rearranges(u, t, idx)
    decreases |t| - idx, 1, 0
  {
    if idx < |t| {
      BranchesRearrange(t, idx, idx);
    }
  }

  lemma {:induction false} BranchesRearrange<T>(t: seq<T>, idx: nat, i: nat)
    requires idx < |t| && idx <= i <= |t|
    ensures forall u :: u in Branches(t, idx, i) ==>
              Rearranges(u, t, idx) && exists j :: i <= j < |t| && u[idx] == t[j]
    decreases |t| - idx, 0, |t| - i
  {
    if i < |t| {
      var w := Swapped(t, idx, i);
      LeavesRearrange(w, idx + 1);
      BranchesRearrange(t, idx, i + 1);
      forall u | u in Leaves(w, idx + 1)
        ensures Rearranges(u, t, idx) && u[idx] == t[i]
      {
        assert u[..idx + 1] == w[..idx + 1];
        assert u[idx] == u[..idx + 1][idx];
        assert u[..idx] == u[..idx + 1][..idx] && w[..idx] == w[..idx + 1][..idx];
        assert w[..idx] == t[..idx];
      }
    }
  }

  /** Every rearrangement of t that keeps positions below idx is a leaf of permute(t, idx). */
  lemma {:induction false} LeavesComplete<T>(t: seq<T>, idx: nat, u: seq<T>)
    requires idx <= |t| && Rearranges(u, t, idx)
    ensures u in Leaves(t, idx)
    decreases |t| - idx
  {
    if idx == |t| {
      assert u == u[..idx] && t == t[..idx];
    } else {
      SuffixesAgree(u, t, idx);
      assert u[idx..][0] == u[idx];
      assert u[idx] in multiset(t[idx..]);
      var j' :| 0 <= j' < |t[idx..]| && t[idx..][j'] == u[idx];
      var j := idx + j';
      var w := Swapped(t, idx, j);
      SwappedElsewhere(t, idx, j);
      assert u[..idx + 1] == w[..idx + 1] by {
        forall k | 0 <= k <= idx ensures u[k] == w[k] {
          if k < idx { assert u[k] == u[..idx][k] && t[k] == t[..idx][k]; }
        }
      }
      LeavesComplete(w, idx + 1, u);
      BranchesContain(t, idx, idx, j);
    }
  }

  /** Two rearrangements agreeing below idx hold the same tiles from idx on. */
  lemma SuffixesAgree<T>(u: seq<T>, t: seq<T>, idx: nat)
    requires idx <= |t| && Rearranges(u, t, idx)
    ensures multiset(u[idx..]) == multiset(t[idx..])
  {
    assert u == u[..idx] + u[idx..] && t == t[..idx] + t[idx..];
    forall x ensures multiset(u[idx..])[x] == multiset(t[idx..])[x] {
      assert multiset(u)[x] == multiset(u[..idx])[x] + multiset(u[idx..])[x];
      assert multiset(t)[x] == multiset(t[..idx])[x] + multiset(t[idx..])[x];
    }
  }

  lemma {:induction false} BranchesContain<T>(t: seq<T>, idx: nat, i: nat, j: nat)
    requires idx < |t| && idx <= i <= j < |t|
    ensures forall u :: u in Leaves(Swapped(t, idx, j), idx + 1) ==> u in Branches(t, idx, i)
    decreases j - i
  {
    if i < j {
      BranchesContain(t, idx, i + 1, j);
    }
  }

  // ----- no leaf twice, by position -----

  predicate Distinct<T(==)>(t: seq<T>)
  {
    forall a, b :: 0 <= a < b < |t| ==> t[a] != t[b]
  }

  lemma DistinctConcat<T>(a: seq<T>, b: seq<T>)
    requires Distinct(a) && Distinct(b)
    requires forall x :: x in a ==> x !in b
    ensures Distinct(a + b)
  {
    var c := a + b;
    forall x, y | 0 <= x < y < |c| ensures c[x] != c[y] {
      if y < |a| {
        assert c[x] == a[x] && c[y] == a[y];
      } else if x >= |a| {
        assert c[x] == b[x - |a|] && c[y] == b[y - |a|];
      } else {
        assert c[x] in a && c[y] == b[y - |a|];
      }
    }
  }

  lemma SwappedDistinct<T>(t: seq<T>, i: nat, j: nat)
    requires i < |t| && j < |t| && Distinct(t)
    ensures Distinct(Swapped(t, i, j))
  {
    var w := Swapped(t, i, j);
    forall a, b | 0 <= a < b < |w| ensures w[a] != w[b] {
      var a' := if a == i then j else if a == j then i else a;
      var b' := if b == i then j else if b == j then i else b;
      assert w[a] == t[a'] && w[b] == t[b'] && a' != b';
    }
  }

  /** Every leaf of permute(w, idx + 1) keeps w's tile at position idx. */
  lemma LeavesStartWith<T>(w: seq<T>, idx: nat, c: T)
    requires idx < |w| && w[idx] == c
    ensures forall u :: u in Leaves(w, idx + 1) ==> |u| == |w| && u[idx] == c
  {
    LeavesRearrange(w, idx + 1);
    forall u | u in Leaves(w, idx + 1)
      ensures |u| == |w| && u[idx] == c
    {
      assert u[..idx + 1] == w[..idx + 1];
      assert u[idx] == u[..idx + 1][idx];
    }
  }

  /**
   * When the tiles are pairwise different (as positions are), no two leaves of
   * permute(t, idx) coincide.
   */
  lemma {:induction false} LeavesDistinct<T>(t: seq<T>, idx: nat)
    requires idx <= |t| && Distinct(t)
    ensures Distinct(Leaves(t, idx))
    decreases |t| - idx, 1, 0
  {
    if idx < |t| {
      BranchesDistinct(t, idx, idx);
    }
  }

  lemma {:induction false} BranchesDistinct<T>(t: seq<T>, idx: nat, i: nat)
    requires idx < |t| && idx <= i <= |t| && Distinct(t)
    ensures Distinct(Branches(t, idx, i))
    decreases |t| - idx, 0, |t| - i
  {
    if i < |t| {
      var w := Swapped(t, idx, i);
      SwappedDistinct(t, idx, i);
      LeavesDistinct(w, idx + 1);
      BranchesDistinct(t, idx, i + 1);
      var here := Leaves(w, idx + 1);
      var later := Branches(t, idx, i + 1);
      LeavesStartWith(w, idx, t[i]);
      BranchesRearrange(t, idx, i + 1);
      forall u | u in here
        ensures u !in later
      {
        assert u[idx] == t[i];
        assert forall j :: i + 1 <= j < |t| ==> t[j] != t[i];
      }
      DistinctConcat(here, later);
    }
  }

  // ----- from positions to tiles -----

  /** The positions 0..n-1 in order. */
  function Iota(n: nat): (r: seq<nat>)
    ensures |r| == n && Within(r, 0, n) && Distinct(r)
    ensures forall k :: 0 <= k < n ==> r[k] == k
  {
    seq(n, k requires 0 <= k < n => k)
  }

  lemma SelectSwapped(s: string, p: seq<nat>, i: nat, j: nat)
    requires Within(p, 0, |s|) && i < |p| && j < |p|
    ensures Within(Swapped(p, i, j), 0, |s|)
    ensures Select(s, Swapped(p, i, j)) == Swapped(Select(s, p), i, j)
  {
  }

  /**
   * Permuting the tiles read through a list of positions p reaches, leaf by leaf,
   * the tiles read through the leaves of permuting p itself.
   */
  lemma {:induction false} LeavesSelect(s: string, p: seq<nat>, idx: nat)
    requires Within(p, 0, |s|) && idx <= |p|
    ensures forall k :: 0 <= k < |Leaves(p, idx)| ==> Within(Leaves(p, idx)[k], 0, |s|)
    ensures Leaves(Select(s, p), idx) == SelectAll(s, [], Leaves(p, idx))
    decreases |p| - idx, 1, 0
  {
    if idx == |p| {
      assert Leaves(p, idx) == [p];
      assert [] + Select(s, p) == Select(s, p);
      assert SelectAll(s, [], [p]) == [[] + Select(s, p)];
    } else {
      BranchesSelect(s, p, idx, idx);
    }
  }

  lemma {:induction false} BranchesSelect(s: string, p: seq<nat>, idx: nat, i: nat)
    requires Within(p, 0, |s|) && idx < |p| && idx <= i <= |p|
    ensures forall k :: 0 <= k < |Branches(p, idx, i)| ==> Within(Branches(p, idx, i)[k], 0, |s|)
    ensures Branches(Select(s, p), idx, i) == SelectAll(s, [], Branches(p, idx, i))
    decreases |p| - idx, 0, |p| - i
  {
    if i < |p| {
      var w := Swapped(p, idx, i);
      SelectSwapped(s, p, idx, i);
      LeavesSelect(s, w, idx + 1);
      BranchesSelect(s, p, idx, i + 1);
      SelectAllAppend(s, [], Leaves(w, idx + 1), Branches(p, idx, i + 1));
    }
  }

  /**
   * Position-based exactness: the leaves of permute(s, 0) are s read through the
   * orderings of its positions, and every ordering of the positions occurs
   * exactly once among them (so repeated letters give repeated strings).
   */
  lemma LeavesArePositionOrderings(s: string)
    ensures forall k :: 0 <= k < |Leaves(Iota(|s|), 0)| ==> Within(Leaves(Iota(|s|), 0)[k], 0, |s|)
    ensures Leaves(s, 0) == SelectAll(s, [], Leaves(Iota(|s|), 0))
    ensures Distinct(Leaves(Iota(|s|), 0))
    ensures forall q: seq<nat> :: q in Leaves(Iota(|s|), 0) <==> |q| == |s| && multiset(q) == multiset(Iota(|s|))
  {
    var p := Iota(|s|);
    assert Select(s, p) == s;
    LeavesSelect(s, p, 0);
    LeavesDistinct(p, 0);
    LeavesRearrange(p, 0);
    forall q: seq<nat> | |q| == |s| && multiset(q) == multiset(p)
      ensures q in Leaves(p, 0)
    {
      LeavesComplete(p, 0, q);
    }
  }

  // ----- the parallel split of a long combination -----

  /** Start point i: the combination with positions 0 and i exchanged. */
  function StartPoints<T(==)>(t: seq<T>): (r: seq<seq<T>>)
    ensures |r| == |t| && forall i :: 0 <= i < |t| ==> r[i] == Swapped(t, 0, i)
  {
    seq(|t|, i requires 0 <= i < |t| => Swapped(t, 0, i))
  }

  /** The leaves reached by permuting each of ts from idx, one after another. */
  function LeavesOfAll<T(==)>(ts: seq<seq<T>>, idx: nat): seq<seq<T>>
    requires forall k :: 0 <= k < |ts| ==> idx <= |ts[k]|
  {
    if ts == [] then [] else Leaves(ts[0], idx) + LeavesOfAll(ts[1..], idx)
  }

  /**
   * Permuting every start point from index 1 reaches the same leaves, in the same
   * order, as permuting the whole combination from index 0: no ordering is
   * dropped and none is reached twice.
   */
  lemma SplitCoversPermutations<T>(t: seq<T>)
    requires |t| > 0
    ensures LeavesOfAll(StartPoints(t), 1) == Leaves(t, 0)
  {
    SplitCoversBranches(t, 0);
  }

  lemma {:induction false} SplitCoversBranches<T>(t: seq<T>, i: nat)
    requires i <= |t| && |t| > 0
    ensures LeavesOfAll(StartPoints(t)[i..], 1) == Branches(t, 0, i)
    decreases |t| - i
  {
    if i < |t| {
      SplitCoversBranches(t, i + 1);
      assert StartPoints(t)[i..][1..] == StartPoints(t)[i + 1..];
    }
  }

  lemma {:induction false} LeavesOfAllAppend<T>(a: seq<seq<T>>, b: seq<seq<T>>, idx: nat)
    requires forall k :: 0 <= k < |a| ==> idx <= |a[k]|
    requires forall k :: 0 <= k < |b| ==> idx <= |b[k]|
    ensures LeavesOfAll(a + b, idx) == LeavesOfAll(a, idx) + LeavesOfAll(b, idx)
    decreases |a|
  {
    if a == [] {
      assert a + b == b;
    } else {
      assert (a + b)[1..] == a[1..] + b;
      LeavesOfAllAppend(a[1..], b, idx);
    }
  }

  /** One more run adds its leaves at the end. */
  lemma LeavesOfAllPrefix<T>(ts: seq<seq<T>>, p: nat, idx: nat)
    requires p < |ts| && forall k :: 0 <= k < |ts| ==> idx <= |ts[k]|
    ensures LeavesOfAll(ts[..p + 1], idx) == LeavesOfAll(ts[..p], idx) + Leaves(ts[p], idx)
  {
    assert ts[..p + 1] == ts[..p] + [ts[p]];
    LeavesOfAllAppend(ts[..p], [ts[p]], idx);
    assert LeavesOfAll([ts[p]], idx) == Leaves(ts[p], idx) + LeavesOfAll([], idx);
  }

  /** Permuting each of cs in full reaches as many leaves as the sum of their factorials. */
  lemma {:induction false} LeavesOfAllCount(cs: seq<string>)
    ensures |LeavesOfAll(cs, 0)| == FactSum(cs)
    decreases |cs|
  {
    if cs != [] {
      LeavesCount(cs[0], 0);
      LeavesOfAllCount(cs[1..]);
    }
  }

  /** A leaf of the whole run is a leaf of one of the runs. */
  lemma {:induction false} InLeavesOfAll<T>(ts: seq<seq<T>>, idx: nat, u: seq<T>)
    requires forall k :: 0 <= k < |ts| ==> idx <= |ts[k]|
    ensures u in LeavesOfAll(ts, idx) <==> exists k :: 0 <= k < |ts| && u in Leaves(ts[k], idx)
    decreases |ts|
  {
    if ts != [] {
      InLeavesOfAll(ts[1..], idx, u);
      if exists k :: 0 <= k < |ts| && u in Leaves(ts[k], idx) {
        var k :| 0 <= k < |ts| && u in Leaves(ts[k], idx);
        if k > 0 {
          assert ts[1..][k - 1] == ts[k];
        }
      }
      if exists k :: 0 <= k < |ts[1..]| && u in Leaves(ts[1..][k], idx) {
        var k :| 0 <= k < |ts[1..]| && u in Leaves(ts[1..][k], idx);
        assert ts[k + 1] == ts[1..][k];
      }
    }
  }

  /** The leaves of a full permutation run are exactly the rearrangements of t. */
  lemma LeavesExactly<T>(t: seq<T>, u: seq<T>)
    ensures u in Leaves(t, 0) <==> |u| == |t| && multiset(u) == multiset(t)
  {
    LeavesRearrange(t, 0);
    if |u| == |t| && multiset(u) == multiset(t) {
      LeavesComplete(t, 0, u);
    }
  }
}
