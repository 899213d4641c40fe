/**
 * Subsequences: what `getCombinations` appends.
 *
 * `CombosFrom(s, build, idx)` is the list of entries appended by one call with
 * prefix `build` starting at position `idx`, in append order. The lemmas show it
 * is exactly one entry per non-empty set of positions (2^N - 1 of them, each in
 * the original relative order), in pre-order by position, and that the
 * factorials of the entry lengths add up to the sum over L of C(N, L) * L!.
 */
module Subsequences {
  import opened Tiles

  /** Entries appended by getCombinations(s, build, idx), in the order appended. */
  function CombosFrom(s: string, build: string, idx: nat): seq<string>
    decreases |s| - idx
  {
    if idx >= |s| then []
    else [build + [s[idx]]] + CombosFrom(s, build + [s[idx]], idx + 1) + CombosFrom(s, build, idx + 1)
  }

  // ----- position sets -----

  predicate Increasing(ps: seq<nat>)
  {
    forall a, b :: 0 <= a < b < |ps| ==> ps[a] < ps[b]
  }

  predicate Within(ps: seq<nat>, lo: nat, hi: nat)
  {
    forall k :: 0 <= k < |ps| ==> lo <= ps[k] < hi
  }

  /** A non-empty set of positions of [lo, hi), written as increasing indices. */
  predicate IsPositionSet(ps: seq<nat>, lo: nat, hi: nat)
  {
    |ps| > 0 && Increasing(ps) && Within(ps, lo, hi)
  }

  function Prepend(i: nat, pss: seq<seq<nat>>): (r: seq<seq<nat>>)
    ensures |r| == |pss| && forall k :: 0 <= k < |r| ==> r[k] == [i] + pss[k]
  {
    seq(|pss|, k requires 0 <= k < |pss| => [i] + pss[k])
  }

  /** The non-empty position sets of [i, n) in pre-order: {i}, {i} + each set of (i, n), then the sets of (i, n). */
  function PositionSets(n: nat, i: nat): seq<seq<nat>>
    decreases n - i
  {
    if i >= n then []
    else [[i]] + Prepend(i, PositionSets(n, i + 1)) + PositionSets(n, i + 1)
  }

  /** Every set in pss lies within [0, n). */
  predicate AllWithin(pss: seq<seq<nat>>, n: nat)
  {
    forall k :: 0 <= k < |pss| ==> Within(pss[k], 0, n)
  }

  /** The tiles of s at positions ps, in the order of ps. */
  function Select(s: string, ps: seq<nat>): (r: string)
    requires Within(ps, 0, |s|)
    ensures |r| == |ps| && forall k :: 0 <= k < |ps| ==> r[k] == s[ps[k]]
  {
    seq(|ps|, k requires 0 <= k < |ps| => s[ps[k]])
  }

  /** Every member of PositionSets(n, i) is a non-empty increasing set of positions in [i, n). */
  lemma {:induction false} PositionSetsShape(n: nat, i: nat)
    ensures forall ps :: ps in PositionSets(n, i) ==> IsPositionSet(ps, i, n)
    decreases n - i
  {
    if i < n {
      var rest := PositionSets(n, i + 1);
      PositionSetsShape(n, i + 1);
      forall ps | ps in Prepend(i, rest)
        ensures IsPositionSet(ps, i, n)
      {
        var k :| 0 <= k < |rest| && ps == [i] + rest[k];
        assert IsPositionSet(rest[k], i + 1, n);
      }
    }
  }

  /** Every non-empty increasing set of positions in [i, n) is among PositionSets(n, i). */
  lemma {:induction false} PositionSetsComplete(n: nat, i: nat, ps: seq<nat>)
    requires IsPositionSet(ps, i, n)
    ensures ps in PositionSets(n, i)
    decreases n - i
  {
    var rest := PositionSets(n, i + 1);
    if ps[0] == i {
      if |ps| == 1 {
        assert ps == [i];
      } else {
        var tl := ps[1..];
        IncreasingTail(ps, i, n);
        PositionSetsComplete(n, i + 1, tl);
        var k :| 0 <= k < |rest| && rest[k] == tl;
        assert Prepend(i, rest)[k] == ps;
      }
    } else {
      PositionSetsComplete(n, i + 1, ps);
    }
  }

  /** No set of positions is listed twice. */
  lemma {:induction false} PositionSetsDistinct(n: nat, i: nat)
    ensures forall a, b :: 0 <= a < b < |PositionSets(n, i)| ==> PositionSets(n, i)[a] != PositionSets(n, i)[b]
    decreases n - i
  {
    if i < n {
      var rest := PositionSets(n, i + 1);
      var pre := Prepend(i, rest);
      PositionSetsDistinct(n, i + 1);
      PositionSetsShape(n, i + 1);
      PrependDistinct(i, n, rest);
      assert PositionSets(n, i) == ([[i]] + pre) + rest;
      DistinctAppend([[i]] + pre, rest, i);
    }
  }

  /** The sets starting at i are distinct when the sets of (i, n) are, and all start with i. */
  lemma PrependDistinct(i: nat, n: nat, rest: seq<seq<nat>>)
    requires forall ps :: ps in rest ==> IsPositionSet(ps, i + 1, n)
    requires forall a, b :: 0 <= a < b < |rest| ==> rest[a] != rest[b]
    ensures forall a, b :: 0 <= a < b < |[[i]] + Prepend(i, rest)| ==> ([[i]] + Prepend(i, rest))[a] != ([[i]] + Prepend(i, rest))[b]
    ensures forall k :: 0 <= k < |[[i]] + Prepend(i, rest)| ==> |([[i]] + Prepend(i, rest))[k]| > 0 && ([[i]] + Prepend(i, rest))[k][0] == i
  {
    var all := [[i]] + Prepend(i, rest);
    forall k | 0 <= k < |all| ensures |all[k]| > 0 && all[k][0] == i && (k > 0 ==> all[k] == [i] + rest[k - 1]) {
    }
    forall a, b | 0 <= a < b < |all| ensures all[a] != all[b] {
      assert rest[b - 1] in rest;
      if a > 0 {
        assert all[a][1..] == rest[a - 1] && all[b][1..] == rest[b - 1];
      }
    }
  }

  /** Two distinct lists whose members start with i and with something above i append to a distinct list. */
  lemma DistinctAppend(x: seq<seq<nat>>, y: seq<seq<nat>>, i: nat)
    requires forall a, b :: 0 <= a < b < |x| ==> x[a] != x[b]
    requires forall a, b :: 0 <= a < b < |y| ==> y[a] != y[b]
    requires forall k :: 0 <= k < |x| ==> |x[k]| > 0 && x[k][0] == i
    requires forall ps :: ps in y ==> |ps| > 0 && ps[0] > i
    ensures forall a, b :: 0 <= a < b < |x + y| ==> (x + y)[a] != (x + y)[b]
  {
    var c := x + y;
    forall a, b | 0 <= a < b < |c| ensures c[a] != c[b] {
      if b >= |x| {
        assert c[b] == y[b - |x|];
        if a >= |x| {
          assert c[a] == y[a - |x|];
        } else {
          assert c[b] in y;
        }
      }
    }
  }

  /** There are 2^(n - i) - 1 non-empty sets of positions in [i, n). */
  lemma {:induction false} PositionSetsCount(n: nat, i: nat)
    requires i <= n
    ensures |PositionSets(n, i)| == Pow(2, n - i) - 1
    decreases n - i
  {
    if i < n {
      PositionSetsCount(n, i + 1);
      assert Pow(2, n - i) == 2 * Pow(2, n - (i + 1));
    }
  }

  /** build followed by the tiles at each set of positions in pss, in order. */
  function SelectAll(s: string, build: string, pss: seq<seq<nat>>): (r: seq<string>)
    requires AllWithin(pss, |s|)
    ensures |r| == |pss|
  {
    seq(|pss|, k requires 0 <= k < |pss| => build + Select(s, pss[k]))
  }

  lemma SelectAllAppend(s: string, build: string, a: seq<seq<nat>>, b: seq<seq<nat>>)
    requires AllWithin(a, |s|)
    requires AllWithin(b, |s|)
    ensures AllWithin(a + b, |s|)
    ensures SelectAll(s, build, a + b) == SelectAll(s, build, a) + SelectAll(s, build, b)
  {
    var c := a + b;
    forall k | 0 <= k < |c| ensures Within(c[k], 0, |s|) {
      if k < |a| { assert c[k] == a[k]; } else { assert c[k] == b[k - |a|]; }
    }
    var l := SelectAll(s, build, c);
    var r := SelectAll(s, build, a) + SelectAll(s, build, b);
    forall k | 0 <= k < |c| ensures l[k] == r[k] {
      if k < |a| { assert c[k] == a[k]; } else { assert c[k] == b[k - |a|]; }
    }
  }

  lemma SelectAllPrepend(s: string, build: string, i: nat, pss: seq<seq<nat>>)
    requires i < |s|
    requires AllWithin(pss, |s|)
    ensures AllWithin(Prepend(i, pss), |s|)
    ensures SelectAll(s, build, Prepend(i, pss)) == SelectAll(s, build + [s[i]], pss)
  {
    var pre := Prepend(i, pss);
    forall k | 0 <= k < |pss| ensures Within(pre[k], 0, |s|) && Select(s, pre[k]) == [s[i]] + Select(s, pss[k]) {
      assert pre[k] == [i] + pss[k];
    }
    var l := SelectAll(s, build, pre);
    var r := SelectAll(s, build + [s[i]], pss);
    forall k | 0 <= k < |pss| ensures l[k] == r[k] {
      assert l[k] == build + Select(s, pre[k]) == build + ([s[i]] + Select(s, pss[k]));
    }
  }

  /**
   * The entries appended by getCombinations(s, build, idx) are build followed by
   * the tiles at each non-empty set of positions of [idx, |s|), one entry per set,
   * each keeping the tiles' original relative order.
   */
  lemma {:induction false} CombosArePositionSets(s: string, build: string, idx: nat)
    requires idx <= |s|
    ensures AllWithin(PositionSets(|s|, idx), |s|)
    ensures CombosFrom(s, build, idx) == SelectAll(s, build, PositionSets(|s|, idx))
    decreases |s| - idx
  {
    PositionSetsWithin(|s|, idx);
    if idx < |s| {
      var b1 := build + [s[idx]];
      CombosArePositionSets(s, b1, idx + 1);
      CombosArePositionSets(s, build, idx + 1);
      SelectAllStep(s, build, idx);
    }
  }

  /** Every set of positions of [i, n) lies within [0, n). */
  lemma PositionSetsWithin(n: nat, i: nat)
    ensures AllWithin(PositionSets(n, i), n)
  {
    PositionSetsShape(n, i);
    var all := PositionSets(n, i);
    forall k | 0 <= k < |all| ensures Within(all[k], 0, n) {
      assert all[k] in all;
    }
  }

  /** Selecting along the sets of [idx, |s|) follows the pre-order of PositionSets. */
  lemma SelectAllStep(s: string, build: string, idx: nat)
    requires idx < |s|
    ensures AllWithin(PositionSets(|s|, idx), |s|)
    ensures AllWithin(PositionSets(|s|, idx + 1), |s|)
    ensures SelectAll(s, build, PositionSets(|s|, idx)) ==
            [build + [s[idx]]] + SelectAll(s, build + [s[idx]], PositionSets(|s|, idx + 1)) + SelectAll(s, build, PositionSets(|s|, idx + 1))
  {
    PositionSetsWithin(|s|, idx);
    PositionSetsWithin(|s|, idx + 1);
    var rest := PositionSets(|s|, idx + 1);
    SelectAllPrepend(s, build, idx, rest);
    var pre := Prepend(idx, rest);
    SelectAllAppend(s, build, [[idx]], pre);
    SelectAllAppend(s, build, [[idx]] + pre, rest);
    assert Select(s, [idx]) == [s[idx]];
    assert SelectAll(s, build, [[idx]]) == [build + [s[idx]]];
  }

  /** getCombinations(s, "", 0) appends exactly 2^N - 1 entries. */
  lemma CombosCount(s: string)
    ensures |CombosFrom(s, [], 0)| == Pow(2, |s|) - 1
  {
    CombosArePositionSets(s, [], 0);
    PositionSetsCount(|s|, 0);
  }

  /** Pre-order by position index: for "ABC" the entries are A, AB, ABC, AC, B, BC, C. */
  lemma CombosOfABC()
    ensures CombosFrom("ABC", [], 0) == ["A", "AB", "ABC", "AC", "B", "BC", "C"]
  {
    var s := "ABC";
    assert s[0] == 'A' && s[1] == 'B' && s[2] == 'C';
    assert CombosFrom(s, "ABC", 3) == [] && CombosFrom(s, "AB", 3) == [] && CombosFrom(s, "AC", 3) == [];
    assert CombosFrom(s, "A", 3) == [] && CombosFrom(s, "BC", 3) == [] && CombosFrom(s, "B", 3) == [];
    assert CombosFrom(s, "C", 3) == [] && CombosFrom(s, [], 3) == [];
    assert "AB" + ['C'] == "ABC" && "A" + ['C'] == "AC" && "A" + ['B'] == "AB";
    assert "B" + ['C'] == "BC" && [] + ['C'] == "C" && [] + ['B'] == "B" && [] + ['A'] == "A";
    assert CombosFrom(s, "AB", 2) == ["ABC"];
    assert CombosFrom(s, "A", 2) == ["AC"];
    assert CombosFrom(s, "A", 1) == ["AB", "ABC", "AC"];
    assert CombosFrom(s, "B", 2) == ["BC"];
    assert CombosFrom(s, [], 2) == ["C"];
    assert CombosFrom(s, [], 1) == ["B", "BC", "C"];
  }

  // ----- the progress goal: sum of L! over the appended entries -----

  /** Sum of |c|! over the entries cs: what the goal accumulator adds up. */
  function FactSum(cs: seq<string>): nat
  {
    if cs == [] then 0 else Fact(|cs[0]|) + FactSum(cs[1..])
  }

  lemma {:induction false} FactSumAppend(a: seq<string>, b: seq<string>)
    ensures FactSum(a + b) == FactSum(a) + FactSum(b)
  {
    if a != [] {
      assert (a + b)[0] == a[0];
      assert (a + b)[1..] == a[1..] + b;
      assert FactSum(a + b) == Fact(|a[0]|) + FactSum(a[1..] + b);
      FactSumAppend(a[1..], b);
    } else {
      assert a + b == b;
    }
  }

  function Binom(n: nat, k: nat): nat
  {
    if k == 0 then 1 else if n == 0 then 0 else Binom(n - 1, k - 1) + Binom(n - 1, k)
  }

  lemma {:induction false} BinomAbove(n: nat, k: nat)
    requires k > n
    ensures Binom(n, k) == 0
  {
    if n > 0 {
      BinomAbove(n - 1, k - 1);
      BinomAbove(n - 1, k);
    }
  }

  /** Sum over L in 1..k of C(m, L) * (b + L)!. */
  function BinomFactSum(m: nat, b: nat, k: nat): nat
  {
    if k == 0 then 0 else BinomFactSum(m, b, k - 1) + Binom(m, k) * Fact(b + k)
  }

  /** The closed form of the goal: sum over L in 1..N of C(N, L) * L!. */
  function GoalFormula(n: nat): nat
  {
    BinomFactSum(n, 0, n)
  }

  /** Pascal's rule applied term by term to the sum. */
  lemma {:induction false} BinomFactSumSplit(m: nat, b: nat, k: nat)
    requires m >= 1 && k >= 1
    ensures BinomFactSum(m, b, k) == BinomFactSum(m - 1, b, k) + Fact(b + 1) + BinomFactSum(m - 1, b + 1, k - 1)
  {
    var f := Fact(b + k);
    assert Binom(m, k) * f == Binom(m - 1, k - 1) * f + Binom(m - 1, k) * f;
    if k > 1 {
      BinomFactSumSplit(m, b, k - 1);
      assert b + 1 + (k - 1) == b + k;
    }
  }

  /** The factorials of getCombinations(s, build, idx)'s entries add up to the closed form. */
  lemma {:induction false} FactSumOfCombos(s: string, build: string, idx: nat)
    requires idx <= |s|
    ensures FactSum(CombosFrom(s, build, idx)) == BinomFactSum(|s| - idx, |build|, |s| - idx)
    decreases |s| - idx
  {
    if idx < |s| {
      var m := |s| - idx;
      var b1 := build + [s[idx]];
      var with := CombosFrom(s, b1, idx + 1);
      var without := CombosFrom(s, build, idx + 1);
      assert CombosFrom(s, build, idx) == ([b1] + with) + without;
      FactSumOfCombos(s, b1, idx + 1);
      FactSumOfCombos(s, build, idx + 1);
      FactSumAppend([b1] + with, without);
      FactSumAppend([b1], with);
      assert FactSum([b1]) == Fact(|build| + 1);
      BinomFactSumSplit(m, |build|, m);
      BinomAbove(m - 1, m);
      assert BinomFactSum(m - 1, |build|, m) == BinomFactSum(m - 1, |build|, m - 1) + 0 * Fact(|build| + m);
    }
  }

  /** A wildcard-free sequence of length N contributes the sum over L of C(N, L) * L! to the goal. */
  lemma GoalOfCombos(s: string)
    ensures FactSum(CombosFrom(s, [], 0)) == GoalFormula(|s|)
  {
    FactSumOfCombos(s, [], 0);
  }

  // ----- subsequences and sub-multisets -----

  lemma {:induction false} SuffixMultiset(s: string, i: nat, j: nat)
    requires i <= j <= |s|
    ensures multiset(s[j..]) <= multiset(s[i..])
    decreases j - i
  {
    if i < j {
      assert s[i..] == [s[i]] + s[i + 1..];
      SuffixMultiset(s, i + 1, j);
    }
  }

  /** The tiles at a set of positions in [i, |s|) form a sub-multiset of s[i..]. */
  lemma {:induction false} SelectSubMultiset(s: string, ps: seq<nat>, i: nat)
    requires i <= |s| && Increasing(ps) && Within(ps, i, |s|)
    ensures multiset(Select(s, ps)) <= multiset(s[i..])
    decreases |ps|
  {
    if ps != [] {
      var j := ps[0];
      var tl := ps[1..];
      IncreasingTail(ps, i, |s|);
      SelectHead(s, ps);
      SelectSubMultiset(s, tl, j + 1);
      SuffixSplit(s, j);
      SuffixMultiset(s, i, j);
    }
  }

  /** Dropping the first position of an increasing set leaves an increasing set above it. */
  lemma IncreasingTail(ps: seq<nat>, lo: nat, hi: nat)
    requires |ps| > 0 && Increasing(ps) && Within(ps, lo, hi)
    ensures lo <= ps[0] < hi
    ensures Increasing(ps[1..]) && Within(ps[1..], ps[0] + 1, hi)
  {
    var tl := ps[1..];
    forall k | 0 <= k < |tl| ensures ps[0] + 1 <= tl[k] < hi {
      assert tl[k] == ps[k + 1];
    }
    forall a, b | 0 <= a < b < |tl| ensures tl[a] < tl[b] {
      assert tl[a] == ps[a + 1] && tl[b] == ps[b + 1];
    }
  }

  /** The tiles at ps are the tile at its first position followed by the tiles at the rest. */
  lemma SelectHead(s: string, ps: seq<nat>)
    requires |ps| > 0 && Within(ps, 0, |s|)
    ensures Within(ps[1..], 0, |s|)
    ensures multiset(Select(s, ps)) == multiset{s[ps[0]]} + multiset(Select(s, ps[1..]))
  {
    var tl := ps[1..];
    forall k | 0 <= k < |tl| ensures 0 <= tl[k] < |s| {
      assert tl[k] == ps[k + 1];
    }
    assert Select(s, ps) == [s[ps[0]]] + Select(s, tl);
  }

  /** Positions of [i, |s|) picked greedily from the left to spell the multiset m. */
  function Pick(s: string, m: multiset<char>, i: nat): seq<nat>
    decreases |s| - i
  {
    if i >= |s| then []
    else if s[i] in m then [i] + Pick(s, m - multiset{s[i]}, i + 1)
    else Pick(s, m, i + 1)
  }

  /** Any sub-multiset of s[i..] is spelled by some set of positions of [i, |s|). */
  lemma {:induction false} PickSpells(s: string, m: multiset<char>, i: nat)
    requires i <= |s| && m <= multiset(s[i..])
    ensures Increasing(Pick(s, m, i)) && Within(Pick(s, m, i), i, |s|)
    ensures multiset(Select(s, Pick(s, m, i))) == m
    decreases |s| - i
  {
    if i == |s| {
      assert m == multiset{};
    } else if s[i] in m {
      PickTake(s, m, i);
    } else {
      SuffixSplit(s, i);
      PickSpells(s, m, i + 1);
    }
  }

  lemma {:induction false} PickTake(s: string, m: multiset<char>, i: nat)
    requires i < |s| && m <= multiset(s[i..]) && s[i] in m
    ensures Increasing(Pick(s, m, i)) && Within(Pick(s, m, i), i, |s|)
    ensures multiset(Select(s, Pick(s, m, i))) == m
    decreases |s| - i, 0
  {
    var m1 := m - multiset{s[i]};
    SuffixSplit(s, i);
    assert m1 <= multiset(s[i + 1..]);
    PickSpells(s, m1, i + 1);
    var tl := Pick(s, m1, i + 1);
    assert Pick(s, m, i) == [i] + tl;
    ConsIncreasing(i, tl, |s|);
    SelectCons(s, i, tl);
    assert multiset{s[i]} + m1 == m;
  }

  /** Putting a smaller position in front of an increasing set keeps it increasing. */
  lemma ConsIncreasing(i: nat, tl: seq<nat>, hi: nat)
    requires i < hi && Increasing(tl) && Within(tl, i + 1, hi)
    ensures Increasing([i] + tl) && Within([i] + tl, i, hi)
  {
    var ps := [i] + tl;
    forall a, b | 0 <= a < b < |ps| ensures ps[a] < ps[b] {
      assert ps[b] == tl[b - 1];
      if a > 0 {
        assert ps[a] == tl[a - 1];
      }
    }
    forall k | 0 <= k < |ps| ensures i <= ps[k] < hi {
      if k > 0 {
        assert ps[k] == tl[k - 1];
      }
    }
  }

  lemma SuffixSplit(s: string, i: nat)
    requires i < |s|
    ensures multiset(s[i..]) == multiset{s[i]} + multiset(s[i + 1..])
  {
    assert s[i..] == [s[i]] + s[i + 1..];
  }

  lemma SelectCons(s: string, i: nat, tl: seq<nat>)
    requires i < |s| && Within(tl, 0, |s|)
    ensures Within([i] + tl, 0, |s|)
    ensures Select(s, [i] + tl) == [s[i]] + Select(s, tl)
    ensures multiset(Select(s, [i] + tl)) == multiset{s[i]} + multiset(Select(s, tl))
  {
    assert Select(s, [i] + tl) == [s[i]] + Select(s, tl);
  }

  /**
   * A string appears among the entries of getCombinations(s, "", 0) up to
   * rearrangement exactly when it is non-empty and uses each tile of s at most
   * once: the entries cover every non-empty sub-multiset of the tiles.
   */
  lemma CombosSpellSubMultisets(s: string, u: string)
    ensures (exists c :: c in CombosFrom(s, [], 0) && multiset(c) == multiset(u)) <==>
            (|u| > 0 && multiset(u) <= multiset(s))
  {
    if c :| c in CombosFrom(s, [], 0) && multiset(c) == multiset(u) {
      ComboIsSubMultiset(s, c);
      assert |u| == |multiset(u)| == |c|;
    }
    if |u| > 0 && multiset(u) <= multiset(s) {
      SubMultisetIsCombo(s, u);
    }
  }

  /** Every entry is a non-empty sub-multiset of the tiles. */
  lemma ComboIsSubMultiset(s: string, c: string)
    requires c in CombosFrom(s, [], 0)
    ensures |c| > 0 && multiset(c) <= multiset(s)
  {
    var cs := CombosFrom(s, [], 0);
    var all := PositionSets(|s|, 0);
    CombosArePositionSets(s, [], 0);
    PositionSetsShape(|s|, 0);
    var k :| 0 <= k < |cs| && cs[k] == c;
    assert all[k] in all;
    assert c == [] + Select(s, all[k]);
    SelectSubMultiset(s, all[k], 0);
    assert s[0..] == s;
  }

  /** Every non-empty sub-multiset of the tiles is spelled, in some order, by an entry. */
  lemma SubMultisetIsCombo(s: string, u: string)
    requires |u| > 0 && multiset(u) <= multiset(s)
    ensures exists c :: c in CombosFrom(s, [], 0) && multiset(c) == multiset(u)
  {
    var cs := CombosFrom(s, [], 0);
    var all := PositionSets(|s|, 0);
    CombosArePositionSets(s, [], 0);
    assert s[0..] == s;
    PickSpells(s, multiset(u), 0);
    var ps := Pick(s, multiset(u), 0);
    assert |ps| == |Select(s, ps)| == |multiset(u)| == |u|;
    PositionSetsComplete(|s|, 0, ps);
    var k :| 0 <= k < |all| && all[k] == ps;
    assert cs[k] == [] + Select(s, ps);
    assert cs[k] in cs;
  }
}
