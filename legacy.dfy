/**
 * Legacy: the older self-contained engine (`ScrabbleSolver`).
 *
 * One recursion `solve(s, idx)` does everything: it resolves the first
 * wildcard to A..Z, recursing at the same idx; a wildcard-free node checks its
 * own string, then recurses on every swap of idx with a later position (from
 * idx + 1) and on every deletion of a position from idx on (from idx). The
 * strings a wildcard-free node checks, in order, are `PlainVisits`.
 */
module Legacy {
  import opened Tiles
  import opened Blanks
  import opened Matching

  /** Words shorter than this are recorded but not printed. */
  const MIN_SIZE: int := 5

  // ----- the strings checked -----

  /** The strings checked by solve(t, idx) for a wildcard-free t, in the order checked. */
  function PlainVisits(t: string, idx: nat): seq<string>
    requires idx <= |t|
    decreases |t|, |t| - idx, 1, 0
  {
    if idx == |t| then [] else [t] + SwapVisits(t, idx, idx) + DeleteVisits(t, idx, idx)
  }

  /** What iterations i.. of the swap loop check. */
  function SwapVisits(t: string, idx: nat, i: nat): seq<string>
    requires idx < |t| && idx <= i <= |t|
    decreases |t|, |t| - idx, 0, |t| - i
  {
    if i == |t| then [] else PlainVisits(Swapped(t, idx, i), idx + 1) + SwapVisits(t, idx, i + 1)
  }

  /** What iterations i.. of the deletion loop check. */
  function DeleteVisits(t: string, idx: nat, i: nat): seq<string>
    requires idx < |t| && idx <= i <= |t|
    decreases |t|, |t| - idx, 0, |t| - i
  {
    if i == |t| then [] else PlainVisits(Deleted(t, i), idx) + DeleteVisits(t, idx, i + 1)
  }

  /** The strings checked by solving each of es from idx in turn (those too short for idx check nothing). */
  function VisitsOfAll(es: seq<string>, idx: nat): seq<string>
  {
    if es == [] then []
    else (if idx <= |es[0]| then PlainVisits(es[0], idx) else []) + VisitsOfAll(es[1..], idx)
  }

  /** The strings checked by solve(t, idx) as written: only the as-written wildcard fills are reached. */
  function Visits(t: string, idx: nat): seq<string>
  {
    VisitsOfAll(WrittenExpansions(t), idx)
  }

  /** The strings checked once the wildcard is put back after its letter loop: every fill is reached. */
  function RestoredVisits(t: string, idx: nat): seq<string>
  {
    VisitsOfAll(Expansions(t), idx)
  }

  // ----- which strings a wildcard-free node checks -----

  /**
   * u is reachable from solve(t, idx): it is longer than idx, keeps the first
   * idx tiles of t, and the rest of it uses each remaining tile of t at most once.
   */
  predicate Reachable(t: string, idx: nat, u: string)
    requires idx <= |t|
  {
    idx < |u| && u[..idx] == t[..idx] && multiset(u[idx..]) <= multiset(t[idx..])
  }

  /**
   * solve(t, idx) on a wildcard-free t checks exactly the reachable strings:
   * every ordering of every non-empty choice of the tiles from idx on, behind
   * the fixed prefix, and nothing else.
   */
  lemma PlainVisitsExactly(t: string, idx: nat, u: string)
    requires idx <= |t|
    ensures u in PlainVisits(t, idx) <==> Reachable(t, idx, u)
  {
    if u in PlainVisits(t, idx) {
      VisitedReachable(t, idx, u);
    }
    if Reachable(t, idx, u) {
      ReachableVisited(t, idx, u);
    }
  }

  /** Every string solve(t, idx) checks is reachable. */
  lemma {:induction false} VisitedReachable(t: string, idx: nat, u: string)
    requires idx <= |t| && u in PlainVisits(t, idx)
    ensures Reachable(t, idx, u)
    decreases |t|, |t| - idx, 2
  {
    assert PlainVisits(t, idx) == [t] + SwapVisits(t, idx, idx) + DeleteVisits(t, idx, idx);
    if u in SwapVisits(t, idx, idx) {
      SwapVisitsReachable(t, idx, idx, u);
    } else if u in DeleteVisits(t, idx, idx) {
      DeleteVisitsReachable(t, idx, idx, u);
    } else {
      assert u == t;
    }
  }

  lemma {:induction false} SwapVisitsReachable(t: string, idx: nat, i: nat, u: string)
    requires idx <= i < |t| && u in SwapVisits(t, idx, i)
    ensures Reachable(t, idx, u)
    decreases |t|, |t| - idx, 1, |t| - i
  {
    SwapVisitsSplit(t, idx, i, u);
    if u in PlainVisits(Swapped(t, idx, i), idx + 1) {
      SwapHeadReachable(t, idx, i, u);
    } else {
      assert i + 1 < |t|;
      SwapVisitsReachable(t, idx, i + 1, u);
    }
  }

  lemma {:induction false} DeleteVisitsReachable(t: string, idx: nat, i: nat, u: string)
    requires idx <= i < |t| && u in DeleteVisits(t, idx, i)
    ensures Reachable(t, idx, u)
    decreases |t|, |t| - idx, 1, |t| - i
  {
    DeleteVisitsSplit(t, idx, i, u);
    if u in PlainVisits(Deleted(t, i), idx) {
      DeleteHeadReachable(t, idx, i, u);
    } else {
      assert i + 1 < |t|;
      DeleteVisitsReachable(t, idx, i + 1, u);
    }
  }

  /** What iteration i of the swap loop checks is reachable. */
  lemma SwapHeadReachable(t: string, idx: nat, i: nat, u: string)
    requires idx <= i < |t| && u in PlainVisits(Swapped(t, idx, i), idx + 1)
    ensures Reachable(t, idx, u)
    decreases |t|, |t| - idx, 0
  {
    var w := Swapped(t, idx, i);
    assert Reachable(w, idx + 1, u) by {
      VisitedReachable(w, idx + 1, u);
    }
    SwappedReachable(t, idx, i, u);
  }

  /** What iteration i of the deletion loop checks is reachable. */
  lemma DeleteHeadReachable(t: string, idx: nat, i: nat, u: string)
    requires idx <= i < |t| && u in PlainVisits(Deleted(t, i), idx)
    ensures Reachable(t, idx, u)
    decreases |t|, |t| - idx, 0
  {
    VisitedReachable(Deleted(t, i), idx, u);
    DeletedReachable(t, idx, i, u);
  }

  /** Membership in one swap iteration onwards: in this iteration or a later one. */
  lemma SwapVisitsSplit(t: string, idx: nat, i: nat, u: string)
    requires idx <= i < |t|
    ensures u in SwapVisits(t, idx, i) <==>
      u in PlainVisits(Swapped(t, idx, i), idx + 1) || u in SwapVisits(t, idx, i + 1)
  {
    assert SwapVisits(t, idx, i) == PlainVisits(Swapped(t, idx, i), idx + 1) + SwapVisits(t, idx, i + 1);
  }

  /** Membership in one deletion iteration onwards: in this iteration or a later one. */
  lemma DeleteVisitsSplit(t: string, idx: nat, i: nat, u: string)
    requires idx <= i < |t|
    ensures u in DeleteVisits(t, idx, i) <==>
      u in PlainVisits(Deleted(t, i), idx) || u in DeleteVisits(t, idx, i + 1)
  {
    assert DeleteVisits(t, idx, i) == PlainVisits(Deleted(t, i), idx) + DeleteVisits(t, idx, i + 1);
  }

  /** Every reachable string is checked by solve(t, idx). */
  lemma {:induction false} ReachableVisited(t: string, idx: nat, u: string)
    requires idx <= |t| && Reachable(t, idx, u)
    ensures u in PlainVisits(t, idx)
    decreases |t|, |t| - idx
  {
    NothingReachableAtEnd(t, idx, u);
    assert PlainVisits(t, idx) == [t] + SwapVisits(t, idx, idx) + DeleteVisits(t, idx, idx);
    var i := TileOf(t, idx, u);
    if idx + 1 < |u| {
      // Swap the tile u[idx] into place and go one deeper.
      ReachableSwapped(t, idx, i, u);
      ReachableVisited(Swapped(t, idx, i), idx + 1, u);
      SwapVisitsHead(t, idx, i, u);
      SwapVisitsLater(t, idx, idx, i, u);
    } else if |t| == idx + 1 {
      ReachableWhole(t, idx, u);
    } else {
      // One tile after the prefix: delete some other position.
      var j := if i == idx then idx + 1 else idx;
      ReachableDeleted(t, idx, i, j, u);
      ReachableVisited(Deleted(t, j), idx, u);
      DeleteVisitsHead(t, idx, j, u);
      if j > idx {
        DeleteVisitsTail(t, idx, idx, u);
      }
    }
  }

  /** Nothing is reachable once the prefix is the whole of t. */
  lemma NothingReachableAtEnd(t: string, idx: nat, u: string)
    requires idx <= |t|
    ensures Reachable(t, idx, u) ==> idx < |t|
  {
    if idx == |t| && idx < |u| {
      assert u[idx] in multiset(u[idx..]);
      assert t[idx..] == [];
    }
  }

  /** What iteration i of the swap loop checks is among what iterations i.. check. */
  lemma SwapVisitsHead(t: string, idx: nat, i: nat, u: string)
    requires idx <= i < |t| && u in PlainVisits(Swapped(t, idx, i), idx + 1)
    ensures u in SwapVisits(t, idx, i)
  {
    assert SwapVisits(t, idx, i) == PlainVisits(Swapped(t, idx, i), idx + 1) + SwapVisits(t, idx, i + 1);
  }

  /** What iterations i + 1.. of the swap loop check is among what iterations i.. check. */
  lemma SwapVisitsTail(t: string, idx: nat, i: nat, u: string)
    requires idx <= i < |t| && u in SwapVisits(t, idx, i + 1)
    ensures u in SwapVisits(t, idx, i)
  {
    assert SwapVisits(t, idx, i) == PlainVisits(Swapped(t, idx, i), idx + 1) + SwapVisits(t, idx, i + 1);
  }

  /** What iterations j.. of the swap loop check is among what iterations i.. check, for i <= j. */
  lemma {:induction false} SwapVisitsLater(t: string, idx: nat, i: nat, j: nat, u: string)
    requires idx <= i <= j < |t| && u in SwapVisits(t, idx, j)
    ensures u in SwapVisits(t, idx, i)
    decreases j - i
  {
    if i < j {
      SwapVisitsLater(t, idx, i + 1, j, u);
      SwapVisitsTail(t, idx, i, u);
    }
  }

  /** What iteration i of the deletion loop checks is among what iterations i.. check. */
  lemma DeleteVisitsHead(t: string, idx: nat, i: nat, u: string)
    requires idx <= i < |t| && u in PlainVisits(Deleted(t, i), idx)
    ensures u in DeleteVisits(t, idx, i)
  {
    assert DeleteVisits(t, idx, i) == PlainVisits(Deleted(t, i), idx) + DeleteVisits(t, idx, i + 1);
  }

  /** What iterations i + 1.. of the deletion loop check is among what iterations i.. check. */
  lemma DeleteVisitsTail(t: string, idx: nat, i: nat, u: string)
    requires idx <= i < |t| && u in DeleteVisits(t, idx, i + 1)
    ensures u in DeleteVisits(t, idx, i)
  {
    assert DeleteVisits(t, idx, i) == PlainVisits(Deleted(t, i), idx) + DeleteVisits(t, idx, i + 1);
  }

  // ----- reachability, one step at a time -----

  /** What is reachable after swapping i into position idx is reachable from t. */
  lemma SwappedReachable(t: string, idx: nat, i: nat, u: string)
    requires idx <= i < |t| && Reachable(Swapped(t, idx, i), idx + 1, u)
    ensures Reachable(t, idx, u)
  {
    var w := Swapped(t, idx, i);
    SwappedSuffix(t, idx, i);
    SuffixSplit(u, idx);
    SuffixSplit(w, idx);
    assert u[idx] == w[idx] by {
      assert u[..idx + 1][idx] == w[..idx + 1][idx];
    }
    assert u[..idx] == u[..idx + 1][..idx];
    assert w[..idx] == w[..idx + 1][..idx];
  }

  /** What is reachable after deleting a position from idx on is reachable from t. */
  lemma DeletedReachable(t: string, idx: nat, i: nat, u: string)
    requires idx <= i < |t| && Reachable(Deleted(t, i), idx, u)
    ensures Reachable(t, idx, u)
  {
    DeletedSuffix(t, idx, i);
  }

  /** A reachable u longer than idx + 1 stays reachable once its tile at idx is swapped into place. */
  lemma ReachableSwapped(t: string, idx: nat, i: nat, u: string)
    requires idx <= i < |t| && Reachable(t, idx, u) && idx + 1 < |u| && t[i] == u[idx]
    ensures Reachable(Swapped(t, idx, i), idx + 1, u)
  {
    var w := Swapped(t, idx, i);
    SwappedSuffix(t, idx, i);
    PrefixExtends(u, w, idx);
    SuffixShrinks(u, w, idx);
  }

  /** Equal prefixes of length idx and equal tiles at idx give equal prefixes of length idx + 1. */
  lemma PrefixExtends(u: string, w: string, idx: nat)
    requires idx < |u| && idx < |w| && u[..idx] == w[..idx] && u[idx] == w[idx]
    ensures u[..idx + 1] == w[..idx + 1]
  {
    assert u[..idx + 1] == u[..idx] + [u[idx]];
    assert w[..idx + 1] == w[..idx] + [w[idx]];
  }

  /** Dropping the same tile at idx from both sides keeps the sub-multiset relation. */
  lemma SuffixShrinks(u: string, w: string, idx: nat)
    requires idx < |u| && idx < |w| && u[idx] == w[idx] && multiset(u[idx..]) <= multiset(w[idx..])
    ensures multiset(u[idx + 1..]) <= multiset(w[idx + 1..])
  {
    SuffixSplit(u, idx);
    SuffixSplit(w, idx);
    MultisetCancel(multiset(u[idx + 1..]), multiset(w[idx + 1..]), u[idx]);
  }

  /** A reachable u of length idx + 1 stays reachable once some other position j is deleted. */
  lemma ReachableDeleted(t: string, idx: nat, i: nat, j: nat, u: string)
    requires idx <= i < |t| && idx <= j < |t| && i != j
    requires Reachable(t, idx, u) && |u| == idx + 1 && t[i] == u[idx]
    ensures Reachable(Deleted(t, j), idx, u)
  {
    DeletedSuffix(t, idx, j);
    var d := Deleted(t, j);
    var p := if i < j then i else i - 1;
    assert d[p] == t[i];
    assert d[idx..][p - idx] == d[p];
    assert u[idx..] == [u[idx]];
  }

  /** When only one tile follows the prefix, the only reachable string of full length is t. */
  lemma ReachableWhole(t: string, idx: nat, u: string)
    requires |t| == idx + 1 && Reachable(t, idx, u) && |u| <= idx + 1
    ensures u == t
  {
    SuffixSplit(u, idx);
    SuffixSplit(t, idx);
    assert u[idx] in multiset(t[idx..]);
    assert u == u[..idx] + [u[idx]];
    assert t == t[..idx] + [t[idx]];
  }

  /** A position from idx on holding the tile u[idx] of a reachable u. */
  lemma TileOf(t: string, idx: nat, u: string) returns (i: nat)
    requires idx <= |t| && Reachable(t, idx, u)
    ensures idx <= i < |t| && t[i] == u[idx]
  {
    SuffixSplit(u, idx);
    assert u[idx] in multiset(t[idx..]);
    i := IndexOf(t, idx, u[idx]);
  }

  /** A position from idx on holding c, for a c among the tiles from idx on. */
  function IndexOf(t: string, idx: nat, c: char): (i: nat)
    requires idx <= |t| && c in multiset(t[idx..])
    ensures idx <= i < |t| && t[i] == c
    decreases |t| - idx
  {
    SuffixSplit(t, idx);
    if t[idx] == c then idx else IndexOf(t, idx + 1, c)
  }

  lemma SuffixSplit(s: string, i: nat)
    requires i < |s|
    ensures multiset(s[i..]) == multiset{s[i]} + multiset(s[i + 1..])
  {
    assert s[i..] == [s[i]] + s[i + 1..];
  }

  lemma MultisetCancel(a: multiset<char>, b: multiset<char>, c: char)
    requires multiset{c} + a <= multiset{c} + b
    ensures a <= b
  {
    forall x
      ensures a[x] <= b[x]
    {
      assert (multiset{c} + a)[x] <= (multiset{c} + b)[x];
    }
  }

  /** A swap at idx and i >= idx keeps the prefix and the multiset of the suffix. */
  lemma SwappedSuffix(t: string, idx: nat, i: nat)
    requires idx <= i < |t|
    ensures Swapped(t, idx, i)[..idx] == t[..idx]
    ensures multiset(Swapped(t, idx, i)[idx..]) == multiset(t[idx..])
  {
    var w := Swapped(t, idx, i);
    SwappedElsewhere(t, idx, i);
    assert t == t[..idx] + t[idx..];
    assert w == w[..idx] + w[idx..];
    assert w[..idx] == t[..idx];
  }

  /** Deleting a position j >= idx keeps the prefix and removes t[j] from the suffix. */
  lemma DeletedSuffix(t: string, idx: nat, j: nat)
    requires idx <= j < |t|
    ensures Deleted(t, j)[..idx] == t[..idx]
    ensures multiset(Deleted(t, j)[idx..]) == multiset(t[idx..]) - multiset{t[j]}
  {
    var d := Deleted(t, j);
    assert d == t[..j] + t[j + 1..];
    assert d[..idx] == t[..idx];
    assert d[idx..] == t[idx..j] + t[j + 1..];
    assert t[idx..] == t[idx..j] + [t[j]] + t[j + 1..];
  }

  // ----- the visits of a list of sequences -----

  lemma {:induction false} VisitsOfAllAppend(a: seq<string>, b: seq<string>, idx: nat)
    ensures VisitsOfAll(a + b, idx) == VisitsOfAll(a, idx) + VisitsOfAll(b, idx)
    decreases a
  {
    if a == [] {
      assert a + b == b;
    } else {
      assert (a + b)[0] == a[0];
      assert (a + b)[1..] == a[1..] + b;
      VisitsOfAllAppend(a[1..], b, idx);
    }
  }

  /** A string is visited from a list exactly when it is visited from one of its entries long enough for idx. */
  lemma {:induction false} InVisitsOfAll(es: seq<string>, idx: nat, u: string)
    ensures u in VisitsOfAll(es, idx) <==>
      exists m :: 0 <= m < |es| && idx <= |es[m]| && u in PlainVisits(es[m], idx)
    decreases es
  {
    if es != [] {
      InVisitsOfAll(es[1..], idx, u);
      if u in VisitsOfAll(es[1..], idx) {
        var m :| 0 <= m < |es[1..]| && idx <= |es[1..][m]| && u in PlainVisits(es[1..][m], idx);
        assert es[m + 1] == es[1..][m];
      }
      if exists m :: 0 <= m < |es| && idx <= |es[m]| && u in PlainVisits(es[m], idx) {
        var m :| 0 <= m < |es| && idx <= |es[m]| && u in PlainVisits(es[m], idx);
        if m > 0 {
          assert es[1..][m - 1] == es[m];
        }
      }
    }
  }

  /** Sequences no longer than idx contribute nothing. */
  lemma {:induction false} VisitsOfAllAtEnd(es: seq<string>, idx: nat)
    requires forall m :: 0 <= m < |es| ==> |es[m]| == idx
    ensures VisitsOfAll(es, idx) == []
    decreases es
  {
    if es != [] {
      VisitsOfAllAtEnd(es[1..], idx);
    }
  }

  /** solve(t, |t|) checks nothing, whichever wildcard loop is used. */
  lemma NoVisitsAtEnd(t: string)
    ensures Visits(t, |t|) == [] && RestoredVisits(t, |t|) == []
  {
    WrittenExpansionsAreFills(t);
    ExpansionsAreFills(t);
    var w := WrittenExpansions(t);
    var e := Expansions(t);
    assert forall m :: 0 <= m < |w| ==> IsFill(w[m], t);
    assert forall m :: 0 <= m < |e| ==> IsFill(e[m], t);
    VisitsOfAllAtEnd(w, |t|);
    VisitsOfAllAtEnd(e, |t|);
  }

  /** A one-entry list visits what its entry visits. */
  lemma VisitsOfOne(t: string, idx: nat)
    requires idx <= |t|
    ensures VisitsOfAll([t], idx) == PlainVisits(t, idx)
  {
    var es := [t];
    assert es[0] == t && es[1..] == [];
    assert VisitsOfAll(es, idx) == PlainVisits(t, idx) + VisitsOfAll([], idx);
  }

  /** On a wildcard-free t the as-written wildcard loop is skipped: solve(t, idx) checks PlainVisits(t, idx). */
  lemma WrittenVisitsOfFill(t: string, idx: nat)
    requires NoBlanks(t) && idx <= |t|
    ensures Visits(t, idx) == PlainVisits(t, idx)
  {
    assert FirstBlankIn(t) == |t|;
    assert WrittenExpansions(t) == [t];
    VisitsOfOne(t, idx);
  }

  /** On a wildcard-free t the corrected wildcard loop is skipped too. */
  lemma RestoredVisitsOfFill(t: string, idx: nat)
    requires NoBlanks(t) && idx <= |t|
    ensures RestoredVisits(t, idx) == PlainVisits(t, idx)
  {
    assert FirstBlankIn(t) == |t|;
    assert Expansions(t) == [t];
    VisitsOfOne(t, idx);
  }

  /** The 'Z' fill of a wildcard-free sequence is the sequence itself. */
  lemma ZFilledOfFill(t: string)
    requires NoBlanks(t)
    ensures Filled(t, 'Z') == t
  {
    FilledFacts(t, 'Z');
  }

  /** One later letter k of the as-written loop adds the visits of one wildcard-free sequence. */
  lemma LaterLetterStep(t: string, i: nat, k: nat, idx: nat, done: seq<string>)
    requires i < |t| && t[i] == BLANK && 1 <= k < 26 && idx <= |t|
    requires done == VisitsOfAll(LaterLetters(t, i)[..k - 1], idx)
    ensures var v := Filled(t, 'Z')[i := Letter(k)];
      NoBlanks(v) && Filled(v, 'Z') == v && Visits(v, idx) == PlainVisits(v, idx) &&
      done + Visits(v, idx) == VisitsOfAll(LaterLetters(t, i)[..k], idx)
  {
    var v := Filled(t, 'Z')[i := Letter(k)];
    var tail := LaterLetters(t, i);
    FilledFacts(t, 'Z');
    assert NoBlanks(v);
    ZFilledOfFill(v);
    WrittenVisitsOfFill(v, idx);
    assert tail[..k] == tail[..k - 1] + [v];
    VisitsOfAllAppend(tail[..k - 1], [v], idx);
    VisitsOfOne(v, idx);
  }

  /** After the first letter the buffer holds the 'Z' fill but for 'A' at i, with no wildcard left. */
  lemma FirstLetterDone(t: string, i: nat)
    requires i < |t| && t[i] == BLANK
    ensures Filled(t[i := 'A'], 'Z') == Filled(t, 'Z')[i := Letter(0)]
  {
    FilledSet(t, i, 'Z');
  }

  /** After the last later letter the buffer is the 'Z' fill and all 25 later letters are done. */
  lemma LaterLettersDone(t: string, i: nat)
    requires i < |t| && t[i] == BLANK
    ensures Filled(t, 'Z')[i := Letter(25)] == Filled(t, 'Z')
    ensures LaterLetters(t, i)[..25] == LaterLetters(t, i)
  {
    FilledFacts(t, 'Z');
  }

  /** The as-written visits: those of the 'A' fill, then those of the 25 later letters. */
  lemma WrittenVisitsSplit(t: string, i: nat, idx: nat)
    requires i == FirstBlankIn(t) < |t|
    ensures Visits(t, idx) == Visits(t[i := 'A'], idx) + VisitsOfAll(LaterLetters(t, i), idx)
  {
    assert WrittenExpansions(t) == WrittenExpansions(t[i := 'A']) + LaterLetters(t, i) by {
      assert t[i] in multiset(t);
    }
    VisitsOfAllAppend(WrittenExpansions(t[i := 'A']), LaterLetters(t, i), idx);
  }

  /** The letters from k on contribute letter k's visits, then the letters after it. */
  lemma RestoredStep(t: string, i: nat, k: nat, idx: nat, done: seq<string>)
    requires i < |t| && t[i] == BLANK && k < 26
    requires VisitsOfAll(ExpandAt(t, i, 0), idx) == done + VisitsOfAll(ExpandAt(t, i, k), idx)
    ensures VisitsOfAll(ExpandAt(t, i, 0), idx) ==
            (done + RestoredVisits(t[i := Letter(k)], idx)) + VisitsOfAll(ExpandAt(t, i, k + 1), idx)
  {
    VisitsOfAllAppend(Expansions(t[i := Letter(k)]), ExpandAt(t, i, k + 1), idx);
    AppendAssoc(done, RestoredVisits(t[i := Letter(k)], idx), VisitsOfAll(ExpandAt(t, i, k + 1), idx));
  }

  /** A swap of two positions of a wildcard-free sequence is wildcard-free. */
  lemma SwappedNoBlanks(t: string, i: nat, j: nat)
    requires i < |t| && j < |t| && NoBlanks(t)
    ensures NoBlanks(Swapped(t, i, j))
  {
    SwappedElsewhere(t, i, j);
  }

  // ----- the engine -----

  /** The legacy engine's test: dictionary membership, and MIN_SIZE letters to be printed; every string matches. */
  function LegacyFilter(dictionary: set<string>): Filter
  {
    Filter(dictionary, MIN_SIZE, w => true)
  }

  /**
   * The legacy solver: a dictionary and the map FOUND of words met so far.
   * Every dictionary word met enters FOUND; it is printed the first time it is
   * met when it has at least MIN_SIZE letters. There is no pattern.
   */
  class ScrabbleSolver {
    const dictionary: set<string>
    const found: SolutionMap

    constructor (dictionary: set<string>)
      ensures this.dictionary == dictionary && fresh(found) && found.keys == {}
    {
      this.dictionary := dictionary;
      found := new SolutionMap();
    }

    /** The test every visited string goes through. */
    function Criteria(): Filter
    {
      LegacyFilter(dictionary)
    }

    /** The check at a wildcard-free node: record str if it is a new dictionary word, printing it if long enough. */
    method Check(str: string, out: Console)
      modifies found, out
      ensures found.keys == Recorded(Criteria(), old(found.keys), [str])
      ensures out.lines == old(out.lines) + Printed(Criteria(), old(found.keys), [str])
    {
      var present := found.ContainsKey(str);
      if !present && str in dictionary {
        if |str| >= MIN_SIZE {
          out.PrintLine(str);
        }
        found.Put(str);
      }
      assert [str][1..] == [];
    }

    /**
     * solve(s, idx) as written: the strings `Visits` lists are checked in order;
     * the wildcards are left at 'Z' afterwards.
     */
    method Solve(s: Buffer, idx: nat, out: Console)
      requires idx <= |s.chars|
      modifies s, found, out
      ensures s.chars == if idx == |old(s.chars)| then old(s.chars) else Filled(old(s.chars), 'Z')
      ensures found.keys == Recorded(Criteria(), old(found.keys), Visits(old(s.chars), idx))
      ensures out.lines == old(out.lines) + Printed(Criteria(), old(found.keys), Visits(old(s.chars), idx))
      decreases |s.chars|, |s.chars| - idx, Stars(s.chars), 3
    {
      ghost var t := s.chars;
      if idx == |s.chars| {
        NoVisitsAtEnd(t);
        assert out.lines == old(out.lines) + [];
        return;
      }
      var i := FirstBlank(s);
      if i < |s.chars| {
        Letters(s, idx, i, out);
        return;
      }
      StarsZero(t);
      WrittenVisitsOfFill(t, idx);
      ZFilledOfFill(t);
      SolvePlain(s, idx, out);
    }

    /**
     * solve(s, idx) with every wildcard put back after its letter loop: all
     * the fills are visited and the buffer comes back unchanged.
     */
    method SolveRestoringBlanks(s: Buffer, idx: nat, out: Console)
      requires idx <= |s.chars|
      modifies s, found, out
      ensures s.chars == old(s.chars)
      ensures found.keys == Recorded(Criteria(), old(found.keys), RestoredVisits(old(s.chars), idx))
      ensures out.lines == old(out.lines) + Printed(Criteria(), old(found.keys), RestoredVisits(old(s.chars), idx))
      decreases |s.chars|, |s.chars| - idx, Stars(s.chars), 3
    {
      ghost var t := s.chars;
      if idx == |s.chars| {
        NoVisitsAtEnd(t);
        assert out.lines == old(out.lines) + [];
        return;
      }
      var i := FirstBlank(s);
      if i < |s.chars| {
        RestoringLetters(s, idx, i, out);
        return;
      }
      StarsZero(t);
      RestoredVisitsOfFill(t, idx);
      SolvePlain(s, idx, out);
    }

    /** A wildcard-free node: check the string itself, then the swap loop, then the deletion loop. */
    method SolvePlain(s: Buffer, idx: nat, out: Console)
      requires idx < |s.chars| && NoBlanks(s.chars)
      modifies s, found, out
      ensures s.chars == old(s.chars)
      ensures found.keys == Recorded(Criteria(), old(found.keys), PlainVisits(old(s.chars), idx))
      ensures out.lines == old(out.lines) + Printed(Criteria(), old(found.keys), PlainVisits(old(s.chars), idx))
      decreases |s.chars|, |s.chars| - idx, 0, 2
    {
      ghost var t := s.chars;
      ghost var found0 := found.keys;
      ghost var lines0 := out.lines;
      var str := s.chars;
      Check(str, out);
      ghost var swaps := SwapVisits(t, idx, idx);
      SwapLoop(s, idx, out);
      CheckedAppend(Criteria(), found0, lines0, [t], swaps);
      ghost var deletions := DeleteVisits(t, idx, idx);
      DeleteLoop(s, idx, out);
      CheckedAppend(Criteria(), found0, lines0, [t] + swaps, deletions);
    }

    /** Exchanges position idx with each position from idx on, solves from idx + 1 each time, and exchanges back. */
    method SwapLoop(s: Buffer, idx: nat, out: Console)
      requires idx < |s.chars| && NoBlanks(s.chars)
      modifies s, found, out
      ensures s.chars == old(s.chars)
      ensures found.keys == Recorded(Criteria(), old(found.keys), SwapVisits(old(s.chars), idx, idx))
      ensures out.lines == old(out.lines) + Printed(Criteria(), old(found.keys), SwapVisits(old(s.chars), idx, idx))
      decreases |s.chars|, |s.chars| - idx, 0, 1
    {
      ghost var t := s.chars;
      ghost var found0 := found.keys;
      ghost var lines0 := out.lines;
      ghost var done: seq<string> := [];
      assert SwapVisits(t, idx, idx) == done + SwapVisits(t, idx, idx);
      assert out.lines == lines0 + Printed(Criteria(), found0, done);
      var i := idx;
      while i < |s.chars|
        invariant idx <= i <= |t| && s.chars == t
        invariant SwapVisits(t, idx, idx) == done + SwapVisits(t, idx, i)
        invariant found.keys == Recorded(Criteria(), found0, done)
        invariant out.lines == lines0 + Printed(Criteria(), found0, done)
      {
        ghost var more := SwapStep(s, idx, i, out);
        AppendAssoc(done, more, SwapVisits(t, idx, i + 1));
        CheckedAppend(Criteria(), found0, lines0, done, more);
        done := done + more;
        i := i + 1;
      }
      assert done + [] == done;
    }

    /** One iteration of the swap loop: swap idx and i, solve from idx + 1, swap back. */
    method SwapStep(s: Buffer, idx: nat, i: nat, out: Console) returns (ghost more: seq<string>)
      requires idx <= i < |s.chars| && NoBlanks(s.chars)
      modifies s, found, out
      ensures s.chars == old(s.chars)
      ensures more == PlainVisits(Swapped(old(s.chars), idx, i), idx + 1)
      ensures found.keys == Recorded(Criteria(), old(found.keys), more)
      ensures out.lines == old(out.lines) + Printed(Criteria(), old(found.keys), more)
      decreases |s.chars|, |s.chars| - idx, 0, 0
    {
      ghost var t := s.chars;
      s.Swap(idx, i);
      ghost var w := s.chars;
      SwappedNoBlanks(t, idx, i);
      ZFilledOfFill(w);
      WrittenVisitsOfFill(w, idx + 1);
      Solve(s, idx + 1, out);
      s.Swap(idx, i);
      SwappedTwice(t, idx, i);
      more := PlainVisits(w, idx + 1);
    }

    /** Removes each position from idx on in turn, solves the shorter buffer from idx, and puts the tile back. */
    method DeleteLoop(s: Buffer, idx: nat, out: Console)
      requires idx < |s.chars| && NoBlanks(s.chars)
      modifies s, found, out
      ensures s.chars == old(s.chars)
      ensures found.keys == Recorded(Criteria(), old(found.keys), DeleteVisits(old(s.chars), idx, idx))
      ensures out.lines == old(out.lines) + Printed(Criteria(), old(found.keys), DeleteVisits(old(s.chars), idx, idx))
      decreases |s.chars|, |s.chars| - idx, 0, 1
    {
      ghost var t := s.chars;
      ghost var found0 := found.keys;
      ghost var lines0 := out.lines;
      ghost var done: seq<string> := [];
      assert DeleteVisits(t, idx, idx) == done + DeleteVisits(t, idx, idx);
      assert out.lines == lines0 + Printed(Criteria(), found0, done);
      var i := idx;
      while i < |s.chars|
        invariant idx <= i <= |t| && s.chars == t
        invariant DeleteVisits(t, idx, idx) == done + DeleteVisits(t, idx, i)
        invariant found.keys == Recorded(Criteria(), found0, done)
        invariant out.lines == lines0 + Printed(Criteria(), found0, done)
      {
        ghost var more := DeleteStep(s, idx, i, out);
        AppendAssoc(done, more, DeleteVisits(t, idx, i + 1));
        CheckedAppend(Criteria(), found0, lines0, done, more);
        done := done + more;
        i := i + 1;
      }
      assert done + [] == done;
    }

    /** One iteration of the deletion loop: remove the tile at i, solve from idx, insert the tile back. */
    method DeleteStep(s: Buffer, idx: nat, i: nat, out: Console) returns (ghost more: seq<string>)
      requires idx <= i < |s.chars| && NoBlanks(s.chars)
      modifies s, found, out
      ensures s.chars == old(s.chars)
      ensures more == PlainVisits(Deleted(old(s.chars), i), idx)
      ensures found.keys == Recorded(Criteria(), old(found.keys), more)
      ensures out.lines == old(out.lines) + Printed(Criteria(), old(found.keys), more)
      decreases |s.chars|, |s.chars| - idx, 0, 0
    {
      ghost var t := s.chars;
      var tmp := s.CharAt(i);
      s.DeleteCharAt(i);
      ghost var d := s.chars;
      DeletedAt(t, i);
      assert NoBlanks(d);
      ZFilledOfFill(d);
      WrittenVisitsOfFill(d, idx);
      Solve(s, idx, out);
      s.Insert(i, tmp);
      DeletedRestored(t, i);
      more := PlainVisits(d, idx);
    }

    /**
     * The as-written alphabet loop at the first wildcard i: each letter is
     * solved from idx and the wildcard is never put back, so every later
     * letter sees the other wildcards at 'Z'.
     */
    method Letters(s: Buffer, idx: nat, i: nat, out: Console)
      requires idx < |s.chars| && i == FirstBlankIn(s.chars) < |s.chars|
      modifies s, found, out
      ensures s.chars == Filled(old(s.chars), 'Z')
      ensures found.keys == Recorded(Criteria(), old(found.keys), Visits(old(s.chars), idx))
      ensures out.lines == old(out.lines) + Printed(Criteria(), old(found.keys), Visits(old(s.chars), idx))
      decreases |s.chars|, |s.chars| - idx, Stars(s.chars), 2
    {
      ghost var t := s.chars;
      ghost var found0 := found.keys;
      ghost var lines0 := out.lines;
      ghost var u := t[i := 'A'];
      StarsFilled(t, i, 'A');
      s.SetCharAt(i, ALPHABET[0]);
      assert s.chars == u;
      Solve(s, idx, out);
      FirstLetterDone(t, i);
      LaterLettersLoop(s, idx, i, out, t);
      CheckedAppend(Criteria(), found0, lines0, Visits(u, idx), VisitsOfAll(LaterLetters(t, i), idx));
      WrittenVisitsSplit(t, i, idx);
    }

    /** Letters B..Z of the as-written loop: the buffer holds the 'Z' fill but for 'A' at i. */
    method LaterLettersLoop(s: Buffer, idx: nat, i: nat, out: Console, ghost t: string)
      requires idx < |t| && i < |t| && t[i] == BLANK
      requires s.chars == Filled(t, 'Z')[i := Letter(0)]
      modifies s, found, out
      ensures s.chars == Filled(t, 'Z')
      ensures found.keys == Recorded(Criteria(), old(found.keys), VisitsOfAll(LaterLetters(t, i), idx))
      ensures out.lines == old(out.lines) + Printed(Criteria(), old(found.keys), VisitsOfAll(LaterLetters(t, i), idx))
      decreases |s.chars|, |s.chars| - idx, 0, 5
    {
      ghost var found0 := found.keys;
      ghost var lines0 := out.lines;
      ghost var tail := LaterLetters(t, i);
      ghost var done: seq<string> := [];
      assert tail[..0] == [];
      assert out.lines == lines0 + Printed(Criteria(), found0, done);
      var k := 1;
      while k < |ALPHABET|
        invariant 1 <= k <= 26
        invariant s.chars == Filled(t, 'Z')[i := Letter(k - 1)]
        invariant done == VisitsOfAll(tail[..k - 1], idx)
        invariant found.keys == Recorded(Criteria(), found0, done)
        invariant out.lines == lines0 + Printed(Criteria(), found0, done)
      {
        ghost var more := LaterLetter(s, idx, i, k, out, t, done);
        CheckedAppend(Criteria(), found0, lines0, done, more);
        done := done + more;
        k := k + 1;
      }
      LaterLettersDone(t, i);
    }

    /**
     * One later letter of the as-written loop: the wildcard at i, which holds
     * Letter(k - 1), is set to Letter(k) and the now wildcard-free buffer is solved.
     */
    method LaterLetter(s: Buffer, idx: nat, i: nat, k: nat, out: Console, ghost t: string, ghost done: seq<string>)
      returns (ghost more: seq<string>)
      requires idx < |t| && i < |t| && t[i] == BLANK && 1 <= k < 26
      requires s.chars == Filled(t, 'Z')[i := Letter(k - 1)]
      requires done == VisitsOfAll(LaterLetters(t, i)[..k - 1], idx)
      modifies s, found, out
      ensures s.chars == Filled(t, 'Z')[i := Letter(k)]
      ensures done + more == VisitsOfAll(LaterLetters(t, i)[..k], idx)
      ensures found.keys == Recorded(Criteria(), old(found.keys), more)
      ensures out.lines == old(out.lines) + Printed(Criteria(), old(found.keys), more)
      decreases |s.chars|, |s.chars| - idx, 0, 4
    {
      s.SetCharAt(i, ALPHABET[k]);
      ghost var v := Filled(t, 'Z')[i := Letter(k)];
      assert s.chars == v;
      LaterLetterStep(t, i, k, idx, done);
      StarsZero(v);
      Solve(s, idx, out);
      more := Visits(v, idx);
    }

    /** The alphabet loop at the first wildcard i, followed by putting the wildcard back. */
    method RestoringLetters(s: Buffer, idx: nat, i: nat, out: Console)
      requires idx < |s.chars| && i == FirstBlankIn(s.chars) < |s.chars|
      modifies s, found, out
      ensures s.chars == old(s.chars)
      ensures found.keys == Recorded(Criteria(), old(found.keys), RestoredVisits(old(s.chars), idx))
      ensures out.lines == old(out.lines) + Printed(Criteria(), old(found.keys), RestoredVisits(old(s.chars), idx))
      decreases |s.chars|, |s.chars| - idx, Stars(s.chars), 2
    {
      ghost var t := s.chars;
      ghost var found0 := found.keys;
      ghost var lines0 := out.lines;
      StarsFilled(t, i, 'A');
      s.SetCharAt(i, ALPHABET[0]);
      SolveRestoringBlanks(s, idx, out);
      ghost var done := RestoredVisits(t[i := Letter(0)], idx);
      assert [] + VisitsOfAll(ExpandAt(t, i, 0), idx) == VisitsOfAll(ExpandAt(t, i, 0), idx);
      RestoredStep(t, i, 0, idx, []);
      assert [] + done == done;
      var k := 1;
      while k < |ALPHABET|
        invariant 1 <= k <= 26
        invariant s.chars == t[i := Letter(k - 1)] && Stars(s.chars) == Stars(t) - 1
        invariant VisitsOfAll(ExpandAt(t, i, 0), idx) == done + VisitsOfAll(ExpandAt(t, i, k), idx)
        invariant found.keys == Recorded(Criteria(), found0, done)
        invariant out.lines == lines0 + Printed(Criteria(), found0, done)
      {
        ghost var more := RestoringLetter(s, idx, i, k, out, t);
        RestoredStep(t, i, k, idx, done);
        CheckedAppend(Criteria(), found0, lines0, done, more);
        done := done + more;
        k := k + 1;
      }
      s.SetCharAt(i, BLANK);
      assert s.chars == t;
      assert done + [] == done;
    }

    /** One later letter k at wildcard i: the buffer moves from Letter(k - 1) to Letter(k) and that fill is solved. */
    method RestoringLetter(s: Buffer, idx: nat, i: nat, k: nat, out: Console, ghost t: string)
      returns (ghost more: seq<string>)
      requires idx < |t| && i < |t| && t[i] == BLANK && 1 <= k < 26
      requires s.chars == t[i := Letter(k - 1)] && Stars(s.chars) == Stars(t) - 1
      modifies s, found, out
      ensures s.chars == t[i := Letter(k)] && Stars(s.chars) == Stars(t) - 1
      ensures more == RestoredVisits(t[i := Letter(k)], idx)
      ensures found.keys == Recorded(Criteria(), old(found.keys), more)
      ensures out.lines == old(out.lines) + Printed(Criteria(), old(found.keys), more)
      decreases |s.chars|, |s.chars| - idx, Stars(s.chars), 4
    {
      s.SetCharAt(i, ALPHABET[k]);
      assert s.chars == t[i := Letter(k)];
      StarsFilled(t, i, Letter(k));
      SolveRestoringBlanks(s, idx, out);
      more := RestoredVisits(t[i := Letter(k)], idx);
    }
  }
}
