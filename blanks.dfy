/**
 * Blanks: resolving wildcard tiles into letters by exhaustive branching.
 *
 * `Expansions(t)` is the intended expansion: the first wildcard is set to each
 * of A..Z in turn and the rest of the sequence is expanded recursively, so the
 * leftmost wildcard varies slowest. `WrittenExpansions(t)` is what the two
 * engines' loops actually hand on: neither puts the '*' back after its letter
 * loop, so after the first letter every later wildcard has been left at 'Z'.
 */
module Blanks {
  import opened Tiles

  /** e resolves every wildcard of t to a letter and keeps every other tile. */
  predicate IsFill(e: string, t: string)
  {
    |e| == |t| &&
    forall p :: 0 <= p < |t| ==> if t[p] == BLANK then IsLetter(e[p]) else e[p] == t[p]
  }

  /** The intended expansion of t: every fill, first wildcard slowest. */
  function Expansions(t: string): seq<string>
    decreases Stars(t), 1, 0
  {
    var i := FirstBlankIn(t);
    if i == |t| then [t] else ExpandAt(t, i, 0)
  }

  /** The expansions produced by letters k..Z at wildcard position i. */
  function ExpandAt(t: string, i: nat, k: nat): seq<string>
    requires i < |t| && t[i] == BLANK && k <= 26
    decreases Stars(t), 0, 26 - k
  {
    if k == 26 then [] else Expansions(t[i := Letter(k)]) + ExpandAt(t, i, k + 1)
  }

  // ----- count -----

  /** A sequence with k wildcards has exactly 26^k expansions. */
  lemma {:induction false} ExpansionsCount(t: string)
    ensures |Expansions(t)| == Pow(26, Stars(t))
    decreases Stars(t), 1, 0
  {
    var i := FirstBlankIn(t);
    if i == |t| {
      StarsZero(t);
    } else {
      ExpandAtCount(t, i, 0);
    }
  }

  lemma {:induction false} ExpandAtCount(t: string, i: nat, k: nat)
    requires i < |t| && t[i] == BLANK && k <= 26
    ensures Stars(t) >= 1
    ensures |ExpandAt(t, i, k)| == (26 - k) * Pow(26, Stars(t) - 1)
    decreases Stars(t), 0, 26 - k
  {
    if k < 26 {
      var u := t[i := Letter(k)];
      StarsFilled(t, i, Letter(k));
      ExpansionsCount(u);
      ExpandAtCount(t, i, k + 1);
      var p := Pow(26, Stars(t) - 1);
      assert (26 - k) * p == p + (26 - (k + 1)) * p;
    } else {
      StarsFilled(t, i, 'A');
    }
  }

  // ----- soundness and completeness -----

  /** Every expansion is a fill of t; a wildcard-free t is its own only expansion. */
  lemma {:induction false} ExpansionsAreFills(t: string)
    ensures forall e :: e in Expansions(t) ==> IsFill(e, t)
    ensures NoBlanks(t) ==> Expansions(t) == [t]
    decreases Stars(t), 1, 0
  {
    var i := FirstBlankIn(t);
    if i < |t| {
      ExpandAtAreFills(t, i, 0);
    }
  }

  lemma {:induction false} ExpandAtAreFills(t: string, i: nat, k: nat)
    requires i < |t| && t[i] == BLANK && k <= 26
    ensures forall e :: e in ExpandAt(t, i, k) ==> IsFill(e, t) && e[i] as int >= 65 + k
    decreases Stars(t), 0, 26 - k
  {
    if k < 26 {
      var u := t[i := Letter(k)];
      ExpansionsAreFills(u);
      ExpandAtAreFills(t, i, k + 1);
      forall e | e in Expansions(u)
        ensures IsFill(e, t) && e[i] == Letter(k)
      {
        assert IsFill(e, u);
      }
    }
  }

  /** Every fill of t is among its expansions. */
  lemma {:induction false} ExpansionsComplete(t: string, e: string)
    requires IsFill(e, t)
    ensures e in Expansions(t)
    decreases Stars(t), 1, 0
  {
    var i := FirstBlankIn(t);
    if i == |t| {
      assert e == t;
    } else {
      var k: nat := e[i] as int - 65;
      assert e[i] == Letter(k);
      ExpansionsComplete(t[i := Letter(k)], e);
      ExpandAtContains(t, i, 0, k);
    }
  }

  lemma {:induction false} ExpandAtContains(t: string, i: nat, k0: nat, k: nat)
    requires i < |t| && t[i] == BLANK && k0 <= k < 26
    ensures forall e :: e in Expansions(t[i := Letter(k)]) ==> e in ExpandAt(t, i, k0)
    decreases k - k0
  {
    if k0 < k {
      ExpandAtContains(t, i, k0 + 1, k);
    }
  }

  // ----- order -----

  /** a precedes b in dictionary order, comparing tiles from the left. */
  predicate LexLess(a: string, b: string)
  {
    exists p :: 0 <= p < |a| && p < |b| && a[..p] == b[..p] && a[p] < b[p]
  }

  predicate StrictlySorted(es: seq<string>)
  {
    forall j, k :: 0 <= j < k < |es| ==> LexLess(es[j], es[k])
  }

  /**
   * Expansions come out in strictly increasing dictionary order, which is to
   * say the leftmost wildcard varies slowest, and no expansion repeats.
   */
  lemma {:induction false} ExpansionsSorted(t: string)
    ensures StrictlySorted(Expansions(t))
    ensures forall j, k :: 0 <= j < k < |Expansions(t)| ==> Expansions(t)[j] != Expansions(t)[k]
    decreases Stars(t), 1, 0
  {
    var i := FirstBlankIn(t);
    if i < |t| {
      ExpandAtSorted(t, i, 0);
    }
    var es := Expansions(t);
    forall j, k | 0 <= j < k < |es|
      ensures es[j] != es[k]
    {
      var p :| 0 <= p < |es[j]| && p < |es[k]| && es[j][..p] == es[k][..p] && es[j][p] < es[k][p];
    }
  }

  lemma {:induction false} ExpandAtSorted(t: string, i: nat, k: nat)
    requires i == FirstBlankIn(t) && i < |t| && k <= 26
    ensures StrictlySorted(ExpandAt(t, i, k))
    decreases Stars(t), 0, 26 - k
  {
    if k < 26 {
      var u := t[i := Letter(k)];
      var a := Expansions(u);
      var b := ExpandAt(t, i, k + 1);
      ExpansionsSorted(u);
      ExpandAtSorted(t, i, k + 1);
      ExpansionsAreFills(u);
      ExpandAtAreFills(t, i, k + 1);
      forall x, y | x in a && y in b
        ensures LexLess(x, y)
      {
        assert IsFill(x, u) && IsFill(y, t);
        forall p | 0 <= p < i
          ensures x[p] == y[p]
        {
          assert t[p] != BLANK && u[p] == t[p];
        }
        assert x[..i] == y[..i];
        assert x[i] == Letter(k);
      }
      SortedConcat(a, b);
    }
  }

  lemma SortedConcat(a: seq<string>, b: seq<string>)
    requires StrictlySorted(a) && StrictlySorted(b)
    requires forall x, y :: x in a && y in b ==> LexLess(x, y)
    ensures StrictlySorted(a + b)
  {
    var c := a + b;
    forall j, k | 0 <= j < k < |c|
      ensures LexLess(c[j], c[k])
    {
      if k < |a| {
        assert c[j] == a[j] && c[k] == a[k];
      } else if j >= |a| {
        assert c[j] == b[j - |a|] && c[k] == b[k - |a|];
      } else {
        assert c[j] in a && c[k] in b;
      }
    }
  }

  // ----- the expansion the engines' loops actually perform -----

  /**
   * t with every wildcard set to the letter c: the 'A' fill is the first
   * sequence both loops hand on, the 'Z' fill the buffer the unrestored loops
   * leave behind.
   */
  function Filled(t: string, c: char): (r: string)
    ensures |r| == |t|
  {
    seq(|t|, p requires 0 <= p < |t| => if t[p] == BLANK then c else t[p])
  }

  /** A fill with one letter is a wildcard-free fill of t, and t itself when t has no wildcard. */
  lemma FilledFacts(t: string, c: char)
    requires IsLetter(c)
    ensures NoBlanks(Filled(t, c)) && IsFill(Filled(t, c), t)
    ensures forall p :: 0 <= p < |t| && t[p] == BLANK ==> Filled(t, c)[p] == c
    ensures NoBlanks(t) ==> Filled(t, c) == t
  {
  }

  /**
   * The sequences the as-written loop hands on: the first letter at the first
   * wildcard is followed by the full expansion of the rest, but each later
   * letter sees every other wildcard already set to 'Z'.
   */
  function WrittenExpansions(t: string): seq<string>
    decreases Stars(t)
  {
    var i := FirstBlankIn(t);
    if i == |t| then [t]
    else
      assert t[i] in multiset(t);
      WrittenExpansions(t[i := 'A']) + LaterLetters(t, i)
  }

  /** The letters B..Z at position i, every other wildcard already left at 'Z'. */
  function LaterLetters(t: string, i: nat): (r: seq<string>)
    requires i < |t|
    ensures |r| == 25
  {
    seq(25, k requires 0 <= k < 25 => Filled(t, 'Z')[i := Letter(k + 1)])
  }

  /** The as-written loop yields 1 + 25k sequences for k wildcards, not 26^k. */
  lemma {:induction false} WrittenExpansionsCount(t: string)
    ensures |WrittenExpansions(t)| == 1 + 25 * Stars(t)
    decreases Stars(t)
  {
    var i := FirstBlankIn(t);
    if i == |t| {
      StarsZero(t);
    } else {
      assert t[i] in multiset(t);
      WrittenExpansionsCount(t[i := 'A']);
    }
  }

  /** Everything the as-written loop yields is a genuine fill; it only misses some. */
  lemma {:induction false} WrittenExpansionsAreFills(t: string)
    ensures forall e :: e in WrittenExpansions(t) ==> IsFill(e, t)
    decreases Stars(t)
  {
    var i := FirstBlankIn(t);
    if i < |t| {
      assert t[i] in multiset(t);
      var u := t[i := 'A'];
      WrittenExpansionsAreFills(u);
      forall e | e in WrittenExpansions(u)
        ensures IsFill(e, t)
      {
        assert IsFill(e, u);
      }
      var z := Filled(t, 'Z');
      var tail := LaterLetters(t, i);
      forall k | 0 <= k < 25
        ensures IsFill(tail[k], t)
      {
      }
    }
  }

  /**
   * Once the first wildcard has moved past 'A', every other wildcard of the
   * as-written expansion is stuck at 'Z'.
   */
  lemma WrittenExpansionsStuckAtZ(t: string, e: string)
    requires FirstBlankIn(t) < |t|
    requires e in WrittenExpansions(t)
    ensures |e| == |t|
    ensures e[FirstBlankIn(t)] == 'A' ||
            forall j :: 0 <= j < |t| && t[j] == BLANK && j != FirstBlankIn(t) ==> e[j] == 'Z'
  {
    var i := FirstBlankIn(t);
    var u := t[i := 'A'];
    WrittenExpansionsAreFills(u);
    var tail := LaterLetters(t, i);
    assert WrittenExpansions(t) == WrittenExpansions(u) + tail;
    if e in WrittenExpansions(u) {
      assert IsFill(e, u);
    } else {
      var k :| 0 <= k < 25 && e == tail[k];
    }
  }

  /** With two wildcards, "BA" is a fill of "**" that the as-written loop never produces. */
  lemma WrittenExpansionsMissBA()
    ensures IsFill("BA", "**")
    ensures "BA" in Expansions("**")
    ensures "BA" !in WrittenExpansions("**")
  {
    assert IsFill("BA", "**");
    ExpansionsComplete("**", "BA");
    assert FirstBlankIn("**") == 0;
    if "BA" in WrittenExpansions("**") {
      WrittenExpansionsStuckAtZ("**", "BA");
      assert false;
    }
  }

  /**
   * With two wildcards, no sequence the unrestored loop hands on holds two
   * letters that are neither 'A' nor 'Z': the first is 'A' or the second is 'Z'.
   */
  lemma NoWrittenFillHolds(t: string, e: string, x: char, y: char)
    requires |t| == 2 && t[0] == BLANK && t[1] == BLANK
    requires e in WrittenExpansions(t)
    requires x != 'A' && x != 'Z' && y != 'A' && y != 'Z'
    ensures !(multiset{x, y} <= multiset(e))
  {
    WrittenPairShape(t, e);
    PairLacks(e, x, y);
  }

  /** With two wildcards, an as-written sequence starts with 'A' or ends with 'Z'. */
  lemma WrittenPairShape(t: string, e: string)
    requires |t| == 2 && t[0] == BLANK && t[1] == BLANK
    requires e in WrittenExpansions(t)
    ensures |e| == 2 && (e[0] == 'A' || e[1] == 'Z')
  {
    assert FirstBlankIn(t) == 0;
    WrittenExpansionsStuckAtZ(t, e);
  }

  /** A pair that starts with 'A' or ends with 'Z' cannot hold two letters other than those. */
  lemma PairLacks(e: string, x: char, y: char)
    requires |e| == 2 && (e[0] == 'A' || e[1] == 'Z')
    requires x != 'A' && x != 'Z' && y != 'A' && y != 'Z'
    ensures !(multiset{x, y} <= multiset(e))
  {
    assert multiset(e) == multiset{e[0], e[1]} by {
      assert e == [e[0]] + [e[1]];
    }
    LettersLack(e[0], e[1], x, y);
  }

  /** The same on the two letters themselves. */
  lemma LettersLack(a: char, b: char, x: char, y: char)
    requires a == 'A' || b == 'Z'
    requires x != 'A' && x != 'Z' && y != 'A' && y != 'Z'
    ensures !(multiset{x, y} <= multiset{a, b})
  {
  }

  // ----- the first expansion -----

  /** Setting one wildcard to 'A' first and then filling puts 'A' there; with 'A' it changes nothing. */
  lemma FilledSet(t: string, i: nat, c: char)
    requires i < |t| && t[i] == BLANK
    ensures Filled(t[i := 'A'], c) == Filled(t, c)[i := 'A']
    ensures Filled(t[i := 'A'], 'A') == Filled(t, 'A')
  {
  }

  /**
   * Both expansions begin with the all-'A' fill: it is the first sequence either
   * loop hands on.
   */
  lemma {:induction false} FirstExpansion(t: string)
    ensures |Expansions(t)| > 0 && Expansions(t)[0] == Filled(t, 'A')
    ensures |WrittenExpansions(t)| > 0 && WrittenExpansions(t)[0] == Filled(t, 'A')
    decreases Stars(t)
  {
    var i := FirstBlankIn(t);
    if i < |t| {
      assert t[i] in multiset(t);
      var u := t[i := 'A'];
      assert Letter(0) == 'A';
      FirstExpansion(u);
      FilledSet(t, i, 'A');
      assert Expansions(t) == Expansions(u) + ExpandAt(t, i, 1);
    } else {
      FilledFacts(t, 'A');
    }
  }

  /** After the last letter the first wildcard holds 'Z', as in the 'Z' fill, and the whole as-written list has been handed on. */
  lemma WrittenLoopDone(t: string, i: nat)
    requires i == FirstBlankIn(t) < |t|
    ensures Filled(t, 'Z')[i := Letter(25)] == Filled(t, 'Z')
    ensures WrittenExpansions(t) == WrittenExpansions(t[i := 'A']) + LaterLetters(t, i)[..25]
  {
    assert LaterLetters(t, i)[..25] == LaterLetters(t, i);
  }
}
