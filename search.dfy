/**
 * Search: the current engine (`Solver`).
 *
 * `solve` expands the wildcards, collects every non-empty subsequence of every
 * expansion as a "combination" while adding up the number of orderings (the
 * progress goal), then permutes each combination and checks every ordering
 * against the dictionary. Combinations of nine tiles or more are split, in
 * parallel mode, into one start point per choice of first tile.
 *
 * The streams run their branches one after another here, all under one thread
 * id; the results do not depend on the parallel flag.
 */
module Search {
  import opened Tiles
  import opened Blanks
  import opened Subsequences
  import opened Permutations
  import opened Matching
  import opened Progress

  /** Combinations at least this long are split into start points in parallel mode. */
  const PERMUTATION_PARALLEL_THRESH: nat := 9

  predicate IsLong(x: int)
  {
    -LONG_MAX - 1 <= x <= LONG_MAX
  }

  /** The list of combinations (Java's `List<StringBuilder>`), holding copies of the buffer. */
  class CombinationList {
    var items: seq<string>

    constructor ()
      ensures items == []
    {
      items := [];
    }

    method Add(c: string)
      modifies this
      ensures items == old(items) + [c]
    {
      items := items + [c];
    }
  }

  /**
   * Java's `AtomicLong`: a 64-bit accumulator that wraps on overflow. `exact` is
   * the unwrapped sum of everything added; `value` is always its 64-bit wrap.
   */
  class LongCounter {
    var value: int
    ghost var exact: int

    ghost predicate Valid()
      reads this
    {
      value == Wrap64(exact)
    }

    constructor (init: int)
      requires IsLong(init)
      ensures value == init && exact == init && Valid()
    {
      value := init;
      exact := init;
    }

    method AddAndGet(delta: int) returns (r: int)
      requires Valid()
      modifies this
      ensures value == Wrap64(old(value) + delta) && r == value
      ensures exact == old(exact) + delta && Valid()
    {
      WrapAdd(exact, delta);
      value := Wrap64(value + delta);
      exact := exact + delta;
      r := value;
    }

    method Get() returns (r: int)
      ensures r == value
    {
      r := value;
    }
  }

  // ----- getCombinations -----

  /** getCombinations(s, build, idx) meets an entry whose factorial is not a `long`. */
  predicate Overflows(s: string, build: string, idx: nat)
  {
    idx < |s| && |build| + (|s| - idx) > MAX_EXACT_FACTORIAL
  }

  /**
   * The entries appended before `longValueExact` throws: the search keeps taking
   * the next tile until the entry is longer than 20.
   */
  function LeftmostPath(s: string, build: string, idx: nat): (r: seq<string>)
    ensures idx < |s| ==> |r| > 0
    decreases |s| - idx
  {
    if idx >= |s| then []
    else [build + [s[idx]]] + (if |build| + 1 > MAX_EXACT_FACTORIAL then [] else LeftmostPath(s, build + [s[idx]], idx + 1))
  }

  /**
   * When it overflows, the entries appended are build followed by the next 1, 2, ...
   * tiles of s, and the last one, on which the exception is thrown, has 21 tiles.
   */
  lemma LeftmostPathShape(s: string, build: string, idx: nat)
    requires Overflows(s, build, idx) && |build| <= MAX_EXACT_FACTORIAL
    ensures |LeftmostPath(s, build, idx)| == MAX_EXACT_FACTORIAL + 1 - |build|
    ensures forall j :: 0 <= j < |LeftmostPath(s, build, idx)| ==>
              LeftmostPath(s, build, idx)[j] == build + s[idx..idx + j + 1]
  {
    LeftmostPathLength(s, build, idx);
    forall j | 0 <= j < |LeftmostPath(s, build, idx)|
      ensures LeftmostPath(s, build, idx)[j] == build + s[idx..idx + j + 1]
    {
      LeftmostPathEntry(s, build, idx, j);
    }
  }

  lemma {:induction false} LeftmostPathLength(s: string, build: string, idx: nat)
    requires Overflows(s, build, idx) && |build| <= MAX_EXACT_FACTORIAL
    ensures |LeftmostPath(s, build, idx)| == MAX_EXACT_FACTORIAL + 1 - |build|
    decreases |s| - idx
  {
    if |build| + 1 <= MAX_EXACT_FACTORIAL {
      LeftmostPathLength(s, build + [s[idx]], idx + 1);
    }
  }

  lemma {:induction false} LeftmostPathEntry(s: string, build: string, idx: nat, j: nat)
    requires Overflows(s, build, idx) && |build| + j <= MAX_EXACT_FACTORIAL
    ensures j < |LeftmostPath(s, build, idx)|
    ensures LeftmostPath(s, build, idx)[j] == build + s[idx..idx + j + 1]
    decreases j
  {
    var b1 := build + [s[idx]];
    if j == 0 {
      assert s[idx..idx + 1] == [s[idx]];
    } else {
      assert Overflows(s, b1, idx + 1);
      LeftmostPathEntry(s, b1, idx + 1, j - 1);
      var rest := s[idx + 1..idx + j + 1];
      assert LeftmostPath(s, build, idx) == [b1] + LeftmostPath(s, b1, idx + 1);
      assert LeftmostPath(s, build, idx)[j] == b1 + rest;
      assert s[idx..idx + j + 1] == [s[idx]] + rest;
      AppendAssoc(build, [s[idx]], rest);
    }
  }

  /** `BigIntegerMath.factorial(n).longValueExact()`: n! when it fits a `long`, an exception otherwise. */
  method FactorialExact(n: nat) returns (f: int, exact: bool)
    ensures exact <==> n <= MAX_EXACT_FACTORIAL
    ensures exact ==> f == Fact(n) && IsLong(f)
  {
    f := Fact(n);
    FactFitsLong(n);
    exact := f <= LONG_MAX;
  }

  /** Models getCombinations: appends CombosFrom(s, build, idx) and adds up their factorials. */
  method GetCombinations(s: Buffer, build: Buffer, idx: nat, combinations: CombinationList, total: LongCounter)
    returns (ok: bool)
    requires s != build
    requires total.Valid()
    modifies build, combinations, total
    ensures total.Valid()
    ensures ok <==> !Overflows(s.chars, old(build.chars), idx)
    ensures ok ==>
      build.chars == old(build.chars) &&
      combinations.items == old(combinations.items) + CombosFrom(s.chars, old(build.chars), idx) &&
      total.exact == old(total.exact) + FactSum(CombosFrom(s.chars, old(build.chars), idx))
    ensures !ok ==> combinations.items == old(combinations.items) + LeftmostPath(s.chars, old(build.chars), idx)
    decreases |s.chars| - idx, 1
  {
    ghost var S := s.chars;
    ghost var b0 := build.chars;
    ghost var items0 := combinations.items;
    ghost var v0 := total.exact;
    ghost var done: seq<string> := [];
    var i := idx;
    while i < |s.chars|
      invariant s.chars == S
      invariant idx <= i && (idx <= |S| ==> i <= |S|)
      invariant build.chars == b0
      invariant CombosFrom(S, b0, idx) == done + CombosFrom(S, b0, i)
      invariant combinations.items == items0 + done
      invariant total.Valid() && total.exact == v0 + FactSum(done)
      invariant i > idx ==> !Overflows(S, b0, idx)
      invariant i == idx ==> done == []
    {
      ok := Extend(s, build, i, combinations, total);
      if !ok {
        assert i == idx;
        return;
      }
      ghost var part := [b0 + [S[i]]] + CombosFrom(S, b0 + [S[i]], i + 1);
      DoneStep(S, b0, idx, i, items0, done, part);
      done := done + part;
      i := i + 1;
    }
    assert CombosFrom(S, b0, i) == [];
    assert done == CombosFrom(S, b0, idx);
    ok := true;
  }

  /**
   * One iteration of getCombinations' loop at position i: append s[i] to build,
   * record the copy and its factorial, recurse from i + 1, and drop the tile again.
   */
  method Extend(s: Buffer, build: Buffer, i: nat, combinations: CombinationList, total: LongCounter)
    returns (ok: bool)
    requires s != build && i < |s.chars|
    requires total.Valid()
    modifies build, combinations, total
    ensures total.Valid()
    ensures ok <==> !Overflows(s.chars, old(build.chars), i)
    ensures ok ==>
      var e := old(build.chars) + [s.chars[i]];
      var part := [e] + CombosFrom(s.chars, e, i + 1);
      build.chars == old(build.chars) &&
      combinations.items == old(combinations.items) + part &&
      total.exact == old(total.exact) + FactSum(part)
    ensures !ok ==> combinations.items == old(combinations.items) + LeftmostPath(s.chars, old(build.chars), i)
    decreases |s.chars| - i, 0
  {
    ghost var S := s.chars;
    ghost var b0 := build.chars;
    ghost var items0 := combinations.items;
    var c := s.CharAt(i);
    build.Append(c);
    ghost var e := build.chars;
    OverflowStep(S, b0, i);
    combinations.Add(build.chars);
    var f, exact := FactorialExact(|build.chars|);
    if !exact {
      // `longValueExact` throws: the entry has been added, its count has not.
      ok := false;
      return;
    }
    var _ := total.AddAndGet(f);
    ok := GetCombinations(s, build, i + 1, combinations, total);
    if !ok {
      AppendAssoc(items0, [e], LeftmostPath(S, e, i + 1));
      return;
    }
    ghost var inner := CombosFrom(S, e, i + 1);
    SingleFactSum(e, inner);
    AppendAssoc(items0, [e], inner);
    build.DeleteCharAt(|build.chars| - 1);
    DropLast(b0, c);
  }

  /** Taking the tile at i: an entry too long overflows at once, otherwise overflow and the leftmost path move on to i + 1. */
  lemma OverflowStep(s: string, build: string, i: nat)
    requires i < |s|
    ensures var e := build + [s[i]];
      (|e| > MAX_EXACT_FACTORIAL ==> Overflows(s, build, i) && LeftmostPath(s, build, i) == [e]) &&
      (|e| <= MAX_EXACT_FACTORIAL ==>
        (Overflows(s, build, i) <==> Overflows(s, e, i + 1)) &&
        LeftmostPath(s, build, i) == [e] + LeftmostPath(s, e, i + 1))
  {
  }

  lemma CombosStep(s: string, build: string, idx: nat, i: nat, done: seq<string>)
    requires idx <= i < |s| && CombosFrom(s, build, idx) == done + CombosFrom(s, build, i)
    ensures CombosFrom(s, build, idx) ==
            (done + ([build + [s[i]]] + CombosFrom(s, build + [s[i]], i + 1))) + CombosFrom(s, build, i + 1)
  {
  }

  /** The bookkeeping of one finished iteration: the part just appended joins `done`. */
  lemma DoneStep(s: string, build: string, idx: nat, i: nat, items0: seq<string>, done: seq<string>, part: seq<string>)
    requires idx <= i < |s| && CombosFrom(s, build, idx) == done + CombosFrom(s, build, i)
    requires part == [build + [s[i]]] + CombosFrom(s, build + [s[i]], i + 1)
    ensures CombosFrom(s, build, idx) == (done + part) + CombosFrom(s, build, i + 1)
    ensures FactSum(done + part) == FactSum(done) + FactSum(part)
    ensures (items0 + done) + part == items0 + (done + part)
  {
    CombosStep(s, build, idx, i, done);
    FactSumAppend(done, part);
  }

  lemma SingleFactSum(e: string, inner: seq<string>)
    ensures FactSum([e] + inner) == Fact(|e|) + FactSum(inner)
  {
    assert ([e] + inner)[1..] == inner;
  }

  lemma DropLast(b: string, c: char)
    ensures Deleted(b + [c], |b|) == b
  {
    assert (b + [c])[..|b|] == b;
  }


  // ----- getCombinationswithBlanks -----

  /** The combinations of each of es in turn, as getCombinations(e, "", 0) appends them. */
  function CombosOfAll(es: seq<string>): seq<string>
  {
    if es == [] then [] else CombosFrom(es[0], [], 0) + CombosOfAll(es[1..])
  }

  lemma {:induction false} CombosOfAllAppend(a: seq<string>, b: seq<string>)
    ensures CombosOfAll(a + b) == CombosOfAll(a) + CombosOfAll(b)
    decreases |a|
  {
    if a == [] {
      assert a + b == b;
    } else {
      assert (a + b)[1..] == a[1..] + b;
      CombosOfAllAppend(a[1..], b);
      AppendAssoc(CombosFrom(a[0], [], 0), CombosOfAll(a[1..]), CombosOfAll(b));
    }
  }

  /** An entry of the whole list comes from one of the sequences. */
  lemma {:induction false} InCombosOfAll(es: seq<string>, c: string)
    ensures c in CombosOfAll(es) <==> exists m :: 0 <= m < |es| && c in CombosFrom(es[m], [], 0)
    decreases |es|
  {
    if es != [] {
      InCombosOfAll(es[1..], c);
      if exists m :: 0 <= m < |es| && c in CombosFrom(es[m], [], 0) {
        var m :| 0 <= m < |es| && c in CombosFrom(es[m], [], 0);
        if m > 0 {
          assert es[1..][m - 1] == es[m];
        }
      }
      if exists m :: 0 <= m < |es[1..]| && c in CombosFrom(es[1..][m], [], 0) {
        var m :| 0 <= m < |es[1..]| && c in CombosFrom(es[1..][m], [], 0);
        assert es[m + 1] == es[1..][m];
      }
    }
  }

  lemma CombosOfOne(e: string)
    ensures CombosOfAll([e]) == CombosFrom(e, [], 0)
  {
    assert [e][1..] == [];
  }

  /**
   * Models getCombinationswithBlanks as written: the first wildcard is set to
   * A..Z in turn and never put back, so the buffer ends with every wildcard at
   * 'Z' and only WrittenExpansions(s) are enumerated.
   */
  method GetCombinationsWithBlanks(s: Buffer, combinations: CombinationList, total: LongCounter) returns (ok: bool)
    requires total.Valid()
    modifies s, combinations, total
    ensures total.Valid()
    ensures ok <==> |old(s.chars)| <= MAX_EXACT_FACTORIAL
    ensures ok ==>
      s.chars == Filled(old(s.chars), 'Z') &&
      combinations.items == old(combinations.items) + CombosOfAll(WrittenExpansions(old(s.chars))) &&
      total.exact == old(total.exact) + FactSum(CombosOfAll(WrittenExpansions(old(s.chars))))
    ensures !ok ==>
      s.chars == Filled(old(s.chars), 'A') &&
      combinations.items == old(combinations.items) + LeftmostPath(Filled(old(s.chars), 'A'), [], 0)
    decreases Stars(s.chars), 1
  {
    ghost var t := s.chars;
    var i := FirstBlank(s);
    if i < |s.chars| {
      ok := WrittenLetters(s, i, combinations, total);
      return;
    }
    var build := new Buffer([]);
    ok := GetCombinations(s, build, 0, combinations, total);
    ExpansionsOfFill(t);
  }

  /** The as-written loop over the alphabet at the first wildcard i; the wildcard is not restored. */
  method WrittenLetters(s: Buffer, i: nat, combinations: CombinationList, total: LongCounter) returns (ok: bool)
    requires i == FirstBlankIn(s.chars) < |s.chars|
    requires total.Valid()
    modifies s, combinations, total
    ensures total.Valid()
    ensures ok <==> |old(s.chars)| <= MAX_EXACT_FACTORIAL
    ensures ok ==>
      s.chars == Filled(old(s.chars), 'Z') &&
      combinations.items == old(combinations.items) + CombosOfAll(WrittenExpansions(old(s.chars))) &&
      total.exact == old(total.exact) + FactSum(CombosOfAll(WrittenExpansions(old(s.chars))))
    ensures !ok ==>
      s.chars == Filled(old(s.chars), 'A') &&
      combinations.items == old(combinations.items) + LeftmostPath(Filled(old(s.chars), 'A'), [], 0)
    decreases Stars(s.chars), 0
  {
    ghost var t := s.chars;
    ghost var items0 := combinations.items;
    ghost var x0 := total.exact;
    ghost var u := t[i := 'A'];
    ghost var tail := LaterLetters(t, i);
    ghost var done: seq<string> := [];
    StarsFilled(t, i, 'A');
    s.SetCharAt(i, ALPHABET[0]);
    assert s.chars == u;
    ok := GetCombinationsWithBlanks(s, combinations, total);
    if !ok {
      FilledSet(t, i, 'A');
      return;
    }
    FilledSet(t, i, 'Z');
    FilledFacts(u, 'Z');
    StarsZero(s.chars);
    assert tail[..0] == [] && WrittenExpansions(u) + [] == WrittenExpansions(u);
    done := CombosOfAll(WrittenExpansions(u));
    var k := 1;
    while k < |ALPHABET|
      invariant 1 <= k <= 26 && total.Valid() && ok && |t| <= MAX_EXACT_FACTORIAL
      invariant s.chars == Filled(t, 'Z')[i := Letter(k - 1)] && Stars(s.chars) == 0
      invariant done == CombosOfAll(WrittenExpansions(u) + tail[..k - 1])
      invariant combinations.items == items0 + done && total.exact == x0 + FactSum(done)
    {
      ghost var more := WrittenLetter(s, i, k, combinations, total, t, WrittenExpansions(u), done);
      FactSumAppend(done, more);
      AppendAssoc(items0, done, more);
      done := done + more;
      k := k + 1;
    }
    assert k == 26;
    WrittenLoopDone(t, i);
    assert s.chars == Filled(t, 'Z');
    assert done == CombosOfAll(WrittenExpansions(t));
  }

  /**
   * One later letter of the as-written loop: the wildcard at i, which holds
   * Letter(k - 1), is set to Letter(k) and the now wildcard-free buffer is
   * enumerated; more is what this adds to the as-written list.
   */
  method WrittenLetter(s: Buffer, i: nat, k: nat, combinations: CombinationList, total: LongCounter,
                       ghost t: string, ghost first: seq<string>, ghost done: seq<string>)
    returns (ghost more: seq<string>)
    requires i < |t| && t[i] == BLANK && 1 <= k < 26 && |t| <= MAX_EXACT_FACTORIAL
    requires s.chars == Filled(t, 'Z')[i := Letter(k - 1)] && Stars(s.chars) == 0
    requires done == CombosOfAll(first + LaterLetters(t, i)[..k - 1])
    requires total.Valid()
    modifies s, combinations, total
    ensures total.Valid()
    ensures s.chars == Filled(t, 'Z')[i := Letter(k)] && Stars(s.chars) == 0
    ensures done + more == CombosOfAll(first + LaterLetters(t, i)[..k])
    ensures combinations.items == old(combinations.items) + more
    ensures total.exact == old(total.exact) + FactSum(more)
    decreases Stars(s.chars), 2
  {
    s.SetCharAt(i, ALPHABET[k]);
    ghost var v := Filled(t, 'Z')[i := Letter(k)];
    assert s.chars == v;
    WrittenLetterStep(t, i, k, first, done);
    StarsZero(v);
    var ok := GetCombinationsWithBlanks(s, combinations, total);
    more := CombosOfAll(WrittenExpansions(v));
  }

  /** One later letter: a wildcard-free sequence that extends the as-written list by one entry. */
  lemma WrittenLetterStep(t: string, i: nat, k: nat, first: seq<string>, done: seq<string>)
    requires i < |t| && t[i] == BLANK && 1 <= k < 26
    requires done == CombosOfAll(first + LaterLetters(t, i)[..k - 1])
    ensures var v := Filled(t, 'Z')[i := Letter(k)];
      NoBlanks(v) && Filled(v, 'Z') == v &&
      done + CombosOfAll(WrittenExpansions(v)) == CombosOfAll(first + LaterLetters(t, i)[..k])
  {
    var v := Filled(t, 'Z')[i := Letter(k)];
    var tail := LaterLetters(t, i);
    FilledFacts(t, 'Z');
    assert NoBlanks(v);
    assert FirstBlankIn(v) == |v|;
    assert tail[..k] == tail[..k - 1] + [v];
    assert first + tail[..k] == (first + tail[..k - 1]) + [v];
    CombosOfAllAppend(first + tail[..k - 1], [v]);
    ExpansionsOfFill(v);
  }

  /** A wildcard-free sequence is its own only expansion, either way. */
  lemma ExpansionsOfFill(t: string)
    requires NoBlanks(t)
    ensures Expansions(t) == [t] && WrittenExpansions(t) == [t]
    ensures CombosOfAll([t]) == CombosFrom(t, [], 0)
    ensures Filled(t, 'Z') == t && Filled(t, 'A') == t
  {
    assert FirstBlankIn(t) == |t|;
    ExpansionsAreFills(t);
    CombosOfOne(t);
    FilledFacts(t, 'Z');
    FilledFacts(t, 'A');
  }

  // ----- the corrected wildcard loop -----

  /**
   * getCombinationswithBlanks with the wildcard put back after its letter
   * loop: every fill of s is enumerated, first wildcard slowest, and the
   * buffer comes back unchanged.
   */
  method GetCombinationsWithBlanksRestoring(s: Buffer, combinations: CombinationList, total: LongCounter)
    returns (ok: bool)
    requires total.Valid()
    modifies s, combinations, total
    ensures total.Valid()
    ensures ok <==> |old(s.chars)| <= MAX_EXACT_FACTORIAL
    ensures ok ==>
      s.chars == old(s.chars) &&
      combinations.items == old(combinations.items) + CombosOfAll(Expansions(old(s.chars))) &&
      total.exact == old(total.exact) + FactSum(CombosOfAll(Expansions(old(s.chars))))
    ensures !ok ==>
      s.chars == Filled(old(s.chars), 'A') &&
      combinations.items == old(combinations.items) + LeftmostPath(Filled(old(s.chars), 'A'), [], 0)
    decreases Stars(s.chars), 1
  {
    ghost var t := s.chars;
    var i := FirstBlank(s);
    if i < |s.chars| {
      ok := RestoringLetters(s, i, combinations, total);
      return;
    }
    var build := new Buffer([]);
    ok := GetCombinations(s, build, 0, combinations, total);
    ExpansionsOfFill(t);
  }

  /** The letter loop at the first wildcard i, followed by putting the wildcard back. */
  method RestoringLetters(s: Buffer, i: nat, combinations: CombinationList, total: LongCounter)
    returns (ok: bool)
    requires i == FirstBlankIn(s.chars) < |s.chars|
    requires total.Valid()
    modifies s, combinations, total
    ensures total.Valid()
    ensures ok <==> |old(s.chars)| <= MAX_EXACT_FACTORIAL
    ensures ok ==>
      s.chars == old(s.chars) &&
      combinations.items == old(combinations.items) + CombosOfAll(Expansions(old(s.chars))) &&
      total.exact == old(total.exact) + FactSum(CombosOfAll(Expansions(old(s.chars))))
    ensures !ok ==>
      s.chars == Filled(old(s.chars), 'A') &&
      combinations.items == old(combinations.items) + LeftmostPath(Filled(old(s.chars), 'A'), [], 0)
    decreases Stars(s.chars), 0
  {
    ghost var t := s.chars;
    ghost var items0 := combinations.items;
    ghost var x0 := total.exact;
    StarsFilled(t, i, 'A');
    s.SetCharAt(i, ALPHABET[0]);
    ok := GetCombinationsWithBlanksRestoring(s, combinations, total);
    if !ok {
      FilledSet(t, i, 'A');
      return;
    }
    ghost var done := CombosOfAll(Expansions(t[i := Letter(0)]));
    assert [] + CombosOfAll(ExpandAt(t, i, 0)) == CombosOfAll(ExpandAt(t, i, 0));
    RestoringStep(t, i, 0, []);
    assert [] + done == done;
    var k := 1;
    while k < |ALPHABET|
      invariant 1 <= k <= 26 && total.Valid() && ok && |t| <= MAX_EXACT_FACTORIAL
      invariant s.chars == t[i := Letter(k - 1)] && Stars(s.chars) == Stars(t) - 1
      invariant CombosOfAll(ExpandAt(t, i, 0)) == done + CombosOfAll(ExpandAt(t, i, k))
      invariant combinations.items == items0 + done && total.exact == x0 + FactSum(done)
    {
      ghost var more := RestoringLetter(s, i, k, combinations, total, t);
      RestoringStep(t, i, k, done);
      FactSumAppend(done, more);
      AppendAssoc(items0, done, more);
      done := done + more;
      k := k + 1;
    }
    s.SetCharAt(i, BLANK);
    assert s.chars == t;
    assert done + [] == done;
  }

  /** One later letter k at wildcard i: the buffer moves from Letter(k - 1) to Letter(k) and that fill is expanded. */
  method RestoringLetter(s: Buffer, i: nat, k: nat, combinations: CombinationList, total: LongCounter, ghost t: string)
    returns (ghost more: seq<string>)
    requires i < |t| && t[i] == BLANK && 1 <= k < 26 && |t| <= MAX_EXACT_FACTORIAL
    requires s.chars == t[i := Letter(k - 1)] && Stars(s.chars) == Stars(t) - 1
    requires total.Valid()
    modifies s, combinations, total
    ensures total.Valid()
    ensures s.chars == t[i := Letter(k)] && Stars(s.chars) == Stars(t) - 1
    ensures more == CombosOfAll(Expansions(t[i := Letter(k)]))
    ensures combinations.items == old(combinations.items) + more
    ensures total.exact == old(total.exact) + FactSum(more)
    decreases Stars(s.chars), 2
  {
    s.SetCharAt(i, ALPHABET[k]);
    assert s.chars == t[i := Letter(k)];
    StarsFilled(t, i, Letter(k));
    var ok := GetCombinationsWithBlanksRestoring(s, combinations, total);
    more := CombosOfAll(Expansions(t[i := Letter(k)]));
  }

  /** The letters from k on contribute letter k's expansions, then the letters after it. */
  lemma RestoringStep(t: string, i: nat, k: nat, done: seq<string>)
    requires i < |t| && t[i] == BLANK && k < 26
    requires CombosOfAll(ExpandAt(t, i, 0)) == done + CombosOfAll(ExpandAt(t, i, k))
    ensures CombosOfAll(ExpandAt(t, i, 0)) ==
            (done + CombosOfAll(Expansions(t[i := Letter(k)]))) + CombosOfAll(ExpandAt(t, i, k + 1))
  {
    CombosOfAllAppend(Expansions(t[i := Letter(k)]), ExpandAt(t, i, k + 1));
    AppendAssoc(done, CombosOfAll(Expansions(t[i := Letter(k)])), CombosOfAll(ExpandAt(t, i, k + 1)));
  }
}
