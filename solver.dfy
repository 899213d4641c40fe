/**
 * Engine: the `Solver` object and its `Builder`.
 *
 * A solver holds the dictionary, the parallel flag, the minimum printed length
 * and the pattern. `Solve` expands the wildcards of the input, collects the
 * combinations and the permutation goal, permutes every combination through
 * `Permute`, and reports the solutions found and the permutations processed.
 * `Solve` expands the wildcards as the code is written, never putting a `*`
 * back; `SolveRestoring` is the same run with the corrected expansion.
 */
module Engine {
  import opened Tiles
  import opened Blanks
  import opened Subsequences
  import opened Permutations
  import opened Matching
  import opened Progress
  import opened Search

  /** The default pattern `[A-Z]+`, matched against the whole candidate. */
  predicate UpperCaseWord(w: string)
  {
    |w| > 0 && forall k :: 0 <= k < |w| ==> 'A' <= w[k] <= 'Z'
  }

  /** What `solve` ends with: an input too long for an exact factorial aborts the run. */
  datatype Outcome =
    | Overflow
    | Summary(solutions: set<string>, processed: int, goal: int)

  class Solver {
    const dictionary: set<string>
    const parallel: bool
    const minCharacters: int
    const regex: string -> bool

    constructor (parallel: bool, minCharacters: int, regex: string -> bool, dictionary: set<string>)
      ensures this.parallel == parallel && this.minCharacters == minCharacters
      ensures this.regex == regex && this.dictionary == dictionary
    {
      this.parallel := parallel;
      this.minCharacters := minCharacters;
      this.regex := regex;
      this.dictionary := dictionary;
    }

    /** The test every ordering goes through. */
    function Criteria(): Filter
    {
      Filter(dictionary, minCharacters, regex)
    }

    /**
     * permute(s, idx): every ordering of s[idx..] behind the fixed prefix s[..idx]
     * is checked, in the order `Leaves` lists them; the buffer comes back
     * unchanged and the reporter is credited once per ordering.
     */
    method Permute(s: Buffer, idx: nat, solutions: SolutionMap, out: Console, reporter: StatusReporter, tid: int)
      requires idx <= |s.chars| && reporter.Valid()
      modifies s, solutions, out, reporter
      ensures reporter.Valid()
      ensures s.chars == old(s.chars)
      ensures solutions.keys == Recorded(Criteria(), old(solutions.keys), Leaves(old(s.chars), idx))
      ensures out.lines == old(out.lines) + Printed(Criteria(), old(solutions.keys), Leaves(old(s.chars), idx))
      ensures reporter.counts == Credited(old(reporter.counts), tid, |Leaves(old(s.chars), idx)|)
      ensures reporter.threads == Registered(old(reporter.threads), tid)
      ensures reporter.Total() == old(reporter.Total()) + |Leaves(old(s.chars), idx)|
      ensures reporter.count == old(reporter.count) && reporter.spinnerPos == old(reporter.spinnerPos)
      decreases |s.chars| - idx, 2
    {
      if idx == |s.chars| {
        Check(s.chars, solutions, out, reporter, tid);
        assert Leaves(s.chars, idx) == [s.chars];
        return;
      }
      PermuteLoop(s, idx, solutions, out, reporter, tid);
    }

    /** permute's loop: for i from idx, swap idx and i, permute from idx + 1, swap back. */
    method PermuteLoop(s: Buffer, idx: nat, solutions: SolutionMap, out: Console, reporter: StatusReporter, tid: int)
      requires idx < |s.chars| && reporter.Valid()
      modifies s, solutions, out, reporter
      ensures reporter.Valid()
      ensures s.chars == old(s.chars)
      ensures solutions.keys == Recorded(Criteria(), old(solutions.keys), Leaves(old(s.chars), idx))
      ensures out.lines == old(out.lines) + Printed(Criteria(), old(solutions.keys), Leaves(old(s.chars), idx))
      ensures reporter.counts == Credited(old(reporter.counts), tid, |Leaves(old(s.chars), idx)|)
      ensures reporter.threads == Registered(old(reporter.threads), tid)
      ensures reporter.Total() == old(reporter.Total()) + |Leaves(old(s.chars), idx)|
      ensures reporter.count == old(reporter.count) && reporter.spinnerPos == old(reporter.spinnerPos)
      decreases |s.chars| - idx, 1
    {
      ghost var t := s.chars;
      ghost var keys0 := solutions.keys;
      ghost var lines0 := out.lines;
      ghost var counts0 := reporter.counts;
      ghost var threads0 := reporter.threads;
      ghost var total0 := reporter.Total();
      ghost var done := Branch(s, idx, idx, solutions, out, reporter, tid);
      assert Leaves(t, idx) == done + Branches(t, idx, idx + 1);
      var i := idx + 1;
      while i < |s.chars|
        invariant idx < i <= |s.chars| == |t| && s.chars == t && reporter.Valid()
        invariant Leaves(t, idx) == done + Branches(t, idx, i)
        invariant solutions.keys == Recorded(Criteria(), keys0, done)
        invariant out.lines == lines0 + Printed(Criteria(), keys0, done)
        invariant reporter.counts == Credited(counts0, tid, |done|) && reporter.threads == Registered(threads0, tid)
        invariant reporter.count == old(reporter.count) && reporter.spinnerPos == old(reporter.spinnerPos)
      {
        ghost var counts1 := reporter.counts;
        ghost var leaves := Branch(s, idx, i, solutions, out, reporter, tid);
        CheckedAppend(Criteria(), keys0, lines0, done, leaves);
        BranchesStep(t, idx, i, done, leaves);
        CreditedAfter(counts0, counts1, reporter.counts, tid, |done|, |leaves|, |done + leaves|);
        done := done + leaves;
        i := i + 1;
      }
      assert Branches(t, idx, i) == [];
      assert done + [] == done;
      CreditedSum(counts0, threads0, tid, |done|);
    }

    /** One iteration of permute's loop: swap idx and i, permute from idx + 1, swap back. */
    method Branch(s: Buffer, idx: nat, i: nat, solutions: SolutionMap, out: Console, reporter: StatusReporter, tid: int)
      returns (ghost leaves: seq<string>)
      requires idx <= i < |s.chars| && reporter.Valid()
      modifies s, solutions, out, reporter
      ensures leaves == Leaves(Swapped(old(s.chars), idx, i), idx + 1)
      ensures reporter.Valid()
      ensures s.chars == old(s.chars)
      ensures solutions.keys == Recorded(Criteria(), old(solutions.keys), leaves)
      ensures out.lines == old(out.lines) + Printed(Criteria(), old(solutions.keys), leaves)
      ensures reporter.counts == Credited(old(reporter.counts), tid, |leaves|)
      ensures reporter.threads == Registered(old(reporter.threads), tid)
      ensures reporter.count == old(reporter.count) && reporter.spinnerPos == old(reporter.spinnerPos)
      decreases |s.chars| - idx, 0
    {
      ghost var t := s.chars;
      s.Swap(idx, i);
      leaves := Leaves(s.chars, idx + 1);
      Permute(s, idx + 1, solutions, out, reporter, tid);
      s.Swap(idx, i);
      SwappedTwice(t, idx, i);
    }

    /**
     * The check at a complete ordering: a dictionary word enters the solution
     * map, and is printed when it was new, long enough and on pattern; the
     * ordering is counted either way.
     */
    method Check(str: string, solutions: SolutionMap, out: Console, reporter: StatusReporter, tid: int)
      requires reporter.Valid()
      modifies solutions, out, reporter
      ensures reporter.Valid()
      ensures solutions.keys == Recorded(Criteria(), old(solutions.keys), [str])
      ensures out.lines == old(out.lines) + Printed(Criteria(), old(solutions.keys), [str])
      ensures reporter.counts == Credited(old(reporter.counts), tid, 1)
      ensures reporter.threads == Registered(old(reporter.threads), tid)
      ensures reporter.Total() == old(reporter.Total()) + 1
      ensures reporter.count == old(reporter.count) && reporter.spinnerPos == old(reporter.spinnerPos)
    {
      if str in dictionary {
        var absent := solutions.PutIfAbsent(str);
        if absent && |str| >= minCharacters && regex(str) {
          out.PrintLine(str);
        }
      }
      reporter.Increment(tid);
      assert [str][1..] == [];
    }

    /** The start points of a long combination: one copy per choice of first tile; the combination is restored. */
    method PermStartPoints(combination: Buffer) returns (points: seq<string>)
      modifies combination
      ensures combination.chars == old(combination.chars)
      ensures points == StartPoints(old(combination.chars))
    {
      ghost var t := combination.chars;
      points := [];
      var i := 0;
      while i < |combination.chars|
        invariant i <= |combination.chars| == |t| && combination.chars == t
        invariant points == StartPoints(t)[..i]
      {
        combination.Swap(0, i);
        points := points + [combination.chars];
        combination.Swap(0, i);
        SwappedTwice(t, 0, i);
        i := i + 1;
      }
    }
  
    /**
     * One combination, as the stream in `solve` handles it: in parallel mode a
     * combination of PERMUTATION_PARALLEL_THRESH tiles or more is split into its
     * start points, each permuted from index 1; otherwise it is permuted from 0.
     * Both ways reach the same orderings in the same order.
     */
    method PermuteCombination(combination: Buffer, solutions: SolutionMap, out: Console, reporter: StatusReporter, tid: int)
      requires reporter.Valid()
      modifies combination, solutions, out, reporter
      ensures reporter.Valid()
      ensures combination.chars == old(combination.chars)
      ensures solutions.keys == Recorded(Criteria(), old(solutions.keys), Leaves(old(combination.chars), 0))
      ensures out.lines == old(out.lines) + Printed(Criteria(), old(solutions.keys), Leaves(old(combination.chars), 0))
      ensures reporter.Total() == old(reporter.Total()) + |Leaves(old(combination.chars), 0)|
    {
      if !(parallel && |combination.chars| >= PERMUTATION_PARALLEL_THRESH) {
        Permute(combination, 0, solutions, out, reporter, tid);
        return;
      }
      ghost var t := combination.chars;
      var points := PermStartPoints(combination);
      PermutePoints(points, solutions, out, reporter, tid);
      SplitCoversPermutations(t);
    }

    /** The stream over the start points: each permuted from index 1 in a buffer of its own. */
    method PermutePoints(points: seq<string>, solutions: SolutionMap, out: Console, reporter: StatusReporter, tid: int)
      requires forall k :: 0 <= k < |points| ==> 1 <= |points[k]|
      requires reporter.Valid()
      modifies solutions, out, reporter
      ensures reporter.Valid()
      ensures solutions.keys == Recorded(Criteria(), old(solutions.keys), LeavesOfAll(points, 1))
      ensures out.lines == old(out.lines) + Printed(Criteria(), old(solutions.keys), LeavesOfAll(points, 1))
      ensures reporter.Total() == old(reporter.Total()) + |LeavesOfAll(points, 1)|
    {
      ghost var keys0 := solutions.keys;
      ghost var lines0 := out.lines;
      ghost var total0 := reporter.Total();
      ghost var done: seq<string> := [];
      var p := 0;
      while p < |points|
        invariant p <= |points| && reporter.Valid()
        invariant done == LeavesOfAll(points[..p], 1)
        invariant solutions.keys == Recorded(Criteria(), keys0, done)
        invariant out.lines == lines0 + Printed(Criteria(), keys0, done)
        invariant reporter.Total() == total0 + |done|
      {
        var startPoint := new Buffer(points[p]);
        Permute(startPoint, 1, solutions, out, reporter, tid);
        ghost var leaves := Leaves(points[p], 1);
        CheckedAppend(Criteria(), keys0, lines0, done, leaves);
        LeavesOfAllPrefix(points, p, 1);
        done := done + leaves;
        p := p + 1;
      }
      assert points[..p] == points;
    }

    /**
     * solve(input), as written: the wildcards are expanded by the loop that
     * never puts the '*' back, every combination of every sequence it hands on
     * is collected and its orderings counted into the goal, and every ordering
     * of every combination is checked. An input longer than MAX_EXACT_FACTORIAL
     * aborts before anything is checked or printed.
     */
    method Solve(input: string, out: Console, tid: int) returns (outcome: Outcome)
      modifies out
      ensures outcome.Overflow? <==> |input| > MAX_EXACT_FACTORIAL
      ensures outcome.Overflow? ==> out.lines == old(out.lines)
      ensures outcome.Summary? ==>
        outcome.solutions == Recorded(Criteria(), {}, WrittenOrderings(input)) &&
        out.lines == old(out.lines) + Printed(Criteria(), {}, WrittenOrderings(input)) &&
        |WrittenOrderings(input)| == FactSum(CombosOfAll(WrittenExpansions(input))) &&
        outcome.processed == outcome.goal == Wrap64(|WrittenOrderings(input)|)
    {
      var ok, cs, goal := Collect(input);
      if !ok {
        return Overflow;
      }
      outcome := Process(cs, goal, out, tid);
    }

    /** solve(input) with the corrected wildcard loop, which puts the '*' back: every fill is expanded. */
    method SolveRestoring(input: string, out: Console, tid: int) returns (outcome: Outcome)
      modifies out
      ensures outcome.Overflow? <==> |input| > MAX_EXACT_FACTORIAL
      ensures outcome.Overflow? ==> out.lines == old(out.lines)
      ensures outcome.Summary? ==>
        outcome.solutions == Recorded(Criteria(), {}, Orderings(input)) &&
        out.lines == old(out.lines) + Printed(Criteria(), {}, Orderings(input)) &&
        |Orderings(input)| == FactSum(CombosOfAll(Expansions(input))) &&
        outcome.processed == outcome.goal == Wrap64(|Orderings(input)|)
    {
      var ok, cs, goal := CollectRestoring(input);
      if !ok {
        return Overflow;
      }
      outcome := Process(cs, goal, out, tid);
    }

    /**
     * The second half of solve: a reporter is started with the goal, every
     * ordering of every collected combination is checked, and the run ends with
     * the solution set, the count the reporter read as a 64-bit long, and the goal.
     */
    method Process(cs: seq<string>, goal: int, out: Console, tid: int) returns (outcome: Outcome)
      modifies out
      ensures outcome == Summary(Recorded(Criteria(), {}, LeavesOfAll(cs, 0)), Wrap64(FactSum(cs)), goal)
      ensures out.lines == old(out.lines) + Printed(Criteria(), {}, LeavesOfAll(cs, 0))
      ensures FactSum(cs) == |LeavesOfAll(cs, 0)|
    {
      var solutions := new SolutionMap();
      var reporter := new StatusReporter(goal);
      PermuteCombinations(cs, solutions, out, reporter, tid);
      LeavesOfAllCount(cs);
      var processed := reporter.Get();
      outcome := Summary(solutions.keys, processed, goal);
    }

    /** The stream over the combination list: each combination in turn, as PermuteCombination handles it. */
    method PermuteCombinations(cs: seq<string>, solutions: SolutionMap, out: Console, reporter: StatusReporter, tid: int)
      requires reporter.Valid()
      modifies solutions, out, reporter
      ensures reporter.Valid()
      ensures solutions.keys == Recorded(Criteria(), old(solutions.keys), LeavesOfAll(cs, 0))
      ensures out.lines == old(out.lines) + Printed(Criteria(), old(solutions.keys), LeavesOfAll(cs, 0))
      ensures reporter.Total() == old(reporter.Total()) + |LeavesOfAll(cs, 0)|
    {
      ghost var keys0 := solutions.keys;
      ghost var lines0 := out.lines;
      ghost var total0 := reporter.Total();
      ghost var done: seq<string> := [];
      var j := 0;
      while j < |cs|
        invariant j <= |cs| && reporter.Valid()
        invariant done == LeavesOfAll(cs[..j], 0)
        invariant solutions.keys == Recorded(Criteria(), keys0, done)
        invariant out.lines == lines0 + Printed(Criteria(), keys0, done)
        invariant reporter.Total() == total0 + |done|
      {
        var combination := new Buffer(cs[j]);
        PermuteCombination(combination, solutions, out, reporter, tid);
        ghost var leaves := Leaves(cs[j], 0);
        CheckedAppend(Criteria(), keys0, lines0, done, leaves);
        LeavesOfAllPrefix(cs, j, 0);
        done := done + leaves;
        j := j + 1;
      }
      assert cs[..j] == cs;
    }
  }

  /**
   * The first half of solve, as written: the combinations of every sequence
   * the unrestored wildcard loop hands on, in the order collected, and the
   * goal, their factorials summed in a 64-bit counter. An input longer than
   * MAX_EXACT_FACTORIAL fails.
   */
  method Collect(input: string) returns (ok: bool, cs: seq<string>, goal: int)
    ensures ok <==> |input| <= MAX_EXACT_FACTORIAL
    ensures ok ==> cs == CombosOfAll(WrittenExpansions(input)) && goal == Wrap64(FactSum(cs))
  {
    var combinations := new CombinationList();
    var totalPerms := new LongCounter(0);
    var buffer := new Buffer(input);
    ok := GetCombinationsWithBlanks(buffer, combinations, totalPerms);
    cs := combinations.items;
    goal := totalPerms.Get();
    assert [] + CombosOfAll(WrittenExpansions(input)) == CombosOfAll(WrittenExpansions(input));
  }

  /** The first half of solve with the corrected wildcard loop: the combinations of every fill. */
  method CollectRestoring(input: string) returns (ok: bool, cs: seq<string>, goal: int)
    ensures ok <==> |input| <= MAX_EXACT_FACTORIAL
    ensures ok ==> cs == CombosOfAll(Expansions(input)) && goal == Wrap64(FactSum(cs))
  {
    var combinations := new CombinationList();
    var totalPerms := new LongCounter(0);
    var buffer := new Buffer(input);
    ok := GetCombinationsWithBlanksRestoring(buffer, combinations, totalPerms);
    cs := combinations.items;
    goal := totalPerms.Get();
    assert [] + CombosOfAll(Expansions(input)) == CombosOfAll(Expansions(input));
  }

  /** Every ordering solve checks for the expanded sequences es: each ordering of each of their combinations. */
  function OrderingsOf(es: seq<string>): seq<string>
  {
    LeavesOfAll(CombosOfAll(es), 0)
  }

  /** What solve checks as written. */
  function WrittenOrderings(input: string): seq<string>
  {
    OrderingsOf(WrittenExpansions(input))
  }

  /** What solve checks with the corrected wildcard loop. */
  function Orderings(input: string): seq<string>
  {
    OrderingsOf(Expansions(input))
  }

  /**
   * The orderings checked for es are exactly the non-empty strings whose tiles
   * can be taken from one of the sequences in es.
   */
  lemma InOrderingsOf(es: seq<string>, w: string)
    ensures w in OrderingsOf(es) <==> |w| > 0 && exists e :: e in es && multiset(w) <= multiset(e)
  {
    if w in OrderingsOf(es) {
      OrderingsOfSound(es, w);
    }
    if |w| > 0 && exists e :: e in es && multiset(w) <= multiset(e) {
      var e :| e in es && multiset(w) <= multiset(e);
      OrderingsOfComplete(es, e, w);
    }
  }

  lemma OrderingsOfSound(es: seq<string>, w: string)
    requires w in OrderingsOf(es)
    ensures |w| > 0
    ensures exists e :: e in es && multiset(w) <= multiset(e)
  {
    var cs := CombosOfAll(es);
    InLeavesOfAll(cs, 0, w);
    var k :| 0 <= k < |cs| && w in Leaves(cs[k], 0);
    var c := cs[k];
    LeavesExactly(c, w);
    InCombosOfAll(es, c);
    var m :| 0 <= m < |es| && c in CombosFrom(es[m], [], 0);
    var e := es[m];
    assert multiset(c) == multiset(w);
    assert c in CombosFrom(e, [], 0);
    CombosSpellSubMultisets(e, w);
    assert multiset(w) <= multiset(e);
  }

  lemma OrderingsOfComplete(es: seq<string>, e: string, w: string)
    requires e in es && |w| > 0 && multiset(w) <= multiset(e)
    ensures w in OrderingsOf(es)
  {
    var cs := CombosOfAll(es);
    var m :| 0 <= m < |es| && es[m] == e;
    CombosSpellSubMultisets(e, w);
    var c :| c in CombosFrom(e, [], 0) && multiset(c) == multiset(w);
    InCombosOfAll(es, c);
    var k :| 0 <= k < |cs| && cs[k] == c;
    assert |w| == |multiset(w)| == |multiset(c)| == |c|;
    LeavesExactly(c, w);
    InLeavesOfAll(cs, 0, w);
  }

  /**
   * As written, solve checks exactly the non-empty strings whose tiles can be
   * taken from one of the sequences the unrestored wildcard loop hands on.
   */
  lemma InWrittenOrderings(input: string, w: string)
    ensures w in WrittenOrderings(input) <==>
            |w| > 0 && exists e :: e in WrittenExpansions(input) && multiset(w) <= multiset(e)
  {
    InOrderingsOf(WrittenExpansions(input), w);
  }

  /**
   * With the corrected loop, the orderings checked are exactly the non-empty
   * strings whose tiles can be taken from some fill of the input's wildcards.
   */
  lemma InOrderings(input: string, w: string)
    ensures w in Orderings(input) <==>
            |w| > 0 && exists e :: IsFill(e, input) && multiset(w) <= multiset(e)
  {
    InOrderingsOf(Expansions(input), w);
    ExpansionsAreFills(input);
    if |w| > 0 && exists e :: IsFill(e, input) && multiset(w) <= multiset(e) {
      var e :| IsFill(e, input) && multiset(w) <= multiset(e);
      ExpansionsComplete(input, e);
      assert e in Expansions(input);
    }
  }

  /** Whatever solve checks as written, the corrected run checks too: the defect only loses orderings. */
  lemma WrittenOrderingsWithin(input: string, w: string)
    requires w in WrittenOrderings(input)
    ensures w in Orderings(input)
  {
    InWrittenOrderings(input, w);
    var e :| e in WrittenExpansions(input) && multiset(w) <= multiset(e);
    WrittenExpansionsAreFills(input);
    InOrderings(input, w);
  }

  /**
   * The solutions of a run as written are the dictionary words that can be
   * spelled from one of the sequences the unrestored wildcard loop hands on;
   * short and off-pattern words included.
   */
  lemma SolutionsCharacterised(f: Filter, input: string, w: string)
    ensures w in Recorded(f, {}, WrittenOrderings(input)) <==>
            w in f.dictionary && |w| > 0 && exists e :: e in WrittenExpansions(input) && multiset(w) <= multiset(e)
  {
    InWrittenOrderings(input, w);
  }

  /**
   * With the corrected loop, the solutions are the dictionary words that can
   * be spelled from the tiles, a wildcard standing for any one letter.
   */
  lemma RestoredSolutionsCharacterised(f: Filter, input: string, w: string)
    ensures w in Recorded(f, {}, Orderings(input)) <==>
            w in f.dictionary && |w| > 0 && exists e :: IsFill(e, input) && multiset(w) <= multiset(e)
  {
    InOrderings(input, w);
  }

  /**
   * A word is printed exactly when it is a solution that is long enough and on
   * pattern, and no word is printed twice.
   */
  lemma PrintedCharacterised(f: Filter, input: string, w: string)
    ensures w in Printed(f, {}, WrittenOrderings(input)) <==>
            w in Recorded(f, {}, WrittenOrderings(input)) && |w| >= f.minLength && f.pattern(w)
    ensures forall j, k :: 0 <= j < k < |Printed(f, {}, WrittenOrderings(input))| ==>
              Printed(f, {}, WrittenOrderings(input))[j] != Printed(f, {}, WrittenOrderings(input))[k]
  {
    PrintedExactly(f, {}, WrittenOrderings(input));
  }

  /**
   * From "**" with "TO" in the dictionary, the corrected run finds "TO"; as
   * written, solve never checks it, so it is neither recorded nor printed.
   */
  lemma SolveMissesTO(f: Filter)
    requires "TO" in f.dictionary
    ensures "TO" in Recorded(f, {}, Orderings("**"))
    ensures "TO" !in Recorded(f, {}, WrittenOrderings("**"))
  {
    var w := "TO";
    assert IsFill(w, "**");
    InOrderings("**", w);
    if w in WrittenOrderings("**") {
      InWrittenOrderings("**", w);
      var e :| e in WrittenExpansions("**") && multiset(w) <= multiset(e);
      assert multiset(w) == multiset{'T', 'O'};
      NoWrittenFillHolds("**", e, 'T', 'O');
      assert false;
    }
  }

  /** The configuration `Main` hands to the solver before building it. */
  class Builder {
    var parallel: bool
    var minCharacters: int
    var regex: string -> bool

    constructor ()
      ensures parallel && minCharacters == 6 && regex == UpperCaseWord
    {
      parallel := true;
      minCharacters := 6;
      regex := UpperCaseWord;
    }

    method WithParallel(value: bool) returns (r: Builder)
      modifies this
      ensures r == this && parallel == value
      ensures minCharacters == old(minCharacters) && regex == old(regex)
    {
      parallel := value;
      r := this;
    }

    method WithMinCharacters(value: int) returns (r: Builder)
      modifies this
      ensures r == this && minCharacters == value
      ensures parallel == old(parallel) && regex == old(regex)
    {
      minCharacters := value;
      r := this;
    }

    /** `value` stands for the compiled pattern. */
    method WithRegex(value: string -> bool) returns (r: Builder)
      modifies this
      ensures r == this && regex == value
      ensures parallel == old(parallel) && minCharacters == old(minCharacters)
    {
      regex := value;
      r := this;
    }

    /** `dictionary` stands for the word list the solver loads. */
    method Build(dictionary: set<string>) returns (s: Solver)
      ensures fresh(s)
      ensures s.parallel == parallel && s.minCharacters == minCharacters && s.regex == regex
      ensures s.dictionary == dictionary
    {
      s := new Solver(parallel, minCharacters, regex, dictionary);
    }
  }
}
