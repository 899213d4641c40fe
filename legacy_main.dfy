/**
 * LegacyMain: the driver of the legacy engine (`ScrabbleSolver.main` once the
 * dictionary is loaded).
 *
 * In parallel mode the driver first collects starting points: for each
 * position i it swaps tile i to the front (never swapping back), keeps a copy
 * of the whole sequence, and a copy with the front tile removed. Full-length
 * points are then solved from idx 1 and shortened ones from idx 0. In
 * sequential mode it calls solve(s, 0). The points are solved here one after
 * another, in list order.
 */
module LegacyMain {
  import opened Tiles
  import opened Blanks
  import opened Matching
  import opened Legacy

  // ----- starting points -----

  /** t with its tile i moved to the front and the other tiles kept in order. */
  function FrontAt(t: string, i: nat): (r: string)
    requires i < |t|
    ensures |r| == |t|
  {
    [t[i]] + Deleted(t, i)
  }

  /** The points collected by iterations 0..n-1: t with tile i in front, then t without tile i. */
  function StartPoints(t: string, n: nat): seq<string>
    requires n <= |t|
  {
    if n == 0 then [] else StartPoints(t, n - 1) + [FrontAt(t, n - 1), Deleted(t, n - 1)]
  }

  /** What the buffer holds after i iterations of the collecting loop: swap(s, 0, i) is never undone. */
  function AfterSwaps(t: string, i: nat): (r: string)
    requires i <= |t|
    ensures |r| == |t|
  {
    if i == 0 then t else FrontAt(t, i - 1)
  }

  /** Swapping 0 with i in what iteration i - 1 left moves tile i of t to the front. */
  lemma FrontAtStep(t: string, i: nat)
    requires i < |t|
    ensures Swapped(AfterSwaps(t, i), 0, i) == FrontAt(t, i) == AfterSwaps(t, i + 1)
  {
    var b := FrontAt(t, i);
    DeletedAt(t, i);
    if i == 0 {
      assert b == t by {
        forall p | 0 <= p < |t| ensures b[p] == t[p] {
          if p > 0 {
            assert b[p] == Deleted(t, 0)[p - 1];
          }
        }
      }
    } else {
      var f := FrontAt(t, i - 1);
      var a := Swapped(f, 0, i);
      DeletedAt(t, i - 1);
      SwappedElsewhere(f, 0, i);
      forall p | 0 <= p < |t| ensures a[p] == b[p] {
        if p == 0 {
          assert f[i] == Deleted(t, i - 1)[i - 1];
        } else if p == i {
          assert b[i] == Deleted(t, i)[i - 1];
        } else {
          assert f[p] == Deleted(t, i - 1)[p - 1];
          assert b[p] == Deleted(t, i)[p - 1];
        }
      }
    }
  }

  /** Removing the front tile of FrontAt(t, i) leaves t without tile i, and inserting it again restores the point. */
  lemma FrontAtSplit(t: string, i: nat)
    requires i < |t|
    ensures Deleted(FrontAt(t, i), 0) == Deleted(t, i)
    ensures FrontAt(t, i)[0] == t[i]
    ensures Deleted(t, i)[..0] + [t[i]] + Deleted(t, i)[0..] == FrontAt(t, i)
  {
    var f := FrontAt(t, i);
    assert f[1..] == Deleted(t, i);
    assert Deleted(t, i)[..0] == [] && Deleted(t, i)[0..] == Deleted(t, i);
  }

  /** The collecting loop keeps two points per iteration. */
  lemma {:induction false} StartPointsLength(t: string, n: nat)
    requires n <= |t|
    ensures |StartPoints(t, n)| == 2 * n
  {
    if n > 0 {
      StartPointsLength(t, n - 1);
    }
  }

  /** Entry 2k is FrontAt(t, k) and entry 2k + 1 is Deleted(t, k). */
  lemma {:induction false} StartPointIs(t: string, n: nat, k: nat)
    requires k < n <= |t|
    ensures |StartPoints(t, n)| == 2 * n
    ensures StartPoints(t, n)[2 * k] == FrontAt(t, k)
    ensures StartPoints(t, n)[2 * k + 1] == Deleted(t, k)
    decreases n
  {
    StartPointsLength(t, n);
    StartPointsLength(t, n - 1);
    var ps := StartPoints(t, n);
    var init := StartPoints(t, n - 1);
    assert ps == init + [FrontAt(t, n - 1), Deleted(t, n - 1)];
    if k < n - 1 {
      StartPointIs(t, n - 1, k);
      assert ps[2 * k] == init[2 * k];
      assert ps[2 * k + 1] == init[2 * k + 1];
    }
  }

  /** Entry 2k is t with tile k in front of the others, and entry 2k + 1 is t without tile k. */
  lemma StartPointAt(t: string, n: nat, k: nat)
    requires k < n <= |t|
    ensures |StartPoints(t, n)| == 2 * n
    ensures StartPoints(t, n)[2 * k] == [t[k]] + t[..k] + t[k + 1..]
    ensures StartPoints(t, n)[2 * k + 1] == t[..k] + t[k + 1..]
  {
    StartPointIs(t, n, k);
    assert FrontAt(t, k) == [t[k]] + (t[..k] + t[k + 1..]);
  }

  /** Every point is some tile moved to the front, or the input without some tile. */
  lemma StartPointsFrom(t: string, n: nat, p: string) returns (k: nat)
    requires n <= |t| && p in StartPoints(t, n)
    ensures k < n && (p == FrontAt(t, k) || p == Deleted(t, k))
  {
    var ps := StartPoints(t, n);
    StartPointsLength(t, n);
    var m :| 0 <= m < |ps| && ps[m] == p;
    k := m / 2;
    StartPointIs(t, n, k);
    assert m == 2 * k || m == 2 * k + 1;
  }

  /** There are two points per tile: each FrontAt(t, i) and each Deleted(t, i), and nothing else. */
  lemma StartPointsMembers(t: string, n: nat)
    requires n <= |t|
    ensures |StartPoints(t, n)| == 2 * n
    ensures forall p :: p in StartPoints(t, n) <==> exists k :: 0 <= k < n && (p == FrontAt(t, k) || p == Deleted(t, k))
  {
    StartPointsLength(t, n);
    forall p
      ensures p in StartPoints(t, n) <==> exists k :: 0 <= k < n && (p == FrontAt(t, k) || p == Deleted(t, k))
    {
      if p in StartPoints(t, n) {
        var k := StartPointsFrom(t, n, p);
      }
      if exists k :: 0 <= k < n && (p == FrontAt(t, k) || p == Deleted(t, k)) {
        var k :| 0 <= k < n && (p == FrontAt(t, k) || p == Deleted(t, k));
        StartPointIs(t, n, k);
      }
    }
  }

  /** After the loop the buffer is t rotated right by one: its last tile in front of the others. */
  lemma AllSwapsRotate(t: string)
    requires |t| > 0
    ensures AfterSwaps(t, |t|) == [t[|t| - 1]] + t[..|t| - 1]
  {
    assert t[|t|..] == [];
    assert Deleted(t, |t| - 1) == t[..|t| - 1];
  }

  /** The collecting loop: swap tile i to the front, keep the point, keep it without its front tile, put the tile back. */
  method StartingPoints(s: Buffer) returns (points: seq<string>)
    modifies s
    ensures points == StartPoints(old(s.chars), |old(s.chars)|)
    ensures |s.chars| == |old(s.chars)|
    ensures s.chars == AfterSwaps(old(s.chars), |old(s.chars)|)
  {
    ghost var t := s.chars;
    points := [];
    var i := 0;
    while i < |s.chars|
      invariant i <= |t| && s.chars == AfterSwaps(t, i)
      invariant points == StartPoints(t, i)
    {
      var whole, shortened := CollectPoint(s, i, t);
      points := points + [whole, shortened];
      i := i + 1;
    }
  }

  /** Iteration i: swap tile i to the front, copy the buffer, copy it without its front tile, put that tile back. */
  method CollectPoint(s: Buffer, i: nat, ghost t: string) returns (whole: string, shortened: string)
    requires i < |t| && s.chars == AfterSwaps(t, i)
    modifies s
    ensures s.chars == AfterSwaps(t, i + 1)
    ensures whole == FrontAt(t, i) && shortened == Deleted(t, i)
  {
    FrontAtStep(t, i);
    FrontAtSplit(t, i);
    s.Swap(0, i);
    whole := s.chars;
    var tmp := s.CharAt(0);
    s.DeleteCharAt(0);
    shortened := s.chars;
    s.Insert(0, tmp);
  }

  // ----- what a run checks -----

  /** The strings checked by solving each point in turn: full-length points from idx 1, shortened ones from idx 0. */
  function PointVisits(ps: seq<string>, n: nat): seq<string>
  {
    ConcatMap(ps, Solving(n))
  }

  /** What solving one point checks. */
  function Solving(n: nat): string -> seq<string>
  {
    p => Visits(p, PointIdx(p, n))
  }

  /** The strings a run checks: the starting points in parallel mode, solve(input, 0) otherwise. */
  function RunVisits(input: string, parallel: bool): seq<string>
  {
    if parallel then PointVisits(StartPoints(input, |input|), |input|) else Visits(input, 0)
  }

  /** Where a point is solved from: idx 1 for a full-length point, idx 0 for a shortened one. */
  function PointIdx(p: string, n: nat): nat
  {
    if |p| == n then 1 else 0
  }

  /** f applied to each of xs in turn, the results joined in order. */
  function ConcatMap<A, B>(xs: seq<A>, f: A -> seq<B>): seq<B>
  {
    if xs == [] then [] else ConcatMap(xs[..|xs| - 1], f) + f(xs[|xs| - 1])
  }

  /** What f gives for entry j is in the joined result. */
  lemma {:induction false} ConcatMapHas<A, B>(xs: seq<A>, f: A -> seq<B>, j: nat, u: B)
    requires j < |xs| && u in f(xs[j])
    ensures u in ConcatMap(xs, f)
    decreases |xs|
  {
    var init := xs[..|xs| - 1];
    assert ConcatMap(xs, f) == ConcatMap(init, f) + f(xs[|xs| - 1]);
    if j < |xs| - 1 {
      assert init[j] == xs[j];
      ConcatMapHas(init, f, j, u);
    }
  }

  /** Whatever is in the joined result comes from one entry. */
  lemma {:induction false} ConcatMapFrom<A, B>(xs: seq<A>, f: A -> seq<B>, u: B) returns (j: nat)
    requires u in ConcatMap(xs, f)
    ensures j < |xs| && u in f(xs[j])
    decreases |xs|
  {
    var init := xs[..|xs| - 1];
    assert ConcatMap(xs, f) == ConcatMap(init, f) + f(xs[|xs| - 1]);
    if u in ConcatMap(init, f) {
      j := ConcatMapFrom(init, f, u);
      assert init[j] == xs[j];
    } else {
      j := |xs| - 1;
    }
  }

  /** What solving point j checks is checked by the whole list. */
  lemma PointVisitsHas(ps: seq<string>, n: nat, j: nat, u: string)
    requires j < |ps| && u in Visits(ps[j], PointIdx(ps[j], n))
    ensures u in PointVisits(ps, n)
  {
    assert Solving(n)(ps[j]) == Visits(ps[j], PointIdx(ps[j], n));
    ConcatMapHas(ps, Solving(n), j, u);
  }

  /** Whatever the list checks, solving one of its points checks. */
  lemma PointVisitsFrom(ps: seq<string>, n: nat, u: string) returns (j: nat)
    requires u in PointVisits(ps, n)
    ensures j < |ps| && u in Visits(ps[j], PointIdx(ps[j], n))
  {
    j := ConcatMapFrom(ps, Solving(n), u);
    assert Solving(n)(ps[j]) == Visits(ps[j], PointIdx(ps[j], n));
  }

  // ----- coverage on wildcard-free input -----

  /** u can be laid from the tiles of t: it is non-empty and uses each tile at most once. */
  predicate Spellable(t: string, u: string)
  {
    0 < |u| && multiset(u) <= multiset(t)
  }

  /** From idx 0 the reachable strings are the spellable ones. */
  lemma ReachableFromStart(t: string, u: string)
    ensures Reachable(t, 0, u) <==> Spellable(t, u)
  {
    assert u[..0] == t[..0];
    assert u[0..] == u && t[0..] == t;
  }

  /** Removing a tile keeps a sequence wildcard-free, and so does moving it to the front. */
  lemma PointsNoBlanks(t: string, i: nat)
    requires i < |t| && NoBlanks(t)
    ensures NoBlanks(Deleted(t, i)) && NoBlanks(FrontAt(t, i))
  {
    DeletedAt(t, i);
    var f := FrontAt(t, i);
    forall p | 0 <= p < |f| ensures f[p] != BLANK {
      if p > 0 {
        assert f[p] == Deleted(t, i)[p - 1];
      }
    }
  }

  /** What solving a wildcard-free point checks, in terms of the tiles of t. */
  lemma PointChecks(t: string, i: nat, u: string)
    requires i < |t| && NoBlanks(t)
    ensures u in Visits(FrontAt(t, i), 1) <==> Reachable(FrontAt(t, i), 1, u)
    ensures u in Visits(Deleted(t, i), 0) <==> Spellable(Deleted(t, i), u)
  {
    PointsNoBlanks(t, i);
    WrittenVisitsOfFill(FrontAt(t, i), 1);
    PlainVisitsExactly(FrontAt(t, i), 1, u);
    WrittenVisitsOfFill(Deleted(t, i), 0);
    PlainVisitsExactly(Deleted(t, i), 0, u);
    ReachableFromStart(Deleted(t, i), u);
  }

  /** Everything a point checks is spellable from the whole input. */
  lemma PointSound(t: string, i: nat, u: string)
    requires i < |t|
    ensures Reachable(FrontAt(t, i), 1, u) ==> Spellable(t, u)
    ensures Spellable(Deleted(t, i), u) ==> Spellable(t, u)
  {
    var f := FrontAt(t, i);
    DeletedMultiset(t, i);
    assert multiset(Deleted(t, i)) <= multiset(t);
    if Reachable(f, 1, u) {
      assert f[1..] == Deleted(t, i);
      assert u == [u[0]] + u[1..];
      assert u[0] == u[..1][0] == f[..1][0] == t[i];
      assert multiset(u) == multiset{t[i]} + multiset(u[1..]);
    }
  }

  /** A spellable u of two tiles or more that starts with tile p is reached from the point with tile p in front. */
  lemma FrontCovers(t: string, p: nat, u: string)
    requires p < |t| && Spellable(t, u) && |u| >= 2 && u[0] == t[p]
    ensures Reachable(FrontAt(t, p), 1, u)
  {
    DeletedMultiset(t, p);
    var f := FrontAt(t, p);
    assert u == [u[0]] + u[1..];
    assert multiset(u[1..]) == multiset(u) - multiset{u[0]};
    assert f[1..] == Deleted(t, p);
    assert u[..1] == f[..1];
  }

  /** The single tile at position p is spelled by the input without some other tile. */
  lemma DeletedCovers(t: string, p: nat) returns (k: nat)
    requires |t| >= 2 && p < |t|
    ensures k < |t| && Spellable(Deleted(t, k), [t[p]])
  {
    k := if p == 0 then 1 else 0;
    DeletedAt(t, k);
    var d := Deleted(t, k);
    if p < k {
      assert d[p] == t[p];
    } else {
      assert d[p - 1] == t[p];
    }
    assert t[p] in multiset(d);
  }

  /** With two tiles or more, every spellable string is checked by some point. */
  lemma CoveringPoint(t: string, u: string) returns (k: nat, front: bool)
    requires |t| >= 2 && Spellable(t, u)
    ensures k < |t|
    ensures front ==> Reachable(FrontAt(t, k), 1, u)
    ensures !front ==> Spellable(Deleted(t, k), u)
  {
    assert t[0..] == t;
    assert u[0] in multiset(u);
    var p := IndexOf(t, 0, u[0]);
    if |u| >= 2 {
      FrontCovers(t, p, u);
      k, front := p, true;
    } else {
      assert u == [t[p]];
      k := DeletedCovers(t, p);
      front := false;
    }
  }

  /** Sequential mode on a wildcard-free input checks exactly the spellable strings. */
  lemma SequentialCoverage(t: string, u: string)
    requires NoBlanks(t)
    ensures u in RunVisits(t, false) <==> Spellable(t, u)
  {
    WrittenVisitsOfFill(t, 0);
    PlainVisitsExactly(t, 0, u);
    ReachableFromStart(t, u);
  }

  /** Parallel mode on a wildcard-free input of two tiles or more checks exactly the spellable strings too. */
  lemma ParallelCoverage(t: string, u: string)
    requires NoBlanks(t) && |t| >= 2
    ensures u in RunVisits(t, true) <==> Spellable(t, u)
  {
    var n := |t|;
    var ps := StartPoints(t, n);
    StartPointsMembers(t, n);
    if u in RunVisits(t, true) {
      var j := PointVisitsFrom(ps, n, u);
      assert ps[j] in ps;
      var k :| 0 <= k < n && (ps[j] == FrontAt(t, k) || ps[j] == Deleted(t, k));
      PointChecks(t, k, u);
      PointSound(t, k, u);
    }
    if Spellable(t, u) {
      var k, front := CoveringPoint(t, u);
      var p := if front then FrontAt(t, k) else Deleted(t, k);
      assert p in ps;
      var j :| 0 <= j < |ps| && ps[j] == p;
      PointChecks(t, k, u);
      PointVisitsHas(ps, n, j, u);
    }
  }

  /**
   * A single tile finds nothing in parallel mode: its only points are the tile
   * itself, solved from idx 1 = its length, and the empty sequence. Sequential
   * mode checks the tile itself.
   */
  lemma SingleTile(t: string)
    requires |t| == 1
    ensures RunVisits(t, true) == []
    ensures NoBlanks(t) ==> t in RunVisits(t, false)
  {
    var ps := StartPoints(t, 1);
    assert Deleted(t, 0) == [];
    assert FrontAt(t, 0) == [t[0]] == t;
    assert StartPoints(t, 0) == [];
    assert ps == [] + [FrontAt(t, 0), Deleted(t, 0)] == [t, []];
    assert ps[..1] == [t] && [t][..0] == [];
    NoVisitsAtEnd(t);
    NoVisitsAtEnd([]);
    assert PointVisits(ps, 1) == PointVisits([t], 1) + Visits([], 0);
    assert PointVisits([t], 1) == PointVisits([], 1) + Visits(t, 1);
    if NoBlanks(t) {
      SequentialCoverage(t, t);
    }
  }

  /**
   * What a run leaves behind on a wildcard-free input (of two tiles or more in
   * parallel mode): FOUND gains exactly the spellable dictionary words, and a
   * word is printed exactly when it is spellable, new and at least MIN_SIZE long.
   */
  lemma RunResult(dictionary: set<string>, found: set<string>, t: string, parallel: bool, w: string)
    requires NoBlanks(t) && (parallel ==> |t| >= 2)
    ensures w in Recorded(LegacyFilter(dictionary), found, RunVisits(t, parallel)) <==>
            w in found || (w in dictionary && Spellable(t, w))
    ensures w in Printed(LegacyFilter(dictionary), found, RunVisits(t, parallel)) <==>
            w in dictionary && w !in found && |w| >= MIN_SIZE && Spellable(t, w)
  {
    if parallel {
      ParallelCoverage(t, w);
    } else {
      SequentialCoverage(t, w);
    }
    PrintedExactly(LegacyFilter(dictionary), found, RunVisits(t, parallel));
  }

  // ----- the driver -----

  /** The parallel forEach over the starting points, taken in list order. */
  method SolvePoints(solver: ScrabbleSolver, points: seq<string>, n: nat, out: Console)
    requires points != [] ==> n > 0
    modifies solver.found, out
    ensures solver.found.keys == Recorded(solver.Criteria(), old(solver.found.keys), PointVisits(points, n))
    ensures out.lines == old(out.lines) + Printed(solver.Criteria(), old(solver.found.keys), PointVisits(points, n))
  {
    ghost var found0 := solver.found.keys;
    ghost var lines0 := out.lines;
    var j := 0;
    while j < |points|
      invariant j <= |points|
      invariant solver.found.keys == Recorded(solver.Criteria(), found0, PointVisits(points[..j], n))
      invariant out.lines == lines0 + Printed(solver.Criteria(), found0, PointVisits(points[..j], n))
    {
      ghost var done := PointVisits(points[..j], n);
      var b := new Buffer(points[j]);
      var idx := PointIdx(points[j], n);
      solver.Solve(b, idx, out);
      assert points[..j + 1][..j] == points[..j];
      CheckedAppend(solver.Criteria(), found0, lines0, done, Visits(points[j], idx));
      j := j + 1;
    }
    assert points[..|points|] == points;
  }

  /**
   * main once the dictionary is loaded: collect and solve the starting points
   * in parallel mode, solve(s, 0) otherwise; the answer is FOUND.size().
   */
  method Run(solver: ScrabbleSolver, input: string, parallel: bool, out: Console) returns (count: nat)
    modifies solver.found, out
    ensures solver.found.keys == Recorded(solver.Criteria(), old(solver.found.keys), RunVisits(input, parallel))
    ensures out.lines == old(out.lines) + Printed(solver.Criteria(), old(solver.found.keys), RunVisits(input, parallel))
    ensures count == |solver.found.keys|
  {
    var s := new Buffer(input);
    if parallel {
      var points := StartingPoints(s);
      SolvePoints(solver, points, |s.chars|, out);
    } else {
      solver.Solve(s, 0, out);
    }
    count := solver.found.Size();
  }

  // ----- the wildcard loop, seen from the whole run -----

  /** With the wildcard put back, solve(t, idx) checks exactly what some fill of t reaches. */
  lemma RestoredVisitsExactly(t: string, idx: nat, u: string)
    requires idx <= |t|
    ensures u in RestoredVisits(t, idx) <==> exists e :: IsFill(e, t) && Reachable(e, idx, u)
  {
    var es := Expansions(t);
    InVisitsOfAll(es, idx, u);
    ExpansionsAreFills(t);
    if u in RestoredVisits(t, idx) {
      var m :| 0 <= m < |es| && idx <= |es[m]| && u in PlainVisits(es[m], idx);
      assert es[m] in es;
      PlainVisitsExactly(es[m], idx, u);
    }
    if e :| IsFill(e, t) && Reachable(e, idx, u) {
      ExpansionsComplete(t, e);
      var m :| 0 <= m < |es| && es[m] == e;
      PlainVisitsExactly(e, idx, u);
    }
  }

  /** A string solve(t, idx) checks as written is reached from one of the as-written fills. */
  lemma WrittenFillOf(t: string, idx: nat, u: string) returns (e: string)
    requires idx <= |t| && u in Visits(t, idx)
    ensures e in WrittenExpansions(t) && idx <= |e| && Reachable(e, idx, u)
  {
    var es := WrittenExpansions(t);
    InVisitsOfAll(es, idx, u);
    var m :| 0 <= m < |es| && idx <= |es[m]| && u in PlainVisits(es[m], idx);
    e := es[m];
    PlainVisitsExactly(e, idx, u);
  }

  /** As written, solve(t, idx) still checks only what some fill of t reaches. */
  lemma VisitsSound(t: string, idx: nat, u: string)
    requires idx <= |t| && u in Visits(t, idx)
    ensures exists e :: IsFill(e, t) && Reachable(e, idx, u)
  {
    var e := WrittenFillOf(t, idx, u);
    WrittenExpansionsAreFills(t);
  }

  /** No as-written fill of "**" holds both a 'B' and a 'C'. */
  lemma NoWrittenFillSpellsBC(e: string)
    requires e in WrittenExpansions("**")
    ensures !Spellable(e, "BC")
  {
    assert multiset("BC") == multiset{'B', 'C'};
    NoWrittenFillHolds("**", e, 'B', 'C');
  }

  /** From "**" the corrected loop checks "BC"; as written, the legacy engine never does. */
  lemma VisitsMissBC()
    ensures "BC" in RestoredVisits("**", 0)
    ensures "BC" !in Visits("**", 0)
  {
    var u := "BC";
    assert IsFill(u, "**");
    ReachableFromStart(u, u);
    RestoredVisitsExactly("**", 0, u);
    if u in Visits("**", 0) {
      var e := WrittenFillOf("**", 0, u);
      ReachableFromStart(e, u);
      NoWrittenFillSpellsBC(e);
      assert false;
    }
  }
}
