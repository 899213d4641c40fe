/**
 * Matching: the test every candidate string goes through, shared by both engines.
 *
 * A candidate that is a dictionary word is recorded in the solution map whatever
 * else holds; it is printed only the first time it is met, and only when it is
 * long enough and matches the pattern. `Recorded` and `Printed` give the map's
 * key set and the printed lines after a whole sequence of candidates.
 */
module Matching {

  /** The criteria a candidate is judged by. `pattern` stands for the compiled regular expression. */
  datatype Filter = Filter(dictionary: set<string>, minLength: int, pattern: string -> bool)

  /** w is printed when met with `found` as the solutions so far. */
  predicate Accepts(f: Filter, found: set<string>, w: string)
  {
    w in f.dictionary && w !in found && |w| >= f.minLength && f.pattern(w)
  }

  /** The solution keys after the candidates ws have been checked. */
  function Recorded(f: Filter, found: set<string>, ws: seq<string>): set<string>
  {
    found + (set w | w in ws && w in f.dictionary)
  }

  /** The lines printed while the candidates ws are checked in order. */
  function Printed(f: Filter, found: set<string>, ws: seq<string>): seq<string>
    decreases ws
  {
    if ws == [] then []
    else
      (if Accepts(f, found, ws[0]) then [ws[0]] else []) +
      Printed(f, Recorded(f, found, [ws[0]]), ws[1..])
  }

  lemma RecordedAppend(f: Filter, found: set<string>, a: seq<string>, b: seq<string>)
    ensures Recorded(f, Recorded(f, found, a), b) == Recorded(f, found, a + b)
  {
    assert forall w :: w in a + b <==> w in a || w in b;
  }

  /** Checking a + b prints what checking a prints, then what checking b prints afterwards. */
  lemma {:induction false} PrintedAppend(f: Filter, found: set<string>, a: seq<string>, b: seq<string>)
    ensures Printed(f, found, a + b) == Printed(f, found, a) + Printed(f, Recorded(f, found, a), b)
    decreases a
  {
    if a == [] {
      assert a + b == b;
      assert Recorded(f, found, a) == found;
    } else {
      var found' := Recorded(f, found, [a[0]]);
      assert (a + b)[0] == a[0];
      assert (a + b)[1..] == a[1..] + b;
      PrintedAppend(f, found', a[1..], b);
      RecordedAppend(f, found, [a[0]], a[1..]);
      assert [a[0]] + a[1..] == a;
    }
  }

  /** Checking done and then more leaves the map and the console as checking done + more does. */
  lemma CheckedAppend(f: Filter, found: set<string>, lines: seq<string>, done: seq<string>, more: seq<string>)
    ensures Recorded(f, Recorded(f, found, done), more) == Recorded(f, found, done + more)
    ensures (lines + Printed(f, found, done)) + Printed(f, Recorded(f, found, done), more) ==
            lines + Printed(f, found, done + more)
  {
    RecordedAppend(f, found, done, more);
    PrintedAppend(f, found, done, more);
  }

  /**
   * A word is printed exactly when it occurs among the candidates and passes the
   * filter against the solutions known beforehand, and no word is printed twice.
   */
  lemma {:induction false} PrintedExactly(f: Filter, found: set<string>, ws: seq<string>)
    ensures forall w :: w in Printed(f, found, ws) <==> w in ws && Accepts(f, found, w)
    ensures forall j, k :: 0 <= j < k < |Printed(f, found, ws)| ==>
              Printed(f, found, ws)[j] != Printed(f, found, ws)[k]
    decreases ws
  {
    if ws != [] {
      var found' := Recorded(f, found, [ws[0]]);
      PrintedExactly(f, found', ws[1..]);
      var head := if Accepts(f, found, ws[0]) then [ws[0]] else [];
      var tail := Printed(f, found', ws[1..]);
      assert Printed(f, found, ws) == head + tail;
      forall w
        ensures w in head + tail <==> w in ws && Accepts(f, found, w)
      {
        assert w in ws <==> w == ws[0] || w in ws[1..] by {
          assert ws == [ws[0]] + ws[1..];
        }
      }
      forall j, k | 0 <= j < k < |head + tail|
        ensures (head + tail)[j] != (head + tail)[k]
      {
        if j < |head| {
          assert (head + tail)[k] in tail;
        }
      }
    }
  }

  /**
   * The solution count includes words that are never printed: a dictionary word
   * that is too short or off-pattern still enters the solution map.
   */
  lemma RecordedIncludesUnprinted(f: Filter, found: set<string>, ws: seq<string>, w: string)
    requires w in ws && w in f.dictionary
    ensures w in Recorded(f, found, ws)
    ensures |w| < f.minLength || !f.pattern(w) ==> w !in Printed(f, found, ws)
  {
    PrintedExactly(f, found, ws);
  }

  /** The concurrent map of solutions, seen through the operations the engines use. */
  class SolutionMap {
    var keys: set<string>

    constructor ()
      ensures keys == {}
    {
      keys := {};
    }

    method ContainsKey(w: string) returns (present: bool)
      ensures present <==> w in keys
    {
      present := w in keys;
    }

    method Put(w: string)
      modifies this
      ensures keys == old(keys) + {w}
    {
      keys := keys + {w};
    }

    /** Adds w; the answer says whether it was absent (Java's `putIfAbsent(w, true) == null`). */
    method PutIfAbsent(w: string) returns (absent: bool)
      modifies this
      ensures absent <==> w !in old(keys)
      ensures keys == old(keys) + {w}
    {
      absent := w !in keys;
      keys := keys + {w};
    }

    method Size() returns (n: nat)
      ensures n == |keys|
    {
      n := |keys|;
    }
  }

  /** Standard output, as the sequence of lines printed so far. */
  class Console {
    var lines: seq<string>

    constructor ()
      ensures lines == []
    {
      lines := [];
    }

    method PrintLine(line: string)
      modifies this
      ensures lines == old(lines) + [line]
    {
      lines := lines + [line];
    }
  }
}
