/**
 * Progress: the status reporter both engines' permutation counts feed.
 *
 * Each thread adds to its own bucket of a map keyed by thread id; reading the
 * count sums the buckets and caches the sum. A scheduled task advances a
 * four-step spinner and draws a forty-column bar. The thread id is a parameter
 * here, and the bar position, which the task computes in floating point, is an
 * integer input.
 */
module Progress {
  import opened Tiles

  const STATUS_BAR_SIZE: int := 40
  const SPINNER: string := "|/-\\"

  /** The bucket of thread tid, 0 when it has none yet. */
  function Bucket(m: map<int, int>, tid: int): int
  {
    if tid in m then m[tid] else 0
  }

  /** m after n increments by thread tid. */
  function Credited(m: map<int, int>, tid: int, n: int): map<int, int>
  {
    m[tid := Bucket(m, tid) + n]
  }

  /** ks lists the keys of m, each once. */
  ghost predicate Enumerates(ks: seq<int>, m: map<int, int>)
  {
    (forall i, j :: 0 <= i < j < |ks| ==> ks[i] != ks[j]) &&
    (forall i :: 0 <= i < |ks| ==> ks[i] in m) &&
    (forall k :: k in m ==> k in ks)
  }

  /** Sum of the buckets of m named by ks. */
  ghost function SumOf(m: map<int, int>, ks: seq<int>): int
    requires forall i :: 0 <= i < |ks| ==> ks[i] in m
  {
    if ks == [] then 0 else m[ks[0]] + SumOf(m, ks[1..])
  }

  /** ks with tid added at the end when it is new: the threads known after tid increments. */
  function Registered(ks: seq<int>, tid: int): seq<int>
  {
    if tid in ks then ks else ks + [tid]
  }

  lemma {:induction false} SumOfSnoc(m: map<int, int>, ks: seq<int>, k: int)
    requires forall i :: 0 <= i < |ks| ==> ks[i] in m
    requires k in m
    ensures SumOf(m, ks + [k]) == SumOf(m, ks) + m[k]
  {
    if ks != [] {
      assert (ks + [k])[1..] == ks[1..] + [k];
      SumOfSnoc(m, ks[1..], k);
    } else {
      assert [] + [k] == [k];
    }
  }

  /** Changing one listed bucket changes the sum by the difference. */
  lemma {:induction false} SumOfUpdate(m: map<int, int>, ks: seq<int>, tid: int, v: int)
    requires forall i :: 0 <= i < |ks| ==> ks[i] in m
    requires forall i, j :: 0 <= i < j < |ks| ==> ks[i] != ks[j]
    requires tid in m
    ensures SumOf(m[tid := v], ks) == SumOf(m, ks) + (if tid in ks then v - m[tid] else 0)
  {
    if ks != [] {
      SumOfUpdate(m, ks[1..], tid, v);
      assert tid in ks <==> tid == ks[0] || tid in ks[1..] by {
        assert ks == [ks[0]] + ks[1..];
      }
      if tid == ks[0] {
        assert tid !in ks[1..];
      }
    }
  }

  /** A bucket not listed does not count. */
  lemma {:induction false} SumOfUnlisted(m: map<int, int>, ks: seq<int>, tid: int, v: int)
    requires forall i :: 0 <= i < |ks| ==> ks[i] in m
    requires tid !in ks
    ensures SumOf(m[tid := v], ks) == SumOf(m, ks)
  {
    if ks != [] {
      SumOfUnlisted(m, ks[1..], tid, v);
    }
  }

  /** Removing the listed key at position j takes its bucket out of the sum. */
  lemma {:induction false} SumOfRemove(m: map<int, int>, ks: seq<int>, j: nat)
    requires forall i :: 0 <= i < |ks| ==> ks[i] in m
    requires j < |ks|
    ensures SumOf(m, ks) == m[ks[j]] + SumOf(m, ks[..j] + ks[j + 1..])
  {
    if j > 0 {
      var rest := ks[1..];
      SumOfRemove(m, rest, j - 1);
      assert ks[..j] + ks[j + 1..] == [ks[0]] + (rest[..j - 1] + rest[j..]);
    } else {
      assert ks[..0] + ks[1..] == ks[1..];
    }
  }

  /**
   * Adding n to the bucket of tid adds n to the sum over all buckets, whether or
   * not tid had a bucket before.
   */
  lemma CreditedSum(m: map<int, int>, ks: seq<int>, tid: int, n: int)
    requires Enumerates(ks, m)
    ensures Enumerates(Registered(ks, tid), Credited(m, tid, n))
    ensures SumOf(Credited(m, tid, n), Registered(ks, tid)) == SumOf(m, ks) + n
  {
    var m' := Credited(m, tid, n);
    if tid in ks {
      SumOfUpdate(m, ks, tid, m[tid] + n);
    } else {
      var ks' := ks + [tid];
      SumOfUnlisted(m, ks, tid, n);
      assert m' == m[tid := n];
      SumOfSnoc(m', ks, tid);
      assert forall k :: k in ks' <==> k in ks || k == tid;
      assert forall i :: 0 <= i < |ks| ==> ks'[i] == ks[i];
    }
  }

  /** Crediting the same thread twice credits it with the sum. */
  lemma CreditedTwice(m: map<int, int>, tid: int, a: int, b: int)
    ensures Credited(Credited(m, tid, a), tid, b) == Credited(m, tid, a + b)
    ensures Credited(m, tid, a).Keys == m.Keys + {tid}
  {
  }

  /** Buckets credited with a, then with b, are credited with n == a + b. */
  lemma CreditedAfter(m0: map<int, int>, m1: map<int, int>, m2: map<int, int>, tid: int, a: int, b: int, n: int)
    requires m1 == Credited(m0, tid, a) && m2 == Credited(m1, tid, b) && n == a + b
    ensures m2 == Credited(m0, tid, n)
  {
    CreditedTwice(m0, tid, a, b);
  }

  /** Removing position j of a sequence without repetitions leaves one without repetitions. */
  lemma RemoveDistinct(ks: seq<int>, j: nat)
    requires j < |ks|
    requires forall a, b :: 0 <= a < b < |ks| ==> ks[a] != ks[b]
    ensures var r := ks[..j] + ks[j + 1..];
            (forall i :: 0 <= i < |r| ==> r[i] == ks[if i < j then i else i + 1]) &&
            (forall a, b :: 0 <= a < b < |r| ==> r[a] != r[b])
  {
    var r := ks[..j] + ks[j + 1..];
    forall i | 0 <= i < |r|
      ensures r[i] == ks[if i < j then i else i + 1]
    {
      if i < j {
        assert r[i] == ks[..j][i];
      } else {
        assert r[i] == ks[j + 1..][i - j];
      }
    }
  }

  /** Removing an enumerated key leaves an enumeration of the rest. */
  lemma EnumeratesRemove(m: map<int, int>, ks: seq<int>, j: nat)
    requires Enumerates(ks, m) && j < |ks|
    ensures Enumerates(ks[..j] + ks[j + 1..], m - {ks[j]})
  {
    var r := ks[..j] + ks[j + 1..];
    RemoveDistinct(ks, j);
    forall i | 0 <= i < |r|
      ensures r[i] in m - {ks[j]}
    {
      var i' := if i < j then i else i + 1;
      assert r[i] == ks[i'];
    }
    forall k | k in m - {ks[j]}
      ensures k in r
    {
      assert k in ks;
      var i :| 0 <= i < |ks| && ks[i] == k;
      if i < j {
        assert r[i] == k;
      } else {
        assert r[i - 1] == k;
      }
    }
  }

  /** An enumeration is empty exactly when the map is. */
  lemma EnumeratesEmpty(m: map<int, int>, ks: seq<int>)
    requires Enumerates(ks, m)
    ensures ks == [] <==> m.Keys == {}
  {
    if ks == [] {
      assert forall k :: k !in m.Keys;
      assert m.Keys == {};
    } else {
      assert ks[0] in m.Keys;
    }
  }

  /** The spinner position after one tick: one step on, modulo the four spinner glyphs. */
  function NextSpinner(pos: int): (r: int)
    requires 0 <= pos < |SPINNER|
    ensures 0 <= r < |SPINNER| && r == (pos + 1) % |SPINNER|
  {
    if pos + 1 == |SPINNER| then 0 else pos + 1
  }

  /** n copies of c; no copies for n <= 0. */
  function Repeat(c: char, n: int): (r: string)
    ensures |r| == if n <= 0 then 0 else n
    ensures forall k :: 0 <= k < |r| ==> r[k] == c
  {
    if n <= 0 then [] else [c] + Repeat(c, n - 1)
  }

  /** The inside of the bar for position pos: '=' up to just before the spinner, then blanks. */
  function Bar(pos: int, spin: char): string
  {
    Repeat('=', if pos == 0 then 0 else pos - 1) + [spin] + Repeat(' ', STATUS_BAR_SIZE - pos)
  }

  /**
   * For a position inside the bar, the bar is pos - 1 '=' (none at 0), the spinner,
   * and 40 - pos blanks: 40 columns for 1 <= pos <= 40 and 41 at pos == 0.
   */
  lemma BarLayout(pos: int, spin: char)
    requires 0 <= pos <= STATUS_BAR_SIZE
    ensures var fill := if pos == 0 then 0 else pos - 1;
            |Bar(pos, spin)| == fill + 1 + (STATUS_BAR_SIZE - pos) &&
            (forall k :: 0 <= k < fill ==> Bar(pos, spin)[k] == '=') &&
            Bar(pos, spin)[fill] == spin &&
            (forall k :: fill < k < |Bar(pos, spin)| ==> Bar(pos, spin)[k] == ' ')
    ensures |Bar(pos, spin)| == if pos == 0 then 41 else 40
  {
    var fill := if pos == 0 then 0 else pos - 1;
    var b := Bar(pos, spin);
    var eqs := Repeat('=', fill);
    var blanks := Repeat(' ', STATUS_BAR_SIZE - pos);
    assert b == eqs + [spin] + blanks;
    forall k | fill < k < |b|
      ensures b[k] == ' '
    {
      assert b[k] == blanks[k - fill - 1];
    }
  }

  /** The reporter: per-thread buckets, the cached count and the spinner position. */
  class StatusReporter {
    const goal: int
    var counts: map<int, int>
    var count: int
    var spinnerPos: int
    /** The thread ids that have a bucket, in the order they first incremented. */
    ghost var threads: seq<int>

    ghost predicate Valid()
      reads this
    {
      0 <= spinnerPos < |SPINNER| && Enumerates(threads, counts)
    }

    /** The sum of all buckets. */
    ghost function Total(): int
      requires Valid()
      reads this
    {
      SumOf(counts, threads)
    }

    constructor (goal: int)
      ensures this.goal == goal
      ensures counts == map[] && count == 0 && spinnerPos == 0
      ensures Valid() && Total() == 0
    {
      this.goal := goal;
      counts := map[];
      count := 0;
      spinnerPos := 0;
      threads := [];
    }

    /** One more permutation processed by thread tid. */
    method Increment(tid: int)
      requires Valid()
      modifies this
      ensures Valid()
      ensures counts == Credited(old(counts), tid, 1) && threads == Registered(old(threads), tid)
      ensures Total() == old(Total()) + 1
      ensures count == old(count) && spinnerPos == old(spinnerPos)
    {
      CreditedSum(counts, threads, tid, 1);
      counts := counts[tid := Bucket(counts, tid) + 1];
      threads := Registered(threads, tid);
    }

    /** Sums the buckets in a 64-bit long, caches the sum in `count` and returns it. */
    method Get() returns (r: int)
      requires Valid()
      modifies this
      ensures Valid()
      ensures r == Wrap64(Total()) && count == r
      ensures counts == old(counts) && threads == old(threads) && spinnerPos == old(spinnerPos)
    {
      var rest := counts;
      ghost var remaining := threads;
      var sum := 0;
      ghost var exact := 0;
      while rest.Keys != {}
        invariant Valid()
        invariant Enumerates(remaining, rest)
        invariant forall k :: k in rest ==> k in counts && rest[k] == counts[k]
        invariant forall i :: 0 <= i < |remaining| ==> remaining[i] in counts
        invariant sum == Wrap64(exact) && exact + SumOf(counts, remaining) == SumOf(counts, threads)
        invariant counts == old(counts) && threads == old(threads) && spinnerPos == old(spinnerPos)
        decreases |remaining|
      {
        EnumeratesEmpty(rest, remaining);
        ghost var w := remaining[0];
        assert w in rest;
        var k :| k in rest;
        ghost var j :| 0 <= j < |remaining| && remaining[j] == k;
        SumOfRemove(counts, remaining, j);
        EnumeratesRemove(rest, remaining, j);
        WrapAdd(exact, rest[k]);
        sum := Wrap64(sum + rest[k]);
        exact := exact + rest[k];
        rest := rest - {k};
        remaining := remaining[..j] + remaining[j + 1..];
      }
      EnumeratesEmpty(rest, remaining);
      count := sum;
      r := sum;
    }

    /** One run of the scheduled status task, drawing the bar at position pos. */
    method Tick(pos: int) returns (bar: string)
      requires Valid()
      modifies this
      ensures Valid()
      ensures spinnerPos == NextSpinner(old(spinnerPos))
      ensures bar == Bar(pos, SPINNER[spinnerPos])
      ensures counts == old(counts) && threads == old(threads) && count == old(count)
    {
      spinnerPos := spinnerPos + 1;
      if spinnerPos == |SPINNER| {
        spinnerPos := 0;
      }
      bar := Repeat('=', if pos == 0 then 0 else pos - 1) + [SPINNER[spinnerPos]] + Repeat(' ', STATUS_BAR_SIZE - pos);
    }
  }

  /** The first tick of a new reporter shows '/', not '|'. */
  method FirstTick(goal: int, pos: int) returns (bar: string)
    ensures bar == Bar(pos, '/')
  {
    var reporter := new StatusReporter(goal);
    bar := reporter.Tick(pos);
  }

  /**
   * A fresh reporter incremented under any sequence of thread ids, and read after
   * each increment, reads 1, 2, ..., n, wrapped to a long: while n fits a long
   * the count never decreases.
   */
  method CountsRead(goal: int, tids: seq<int>) returns (seen: seq<int>)
    ensures |seen| == |tids|
    ensures forall j :: 0 <= j < |tids| ==> seen[j] == Wrap64(j + 1)
    ensures |tids| <= LONG_MAX ==> forall j :: 0 <= j < |tids| ==> seen[j] == j + 1
  {
    var reporter := new StatusReporter(goal);
    seen := [];
    var j := 0;
    while j < |tids|
      invariant j <= |tids| && |seen| == j
      invariant reporter.Valid() && reporter.Total() == j
      invariant forall i :: 0 <= i < j ==> seen[i] == Wrap64(i + 1)
    {
      reporter.Increment(tids[j]);
      var r := reporter.Get();
      seen := seen + [r];
      j := j + 1;
    }
  }
}
