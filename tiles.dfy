/**
 * Tiles: the shared vocabulary of both search engines.
 *
 * A tile sequence is a string of letters 'A'..'Z' and the wildcard '*'. Both
 * engines keep the sequence under search in a mutable `StringBuilder`; here that
 * is the class `Buffer`, whose `chars` field the operations reassign. The module
 * also holds the factorial and the 64-bit arithmetic the progress goal uses.
 */
module Tiles {

  /** The wildcard tile. */
  const BLANK: char := '*'

  /** The k-th letter of the alphabet, 'A' for k == 0. */
  function Letter(k: nat): (c: char)
    requires k < 26
    ensures 'A' <= c <= 'Z'
  {
    (65 + k) as char
  }

  /** The letters a wildcard is tried as, in the order the engines try them. */
  const ALPHABET: string := seq(26, k requires 0 <= k < 26 => Letter(k))

  predicate IsLetter(c: char)
  {
    'A' <= c <= 'Z'
  }

  /** Number of wildcard tiles in t. */
  function Stars(t: string): nat
  {
    multiset(t)[BLANK]
  }

  predicate NoBlanks(t: string)
  {
    forall p :: 0 <= p < |t| ==> t[p] != BLANK
  }

  lemma {:induction false} StarsZero(t: string)
    ensures Stars(t) == 0 <==> NoBlanks(t)
  {
    if NoBlanks(t) {
      assert BLANK !in multiset(t);
    } else {
      var p :| 0 <= p < |t| && t[p] == BLANK;
      assert t[p] in multiset(t);
    }
  }

  /** Filling one wildcard with a letter leaves one wildcard fewer. */
  lemma StarsFilled(t: string, i: nat, c: char)
    requires i < |t| && t[i] == BLANK && c != BLANK
    ensures Stars(t) > 0 && Stars(t[i := c]) == Stars(t) - 1
  {
    assert t[i] in multiset(t);
  }

  /** t with positions i and j exchanged. */
  function Swapped<T>(t: seq<T>, i: nat, j: nat): (r: seq<T>)
    requires i < |t| && j < |t|
    ensures |r| == |t| && r[i] == t[j] && r[j] == t[i]
  {
    t[i := t[j]][j := t[i]]
  }

  /** A swap keeps every other position and the multiset of tiles. */
  lemma SwappedElsewhere<T>(t: seq<T>, i: nat, j: nat)
    requires i < |t| && j < |t|
    ensures forall k :: 0 <= k < |t| && k != i && k != j ==> Swapped(t, i, j)[k] == t[k]
    ensures multiset(Swapped(t, i, j)) == multiset(t)
  {
  }

  /** Swapping the same two positions twice restores the sequence. */
  lemma SwappedTwice<T>(t: seq<T>, i: nat, j: nat)
    requires i < |t| && j < |t|
    ensures Swapped(Swapped(t, i, j), i, j) == t
  {
  }

  /** Regrouping a concatenation; stated once so that long proofs need not rediscover it. */
  lemma AppendAssoc<T>(a: seq<T>, b: seq<T>, c: seq<T>)
    ensures (a + b) + c == a + (b + c)
  {
  }

  /** t with position i removed, the others kept in order. */
  function Deleted<T>(t: seq<T>, i: nat): (r: seq<T>)
    requires i < |t|
    ensures |r| == |t| - 1
  {
    t[..i] + t[i + 1..]
  }

  /** Deleting position i shifts every later tile down by one and keeps the earlier ones. */
  lemma DeletedAt<T>(t: seq<T>, i: nat)
    requires i < |t|
    ensures forall p :: 0 <= p < i ==> Deleted(t, i)[p] == t[p]
    ensures forall p :: i <= p < |t| - 1 ==> Deleted(t, i)[p] == t[p + 1]
  {
    var d := Deleted(t, i);
    assert d == t[..i] + t[i + 1..];
    forall p | i <= p < |t| - 1
      ensures d[p] == t[p + 1]
    {
      assert d[p] == t[i + 1..][p - i];
    }
  }

  /** Deleting a position removes exactly that tile from the multiset. */
  lemma DeletedMultiset<T>(t: seq<T>, i: nat)
    requires i < |t|
    ensures multiset(Deleted(t, i)) == multiset(t) - multiset{t[i]}
  {
    assert t == t[..i] + [t[i]] + t[i + 1..];
  }

  /** Inserting the deleted tile back at its position restores the sequence. */
  lemma DeletedRestored<T>(t: seq<T>, i: nat)
    requires i < |t|
    ensures Deleted(t, i)[..i] + [t[i]] + Deleted(t, i)[i..] == t
  {
    var d := Deleted(t, i);
    assert d[..i] == t[..i] && d[i..] == t[i + 1..];
  }

  /** Index of the first wildcard of t, or |t| when there is none. */
  function FirstBlankIn(t: string): (i: nat)
    ensures i <= |t|
    ensures forall k :: 0 <= k < i ==> t[k] != BLANK
    ensures i < |t| ==> t[i] == BLANK
  {
    if t == [] then 0
    else if t[0] == BLANK then 0
    else 1 + FirstBlankIn(t[1..])
  }

  /**
   * The mutable character buffer both engines search in (Java's StringBuilder):
   * its operations replace `chars` and leave nothing else changed.
   */
  class Buffer {
    var chars: string

    constructor (init: string)
      ensures chars == init
    {
      chars := init;
    }

    method CharAt(i: nat) returns (c: char)
      requires i < |chars|
      ensures c == chars[i]
    {
      c := chars[i];
    }

    method SetCharAt(i: nat, c: char)
      requires i < |chars|
      modifies this
      ensures chars == old(chars)[i := c]
    {
      chars := chars[i := c];
    }

    method Append(c: char)
      modifies this
      ensures chars == old(chars) + [c]
    {
      chars := chars + [c];
    }

    method DeleteCharAt(i: nat)
      requires i < |chars|
      modifies this
      ensures chars == Deleted(old(chars), i)
    {
      chars := chars[..i] + chars[i + 1..];
    }

    method Insert(i: nat, c: char)
      requires i <= |chars|
      modifies this
      ensures chars == old(chars)[..i] + [c] + old(chars)[i..]
    {
      chars := chars[..i] + [c] + chars[i..];
    }

    /** Exchange the tiles at i and j; every other position keeps its tile. */
    method Swap(i: nat, j: nat)
      requires i < |chars| && j < |chars|
      modifies this
      ensures chars == Swapped(old(chars), i, j)
      ensures chars[i] == old(chars)[j] && chars[j] == old(chars)[i]
      ensures forall k :: 0 <= k < |chars| && k != i && k != j ==> chars[k] == old(chars)[k]
    {
      var tmp := chars[i];
      chars := chars[i := chars[j]];
      chars := chars[j := tmp];
    }
  }

  /** The scan both engines run before expanding: the position of the first wildcard. */
  method FirstBlank(s: Buffer) returns (i: nat)
    ensures i == FirstBlankIn(s.chars)
    ensures i <= |s.chars|
    ensures forall k :: 0 <= k < i ==> s.chars[k] != BLANK
    ensures i < |s.chars| ==> s.chars[i] == BLANK
  {
    i := 0;
    while i < |s.chars| && s.chars[i] != BLANK
      invariant i <= |s.chars|
      invariant forall k :: 0 <= k < i ==> s.chars[k] != BLANK
    {
      i := i + 1;
    }
    FirstBlankUnique(s.chars, i);
  }

  lemma {:induction false} FirstBlankUnique(t: string, i: nat)
    requires i <= |t|
    requires forall k :: 0 <= k < i ==> t[k] != BLANK
    requires i < |t| ==> t[i] == BLANK
    ensures i == FirstBlankIn(t)
  {
    if t != [] && t[0] != BLANK {
      FirstBlankUnique(t[1..], i - 1);
    }
  }

  // ----- factorials and the 64-bit goal accumulator -----

  /** Largest value of a Java `long`. */
  const LONG_MAX: int := 0x7FFF_FFFF_FFFF_FFFF
  const TWO_POW_64: int := 0x1_0000_0000_0000_0000

  /** The largest n whose factorial fits a `long` (`longValueExact` throws above it). */
  const MAX_EXACT_FACTORIAL: nat := 20

  function Pow(b: nat, e: nat): nat
  {
    if e == 0 then 1 else b * Pow(b, e - 1)
  }

  function Fact(n: nat): (r: nat)
    ensures r >= 1
  {
    if n == 0 then 1 else n * Fact(n - 1)
  }

  lemma {:induction false} FactMonotone(n: nat, m: nat)
    requires n <= m
    ensures Fact(n) <= Fact(m)
  {
    if n < m {
      FactMonotone(n, m - 1);
    }
  }

  /** L! is representable as a `long` exactly when L <= 20. */
  lemma FactFitsLong(n: nat)
    ensures Fact(n) <= LONG_MAX <==> n <= MAX_EXACT_FACTORIAL
  {
    assert Fact(1) == 1;
    assert Fact(2) == 2;
    assert Fact(3) == 6;
    assert Fact(4) == 24;
    assert Fact(5) == 120;
    assert Fact(6) == 720;
    assert Fact(7) == 5040;
    assert Fact(8) == 40320;
    assert Fact(9) == 362880;
    assert Fact(10) == 3628800;
    assert Fact(11) == 39916800;
    assert Fact(12) == 479001600;
    assert Fact(13) == 6227020800;
    assert Fact(14) == 87178291200;
    assert Fact(15) == 1307674368000;
    assert Fact(16) == 20922789888000;
    assert Fact(17) == 355687428096000;
    assert Fact(18) == 6402373705728000;
    assert Fact(19) == 121645100408832000;
    assert Fact(20) == 2432902008176640000;
    assert Fact(21) == 51090942171709440000;
    if n <= 20 {
      FactMonotone(n, 20);
    } else {
      FactMonotone(21, n);
    }
  }

  /** Two's-complement 64-bit wrap-around, as `AtomicLong.addAndGet` produces. */
  function Wrap64(x: int): (r: int)
    ensures -LONG_MAX - 1 <= r <= LONG_MAX
    ensures -LONG_MAX - 1 <= x <= LONG_MAX ==> r == x
  {
    (x + LONG_MAX + 1) % TWO_POW_64 - (LONG_MAX + 1)
  }

  /** Adding to an already wrapped value wraps the same as adding to the exact one. */
  lemma WrapAdd(x: int, y: int)
    ensures Wrap64(Wrap64(x) + y) == Wrap64(x + y)
  {
    var q := (x + LONG_MAX + 1) / TWO_POW_64;
    assert Wrap64(x) + y == x + y - q * TWO_POW_64;
    ModShift(x + y + LONG_MAX + 1, q);
  }

  lemma ModShift(a: int, q: int)
    ensures (a - q * TWO_POW_64) % TWO_POW_64 == a % TWO_POW_64
  {
  }
}
