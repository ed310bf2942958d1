/** The cons cells a buffer is made of, and what it means for cells in the heap
    to form a list.  NULL is `null`; a car is a character. */
module Cells {
  import opened Sequences

  class Cons {
    var car: char
    var cdr: Cons?

    constructor (car: char, cdr: Cons?)
      ensures this.car == car && this.cdr == cdr
    {
      this.car, this.cdr := car, cdr;
    }
  }

  ghost predicate Distinct(s: seq<Cons>) {
    forall i, j :: 0 <= i < j < |s| ==> s[i] != s[j]
  }

  /** The same, in a form that can be carried along cheaply. */
  ghost predicate NoRepeats(s: seq<Cons>) {
    forall c {:trigger multiset(s)[c]} :: c in s ==> multiset(s)[c] == 1
  }

  lemma DistinctHasNoRepeats(s: seq<Cons>)
    requires Distinct(s)
    ensures NoRepeats(s)
  {
    if s != [] {
      var n := |s| - 1;
      assert s == s[..n] + [s[n]];
      DistinctHasNoRepeats(s[..n]);
      assert s[n] !in s[..n];
    }
  }

  lemma NoRepeatsIsDistinct(s: seq<Cons>)
    requires NoRepeats(s)
    ensures Distinct(s)
  {
    forall i, j | 0 <= i < j < |s|
      ensures s[i] != s[j]
    {
      assert s == s[..j] + [s[j]] + s[j + 1..];
      assert multiset(s)[s[j]] == multiset(s[..j])[s[j]] + 1 + multiset(s[j + 1..])[s[j]];
      assert s[i] in s[..j];
    }
  }

  ghost predicate Apart(s: seq<Cons>, t: seq<Cons>) {
    forall i :: 0 <= i < |s| ==> s[i] !in t
  }

  /** The cell at index `i`, with `end` standing after the last one. */
  ghost function At(s: seq<Cons>, i: nat, end: Cons?): Cons? {
    if i < |s| then s[i] else end
  }

  /** The cells of `s` are linked in order and the last one leads to `end`.  With `end`
      NULL this is a whole list, which is acyclic: see ChainDistinct. */
  ghost predicate Chain(s: seq<Cons>, end: Cons?)
    reads s
  {
    forall i {:trigger s[i].cdr} :: 0 <= i < |s| ==> s[i].cdr == At(s, i + 1, end)
  }

  /** A NULL-terminated chain never comes back to a cell. */
  lemma ChainDistinct(s: seq<Cons>)
    requires Chain(s, null)
    ensures Distinct(s)
  {
    forall i, j | 0 <= i < j < |s|
      ensures s[i] != s[j]
    {
      NoReturn(s, i, j);
    }
  }

  lemma {:induction false} NoReturn(s: seq<Cons>, i: nat, j: nat)
    requires Chain(s, null) && i < j < |s|
    ensures s[i] != s[j]
    decreases |s| - j
  {
    if j + 1 < |s| {
      NoReturn(s, i + 1, j + 1);
    }
    assert s[i].cdr != s[j].cdr;
  }

  /** Equal pointers into a list are at the same place in it. */
  lemma SameIndex(s: seq<Cons>, i: nat, j: nat)
    requires Chain(s, null) && i <= |s| && j <= |s|
    ensures At(s, i, null) == At(s, j, null) <==> i == j
  {
    if i < j < |s| {
      NoReturn(s, i, j);
    } else if j < i < |s| {
      NoReturn(s, j, i);
    }
  }

  ghost function Text(s: seq<Cons>): (t: seq<char>)
    reads s
    ensures |t| == |s|
  {
    seq(|s|, i requires 0 <= i < |s| reads s => s[i].car)
  }

  /** Where `c` stands in `s`; NULL and strangers stand at the end. */
  ghost function Index(s: seq<Cons>, c: Cons?): (i: nat)
    ensures i <= |s|
    ensures i < |s| <==> c in s
    ensures i < |s| ==> s[i] == c
  {
    if |s| == 0 || s[0] == c then 0 else 1 + Index(s[1..], c)
  }

  /** A suffix of a list is a list. */
  lemma ChainSuffix(s: seq<Cons>, i: nat, end: Cons?)
    requires Chain(s, end) && i <= |s|
    ensures Chain(s[i..], end)
  {
  }

  /** Two stretches that meet end to end are one. */
  lemma ChainJoin(s: seq<Cons>, t: seq<Cons>, end: Cons?)
    requires Chain(t, end) && Chain(s, At(t, 0, end))
    ensures Chain(s + t, end)
    ensures Text(s + t) == Text(s) + Text(t)
  {
  }

  lemma ChainFront(s: seq<Cons>, ins: seq<Cons>)
    requires Chain(s, null) && Chain(ins, At(s, 0, null))
    ensures Chain(Splice(s, 0, ins), null)
    ensures Text(Splice(s, 0, ins)) == Splice(Text(s), 0, Text(ins))
  {
  }

  /** Cutting cells cuts their text. */
  lemma TextCut(s: seq<Cons>, lo: nat, hi: nat)
    requires lo <= hi <= |s|
    ensures Text(Cut(s, lo, hi)) == Cut(Text(s), lo, hi)
    ensures Text(s[lo..hi]) == Text(s)[lo..hi]
  {
  }
}
