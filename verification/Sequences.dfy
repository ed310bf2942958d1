/** Cutting a stretch out of a sequence and splicing one in: the two operations
    the buffer performs, on its cells and on its text alike. */
module Sequences {
  function Splice<T>(s: seq<T>, p: nat, ins: seq<T>): seq<T>
    requires p <= |s|
  {
    s[..p] + ins + s[p..]
  }

  function Cut<T>(s: seq<T>, lo: nat, hi: nat): seq<T>
    requires lo <= hi <= |s|
  {
    s[..lo] + s[hi..]
  }

  /** Putting a clipped stretch back where it was undoes the clip. */
  lemma SpliceUndoesCut<T>(s: seq<T>, lo: nat, hi: nat)
    requires lo <= hi <= |s|
    ensures Splice(Cut(s, lo, hi), lo, s[lo..hi]) == s
  {
  }

  lemma OneMore<T>(s: seq<T>, p: nat, i: nat)
    requires p <= i < |s|
    ensures s[p..i + 1] == s[p..i] + [s[i]]
  {
  }
}
