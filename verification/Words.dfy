/** The word motions of src/bindables.cc on a text. */
module Words {
  import opened TextModel

  /** `isalnum` in the C locale. */
  predicate IsAlnum(ch: char) {
    '0' <= ch <= '9' || 'A' <= ch <= 'Z' || 'a' <= ch <= 'z'
  }

  /** By their codes. */
  lemma AlnumCodes(ch: char)
    ensures IsAlnum(ch) <==> 48 <= ch as int <= 57 || 65 <= ch as int <= 90 || 97 <= ch as int <= 122
  {
  }

  /** Backward to an alphanumeric, or to the start. */
  function BackToWord(t: seq<char>, p: nat): (a: nat)
    requires p < |t| || p == 0
    ensures a <= p && (a != 0 ==> IsAlnum(t[a]))
    ensures forall i :: a < i <= p ==> !IsAlnum(t[i])
  {
    if p == 0 || IsAlnum(t[p]) then p else BackToWord(t, p - 1)
  }

  /** Backward to something that is not alphanumeric, or to the start. */
  function BackOverWord(t: seq<char>, p: nat): (b: nat)
    requires p < |t| || p == 0
    ensures b <= p && (b != 0 ==> !IsAlnum(t[b]))
    ensures forall i :: b < i <= p ==> IsAlnum(t[i])
  {
    if p == 0 || !IsAlnum(t[p]) then p else BackOverWord(t, p - 1)
  }

  /** Forward to an alphanumeric, or to the end. */
  function OnToWord(t: seq<char>, p: nat): (a: nat)
    requires p <= |t|
    ensures p <= a <= |t| && (a < |t| ==> IsAlnum(t[a]))
    ensures forall i :: p <= i < a ==> !IsAlnum(t[i])
    decreases |t| - p
  {
    if p == |t| || IsAlnum(t[p]) then p else OnToWord(t, p + 1)
  }

  /** Forward to something that is not alphanumeric, or to the end. */
  function OnOverWord(t: seq<char>, p: nat): (b: nat)
    requires p <= |t|
    ensures p <= b <= |t| && (b < |t| ==> !IsAlnum(t[b]))
    ensures forall i :: p <= i < b ==> IsAlnum(t[i])
    decreases |t| - p
  {
    if p == |t| || !IsAlnum(t[p]) then p else OnOverWord(t, p + 1)
  }

  function BackwardWord(t: seq<char>, p: nat): (r: nat)
    requires p <= |t|
    ensures r <= p
  {
    var b := BackOverWord(t, BackToWord(t, Max(0, p - 1)));
    if b != 0 then b + 1 else 0
  }

  function ForwardWord(t: seq<char>, p: nat): (r: nat)
    requires p <= |t|
    ensures p <= r <= |t|
  {
    OnOverWord(t, Min(|t|, OnToWord(t, p) + 1))
  }

  ghost predicate NoWord(t: seq<char>, i: nat, j: nat) {
    forall m :: i <= m < j && m < |t| ==> !IsAlnum(t[m])
  }

  /** Nothing but a word strictly between `i` and `j`. */
  ghost predicate AllWord(t: seq<char>, i: nat, j: nat) {
    forall m :: i < m < j && m < |t| ==> IsAlnum(t[m])
  }

  /** backward_word stops at the start of the text or at the first character of a word,
      and crosses one word at most; at the start, the first character may be anything, so
      that it never stops at the second. */
  lemma BackwardWordLands(t: seq<char>, p: nat)
    requires p <= |t|
    ensures var r := BackwardWord(t, p);
            && (r == 0 || (r < |t| && IsAlnum(t[r]) && !IsAlnum(t[r - 1])))
            && r != 1 && (p > 0 ==> r < p)
            && exists m :: r <= m <= p && NoWord(t, m, p) && AllWord(t, r, m)
  {
    var a := BackToWord(t, Max(0, p - 1));
    assert NoWord(t, Min(a + 1, p), p) && AllWord(t, BackwardWord(t, p), Min(a + 1, p));
  }

  /** forward_word stops at the end of the text or just after a word, and crosses one
      word at most. */
  lemma ForwardWordLands(t: seq<char>, p: nat)
    requires p <= |t|
    ensures var r := ForwardWord(t, p);
            && (r == |t| || (r > 0 && !IsAlnum(t[r]) && IsAlnum(t[r - 1])))
            && (p < |t| ==> p < r)
            && exists m :: p <= m <= r && NoWord(t, p, m) && (forall i :: m <= i < r ==> IsAlnum(t[i]))
  {
    assert NoWord(t, p, OnToWord(t, p));
  }
}
