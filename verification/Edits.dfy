/** Laws of the edits: what undoes what, and where a mark ends up. */
module Edits {
  import opened Sequences
  import opened TextModel

  // ----- each edit on the text itself -----

  /** A move goes where it is asked to, or to the end of the text on that side. */
  lemma MoveLands(v: View, count: int)
    requires v.Ok()
    ensures Moved(v, count).text == v.text && Moved(v, count).mark == v.mark
    ensures var q := v.point + count;
            Moved(v, count).point == if q < 0 then 0 else if q > |v.text| then |v.text| else q
  {
  }

  /** The character typed is the one that is there, right before point. */
  lemma TypedIsThere(v: View, ch: char)
    requires v.Ok()
    ensures var r := Typed(v, ch);
            && r.text == v.text[..v.point] + [ch] + v.text[v.point..] && r.point == v.point + 1
            && r.mark == match v.mark
                         case Place(i) => if i < v.point || (i == v.point < |v.text|) then Place(i)
                                          else Place(i + 1)
                         case _ => v.mark
  {
  }

  /** So is the list inserted, and a mark behind it keeps its character. */
  lemma InsertedIsThere(v: View, s: seq<char>)
    requires v.Ok()
    ensures var r := Inserted(v, s);
            && r.text == v.text[..v.point] + s + v.text[v.point..] && r.point == v.point + |s|
            && r.mark == match v.mark
                         case Place(i) => Place(if i < v.point then i else i + |s|)
                         case _ => v.mark
  {
  }

  /** What is clipped, from `lo` to `hi`, is the text between point and the other place. */
  lemma ClippedIsGone(v: View, c: nat, lo: nat, hi: nat)
    requires v.Ok() && c <= |v.text| && lo <= hi && ((lo == v.point && hi == c) || (lo == c && hi == v.point))
    ensures Between(v, c) == v.text[lo..hi]
    ensures var r := Clipped(v, c);
            && r.text == v.text[..lo] + v.text[hi..] && r.point == lo
            && r.mark == match v.mark
                         case Place(i) => if i < lo then Place(i)
                                          else if i >= hi then Place(i - (hi - lo))
                                          else if i + 1 == hi then Stray
                                          else Place(lo)
                         case _ => v.mark
  {
    assert lo == hi ==> v.text == v.text[..lo] + v.text[hi..];
  }

  /** clip_char removes the character `count` away from point, for a count that is not
      positive and stays in the text; for any other count it only moves point.  The last
      character of the buffer takes any set mark to the end. */
  lemma CharIsGone(v: View, count: int)
    requires v.Ok()
    ensures var q, r := v.point + count, CharClipped(v, count);
            if count <= 0 && 0 <= q < |v.text| then
              && r.text == v.text[..q] + v.text[q + 1..] && r.point == q
              && r.mark == if v.mark == Unset then Unset
                           else if q + 1 == |v.text| then Place(q)
                           else if v.mark.Place? && v.mark.i > q then Place(v.mark.i - 1)
                           else v.mark
            else
              && r.text == v.text && r.mark == v.mark
              && r.point == if q < 0 then 0 else if q > |v.text| then |v.text| else q
  {
  }

  // ----- what undoes what -----

  /** Moving n forward and n back is the identity exactly when n does not overrun the end
      or both ends stop it; the other way round likewise. */
  lemma MoveAndBack(v: View, n: nat)
    requires v.Ok()
    ensures Moved(Moved(v, n), 0 - n) == v <==> v.point + n <= |v.text| || v.point == 0
    ensures Moved(Moved(v, 0 - n), n) == v <==> n <= v.point || v.point == |v.text|
  {
  }

  /** Where a move ends and what it leaves in the count add up to where it was asked to
      go, on the side it went to; only a forward move that stops inside leaves -1. */
  lemma CountAddsUp(v: View, count: int)
    requires v.Ok()
    ensures var r, left := Moved(v, count).point, CountLeft(|v.text|, v.point, count);
            v.point + count == if count < 0 && v.point > 0 then r - left
                               else if 0 <= count < |v.text| - v.point then r
                               else r + left
    ensures CountLeft(|v.text|, v.point, count) == -1 <==>
              0 <= count < |v.text| - v.point || (count == -1 && v.point == 0)
  {
  }

  /** clip_char removes a character exactly for a count that is not positive and stays
      in the text; for any other count it only moves point. */
  lemma CharClippedExactly(v: View, count: int)
    requires v.Ok()
    ensures if count <= 0 && 0 <= v.point + count < |v.text|
            then CharClipped(v, count).text == Cut(v.text, v.point + count, v.point + count + 1)
                 && CharClipped(v, count).point == v.point + count
                 && CharClipped(v, count).text != v.text
            else CharClipped(v, count) == Moved(v, count)
  {
  }

  /** Rubbing out undoes typing on text and point always, and on the mark too unless
      the character is typed at the end of the buffer with the mark set elsewhere. */
  lemma TypeThenRubOut(v: View, ch: char)
    requires v.Ok()
    ensures var r := CharClipped(Typed(v, ch), -1);
            && r.text == v.text && r.point == v.point
            && (r == v <==> v.point < |v.text| || v.mark == Unset || v.mark == Place(|v.text|))
  {
  }

  /** Where a mark should be once the character at `p` is gone. */
  function KeptMark(m: Mark, p: nat): Mark {
    if m.Place? && m.i > p then Place(m.i - 1) else m
  }

  /** Erasing keeps the mark in its place, except that erasing the last character of the
      buffer resets any set mark to the end. */
  lemma ErasedMark(v: View)
    requires v.Ok() && v.point < |v.text|
    ensures Erased(v).mark == KeptMark(v.mark, v.point) <==>
            v.point + 1 < |v.text| || v.mark == Unset || (v.mark.Place? && v.mark.i >= v.point)
  {
  }

  /** Inserting a copy of what was clipped restores the text, with point behind it.  The
      mark is restored too exactly when it was not on a clipped cell, and stays lost exactly
      when it was on the last one. */
  lemma ClipThenInsertCopy(v: View, c: nat)
    requires v.Ok() && c <= |v.text|
    ensures var r := Inserted(Clipped(v, c), Between(v, c));
            && r.text == v.text && r.point == Max(v.point, c)
            && (r.mark == v.mark <==> !(v.mark.Place? && Min(v.point, c) <= v.mark.i < Max(v.point, c)))
            && (r.mark == Stray <==> v.mark == Stray || (c != v.point && v.mark == Place(Max(v.point, c) - 1)))
  {
  }

  /** For a stray mark see the method of the buffer. */
  lemma SwapTwice(v: View)
    requires v.Ok() && v.mark != Stray
    ensures Swapped(Swapped(v)) == v
    ensures Swapped(v) == v <==> v.mark == Unset || v.mark == Place(v.point)
  {
  }
}
