/** What a buffer means: a text, a point index and a mark, and what each editing
    operation does to them. */
module TextModel {
  import opened Sequences

  /** `Place(i)` is before character `i`, `Place(|text|)` the end (NULL).  `Unset` is
      the `hil` sentinel.  `Stray` is a mark on a cell that left the buffer. */
  datatype Mark = Unset | Place(i: nat) | Stray

  datatype View = View(text: seq<char>, point: nat, mark: Mark) {
    ghost predicate Ok() {
      point <= |text| && (mark.Place? ==> mark.i <= |text|)
    }
  }

  function Min(a: int, b: int): int {
    if a < b then a else b
  }

  function Max(a: int, b: int): int {
    if a < b then b else a
  }

  /** Moving clamps to the text. */
  function MovedIndex(n: nat, p: nat, count: int): (r: nat)
    requires p <= n
    ensures r <= n
  {
    Max(0, Min(n, p + count))
  }

  /** What `forward_chars` leaves in `*count`: zero only when the move ends exactly
      where it was asked to and was backward, or reached the end of the buffer. */
  function CountLeft(n: nat, p: nat, count: int): int
    requires p <= n
  {
    if count < 0 then (if p == 0 then count else Max(0, -count - p))
    else if count < n - p then -1 else count - (n - p)
  }

  function Moved(v: View, count: int): View
    requires v.Ok()
  {
    v.(point := MovedIndex(|v.text|, v.point, count))
  }

  /** Where a place is after `n` characters come in before index `k`. */
  function Shift(i: nat, k: nat, n: nat): nat {
    if i < k then i else i + n
  }

  function ShiftMark(m: Mark, k: nat, n: nat): Mark {
    if m.Place? then Place(Shift(m.i, k, n)) else m
  }

  /** Typing copies the cell at point and overwrites the original, so a mark on point's
      cell stays before the new character; a mark at the end stays at the end. */
  function Typed(v: View, ch: char): (r: View)
    requires v.Ok()
    ensures r.Ok()
  {
    View(Splice(v.text, v.point, [ch]),
         v.point + 1,
         ShiftMark(v.mark, if v.point < |v.text| then v.point + 1 else v.point, 1))
  }

  /** Inserting a list leaves point after it, and a mark at point goes along. */
  function Inserted(v: View, s: seq<char>): (r: View)
    requires v.Ok()
    ensures r.Ok()
  {
    View(Splice(v.text, v.point, s),
         v.point + |s|,
         ShiftMark(v.mark, v.point, |s|))
  }

  /** The mark after the stretch lo..hi is clipped.  The last clipped cell is not
      compared with the mark, so a mark there is lost. */
  function MarkAfterClip(m: Mark, lo: nat, hi: nat): Mark
    requires lo < hi
  {
    match m
    case Place(i) =>
      if i < lo then m
      else if i < hi - 1 then Place(lo)
      else if i == hi - 1 then Stray
      else Place(i - (hi - lo))
    case _ => m
  }

  /** Clipping between point and `c`, on either side of it. */
  function Clipped(v: View, c: nat): (r: View)
    requires v.Ok() && c <= |v.text|
    ensures r.Ok()
  {
    if c == v.point then v else
    var lo, hi := Min(v.point, c), Max(v.point, c);
    View(Cut(v.text, lo, hi), lo, MarkAfterClip(v.mark, lo, hi))
  }

  /** The stretch between point and `c`. */
  function Between(v: View, c: nat): seq<char>
    requires v.Ok() && c <= |v.text|
  {
    v.text[Min(v.point, c)..Max(v.point, c)]
  }

  /** Removing the character at point. */
  function Erased(v: View): (r: View)
    requires v.Ok()
    ensures r.Ok()
  {
    if v.point == |v.text| then v else
    View(Cut(v.text, v.point, v.point + 1),
         v.point,
         if v.point + 1 == |v.text| then
           (if v.mark == Unset then Unset else Place(v.point))
         else match v.mark
           case Place(i) => Place(if i > v.point then i - 1 else i)
           case _ => v.mark)
  }

  /** `clip_char (count)`: point moves first, and the character is removed only if the
      move left nothing in the count. */
  function CharClipped(v: View, count: int): (r: View)
    requires v.Ok()
    ensures r.Ok()
  {
    var moved := Moved(v, count);
    if count != 0 && CountLeft(|v.text|, v.point, count) != 0 then moved else Erased(moved)
  }

  /** Swapping does nothing while the mark is unset. */
  function Swapped(v: View): (r: View)
    requires v.Ok() && v.mark != Stray
    ensures r.Ok()
  {
    match v.mark
    case Place(i) => View(v.text, i, Place(v.point))
    case _ => v
  }
}
