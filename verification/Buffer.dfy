/** The text buffer of src/Buffer.cc: a chain of cells with three pointers into it. */
module Buffers {
  import opened Sequences
  import opened Cells
  import opened TextModel
  import opened Lines
  import opened Rows
  import ConsList
  import Distances

  /** How the pointers of a buffer sit on its cells. */
  ghost predicate Placed(s: seq<Cons>, hil: Cons, content: Cons?, point: Cons?, p: nat, mark: Cons?, m: Mark) {
    && content == At(s, 0, null)
    && p <= |s| && point == At(s, p, null)
    && hil !in s
    && match m
       case Unset => mark == hil
       case Place(i) => i <= |s| && mark == At(s, i, null)
       case Stray => mark != hil && mark != null && mark !in s
  }

  /** Every pointer keeps its cell when others are spliced in, except that the first
      cell may be a new one. */
  lemma PlacedAfterSplice(s: seq<Cons>, k: nat, ins: seq<Cons>, hil: Cons, content: Cons?, point: Cons?, p: nat,
                          mark: Cons?, m: Mark)
    requires Placed(s, hil, content, point, p, mark, m)
    requires k <= |s| && |ins| > 0 && hil !in ins && mark !in ins
    ensures Placed(Splice(s, k, ins), hil, if k == 0 then ins[0] else content, point, Shift(p, k, |ins|),
                   mark, ShiftMark(m, k, |ins|))
    ensures Placed(Splice(s, k, ins), hil, if k == 0 then ins[0] else content, ins[0], k,
                   mark, ShiftMark(m, k, |ins|))
  {
  }

  /** The same for a list that may hold the mark. */
  lemma PlacedAfterInsert(s: seq<Cons>, p: nat, ins: seq<Cons>, hil: Cons, content: Cons?, point: Cons?,
                          mark: Cons?, m: Mark)
    returns (n: Mark)
    requires Placed(s, hil, content, point, p, mark, m)
    requires |ins| > 0 && hil !in ins && Apart(s, ins)
    ensures n == if mark in ins then Place(p + Index(ins, mark)) else ShiftMark(m, p, |ins|)
    ensures Placed(Splice(s, p, ins), hil, if p == 0 then ins[0] else content, point, p + |ins|, mark, n)
  {
    if mark in ins {
      n := Place(p + Index(ins, mark));
      assert Splice(s, p, ins)[p + Index(ins, mark)] == mark;
    } else {
      n := ShiftMark(m, p, |ins|);
      PlacedAfterSplice(s, p, ins, hil, content, point, p, mark, m);
    }
  }

  /** Unlinking lo..hi moves a mark on any cell of it but the last to the cut, and
      strands a mark on the last. */
  lemma PlacedAfterCut(s: seq<Cons>, lo: nat, hi: nat, hil: Cons, content: Cons?, mark: Cons?, m: Mark)
    requires lo < hi <= |s| && Distinct(s)
    requires Placed(s, hil, content, s[lo], lo, mark, m)
    ensures Placed(Cut(s, lo, hi), hil, if lo == 0 then At(s, hi, null) else content, At(s, hi, null), lo,
                   if mark in s[lo..hi - 1] then At(s, hi, null) else mark, MarkAfterClip(m, lo, hi))
  {
  }

  /** Dropping the cell after p moves a mark on it to p. */
  lemma PlacedAfterAbsorb(s: seq<Cons>, p: nat, hil: Cons, content: Cons?, mark: Cons?, m: Mark)
    requires p + 1 < |s| && Distinct(s)
    requires Placed(s, hil, content, s[p], p, mark, m)
    ensures Placed(Cut(s, p + 1, p + 2), hil, content, s[p], p, if mark == s[p + 1] then s[p] else mark,
                   if m.Place? && m.i > p then Place(m.i - 1) else m)
  {
  }

  /** Dropping the last cell resets any set mark to the end. */
  lemma PlacedAfterDrop(s: seq<Cons>, hil: Cons, content: Cons?, mark: Cons?, m: Mark)
    requires |s| > 0
    requires Placed(s, hil, content, s[|s| - 1], |s| - 1, mark, m)
    ensures Placed(s[..|s| - 1], hil, if |s| == 1 then null else content, null, |s| - 1,
                   if mark == hil then hil else null, if m == Unset then Unset else Place(|s| - 1))
  {
  }

  class Buffer {
    var point: Cons?
    var mark: Cons?
    var content: Cons?
    var modified: bool
    const tabWidth: nat
    const hil: Cons            // the mark's value while it is unset
    ghost var cells: seq<Cons> // the chain from content
    ghost var pos: nat         // where point is in it
    ghost var place: Mark      // where mark is in it

    /** The tab width is set once, when the editor makes the buffer. */
    constructor (hil: Cons, tabWidth: nat)
      ensures Valid() && this.hil == hil && this.tabWidth == tabWidth && !modified
      ensures State() == View([], 0, Unset)
      ensures cells == []
    {
      this.hil := hil;
      this.tabWidth := tabWidth;
      content, point, mark := null, null, hil;
      modified := false;
      cells, pos, place := [], 0, Unset;
    }

    /** The mark may stray: whatever keeps it in the buffer says so itself. */
    ghost predicate Valid()
      reads this, cells
    {
      && Chain(cells, null)
      && Placed(cells, hil, content, point, pos, mark, place)
    }

    ghost function State(): (v: View)
      requires Valid()
      reads this, cells
      ensures v.Ok()
    {
      View(Text(cells), pos, place)
    }

    // ----- motion -----

    /** The forward half of forward_chars: `count` steps or to the end. */
    static method Walk(from: Cons?, count: int, ghost s: seq<Cons>, ghost end: Cons?)
      returns (r: Cons?, left: int)
      requires Chain(s, end) && from == At(s, 0, end)
      requires count >= 0 && (end != null ==> count <= |s|)
      ensures r == At(s, if count < |s| then count else |s|, end)
      ensures end == null ==> left == if count < |s| then -1 else count - |s|
    {
      r, left := from, count;
      ghost var i := 0;
      while r != null
        invariant i <= |s| && i <= count && r == At(s, i, end) && left == count - i
        decreases count - i
      {
        left := left - 1;
        if left == -1 {
          break;
        }
        r := r.cdr;
        i := i + 1;
      }
    }

    method ForwardChars(count: int) returns (left: int)
      requires Valid()
      modifies `point, `pos
      ensures Valid()
      ensures State() == Moved(old(State()), count)
      ensures left == CountLeft(|cells|, old(pos), count)
    {
      SameIndex(cells, pos, 0);
      SameIndex(cells, pos, |cells|);
      left := count;
      if point == content {
        if count < 0 {
          return;
        }
      } else if point == null {
        if count > 0 {
          return;
        }
      }
      if count < 0 {
        point, left := ConsList.FindBut(content, point, -count, cells, pos);
      } else {
        ChainSuffix(cells, pos, null);
        point, left := Walk(point, count, cells[pos..], null);
      }
      pos := MovedIndex(|cells|, pos, count);
    }

    /** An assignment to point. */
    method PointTo(c: Cons?, ghost p: nat)
      requires Valid() && p <= |cells| && c == At(cells, p, null)
      modifies `point, `pos
      ensures Valid() && point == c && pos == p
      ensures State() == old(State()).(point := p)
    {
      point, pos := c, p;
    }

    // ----- editing -----

    /** The copy-the-neighbour trick: a cell is put after point's, takes over its
        character, and point's cell gets the new one. */
    static method LinkAfter(point: Cons, ch: char, ghost s: seq<Cons>, ghost p: nat) returns (cons: Cons)
      requires Chain(s, null) && p < |s| && point == s[p]
      modifies point
      ensures fresh(cons)
      ensures Chain(Splice(s, p + 1, [cons]), null)
      ensures Text(Splice(s, p + 1, [cons])) == Splice(old(Text(s)), p, [ch])
    {
      ChainDistinct(s);
      cons := new Cons(point.car, point.cdr);
      point.cdr := cons;
      point.car := ch;
    }

    static method LinkLast(content: Cons, ch: char, ghost s: seq<Cons>) returns (cons: Cons)
      requires Chain(s, null) && |s| > 0 && content == s[0]
      modifies s[|s| - 1]
      ensures fresh(cons)
      ensures Chain(Splice(s, |s|, [cons]), null)
      ensures Text(Splice(s, |s|, [cons])) == Splice(old(Text(s)), |s|, [ch])
    {
      ChainDistinct(s);
      cons := new Cons(ch, null);
      var end := ConsList.Last(content, s);
      end.cdr := cons;
    }

    /** The pointers now sit on the cells `t`: record it. */
    ghost method Became(t: seq<Cons>, p: nat, m: Mark)
      requires Chain(t, null) && Placed(t, hil, content, point, p, mark, m)
      modifies `cells, `pos, `place
      ensures Valid()
      ensures cells == t && State() == View(old(Text(t)), p, m)
    {
      cells, pos, place := t, p, m;
    }

    method InsertChar(ch: char) returns (r: Cons?, ghost cell: Cons)
      requires Valid()
      modifies this, cells
      ensures Valid()
      ensures fresh(cell)
      ensures cells == Splice(old(cells), if old(point) == null then |old(cells)| else old(pos) + 1, [cell])
      ensures State() == Typed(old(State()), ch)
      ensures State().text == old(State()).text[..old(pos)] + [ch] + old(State()).text[old(pos)..]
      ensures pos == old(pos) + 1 && mark == old(mark)
      ensures r == point && modified
    {
      ghost var s, c, p, v := cells, content, point, Typed(State(), ch);
      ghost var k := if point == null then |s| else pos + 1;
      cell := LinkChar(ch);
      modified := true;
      r := point;
      PlacedAfterSplice(s, k, [cell], hil, c, p, pos, mark, place);
      assert Text(Splice(s, k, [cell])) == v.text;
      Became(Splice(s, k, [cell]), v.point, v.mark);
    }

    /** The new cell is linked in, and point moves to it unless it is at the end. */
    method LinkChar(ch: char) returns (cell: Cons)
      requires Valid()
      modifies `point, `content, cells
      ensures fresh(cell)
      ensures point == if old(point) == null then null else cell
      ensures content == if |cells| == 0 then cell else old(content)
      ensures var t := Splice(cells, if old(point) == null then |cells| else pos + 1, [cell]);
              Chain(t, null) && Text(t) == old(Text(cells))[..pos] + [ch] + old(Text(cells))[pos..]
    {
      if point != null {
        cell := LinkAfter(point, ch, cells, pos);
        point := cell;
      } else if content != null {
        cell := LinkLast(content, ch, cells);
      } else {
        content := new Cons(ch, null);
        cell := content;
      }
    }

    /** The last cell of a list is linked to `tail`; the buffer does not notice. */
    static method LinkEnd(list: Cons, tail: Cons?, ghost ins: seq<Cons>, ghost s: seq<Cons>)
      requires Chain(ins, null) && |ins| > 0 && list == ins[0]
      requires Chain(s, null) && Apart(s, ins)
      modifies ins[|ins| - 1]
      ensures Chain(ins, tail) && Text(ins) == old(Text(ins))
      ensures Chain(s, null) && Text(s) == old(Text(s))
    {
      ChainDistinct(ins);
      var end := ConsList.Last(list, ins);
      end.cdr := tail;
    }

    static method LinkTo(prev: Cons, list: Cons, ghost s: seq<Cons>, ghost p: nat, ghost ins: seq<Cons>)
      requires Chain(s, null) && 0 < p <= |s| && prev == s[p - 1]
      requires |ins| > 0 && list == ins[0] && Chain(ins, At(s, p, null)) && Apart(s, ins)
      modifies prev
      ensures Chain(Splice(s, p, ins), null)
      ensures Text(Splice(s, p, ins)) == Splice(old(Text(s)), p, old(Text(ins)))
    {
      ChainDistinct(s);
      prev.cdr := list;
    }

    /** `ins` is a list that shares no cell with the buffer: a copy, or a clip that is put
        back.  In the second case it may bring home a stray mark. */
    method Insert(list: Cons?, ghost ins: seq<Cons>) returns (r: Cons?)
      requires Valid()
      requires Chain(ins, null) && list == At(ins, 0, null)
      requires Apart(cells, ins) && hil !in ins
      modifies this, cells, ins
      ensures Valid()
      ensures cells == Splice(old(cells), old(pos), ins)
      ensures State() == Inserted(old(State()), old(Text(ins))).(mark := place)
      ensures State().text == old(State()).text[..old(pos)] + old(Text(ins)) + old(State()).text[old(pos)..]
      ensures pos == old(pos) + |ins|
      ensures place == if mark in ins then Place(old(pos) + Index(ins, mark))
                       else ShiftMark(old(place), old(pos), |ins|)
      ensures mark == old(mark) && modified == old(modified)
      ensures r == if list != null && old(content) != null && old(pos) == 0 then content else null
      // The documented result, the content if it has changed, holds except on an empty buffer.
      ensures (r == if content != old(content) then content else null) <==> list == null || old(content) != null
    {
      ghost var s, c, p, v := cells, content, pos, Inserted(State(), Text(ins));
      r := null;
      if list == null {
        assert Splice(s, p, ins) == s && v == State();
      } else {
        ghost var m := PlacedAfterInsert(s, p, ins, hil, c, point, mark, place);
        r := LinkList(list, ins);
        assert Text(Splice(s, p, ins)) == v.text;
        Became(Splice(s, p, ins), v.point, m);
      }
    }

    /** The list is linked in before point. */
    method LinkList(list: Cons, ghost ins: seq<Cons>) returns (r: Cons?)
      requires Valid() && Chain(ins, null) && |ins| > 0 && list == ins[0] && Apart(cells, ins)
      modifies `content, `point, `pos, cells, ins
      ensures point == old(point) && content == if old(pos) == 0 then list else old(content)
      ensures r == if old(content) != null && old(pos) == 0 then content else null
      ensures Chain(Splice(cells, old(pos), ins), null)
      ensures Text(Splice(cells, old(pos), ins)) == Splice(old(Text(cells)), old(pos), old(Text(ins)))
    {
      ghost var s, p := cells, pos;
      if content == null {
        content := list;
        r := point;
        ChainFront(s, ins);
      } else {
        var ret := point;
        SameIndex(s, p, 0);
        LinkEnd(list, point, ins, s);
        if point == content {
          content := list;
          r := content;
          ChainFront(s, ins);
        } else {
          r := null;
          var _ := ForwardChars(-1);
          LinkTo(point, list, s, p, ins);
          point := ret;
        }
      }
    }

    /** The walk from cell p of the list `s` to the cell before `target`, noting whether
        it leaves the mark behind; the cell it stops at is not compared with the mark.
        `target` is at q, or off the list when q is past its end. */
    static method CellBefore(from: Cons?, target: Cons?, mark: Cons?, ghost s: seq<Cons>, ghost p: nat, ghost q: nat)
      returns (tem: Cons?, holdsMark: bool)
      requires Chain(s, null) && p <= |s| && from == At(s, p, null)
      requires if q <= |s| then target == At(s, q, null) else target != null && target !in s
      ensures if p < q <= |s| then tem == s[q - 1] && (holdsMark <==> mark in s[p..q - 1]) else tem == null
    {
      tem, holdsMark := from, false;
      ghost var i := p;
      while tem != null && tem.cdr != target
        invariant p <= i <= |s| && tem == At(s, i, null)
        invariant p < q <= |s| ==> i < q
        invariant holdsMark <==> mark in s[p..i]
        decreases |s| - i
      {
        SameNext(s, i, q);
        OneMore(s, p, i);
        if tem == mark {
          holdsMark := true;
        }
        tem := tem.cdr;
        i := i + 1;
      }
      if tem != null {
        SameNext(s, i, q);
      }
    }

    /** A cell leads to the target exactly when it is the one before it. */
    static lemma SameNext(s: seq<Cons>, i: nat, q: nat)
      requires Chain(s, null) && i < |s|
      ensures q <= |s| ==> (s[i].cdr == At(s, q, null) <==> i + 1 == q)
    {
      if q <= |s| {
        SameIndex(s, i + 1, q);
      }
    }

    /** The cells lo..hi become a list of their own. */
    static method Truncate(tem: Cons, ghost s: seq<Cons>, ghost lo: nat, ghost hi: nat)
      requires Chain(s, null) && lo < hi <= |s| && tem == s[hi - 1]
      modifies tem`cdr
      ensures Chain(s[..hi], null) && Chain(s[hi..], null) && Chain(s[lo..hi], null)
      ensures Text(Cut(s, lo, hi)) == Cut(old(Text(s)), lo, hi)
      ensures Text(s[lo..hi]) == old(Text(s))[lo..hi]
      ensures Distinct(s)
    {
      ChainDistinct(s);
      tem.cdr := null;
      TextCut(s, lo, hi);
    }

    /** The cell before lo is linked over the cut. */
    static method LinkOver(prev: Cons, cons: Cons?, ghost s: seq<Cons>, ghost lo: nat, ghost hi: nat)
      requires 0 < lo < hi <= |s| && prev == s[lo - 1] && cons == At(s, hi, null)
      requires Distinct(s) && Chain(s[..hi], null) && Chain(s[hi..], null) && Chain(s[lo..hi], null)
      modifies prev
      ensures Chain(Cut(s, lo, hi), null) && Chain(s[lo..hi], null)
      ensures Text(Cut(s, lo, hi)) == old(Text(Cut(s, lo, hi))) && Text(s[lo..hi]) == old(Text(s[lo..hi]))
    {
      prev.cdr := cons;
      assert s[lo..hi] == s[..hi][lo..];
      forall i | 0 <= i < |Cut(s, lo, hi)|
        ensures Cut(s, lo, hi)[i].cdr == At(Cut(s, lo, hi), i + 1, null)
      {
        if i < lo {
          assert s[..hi][i] == s[i];
        } else {
          assert s[hi..][i - lo] == s[i - lo + hi];
        }
      }
    }

    /** Point, and a mark that was clipped, move to the cut. */
    method MoveTo(cons: Cons?, holdsMark: bool, ghost t: seq<Cons>, ghost p: nat, ghost m: Mark, ghost clip: seq<Cons>)
      requires Chain(t, null) && Chain(clip, null)
      requires Placed(t, hil, content, cons, p, if holdsMark then cons else mark, m)
      modifies `point, `mark, `cells, `pos, `place
      ensures Valid()
      ensures cells == t && State() == View(old(Text(t)), p, m)
      ensures Chain(clip, null) && Text(clip) == old(Text(clip))
      ensures mark == if holdsMark then cons else old(mark)
    {
      if holdsMark {
        mark := cons;
      }
      point := cons;
      cells, pos, place := t, p, m;
    }

    /** The content, or the cell before lo, leads to what follows the cut. */
    method LinkContent(cons: Cons?, ghost s: seq<Cons>, ghost lo: nat, ghost hi: nat)
      requires lo < hi <= |s| && content == s[0] && point == s[lo] && cons == At(s, hi, null)
      requires Distinct(s) && Chain(s[..hi], null) && Chain(s[hi..], null) && Chain(s[lo..hi], null)
      modifies `content, s[..lo]
      ensures content == if lo == 0 then cons else old(content)
      ensures Chain(Cut(s, lo, hi), null) && Chain(s[lo..hi], null)
      ensures Text(Cut(s, lo, hi)) == old(Text(Cut(s, lo, hi))) && Text(s[lo..hi]) == old(Text(s[lo..hi]))
    {
      if content == point {
        content := cons;
        assert Cut(s, lo, hi) == s[hi..];
      } else {
        assert s[..hi][lo - 1] == s[lo - 1];
        var prev, _ := ConsList.FindBut(content, point, 1, s[..hi], lo); // forward_chars (-1)
        LinkOver(prev, cons, s, lo, hi);
      }
    }

    /** The second half of clip_to: point's cell is at lo, `tem` is the cell before
        `cons`, which is at hi. */
    method ClipBetween(tem: Cons, cons: Cons?, holdsMark: bool, ghost hi: nat) returns (ret: Cons?)
      requires Valid() && pos < hi <= |cells|
      requires tem == cells[hi - 1] && cons == At(cells, hi, null)
      requires holdsMark <==> mark in cells[pos..hi - 1]
      modifies this, cells
      ensures Valid() && modified
      ensures cells == Cut(old(cells), old(pos), hi)
      ensures State() == View(Cut(old(State()).text, old(pos), hi), old(pos), MarkAfterClip(old(place), old(pos), hi))
      ensures ret == old(cells)[old(pos)]
      ensures Chain(old(cells)[old(pos)..hi], null)
      ensures Text(old(cells)[old(pos)..hi]) == old(State()).text[old(pos)..hi]
      ensures mark == if holdsMark then cons else old(mark)
    {
      ghost var s, lo, clip := cells, pos, cells[pos..hi];
      ghost var v, clipped := View(Cut(Text(s), lo, hi), lo, MarkAfterClip(place, lo, hi)), Text(s)[lo..hi];
      SameIndex(s, lo, 0);
      ret := point;
      Truncate(tem, s, lo, hi);
      PlacedAfterCut(s, lo, hi, hil, content, mark, place);
      modified := true;
      LinkContent(cons, s, lo, hi);
      assert Text(Cut(s, lo, hi)) == v.text && Text(clip) == clipped;
      MoveTo(cons, holdsMark, Cut(s, lo, hi), lo, v.mark, clip);
    }

    /** A position that can be clipped or copied to. */
    ghost predicate Here(c: Cons?)
      reads this
    {
      c == null || c in cells
    }

    /** The head of a list that has nothing to do with the buffer. */
    ghost predicate Elsewhere(c: Cons?, other: seq<Cons>)
      reads this, other
    {
      |other| > 0 && c == other[0] && Chain(other, null) && Apart(cells, other)
    }

    /** Point goes to the first of point and `c` and `cons` to the other; `tem` is the cell
        before `cons`.  A cell of another list is looked for both ways and not found. */
    method FindStretch(c: Cons?, ghost other: seq<Cons>)
      returns (tem: Cons?, cons: Cons?, holdsMark: bool, ghost hi: nat)
      requires Valid() && point != c && (Here(c) || (point != null && Elsewhere(c, other)))
      modifies `point, `pos
      ensures Valid() && State() == old(State()).(point := pos)
      ensures tem == null <==> !Here(c)
      ensures tem == null ==> pos == old(pos)
      ensures tem != null ==>
                && pos == Min(old(pos), Index(cells, c)) && hi == Max(old(pos), Index(cells, c))
                && pos < hi <= |cells| && tem == cells[hi - 1] && cons == At(cells, hi, null)
                && (holdsMark <==> mark in cells[pos..hi - 1])
    {
      ghost var p, q := pos, if Here(c) then Index(cells, c) else |cells| + 1;
      if Here(c) {
        SameIndex(cells, p, q);
      }
      cons, hi := c, q;
      var swap: Cons? := null;
      tem, holdsMark := null, false;
      if point != null {
        tem, holdsMark := CellBefore(point, cons, mark, cells, p, q);
      }
      if tem == null {
        // The two change places for a second try.
        swap, point, cons := point, c, point;
        ghost var list, from, to := other, 0, |other| + 1;
        if Here(c) {
          list, from, to := cells, q, p;
          pos, hi := q, p;
        }
        tem, holdsMark := CellBefore(point, cons, mark, list, from, to);
        if tem == null {
          point := swap;
        }
      }
    }

    /** Everything between point and `c`, whichever comes first, leaves the buffer as a
        list. */
    method ClipTo(c: Cons?, ghost other: seq<Cons>) returns (ret: Cons?)
      requires Valid() && (Here(c) || (point != null && Elsewhere(c, other)))
      modifies this, cells
      ensures Valid()
      ensures old(Here(c)) && c != old(point) ==>
                var q := Index(old(cells), c);
                var lo, hi := Min(old(pos), q), Max(old(pos), q);
                && lo < hi
                && cells == Cut(old(cells), lo, hi)
                && State() == Clipped(old(State()), q)
                && ret == old(cells)[lo]
                && Chain(old(cells)[lo..hi], null)
                && Text(old(cells)[lo..hi]) == Between(old(State()), q)
                && modified
      ensures !old(Here(c)) || c == old(point) ==>
                ret == null && cells == old(cells) && State() == old(State()) && modified == old(modified)
      ensures place == Stray ==> mark == old(mark)
    {
      if point == c {
        return null;
      }
      var tem, cons, holdsMark;
      ghost var hi;
      tem, cons, holdsMark, hi := FindStretch(c, other);
      if tem == null {
        return null;
      }
      ret := ClipBetween(tem, cons, holdsMark, hi);
    }

    /** The round trip of clip_to and insert, which no command of its own makes.  Clipping
        and putting the clip itself back: every cell is where it was, point is behind the
        stretch, and so is a mark that was on it, unless it was on the last cell, which it
        never left. */
    method ClipThenInsert(c: Cons?)
      requires Valid() && Here(c)
      modifies this, cells
      ensures Valid() && cells == old(cells)
      ensures State() == Restored(old(State()), Index(old(cells), c))
    {
      ghost var s, v, q, held := cells, State(), Index(cells, c), mark;
      SameIndex(s, pos, q);
      var list := ClipOut(c, []);
      if list != null {
        InsertBack(list, v, held, s, Min(v.point, q), Max(v.point, q));
      }
    }

    static function Restored(v: View, q: nat): View {
      var lo, hi := Min(v.point, q), Max(v.point, q);
      View(v.text, hi, if v.mark.Place? && lo <= v.mark.i < hi - 1 then Place(hi) else v.mark)
    }

    /** The stretch lo..hi of the buffer that was `s` and meant `v` is out of it, in the
        list at `list`; a mark that strays is where it was. */
    ghost predicate IsOut(list: Cons, v: View, held: Cons?, s: seq<Cons>, lo: nat, hi: nat)
      reads this, s, cells
    {
      && Valid() && lo < hi <= |s| == |v.text|
      && cells == Cut(s, lo, hi) && State() == View(Cut(v.text, lo, hi), lo, MarkAfterClip(v.mark, lo, hi))
      && Chain(s[lo..hi], null) && list == s[lo] && Text(s[lo..hi]) == v.text[lo..hi]
      && NoRepeats(s) && hil !in s
      && (place == Stray ==> mark == held && if v.mark == Stray then held !in s else held == s[hi - 1])
    }

    /** The way out. */
    method ClipOut(c: Cons?, ghost other: seq<Cons>) returns (list: Cons?)
      requires Valid() && (Here(c) || (point != null && Elsewhere(c, other)))
      modifies this, cells
      ensures Valid() && (list == null <==> !old(Here(c)) || c == old(point))
      ensures list == null ==> cells == old(cells) && State() == old(State())
      ensures list != null ==>
                var v, q := old(State()), Index(old(cells), c);
                IsOut(list, v, old(mark), old(cells), Min(v.point, q), Max(v.point, q))
      ensures place == Stray ==> mark == old(mark)
    {
      ghost var s, v, q, held := cells, State(), Index(cells, c), mark;
      ghost var lo, hi := Min(pos, q), Max(pos, q);
      if Here(c) {
        SameIndex(s, pos, q);
      }
      ChainDistinct(s);
      DistinctHasNoRepeats(s);
      list := ClipTo(c, other);
      if list != null {
        assert cells == Cut(s, lo, hi) && State() == Clipped(v, q);
        assert place == Stray ==> mark == held && if v.mark == Stray then held !in s else held == s[hi - 1];
        assert IsOut(list, v, held, s, lo, hi);
      }
    }

    /** The way back. */
    method InsertBack(list: Cons, ghost v: View, ghost held: Cons?, ghost s: seq<Cons>, ghost lo: nat, ghost hi: nat)
      requires IsOut(list, v, held, s, lo, hi)
      modifies this, s
      ensures Valid() && cells == s
      ensures State() == View(v.text, hi, if v.mark.Place? && lo <= v.mark.i < hi - 1 then Place(hi) else v.mark)
    {
      ghost var m := MarkAfterClip(v.mark, lo, hi);
      ClipIsApart(s, lo, hi);
      SpliceUndoesCut(s, lo, hi);
      LastOfClip(s, lo, hi);
      SpliceUndoesCut(v.text, lo, hi);
      assert m != Stray || v.mark == Stray ==> mark !in s[lo..hi];
      var _ := Insert(list, s[lo..hi]);
      assert place == if m == Stray && v.mark != Stray then Place(hi - 1) else ShiftMark(m, lo, hi - lo);
    }

    /** A cut leaves no cell behind, the clip ends with its last, and splicing it back
        restores the cells. */
    static lemma ClipIsApart(s: seq<Cons>, lo: nat, hi: nat)
      requires NoRepeats(s) && lo < hi <= |s|
      ensures Apart(Cut(s, lo, hi), s[lo..hi])
    {
      NoRepeatsIsDistinct(s);
      forall i | 0 <= i < |Cut(s, lo, hi)|
        ensures Cut(s, lo, hi)[i] !in s[lo..hi]
      {
        assert Cut(s, lo, hi)[i] == if i < lo then s[i] else s[i + (hi - lo)];
      }
    }

    static lemma LastOfClip(s: seq<Cons>, lo: nat, hi: nat)
      requires NoRepeats(s) && lo < hi <= |s|
      ensures Index(s[lo..hi], s[hi - 1]) == hi - 1 - lo
    {
      NoRepeatsIsDistinct(s);
      assert s[lo..hi][hi - 1 - lo] == s[hi - 1];
    }

    /** clip_to as its callers see it: the clip `t` and the buffer share out the cells there
        were, and a mark that comes to stray is on the clip. */
    method ClipAway(c: Cons?, ghost other: seq<Cons>) returns (list: Cons?, ghost t: seq<Cons>)
      requires Valid() && (Here(c) || (point != null && Elsewhere(c, other)))
      modifies this, cells
      ensures Valid() && Chain(t, null) && list == At(t, 0, null)
      ensures State() == if old(Here(c)) then Clipped(old(State()), Index(old(cells), c)) else old(State())
      ensures Text(t) == if old(Here(c)) then Between(old(State()), Index(old(cells), c)) else []
      ensures list == null <==> !old(Here(c)) || Index(old(cells), c) == old(pos)
      ensures forall i :: 0 <= i < |t| ==> t[i] in old(cells)
      ensures forall i :: 0 <= i < |cells| ==> cells[i] !in t && cells[i] in old(cells)
      ensures place == Stray ==> mark == old(mark) && (old(place) == Stray || (|t| > 0 && mark == t[|t| - 1]))
    {
      ghost var s, v, q := cells, State(), Index(cells, c);
      ghost var lo, hi := Min(v.point, q), Max(v.point, q);
      if Here(c) {
        SameIndex(s, pos, q);
      }
      list := ClipOut(c, other);
      t := [];
      if list != null {
        t := s[lo..hi];
        OutIsApart(list, v, old(mark), s, lo, hi);
      }
    }

    /** The clip and what is left of the buffer are all there was, each cell in one of them. */
    lemma OutIsApart(list: Cons, v: View, held: Cons?, s: seq<Cons>, lo: nat, hi: nat)
      requires IsOut(list, v, held, s, lo, hi)
      ensures Valid() && State() == View(Cut(v.text, lo, hi), lo, MarkAfterClip(v.mark, lo, hi))
      ensures Chain(s[lo..hi], null) && list == At(s[lo..hi], 0, null) && Text(s[lo..hi]) == v.text[lo..hi]
      ensures forall i :: 0 <= i < |s[lo..hi]| ==> s[lo..hi][i] in s
      ensures forall i :: 0 <= i < |cells| ==> cells[i] !in s[lo..hi] && cells[i] in s
      ensures place == Stray ==> mark == held && (v.mark == Stray || mark == s[lo..hi][|s[lo..hi]| - 1])
    {
      ClipIsApart(s, lo, hi);
    }

    /** The list is truncated after `tem` while it is copied, and repaired. */
    static method CopyStretch(from: Cons, tem: Cons, ghost s: seq<Cons>, ghost lo: nat, ghost hi: nat)
      returns (ret: Cons?, ghost t: seq<Cons>)
      requires Chain(s, null) && lo < hi <= |s| && from == s[lo] && tem == s[hi - 1]
      modifies tem`cdr
      ensures unchanged(tem)
      ensures Chain(t, null) && |t| > 0 && ret == t[0] && Text(t) == Text(s)[lo..hi]
      ensures forall i :: 0 <= i < |t| ==> fresh(t[i])
    {
      var cdr := tem.cdr;
      Truncate(tem, s, lo, hi);
      ret, t := ConsList.CopyList(from, s[lo..hi]);
      tem.cdr := cdr;
    }

    /** A fresh copy of what clip_to would take; the buffer is as it was.  With point at the
        end and `c` in another list it is a copy of all that follows there. */
    method CopyTo(c: Cons?, ghost other: seq<Cons>) returns (ret: Cons?, ghost t: seq<Cons>)
      requires Valid() && (Here(c) || Elsewhere(c, other))
      modifies cells, other
      ensures Valid() && unchanged(cells) && unchanged(other) && State() == old(State())
      ensures forall i :: 0 <= i < |t| ==> fresh(t[i])
      ensures Chain(t, null) && ret == At(t, 0, null)
      ensures Text(t) == if Here(c) then Between(State(), Index(cells, c))
                         else if point == null then Text(other) else []
      ensures ret == null <==> c == point || (!Here(c) && point != null)
    {
      t := [];
      ghost var p, q := pos, if Here(c) then Index(cells, c) else |cells| + 1;
      if Here(c) {
        SameIndex(cells, p, q);
      }
      if point == c {
        return null, t;
      }
      var cons, swap := c, null;
      var tem: Cons? := null;
      var holdsMark: bool;
      if point != null {
        tem, holdsMark := CellBefore(point, cons, null, cells, p, q);
      }
      ghost var list, lo, hi := cells, p, q;
      if tem == null {
        // Look from the other end for point.
        swap, cons := c, point;
        if Here(c) {
          lo, hi := q, p;
        } else {
          list, lo, hi := other, 0, if point == null then |other| else |other| + 1;
        }
        tem, holdsMark := CellBefore(swap, cons, null, list, lo, hi);
      }
      if tem == null {
        return null, t;
      }
      ret, t := CopyStretch(if swap != null then swap else point, tem, list, lo, hi);
    }

    /** The copy-the-neighbour trick backward: point's cell takes over the next one. */
    static method Absorb(point: Cons, cons: Cons, ghost s: seq<Cons>, ghost p: nat)
      requires Chain(s, null) && p + 1 < |s| && point == s[p] && cons == s[p + 1]
      modifies point, cons
      ensures Chain(Cut(s, p + 1, p + 2), null)
      ensures Text(Cut(s, p + 1, p + 2)) == Cut(old(Text(s)), p, p + 1)
      ensures Distinct(s)
    {
      ChainDistinct(s);
      point.cdr := cons.cdr;
      point.car := cons.car;
      cons.cdr := null;
    }

    static method DropLast(prev: Cons, ghost s: seq<Cons>)
      requires Chain(s, null) && |s| > 1 && prev == s[|s| - 2]
      modifies prev
      ensures Chain(s[..|s| - 1], null)
      ensures Text(s[..|s| - 1]) == old(Text(s))[..|s| - 1]
    {
      ChainDistinct(s);
      prev.cdr := null;
    }

    /** clip_char before another character: the next cell is absorbed and deleted. */
    method EraseInside(cons: Cons)
      requires Valid() && pos + 1 < |cells| && cons == cells[pos + 1]
      modifies this, cells
      ensures Valid() && modified
      ensures State() == Erased(old(State()))
      ensures cells == Cut(old(cells), old(pos) + 1, old(pos) + 2)
      ensures place == Stray ==> mark == old(mark)
    {
      ghost var s, p, v := cells, pos, Erased(State());
      Absorb(point, cons, s, p);
      PlacedAfterAbsorb(s, p, hil, content, mark, place);
      modified := true;
      if mark == cons {
        mark := point;
      }
      Became(Cut(s, p + 1, p + 2), p, v.mark);
    }

    /** Nothing leads to the last cell any more. */
    method UnlinkLast()
      requires Valid() && pos + 1 == |cells|
      modifies `content, `point, `pos, cells
      ensures content == if |cells| == 1 then null else old(content)
      ensures Chain(cells[..|cells| - 1], null) && Text(cells[..|cells| - 1]) == old(Text(cells))[..|cells| - 1]
    {
      SameIndex(cells, pos, 0);
      if content == point {
        content := null;
      } else {
        var _ := ForwardChars(-1);
        DropLast(point, cells);
      }
    }

    /** clip_char on the last character: point's own cell is deleted. */
    method EraseLast()
      requires Valid() && pos + 1 == |cells|
      modifies this, cells
      ensures Valid() && modified
      ensures State() == Erased(old(State()))
      ensures cells == old(cells)[..old(pos)]
    {
      ghost var s, p, v := cells, pos, Erased(State());
      assert v.text == Text(s)[..p];
      PlacedAfterDrop(s, hil, content, mark, place);
      modified := true;
      UnlinkLast();
      point := null;
      if mark != hil {
        mark := null;
      }
      assert Text(s[..p]) == v.text;
      Became(s[..p], p, v.mark);
    }

    /** Point moves by `count`; if that used the count up, the character at point goes. */
    method ClipChar(count: int) returns (r: Cons?)
      requires Valid()
      modifies this, cells
      ensures Valid() && r == point
      ensures State() == CharClipped(old(State()), count)
      ensures forall i :: 0 <= i < |cells| ==> cells[i] in old(cells)
      ensures place == Stray ==> mark == old(mark)
    {
      var left := count;
      if count != 0 {
        left := ForwardChars(count);
      }
      if left != 0 {
        return point;
      }
      if point != null {
        var cons := point.cdr;
        if cons != null {
          EraseInside(cons);
        } else {
          EraseLast();
        }
      }
      r := point;
    }

    // ----- lines -----

    method BeginningOfLine() returns (bol: Cons?)
      requires Valid()
      ensures bol == At(cells, Bol(State().text, pos), null)
    {
      var tem := content;
      bol := tem;
      ghost var t, i := Text(cells), 0;
      SameIndex(cells, i, pos);
      while tem != point
        invariant i <= pos && tem == At(cells, i, null)
        invariant tem == point <==> i == pos
        invariant bol == At(cells, Bol(t, i), null)
        decreases pos - i
      {
        assert t[i] == tem.car;
        if tem.car == LINEFEED {
          tem := tem.cdr;
          bol := tem;
        } else {
          tem := tem.cdr;
        }
        i := i + 1;
        SameIndex(cells, i, pos);
      }
    }

    method EndOfLine() returns (tem: Cons?)
      requires Valid()
      ensures tem == At(cells, Eol(State().text, pos), null)
    {
      tem := point;
      ghost var t, i := Text(cells), pos;
      while tem != null && tem.car != LINEFEED
        invariant i <= |cells| && tem == At(cells, i, null)
        invariant Eol(t, i) == Eol(t, pos)
        decreases |cells| - i
      {
        assert t[i] == tem.car;
        tem := tem.cdr;
        i := i + 1;
      }
      assert i < |cells| ==> t[i] == cells[i].car;
    }

    /** The distance to `two` on the same list. */
    static method Ahead(one: Cons?, two: Cons?, ghost s: seq<Cons>, ghost i: nat, ghost j: nat) returns (n: nat)
      requires Chain(s, null) && i <= j <= |s| && one == At(s, i, null) && two == At(s, j, null)
      ensures n == j - i
    {
      var tem := one;
      n := 0;
      SameIndex(s, i, j);
      while tem != two
        invariant i + n <= j && tem == At(s, i + n, null)
        invariant tem == two <==> i + n == j
        decreases j - i - n
      {
        n := n + 1;
        tem := tem.cdr;
        SameIndex(s, i + n, j);
      }
    }

    /** The cells from a line's newline, where point is, to the end of the next line. */
    method CountNextLine() returns (count: nat)
      requires Valid() && point != null
      ensures pos + count == Eol(State().text, pos + 1)
    {
      var tem := point;
      count := 0;
      ghost var t := Text(cells);
      ghost var e := Eol(t, pos + 1);
      while tem != null
        invariant pos + count <= e && tem == At(cells, pos + count, null)
        invariant tem != null ==> pos + count < |cells| && Eol(t, pos + count + 1) == e
        invariant tem == null ==> pos + count == e
        decreases |cells| - pos - count
      {
        tem := tem.cdr;
        count := count + 1;
        if tem != null {
          assert t[pos + count] == tem.car;
          if tem.car == LINEFEED {
            break;
          }
        }
      }
    }

    /** From a line's newline point moves `len` cells, but not past the next line's end. */
    method StepIntoNextLine(len: nat)
      requires Valid() && pos < |cells|
      modifies `point, `pos
      ensures Valid()
      ensures State() == old(State()).(point := OnFrom(old(State()).text, old(pos), len))
    {
      var count := CountNextLine();
      var _ := ForwardChars(if len > count then count else len);
    }

    /** Point goes to the same column of the next line, to the end of a shorter one, or
        to the end of the buffer. */
    method ForwardLine() returns (r: Cons?)
      requires Valid()
      modifies `point, `pos
      ensures Valid() && r == point
      ensures State() == old(State()).(point := LineForward(old(State()).text, old(pos)))
      // From the last line it is the end.
      ensures (forall i :: old(pos) <= i < |cells| ==> State().text[i] != '\n') ==> point == null
    {
      ghost var v := State();
      ghost var t, p, e := v.text, pos, Eol(v.text, pos);
      var tem := BeginningOfLine();
      var len := Ahead(tem, point, cells, Bol(t, p), p);
      len := len + 1;
      tem := EndOfLine();
      PointTo(tem, e);
      if point != null {
        assert State() == v.(point := e);
        StepIntoNextLine(len);
      }
      r := point;
      assert e < |cells| ==> t[e] == '\n' && p <= e;
    }

    /** From a line's beginning point goes `len` cells into the previous line, but not
        past its end. */
    method EnterPreviousLine(len: nat)
      requires Valid() && pos > 0 && LineStart(State().text, pos)
      modifies `point, `pos
      ensures Valid()
      ensures State() == old(State()).(point := BackFrom(old(State()).text, old(pos), len))
    {
      ghost var v, b := State(), pos;
      ghost var a := Bol(v.text, b - 1);
      LineSpan(v.text, b - 1, a);
      ghost var r := BackFrom(v.text, b, len);
      assert r == a + Min(len, Eol(v.text, a) - a);
      var _ := ForwardChars(-1);
      var begin := BeginningOfLine();
      PointTo(begin, a);
      assert State() == v.(point := a);
      StepAlong(len);
    }

    /** Point goes to the same column of the previous line, or to the end of a shorter
        one; on the first line to its beginning. */
    method BackwardLine() returns (r: Cons?)
      requires Valid()
      modifies `point, `pos
      ensures Valid() && r == point
      ensures State() == old(State()).(point := LineBackward(old(State()).text, old(pos)))
      // From the first line it is the start.
      ensures (forall i :: 0 <= i < old(pos) ==> State().text[i] != '\n') ==> point == content
    {
      ghost var v := State();
      ghost var t, p, b := v.text, pos, Bol(v.text, pos);
      var begin := BeginningOfLine();
      SameIndex(cells, b, 0);
      if begin == content {
        PointTo(begin, 0);
        return point;
      }
      var len := Ahead(begin, point, cells, b, p);
      PointTo(begin, b);
      assert State() == v.(point := b);
      EnterPreviousLine(len);
      r := point;
    }

    /** Point moves along its line by up to `len` cells; a newline ends the line. */
    method StepAlong(len: nat)
      requires Valid() && Eol(State().text, pos) < |cells|
      modifies `point, `pos
      ensures Valid()
      ensures State() == old(State()).(point := old(pos) + Min(len, Eol(old(State()).text, old(pos)) - old(pos)))
    {
      ghost var t, p, e := Text(cells), pos, Eol(State().text, pos);
      var left: int := len;
      while left != 0
        invariant Valid() && Text(cells) == t && place == old(place) && cells == old(cells)
        invariant 0 <= left && p <= pos <= e && Eol(t, pos) == e && pos + left == p + len
        decreases left
      {
        assert t[pos] == point.car;
        left := left - 1;
        if point.car == LINEFEED {
          break;
        }
        PointTo(point.cdr, pos + 1);
      }
    }

    /** Point goes from a line's beginning to the beginning of the k-th line before. */
    method UpLines(k: nat) returns (line: Cons?)
      requires Valid() && k > 0 && LineStart(State().text, pos)
      modifies `point, `pos
      ensures Valid() && line == point
      ensures State() == old(State()).(point := BackLines(old(State()).text, old(pos), k))
    {
      ghost var v := State();
      var left := k;
      line := point;
      while left != 0
        invariant Valid() && State() == v.(point := pos) && line == point
        invariant LineStart(v.text, pos)
        invariant BackLines(v.text, pos, left) == BackLines(v.text, v.point, k)
        decreases left
      {
        BackOne(v.text, pos);
        left := left - 1;
        line := BackwardLine();
      }
    }

    /** The beginning of the line `count` lines away; point stays. */
    method NextLineFrom(count: int) returns (line: Cons?)
      requires Valid()
      modifies `point, `pos
      ensures Valid() && State() == old(State())
      ensures line == At(cells, NextLine(State().text, pos, count), null)
    {
      var tem := point;
      ghost var t, p := State().text, pos;
      line := BeginningOfLine();
      PointTo(line, Bol(t, p));
      if count >= 0 {
        line := SkipForward(line, count, cells, pos);
      } else {
        line := UpLines(-count);
      }
      PointTo(tem, p);
    }

    /** The cell after the count-th newline from `from`, or NULL. */
    static method SkipForward(from: Cons?, count: nat, ghost s: seq<Cons>, ghost p: nat) returns (line: Cons?)
      requires Chain(s, null) && p <= |s| && from == At(s, p, null)
      ensures line == At(s, SkipLines(Text(s), p, count), null)
    {
      line := from;
      var left := count;
      ghost var i, t := p, Text(s);
      while line != null && left != 0
        invariant i <= |s| && line == At(s, i, null)
        invariant SkipLines(t, i, left) == SkipLines(t, p, count)
        decreases |s| - i
      {
        assert t[i] == line.car;
        if line.car == LINEFEED {
          left := left - 1;
        }
        line := line.cdr;
        i := i + 1;
      }
    }

    method CurrentLine() returns (count: nat)
      requires Valid()
      ensures count == Newlines(State().text, 0, pos)
    {
      SameIndex(cells, Index(cells, point), pos);
      count := Distances.LineDistance(content, point, cells, []);
    }

    /** The screen column, with tabs expanded. */
    method CurrentColumn() returns (count: nat)
      requires Valid()
      ensures count == Width(State().text, Bol(State().text, pos), pos, tabWidth)
    {
      var tem := BeginningOfLine();
      count := 0;
      ghost var t := Text(cells);
      ghost var b, i := Bol(t, pos), Bol(t, pos);
      while tem != null
        invariant b <= i <= pos && tem == At(cells, i, null)
        invariant count == Width(t, b, i, tabWidth)
        decreases |cells| - i
      {
        SameIndex(cells, i, pos);
        if tem == point {
          return;
        }
        assert t[i] == tem.car;
        if tem.car == '\t' {
          count := count + tabWidth;
        } else {
          count := count + 1;
        }
        tem := tem.cdr;
        i := i + 1;
      }
    }

    // ----- window rows -----

    static method RowsDown(from: Cons?, count: nat, cols: nat, ghost s: seq<Cons>, ghost p: nat) returns (line: Cons?)
      requires Chain(s, null) && p <= |s| && from == At(s, p, null)
      ensures line == At(s, RowsForward(Text(s), p, count, cols, cols), null)
    {
      var col: int := cols;
      var left := count;
      line := from;
      ghost var i, t := p, Text(s);
      while line != null && left != 0
        invariant i <= |s| && line == At(s, i, null)
        invariant RowsForward(t, i, left, col, cols) == RowsForward(t, p, count, cols, cols)
        decreases |s| - i
      {
        assert t[i] == line.car;
        col := col - 1;
        if col == -1 || line.car == LINEFEED {
          left := left - 1;
          col := cols;
        }
        line := line.cdr;
        i := i + 1;
      }
    }

    /** The row ends between two cells, up to the first newline. */
    static method CountEdges(line: Cons?, pnt: Cons?, cols: nat, ghost s: seq<Cons>, ghost i: nat, ghost j: nat)
      returns (edges: nat)
      requires Chain(s, null) && i <= j <= |s| && line == At(s, i, null) && pnt == At(s, j, null)
      ensures edges == Edges(Text(s), i, j, 0, cols)
    {
      var tem, col := line, 0;
      edges := 0;
      ghost var m, t := i, Text(s);
      SameIndex(s, m, j);
      while tem != pnt
        invariant m <= j && tem == At(s, m, null) && col >= 0
        invariant tem == pnt <==> m == j
        invariant edges + Edges(t, m, j, col, cols) == Edges(t, i, j, 0, cols)
        decreases j - m
      {
        assert t[m] == tem.car;
        if tem.car == LINEFEED {
          edges := edges + 1;
          break;
        }
        col := col + 1;
        if col == cols {
          edges := edges + 1;
          col := 0;
        }
        tem := tem.cdr;
        m := m + 1;
        SameIndex(s, m, j);
      }
    }

    /** `edges` full rows on from `line`. */
    static method FullRowsDown(from: Cons?, edges: nat, cols: nat, ghost s: seq<Cons>, ghost i: nat)
      returns (line: Cons?)
      requires Chain(s, null) && i + edges * cols <= |s| && from == At(s, i, null)
      ensures line == At(s, i + edges * cols, null)
    {
      line := from;
      var left: nat := edges;
      ghost var m := i;
      while left != 0
        invariant m + left * cols == i + edges * cols && line == At(s, m, null)
        decreases left
      {
        Scaled(0, left - 1, cols);
        assert left * cols == (left - 1) * cols + cols;
        left := left - 1;
        line := Advance(line, cols, s, m);
        m := m + cols;
      }
    }

    static method Advance(from: Cons?, n: nat, ghost s: seq<Cons>, ghost i: nat) returns (line: Cons?)
      requires Chain(s, null) && i + n <= |s| && from == At(s, i, null)
      ensures line == At(s, i + n, null)
    {
      line := from;
      var col := 0;
      while col < n
        invariant col <= n && line == At(s, i + col, null)
      {
        line := line.cdr;
        col := col + 1;
      }
    }

    /** A round of the backward search, on the line entered at `line`. */
    static method SearchLine(line: Cons?, pnt: Cons?, k: nat, cols: nat, ghost s: seq<Cons>, ghost i: nat, ghost j: nat,
                             ghost point: nat)
      returns (r: Cons?, left: nat)
      requires Chain(s, null) && 0 < i <= point <= j <= |s| && line == At(s, i, null) && pnt == At(s, j, null)
      requires k > 0 && cols > 0
      ensures if left == 0 then r == At(s, RowsBackward(Text(s), j, i, point, k, cols), null)
              else var up := LineBackward(Text(s), point);
                   RowsBackward(Text(s), j, i, point, k, cols) == RowsBackward(Text(s), point, up, up, left, cols)
    {
      var edges := CountEdges(line, pnt, cols, s, i, j);
      r := line;
      if edges > k {
        // More rows than wanted: the place is inside this line.
        EdgesFit(Text(s), i, j, 0, cols);
        Scaled(edges - k, edges - 1, cols);
        r := FullRowsDown(line, edges - k, cols, s, i);
        left := 0;
      } else {
        left := k - edges;
      }
    }

    /** The backward search; point is left wherever the search got to. */
    method RowsUp(k: nat, cols: nat) returns (line: Cons?)
      requires Valid() && k > 0 && cols > 0
      modifies `point, `pos
      ensures Valid() && State() == old(State()).(point := pos)
      ensures var t, p := old(State()).text, old(pos);
              line == At(cells, RowsBackward(t, p, Bol(t, p), p, k, cols), null)
    {
      ghost var v := State();
      ghost var t, p, q := v.text, pos, RowsBackward(v.text, pos, Bol(v.text, pos), pos, k, cols);
      var left := k;
      line := BeginningOfLine();
      SameIndex(cells, Bol(t, p), 0);
      if line == content {
        return;
      }
      line, left := SearchLine(line, point, left, cols, cells, Bol(t, p), p, p);
      while left != 0
        invariant Valid() && State() == v.(point := pos)
        invariant if left == 0 then line == At(cells, q, null)
                  else pos > 0 && RowsBackward(t, pos, LineBackward(t, pos), LineBackward(t, pos), left, cols) == q
        decreases pos
      {
        var pnt := point;
        ghost var j, i := pos, LineBackward(t, pos);
        line := BackwardLine();
        SameIndex(cells, i, 0);
        if line == content {
          return;
        }
        line, left := SearchLine(line, pnt, left, cols, cells, i, j, i);
      }
    }

    /** The place `count` window rows away; point stays.  The source takes point to be in
        the first column. */
    method NextWindowLineFrom(count: int, cols: nat) returns (line: Cons?)
      requires Valid() && cols > 0
      modifies `point, `pos
      ensures Valid() && State() == old(State())
      ensures line == At(cells, NextWindowLine(State().text, pos, count, cols), null)
    {
      var tem := point;
      ghost var p := pos;
      if count >= 0 {
        line := RowsDown(point, count, cols, cells, pos);
      } else {
        line := RowsUp(-count, cols);
      }
      PointTo(tem, p);
    }

    // ----- the mark -----

    method SetMark()
      requires Valid()
      modifies `mark, `place
      ensures Valid() && State() == old(State()).(mark := Place(pos))
    {
      mark := point;
      place := Place(pos);
    }

    /** A stray mark takes point out of the buffer. */
    method SwapPositions()
      modifies `point, `pos, `mark, `place
      ensures if old(mark) == hil then point == old(point) && mark == hil
              else point == old(mark) && mark == old(point)
      ensures old(Valid() && place != Stray) ==> Valid() && State() == Swapped(old(State()))
      ensures old(Valid() && place == Stray) ==> !Valid() && point != null && point !in cells
      ensures old(place) == Stray ==> place == Stray && pos == old(pos)
    {
      if mark == hil {
        return;
      }
      var tem := point;
      point := mark;
      mark := tem;
      if place.Place? {
        pos, place := place.i, Place(pos);
      }
    }

    /** Whatever the mark is on: a stray one brings point back into the buffer. */
    method SwapTwice()
      requires Valid()
      modifies `point, `pos, `mark, `place
      ensures Valid() && State() == old(State()) && point == old(point) && mark == old(mark)
    {
      SwapPositions();
      SwapPositions();
    }
  }
}
