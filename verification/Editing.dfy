/** The list surgery of python/editing.py. */
module Editing {
  import opened Sequences
  import opened Cells
  import opened TextModel
  import opened Lines
  import opened Rows
  import opened Buffers
  import opened Windows
  import opened Words

  /** The neighbours s[a..b] and s[b..c] trade places. */
  function Traded<T>(s: seq<T>, a: nat, b: nat, c: nat): (r: seq<T>)
    requires a <= b <= c <= |s|
    ensures |r| == |s|
  {
    s[..a] + s[b..c] + s[a..b] + s[c..]
  }

  /** It is done by taking the first out and putting it back behind the second. */
  lemma TradedBySplice<T>(s: seq<T>, a: nat, b: nat, c: nat)
    requires a <= b <= c <= |s|
    ensures Splice(Cut(s, a, b), a + c - b, s[a..b]) == Traded(s, a, b, c)
  {
    var r := Cut(s, a, b);
    assert r[..a + c - b] == s[..a] + s[b..c];
    assert r[a + c - b..] == s[c..];
  }

  lemma TradedTwice<T>(s: seq<T>, a: nat, b: nat, c: nat)
    requires a <= b <= c <= |s|
    ensures Traded(Traded(s, a, b, c), a, a + c - b, c) == s
  {
    var r, d := Traded(s, a, b, c), a + c - b;
    assert r[..a] == s[..a] && r[a..d] == s[b..c] && r[d..c] == s[a..b] && r[c..] == s[c..];
    assert Traded(r, a, d, c) == s[..a] + s[a..b] + s[b..c] + s[c..];
    assert s[..a] + s[a..b] == s[..b] && s[..b] + s[b..c] == s[..c] && s[..c] + s[c..] == s;
  }

  /** A mark keeps its cell. */
  function TradedMark(m: Mark, a: nat, b: nat, c: nat): Mark
    requires a <= b <= c
  {
    match m
    case Place(i) => if a <= i < b then Place(i + c - b) else if b <= i < c then Place(i - (b - a)) else m
    case _ => m
  }

  /** A mark on an unlinked cell strays. */
  function UnlinkedMark(m: Mark, a: nat, b: nat): Mark
    requires a <= b
  {
    match m
    case Place(i) => if a <= i < b then Stray else if b <= i then Place(i - (b - a)) else m
    case _ => m
  }

  /** transpose_lines moves point to its line's beginning.  On the first line, or at the
      end behind a newline, that is all; otherwise the line and the previous one trade
      places and point ends up at the previous one, or, when the line has no newline,
      the previous line is lost and the function raises an exception. */
  function LinesTransposed(v: View): (r: View)
    requires v.Ok()
  {
    var w := v.(point := Bol(v.text, v.point));
    if w.point == 0 || w.point == |w.text| then w else LineTransposed(w)
  }

  /** From the beginning of a line that has a previous one. */
  function LineTransposed(v: View): (r: View)
    requires v.Ok() && 0 < v.point && LineStart(v.text, v.point)
    ensures r.Ok()
  {
    TradedOrLost(v, PreviousLine(v.text, v.point), v.point, Eol(v.text, v.point))
  }

  /** The lines a..b and b..e trade places if there is a newline at `e`. */
  function TradedOrLost(v: View, a: nat, b: nat, e: nat): View
    requires a <= b <= e <= |v.text|
  {
    if e < |v.text| then LinesTraded(v, a, b, e + 1) else LineUnlinked(v, a, b, e)
  }

  /** The line a..b is out of the buffer and point is at what was `e`. */
  function LineUnlinked(v: View, a: nat, b: nat, e: nat): (r: View)
    requires a <= b <= e <= |v.text|
  {
    View(Cut(v.text, a, b), e - (b - a), UnlinkedMark(v.mark, a, b))
  }

  function LinesTraded(v: View, a: nat, b: nat, c: nat): View
    requires a <= b <= c <= |v.text|
  {
    View(Traded(v.text, a, b, c), a + c - b, TradedMark(v.mark, a, b, c))
  }

  /** The exception: a second or later line that the buffer ends without a newline. */
  predicate TransposeFails(v: View)
    requires v.Ok()
  {
    var b := Bol(v.text, v.point);
    0 < b < |v.text| && Eol(v.text, b) == |v.text|
  }

  // ----- what it does to the text itself -----

  /** Point is on the line b..e, which has a newline, and a..b - 1 is the line before: they
      trade places, their newlines included, with point at the beginning of what was the
      first, and a mark keeps its character. */
  lemma TransposedText(v: View, a: nat, b: nat, e: nat)
    requires v.Ok() && a < b <= v.point <= e < |v.text|
    requires (a == 0 || v.text[a - 1] == '\n') && v.text[b - 1] == v.text[e] == '\n'
    requires forall i :: a <= i < e && i != b - 1 ==> v.text[i] != '\n'
    ensures !TransposeFails(v)
    ensures var r, t := LinesTransposed(v), v.text;
            && r.text == t[..a] + t[b..e + 1] + t[a..b] + t[e + 1..] && r.point == a + (e + 1 - b)
            && r.mark == match v.mark
                         case Place(i) => if a <= i < b then Place(i + (e + 1 - b))
                                          else if b <= i <= e then Place(i - (b - a))
                                          else Place(i)
                         case _ => v.mark
  {
    OnLaterLine(v, a, b, e);
  }

  lemma OnLaterLine(v: View, a: nat, b: nat, e: nat)
    requires v.Ok() && a < b <= v.point <= e <= |v.text|
    requires (a == 0 || v.text[a - 1] == '\n') && v.text[b - 1] == '\n' && (e == |v.text| || v.text[e] == '\n')
    requires forall i :: a <= i < e && i != b - 1 ==> v.text[i] != '\n'
    ensures Bol(v.text, v.point) == b && Bol(v.text, b) == b && PreviousLine(v.text, b) == a && Eol(v.text, b) == e
  {
    BolOfLine(v.text, b, v.point);
    BolOfLine(v.text, a, b - 1);
    EolOfLine(v.text, b, e);
  }

  /** The same without a newline at the end: the line before is lost, and with it a mark
      that was there, point is at the end, and the function raises. */
  lemma TransposedLost(v: View, a: nat, b: nat)
    requires v.Ok() && a < b <= v.point && b < |v.text|
    requires (a == 0 || v.text[a - 1] == '\n') && v.text[b - 1] == '\n'
    requires forall i :: a <= i < |v.text| && i != b - 1 ==> v.text[i] != '\n'
    ensures TransposeFails(v)
    ensures var r := LinesTransposed(v);
            && r.text == v.text[..a] + v.text[b..] && r.point == |v.text| - (b - a)
            && r.mark == match v.mark
                         case Place(i) => if i < a then Place(i) else if i < b then Stray else Place(i - (b - a))
                         case _ => v.mark
  {
    OnLaterLine(v, a, b, |v.text|);
  }

  /** On the first line point goes to the start, and at the end of the text, behind a
      newline, nothing happens. */
  lemma TransposedNothing(v: View)
    requires v.Ok()
    ensures (forall i :: 0 <= i < v.point ==> v.text[i] != '\n') ==>
              LinesTransposed(v) == v.(point := 0) && !TransposeFails(v)
    ensures v.point == |v.text| > 0 && v.text[|v.text| - 1] == '\n' ==> LinesTransposed(v) == v && !TransposeFails(v)
  {
    if forall i :: 0 <= i < v.point ==> v.text[i] != '\n' {
      BolOfLine(v.text, 0, v.point);
    }
  }

  // ----- twice is the identity -----

  /** After the trade, point is at the line behind the other one. */
  lemma TradedLines(t: seq<char>, a: nat, b: nat, c: nat)
    requires a < b < c <= |t| && LineStart(t, a) && LineStart(t, b) && LineStart(t, c)
    requires a == Bol(t, b - 1) && b == Bol(t, c - 1)
    ensures var r, d := Traded(t, a, b, c), a + c - b;
            LineStart(r, d) && PreviousLine(r, d) == a && Eol(r, d) == c - 1
  {
    var r, d := Traded(t, a, b, c), a + c - b;
    forall i | a <= i < d - 1
      ensures r[i] != LINEFEED
    {
      assert r[i] == t[i - a + b];
      NoNewlineAfterBol(t, c - 1, i - a + b);
    }
    forall i | d <= i < c - 1
      ensures r[i] != LINEFEED
    {
      assert r[i] == t[i - d + a];
      NoNewlineAfterBol(t, b - 1, i - d + a);
    }
    assert r[d - 1] == t[c - 1] && r[c - 1] == t[b - 1];
    assert a > 0 ==> r[a - 1] == t[a - 1];
    BolOfLine(r, a, d - 1);
    EolOfLine(r, d, c - 1);
  }

  lemma TransposedStays(v: View)
    requires v.Ok() && !(0 < Bol(v.text, v.point) < |v.text|)
    ensures LinesTransposed(v) == v.(point := Bol(v.text, v.point)) && !TransposeFails(v)
  {
  }

  lemma TransposedMoves(v: View)
    requires v.Ok() && 0 < Bol(v.text, v.point) < |v.text|
    ensures LinesTransposed(v) == LineTransposed(v.(point := Bol(v.text, v.point)))
    ensures TransposeFails(v) <==> Eol(v.text, Bol(v.text, v.point)) == |v.text|
  {
  }

  lemma TransposedTrades(v: View)
    requires v.Ok() && 0 < Bol(v.text, v.point) < |v.text| && !TransposeFails(v)
    ensures var b := Bol(v.text, v.point);
            LinesTransposed(v) == LinesTraded(v, PreviousLine(v.text, b), b, Eol(v.text, b) + 1)
  {
  }

  lemma TwiceOffLines(v: View)
    requires v.Ok() && !(0 < Bol(v.text, v.point) < |v.text|)
    ensures !TransposeFails(LinesTransposed(v))
    ensures LinesTransposed(LinesTransposed(v)) == v.(point := Bol(v.text, v.point))
  {
    TransposedStays(v);
    var w := v.(point := Bol(v.text, v.point));
    assert Bol(w.text, w.point) == w.point;
    TransposedStays(w);
  }

  lemma TwiceOnLines(v: View)
    requires v.Ok() && 0 < Bol(v.text, v.point) < |v.text| && !TransposeFails(v)
    ensures !TransposeFails(LinesTransposed(v))
    ensures LinesTransposed(LinesTransposed(v)) == v.(point := Bol(v.text, v.point))
  {
    var t, b := v.text, Bol(v.text, v.point);
    var a, c := PreviousLine(t, b), Eol(t, b) + 1;
    TwoLines(v);
    TransposedTrades(v);
    TradedThenTransposed(v, a, b, c);
  }

  /** The lines that trade places. */
  lemma TwoLines(v: View)
    requires v.Ok() && 0 < Bol(v.text, v.point) < |v.text| && !TransposeFails(v)
    ensures var t, b := v.text, Bol(v.text, v.point);
            var a, c := PreviousLine(t, b), Eol(t, b) + 1;
            && a < b < c <= |t| && LineStart(t, a) && LineStart(t, b) && LineStart(t, c)
            && a == Bol(t, b - 1) && b == Bol(t, c - 1)
  {
    var b := Bol(v.text, v.point);
    LineSpan(v.text, b, Eol(v.text, b));
  }

  /** Transposing a line that ends in a newline, twice, restores the text and the mark;
      the second time point comes back to the line it was on. */
  lemma TransposeTwice(v: View)
    requires v.Ok() && !TransposeFails(v)
    ensures !TransposeFails(LinesTransposed(v))
    ensures LinesTransposed(LinesTransposed(v)) == v.(point := Bol(v.text, v.point))
  {
    if 0 < Bol(v.text, v.point) < |v.text| {
      TwiceOnLines(v);
    } else {
      TwiceOffLines(v);
    }
  }

  /** The text is restored exactly when the exception is not raised. */
  lemma TransposeTwiceRestores(v: View)
    requires v.Ok()
    ensures LinesTransposed(LinesTransposed(v)).text == v.text <==> !TransposeFails(v)
  {
    if TransposeFails(v) {
      assert |LinesTransposed(v).text| < |v.text|;
      assert |LinesTransposed(LinesTransposed(v)).text| <= |LinesTransposed(v).text|;
    } else {
      TransposeTwice(v);
    }
  }

  lemma TradedThenTransposed(v: View, a: nat, b: nat, c: nat)
    requires v.Ok() && a < b < c <= |v.text|
    requires LineStart(v.text, a) && LineStart(v.text, b) && LineStart(v.text, c)
    requires a == Bol(v.text, b - 1) && b == Bol(v.text, c - 1)
    ensures var w := LinesTraded(v, a, b, c);
            w.Ok() && !TransposeFails(w) && LinesTransposed(w) == v.(point := b)
  {
    TradedLines(v.text, a, b, c);
    TransposedFrom(LinesTraded(v, a, b, c), a, c);
    LinesTradedTwice(v, a, b, c);
  }

  lemma LinesTradedTwice(v: View, a: nat, b: nat, c: nat)
    requires a <= b <= c <= |v.text|
    ensures LinesTraded(LinesTraded(v, a, b, c), a, a + c - b, c) == v.(point := b)
  {
    TradedTwice(v.text, a, b, c);
  }

  lemma TransposedFrom(v: View, a: nat, c: nat)
    requires v.Ok() && 0 < v.point && a <= v.point < c <= |v.text|
    requires LineStart(v.text, v.point) && a == PreviousLine(v.text, v.point) && c - 1 == Eol(v.text, v.point)
    ensures !TransposeFails(v) && LinesTransposed(v) == LinesTraded(v, a, v.point, c)
  {
  }

  // ----- on the cells -----

  lemma PlacedAfterUnlink(s: seq<Cons>, a: nat, b: nat, hil: Cons, content: Cons?, p: nat, mark: Cons?, m: Mark)
    requires a < b < |s| && Distinct(s) && p < |s|
    requires Placed(s, hil, content, s[p], p, mark, m)
    ensures Placed(Cut(s, a, b), hil, if a == 0 then s[b] else content, s[b], a, mark, UnlinkedMark(m, a, b))
    ensures a > 0 ==> Placed(Cut(s, a, b), hil, content, s[a - 1], a - 1, mark, UnlinkedMark(m, a, b))
  {
  }

  lemma PlacedAfterTrade(s: seq<Cons>, a: nat, b: nat, c: nat, hil: Cons, content: Cons?, p: nat, mark: Cons?, m: Mark)
    requires a < b < c <= |s| && p < |s|
    requires Placed(s, hil, content, s[p], p, mark, m)
    ensures Placed(Traded(s, a, b, c), hil, if a == 0 then s[b] else content, s[a], a + c - b, mark,
                   TradedMark(m, a, b, c))
  {
  }

  /** Line one, which was a..b of the cells `s`, is out of the buffer; its last cell still
      leads to line two, at whose end point is. */
  ghost predicate Halfway(buff: Buffer, one: Cons, two: Cons, v: View, s: seq<Cons>, a: nat, b: nat, e: nat)
    reads buff, buff.cells, s
  {
    && a < b <= e <= |s| == |v.text| && b < |s| && NoRepeats(s) && one == s[a] && two == s[b]
    && buff.Valid() && buff.cells == Cut(s, a, b) && buff.State() == LineUnlinked(v, a, b, e)
    && Placed(s, buff.hil, if a == 0 then s[0] else buff.content, one, a, buff.mark, v.mark)
    && (a == 0 ==> buff.content == two)
    && Chain(s[a..b], two) && Text(s[a..b]) == v.text[a..b]
    && v.text[a..b][b - a - 1] == LINEFEED && NoNewline(v.text[a..b], 0, b - a - 1)
  }

  /** Line one is taken out of the list; its last cell still leads to line two. */
  method UnlinkLine(buff: Buffer, window: SupplyWindow, one: Cons, two: Cons, ghost v: View, ghost s: seq<Cons>,
                    ghost a: nat, ghost b: nat)
    requires buff.Valid() && a < b < |s| && buff.cells == s && buff.State() == v.(point := a)
    requires v.Ok() && one == s[a] && two == s[b]
    requires v.text[a..b][b - a - 1] == LINEFEED && NoNewline(v.text[a..b], 0, b - a - 1)
    modifies buff`point, buff`content, buff`cells, buff`pos, buff`place, buff.cells, window`start
    ensures Halfway(buff, one, two, v, s, a, b, b)
    ensures window.start == if a == 0 then two else old(window.start)
  {
    ChainDistinct(s);
    DistinctHasNoRepeats(s);
    SameIndex(s, a, 0);
    if buff.point == buff.content {
      UnlinkFirst(buff, two, v, s, b);
      window.start := two;
    } else {
      UnlinkInside(buff, two, v, s, a, b);
    }
  }

  /** Line two begins the buffer. */
  method UnlinkFirst(buff: Buffer, two: Cons, ghost v: View, ghost s: seq<Cons>, ghost b: nat)
    requires buff.Valid() && 0 < b < |s| && buff.cells == s && buff.State() == v.(point := 0) && v.Ok() && two == s[b]
    modifies buff`point, buff`content, buff`cells, buff`pos, buff`place
    ensures buff.Valid() && buff.cells == Cut(s, 0, b) && buff.State() == LineUnlinked(v, 0, b, b)
    ensures buff.content == two && Chain(s[0..b], two) && Text(s[0..b]) == v.text[0..b]
  {
    ChainDistinct(s);
    PlacedAfterUnlink(s, 0, b, buff.hil, buff.content, 0, buff.mark, v.mark);
    buff.point, buff.content := two, two;
    TextCut(s, 0, b);
    assert Cut(s, 0, b) == s[b..];
    buff.Became(Cut(s, 0, b), 0, UnlinkedMark(v.mark, 0, b));
  }

  /** Line two follows what was before line one. */
  method UnlinkInside(buff: Buffer, two: Cons, ghost v: View, ghost s: seq<Cons>, ghost a: nat, ghost b: nat)
    requires buff.Valid() && 0 < a < b < |s| && buff.cells == s && two == s[b]
    requires v.Ok() && buff.State() == v.(point := a)
    modifies buff`point, buff`cells, buff`pos, buff`place, buff.cells
    ensures buff.Valid() && buff.cells == Cut(s, a, b) && buff.State() == LineUnlinked(v, a, b, b)
    ensures Chain(s[a..b], two) && Text(s[a..b]) == v.text[a..b]
  {
    ghost var t, m := Cut(v.text, a, b), UnlinkedMark(v.mark, a, b);
    ChainDistinct(s);
    PlacedAfterUnlink(s, a, b, buff.hil, buff.content, a, buff.mark, v.mark);
    var _ := buff.ForwardChars(-1);
    LinkAround(buff.point, two, s, a, b);
    buff.Became(Cut(s, a, b), a - 1, m);
    assert buff.State() == View(t, a - 1, m);
    var _ := buff.ForwardChars(1);
  }

  method LinkAround(prev: Cons, two: Cons?, ghost s: seq<Cons>, ghost a: nat, ghost b: nat)
    requires Chain(s, null) && Distinct(s) && 0 < a < b <= |s| && prev == s[a - 1] && two == At(s, b, null)
    modifies prev`cdr
    ensures Chain(Cut(s, a, b), null) && Chain(s[a..b], two)
    ensures Text(Cut(s, a, b)) == Cut(old(Text(s)), a, b) && Text(s[a..b]) == old(Text(s))[a..b]
  {
    prev.cdr := two;
    TextCut(s, a, b);
  }

  /** From the end of line two, at `lf`, line one is linked behind it.  While the end of
      one still leads to two the list runs in a circle. */
  method LinkBehind(buff: Buffer, one: Cons, ghost s: seq<Cons>, ghost d: nat, ghost ins: seq<Cons>, ghost two: Cons)
    requires Chain(s, null) && d < |s| && buff.point == s[d]
    requires |ins| > 0 && one == ins[0] && Chain(ins, two) && Distinct(ins) && Apart(s, ins)
    requires Text(ins)[|ins| - 1] == LINEFEED && NoNewline(Text(ins), 0, |ins| - 1)
    modifies buff`point, s[d], ins[|ins| - 1]
    ensures buff.point == one
    ensures Chain(Splice(s, d + 1, ins), null)
    ensures Text(Splice(s, d + 1, ins)) == Splice(old(Text(s)), d + 1, old(Text(ins)))
  {
    ghost var t := Text(ins);
    var three := buff.point.cdr;
    // From here on the list is circular.
    LinkFirst(buff.point, one, s, d, ins, two);
    var tem, _ := Buffer.Walk(buff.point, 1, [s[d]] + ins, two); // forward_chars (1)
    buff.point := tem;
    ghost var i := 0;
    while buff.point != null && buff.point.car != LINEFEED
      invariant i < |ins| && buff.point == ins[i]
      decreases |ins| - i
      modifies buff`point
    {
      assert Text(ins)[i] == ins[i].car;
      buff.point := buff.point.cdr;
      i := i + 1;
    }
    assert Text(ins)[i] == ins[i].car;
    // ... and from here on it ends in NULL again.
    LinkSecond(buff.point, three, s, d, ins, two);
    buff.point := one;
  }

  method LinkFirst(lf: Cons, one: Cons, ghost s: seq<Cons>, ghost d: nat, ghost ins: seq<Cons>, ghost two: Cons)
    requires Chain(s, null) && d < |s| && lf == s[d]
    requires |ins| > 0 && one == ins[0] && Chain(ins, two) && Apart(s, ins)
    modifies lf`cdr
    ensures Chain(s[..d + 1], one) && Chain(s[d + 1..], null) && Chain(ins, two)
    ensures Chain([lf] + ins, two)
    ensures Text(s) == old(Text(s)) && Text(ins) == old(Text(ins))
  {
    ChainDistinct(s);
    lf.cdr := one;
  }

  method LinkSecond(end: Cons, three: Cons?, ghost s: seq<Cons>, ghost d: nat, ghost ins: seq<Cons>, ghost two: Cons)
    requires d < |s| && |ins| > 0 && end == ins[|ins| - 1] && three == At(s, d + 1, null)
    requires Chain(s[..d + 1], ins[0]) && Chain(s[d + 1..], null) && Chain(ins, two)
    requires Distinct(ins) && Apart(s, ins)
    modifies end`cdr
    ensures Chain(Splice(s, d + 1, ins), null)
    ensures Text(Splice(s, d + 1, ins)) == Splice(old(Text(s)), d + 1, old(Text(ins)))
  {
    assert forall i :: 0 <= i < d + 1 ==> s[..d + 1][i] == s[i];
    assert forall i :: d + 1 <= i < |s| ==> s[d + 1..][i - d - 1] == s[i];
    end.cdr := three;
    ChainThree(s, d + 1, ins);
  }

  lemma ChainThree(s: seq<Cons>, k: nat, ins: seq<Cons>)
    requires k <= |s| && |ins| > 0
    requires Chain(s[..k], ins[0]) && Chain(ins, At(s, k, null)) && Chain(s[k..], null)
    ensures Chain(Splice(s, k, ins), null)
    ensures Text(Splice(s, k, ins)) == Splice(Text(s), k, Text(ins))
  {
  }

  /** Point goes to its line's newline, or to the end of the buffer. */
  method ToEndOfLine(buff: Buffer)
    requires buff.Valid()
    modifies buff`point, buff`pos
    ensures buff.Valid()
    ensures buff.State() == old(buff.State()).(point := Eol(old(buff.State()).text, old(buff.pos)))
  {
    ghost var v := buff.State();
    while buff.point != null && buff.point.car != LINEFEED
      invariant buff.Valid() && buff.State() == v.(point := buff.pos)
      invariant Eol(v.text, buff.pos) == Eol(v.text, v.point)
      decreases |buff.cells| - buff.pos
    {
      assert Text(buff.cells)[buff.pos] == buff.point.car;
      buff.PointTo(buff.point.cdr, buff.pos + 1);
    }
    assert buff.point != null ==> Text(buff.cells)[buff.pos] == buff.point.car;
  }

  /** What is known about the two lines before they are relinked. */
  lemma LineOne(t: seq<char>, b: nat)
    requires 0 < b <= |t| && LineStart(t, b)
    ensures var a := PreviousLine(t, b);
            && a < b && LineBackward(t, b) == a
            && t[a..b][b - a - 1] == LINEFEED && NoNewline(t[a..b], 0, b - a - 1)
  {
    var a := PreviousLine(t, b);
    forall i | 0 <= i < b - a - 1
      ensures t[a..b][i] != LINEFEED
    {
      NoNewlineAfterBol(t, b - 1, a + i);
    }
  }

  lemma LineTwo(t: seq<char>, a: nat, b: nat)
    requires a <= b <= |t|
    ensures Eol(Cut(t, a, b), a) == Eol(t, b) - (b - a)
  {
    var e, r := Eol(t, b), Cut(t, a, b);
    forall i | a <= i < e - (b - a)
      ensures r[i] != LINEFEED
    {
      NoNewlineBeforeEol(t, b, i + b - a);
    }
    EolOfLine(r, a, e - (b - a));
  }

  method MoveToBol(buff: Buffer)
    requires buff.Valid()
    modifies buff`point, buff`pos
    ensures buff.Valid()
    ensures buff.State() == old(buff.State()).(point := Bol(old(buff.State()).text, old(buff.pos)))
    ensures (buff.point == buff.content <==> buff.pos == 0) && (buff.point == null <==> buff.pos == |buff.cells|)
  {
    ghost var b := Bol(buff.State().text, buff.pos);
    var bol := buff.BeginningOfLine();
    buff.PointTo(bol, b);
    SameIndex(buff.cells, b, 0);
  }

  /** Where the window starts when the line before `b` is moved behind the one from `b`. */
  ghost function StartMoved(t: seq<char>, b: nat, s: seq<Cons>, start: Cons?): Cons?
    requires b <= |t| == |s|
  {
    if 0 < b < |t| && PreviousLine(t, b) == 0 then s[b] else start
  }

  /** That is where line two begins, which begins at `b`, whenever there is no other newline
      before. */
  lemma StartMovesToTwo(t: seq<char>, p: nat, b: nat, s: seq<Cons>, start: Cons?)
    requires b <= p <= |t| == |s| && (b == 0 || t[b - 1] == '\n')
    requires forall i :: b <= i < p ==> t[i] != '\n'
    ensures StartMoved(t, Bol(t, p), s, start)
            == if 0 < b < |t| && forall i :: 0 <= i < b - 1 ==> t[i] != '\n' then s[b] else start
  {
    BolOfLine(t, b, p);
    if 0 < b {
      if i :| 0 <= i < b - 1 && t[i] == '\n' {
        if Bol(t, b - 1) == 0 {
          NoNewlineAfterBol(t, b - 1, i);
        }
      } else {
        BolOfLine(t, 0, b - 1);
      }
    }
  }

  /** The line of point and the one before trade places; `ok` is false when the Python
      function raises an exception, with the previous line lost. */
  method TransposeLines(buff: Buffer, window: SupplyWindow) returns (ok: bool)
    requires buff.Valid()
    modifies buff`point, buff`content, buff`cells, buff`pos, buff`place, buff.cells, window`start
    ensures buff.Valid() && buff.State() == LinesTransposed(old(buff.State()))
    ensures ok <==> !TransposeFails(old(buff.State()))
    ensures var t := old(buff.State()).text;
            window.start == StartMoved(t, Bol(t, old(buff.pos)), old(buff.cells), old(window.start))
  {
    ghost var v, s := buff.State(), buff.cells;
    ghost var b := Bol(v.text, v.point);
    MoveToBol(buff);
    if buff.content == buff.point || buff.point == null {
      TransposedStays(v);
      return true;
    }
    TransposedMoves(v);
    ok := TransposeBack(buff, window, v.(point := b), s, PreviousLine(v.text, b), b, Eol(v.text, b));
  }

  /** The swap itself, which keeps the buffer's cells: two stretches of them trade places.
      Point is at the beginning of a later line that is not empty,
      which ends at `e` and follows the line that begins at `a`. */
  method TransposeBack(buff: Buffer, window: SupplyWindow, ghost v: View, ghost s: seq<Cons>,
                       ghost a: nat, ghost b: nat, ghost e: nat)
    returns (ok: bool)
    requires buff.Valid() && buff.State() == v && buff.cells == s && v.point == b
    requires 0 < b < |v.text| && LineStart(v.text, b) && a == PreviousLine(v.text, b) && e == Eol(v.text, b)
    modifies buff`point, buff`content, buff`cells, buff`pos, buff`place, buff.cells, window`start
    ensures buff.Valid() && buff.State() == LineTransposed(v) && (ok <==> e < |v.text|)
    ensures ok ==> buff.cells == Traded(s, a, b, e + 1)
    ensures window.start == StartMoved(v.text, b, s, old(window.start))
  {
    var one, two := TakeOut(buff, window, v, s, a, b, e);
    ok := Finish(buff, one, v, s, a, b, e, two);
  }

  /** From half way: line one goes behind the newline at point, if there is one. */
  method Finish(buff: Buffer, one: Cons, ghost v: View, ghost s: seq<Cons>, ghost a: nat, ghost b: nat, ghost e: nat,
                ghost two: Cons)
    returns (ok: bool)
    requires Halfway(buff, one, two, v, s, a, b, e) && (buff.point == null <==> e == |v.text|)
    modifies buff`point, buff`cells, buff`pos, buff`place, s
    ensures buff.Valid() && (ok <==> e < |v.text|)
    ensures buff.State() == TradedOrLost(v, a, b, e)
    ensures ok ==> buff.cells == Traded(s, a, b, e + 1)
  {
    ok := buff.point != null;
    if ok {
      PutBack(buff, one, v, s, a, b, e + 1, two);
    }
  }

  /** The first half: from the beginning of line two, line one is taken out and point
      goes to the end of two. */
  method TakeOut(buff: Buffer, window: SupplyWindow, ghost v: View, ghost s: seq<Cons>, ghost a: nat, ghost b: nat,
                 ghost e: nat)
    returns (one: Cons, two: Cons)
    requires buff.Valid() && buff.State() == v && buff.cells == s && v.point == b
    requires 0 < b < |v.text| && LineStart(v.text, b) && a == PreviousLine(v.text, b) && e == Eol(v.text, b)
    modifies buff`point, buff`content, buff`cells, buff`pos, buff`place, buff.cells, window`start
    ensures Halfway(buff, one, two, v, s, a, b, e)
    ensures buff.Valid() && buff.State() == LineUnlinked(v, a, b, e) && (buff.point == null <==> e == |v.text|)
    ensures window.start == StartMoved(v.text, b, s, old(window.start))
  {
    LineOne(v.text, b);
    two := buff.point;
    one := buff.BackwardLine();
    UnlinkLine(buff, window, one, two, v, s, a, b);
    EndOfTwo(buff, one, two, v, s, a, b, e);
  }

  /** Point goes from the beginning of line two to its newline. */
  method EndOfTwo(buff: Buffer, one: Cons, two: Cons, ghost v: View, ghost s: seq<Cons>,
                  ghost a: nat, ghost b: nat, ghost e: nat)
    requires Halfway(buff, one, two, v, s, a, b, b) && e == Eol(v.text, b)
    modifies buff`point, buff`pos
    ensures Halfway(buff, one, two, v, s, a, b, e)
    ensures buff.Valid() && buff.State() == LineUnlinked(v, a, b, e) && (buff.point == null <==> e == |v.text|)
  {
    LineTwo(v.text, a, b);
    ToEndOfLine(buff);
  }

  /** The second half: line one goes behind line two, at whose end point is. */
  method PutBack(buff: Buffer, one: Cons, ghost v: View, ghost s: seq<Cons>, ghost a: nat, ghost b: nat, ghost c: nat,
                 ghost two: Cons)
    requires 0 < c <= |v.text| && Halfway(buff, one, two, v, s, a, b, c - 1)
    modifies buff`point, buff`cells, buff`pos, buff`place, s
    ensures buff.Valid() && buff.cells == Traded(s, a, b, c)
    ensures buff.State() == LinesTraded(v, a, b, c)
  {
    TradedBySplice(s, a, b, c);
    TradedBySplice(v.text, a, b, c);
    ghost var r, ins, d := Cut(s, a, b), s[a..b], a + c - b;
    NoRepeatsIsDistinct(s);
    assert Chain(r, null) && Text(r) == Cut(v.text, a, b) && Text(ins) == v.text[a..b];
    assert Splice(r, d, ins) == Traded(s, a, b, c);
    LinkBehind(buff, one, r, d - 1, ins, two);
    assert Chain(Traded(s, a, b, c), null);
    assert Text(Traded(s, a, b, c)) == Splice(Cut(v.text, a, b), d, v.text[a..b]) == Traded(v.text, a, b, c);
    BecameTraded(buff, v, s, a, b, c);
  }

  ghost method BecameTraded(buff: Buffer, v: View, s: seq<Cons>, a: nat, b: nat, c: nat)
    requires a < b < c <= |s| == |v.text| && buff.point == s[a] && (a == 0 ==> buff.content == s[b])
    requires Placed(s, buff.hil, if a == 0 then s[0] else buff.content, s[a], a, buff.mark, v.mark)
    requires Chain(Traded(s, a, b, c), null) && Text(Traded(s, a, b, c)) == Traded(v.text, a, b, c)
    modifies buff`cells, buff`pos, buff`place
    ensures buff.Valid() && buff.cells == Traded(s, a, b, c) && buff.State() == LinesTraded(v, a, b, c)
  {
    PlacedAfterTrade(s, a, b, c, buff.hil, if a == 0 then s[0] else buff.content, a, buff.mark, v.mark);
    buff.Became(Traded(s, a, b, c), a + c - b, TradedMark(v.mark, a, b, c));
  }

  // ----- clipping a word -----

  /** clip_word takes what forward_word would pass over.  Unlike clip_to it compares the
      last cell with the mark too. */
  function WordClipped(v: View): (r: View)
    requires v.Ok()
    ensures r.Ok()
  {
    var p, q := v.point, ForwardWord(v.text, v.point);
    View(Cut(v.text, p, q), p, MarkAfterWord(v.mark, p, q))
  }

  function MarkAfterWord(m: Mark, p: nat, q: nat): Mark
    requires p <= q
  {
    match m
    case Place(i) => Place(if i < p then i else if i < q then p else i - (q - p))
    case _ => m
  }

  /** Exactly what forward_word passes is gone, and a mark on it is at point. */
  lemma WordIsGone(v: View)
    requires v.Ok()
    ensures var q, r := ForwardWord(v.text, v.point), WordClipped(v);
            && r.text == v.text[..v.point] + v.text[q..] && r.point == v.point
            && r.mark == match v.mark
                         case Place(i) => if i < v.point then Place(i)
                                          else if i < q then Place(v.point)
                                          else Place(i - (q - v.point))
                         case _ => v.mark
  {
  }

  /** Putting the word back restores the text, with point where forward_word leaves it,
      and no mark is ever lost; it is back in place exactly when it was not on a clipped
      cell. */
  lemma WordClippedThenInserted(v: View)
    requires v.Ok() && v.point < |v.text|
    ensures var q := ForwardWord(v.text, v.point);
            var r := Inserted(WordClipped(v), v.text[v.point..q]);
            && r.text == v.text && r.point == q
            && (r.mark == Stray <==> v.mark == Stray)
            && (r.mark == v.mark <==> !(v.mark.Place? && v.point <= v.mark.i < q))
  {
    var q := ForwardWord(v.text, v.point);
    ForwardWordLands(v.text, v.point);
    SpliceUndoesCut(v.text, v.point, q);
  }

  lemma PlacedAfterWord(s: seq<Cons>, p: nat, q: nat, hil: Cons, content: Cons?, mark: Cons?, m: Mark)
    requires p < q <= |s| && Distinct(s)
    requires Placed(s, hil, content, s[p], p, mark, m)
    ensures Placed(Cut(s, p, q), hil, if p == 0 then At(s, q, null) else content, At(s, q, null), p,
                   if mark in s[p..q] then At(s, q, null) else mark, MarkAfterWord(m, p, q))
  {
  }

  /** Find the end of the next word: the last cell that forward_word passes, or nothing
      when there is no further word, and whether the mark is on the way. */
  method FindWordEnd(start: Cons?, mark: Cons?, ghost s: seq<Cons>, ghost p: nat)
    returns (end: Cons?, hasMark: bool)
    requires Chain(s, null) && p <= |s| && start == At(s, p, null)
    ensures var q := ForwardWord(Text(s), p);
            && (hasMark <==> mark in s[p..q])
            && if OnToWord(Text(s), p) < |s| then q > p && end == s[q - 1] else q == |s| && end == null
  {
    ghost var t := Text(s);
    ghost var a := OnToWord(t, p);
    assert ForwardWord(t, p) == OnOverWord(t, a);
    end, hasMark := FindWord(start, mark, s, p);
    assert a < |s| ==> t[a] == s[a].car;
    end, hasMark := FollowWord(end, mark, hasMark, s, p, a);
  }

  /** The last cell of the word at `start`, and whether the mark is before its end. */
  method FollowWord(start: Cons?, mark: Cons?, before: bool, ghost s: seq<Cons>, ghost p: nat, ghost a: nat)
    returns (end: Cons?, hasMark: bool)
    requires Chain(s, null) && p <= a <= |s| && start == At(s, a, null) && (before <==> mark in s[p..a])
    ensures var q := OnOverWord(Text(s), a);
            (hasMark <==> mark in s[p..q]) && end == if q > a then s[q - 1] else start
  {
    ghost var t, i := Text(s), a;
    var tem := start;
    end, hasMark := start, before;
    while tem != null && IsAlnum(tem.car)
      invariant a <= i <= |s| && tem == At(s, i, null) && (hasMark <==> mark in s[p..i])
      invariant end == if i > a then s[i - 1] else start
      invariant OnOverWord(t, a) == OnOverWord(t, i)
      decreases |s| - i
    {
      if tem == mark {
        hasMark := true;
      }
      assert t[i] == s[i].car;
      OneMore(s, p, i);
      end := tem;
      tem := tem.cdr;
      i := i + 1;
    }
    assert tem != null ==> t[i] == s[i].car;
  }

  /** Find the next word, and whether the mark is before it. */
  method FindWord(start: Cons?, mark: Cons?, ghost s: seq<Cons>, ghost p: nat) returns (tem: Cons?, hasMark: bool)
    requires Chain(s, null) && p <= |s| && start == At(s, p, null)
    ensures tem == At(s, OnToWord(Text(s), p), null) && (hasMark <==> mark in s[p..OnToWord(Text(s), p)])
  {
    ghost var t := Text(s);
    tem, hasMark := start, false;
    ghost var i := p;
    while tem != null && !IsAlnum(tem.car)
      invariant p <= i <= |s| && tem == At(s, i, null) && (hasMark <==> mark in s[p..i])
      invariant OnToWord(t, p) == OnToWord(t, i)
      decreases |s| - i
    {
      if tem == mark {
        hasMark := true;
      }
      assert t[i] == s[i].car;
      OneMore(s, p, i);
      tem := tem.cdr;
      i := i + 1;
    }
    assert tem != null ==> t[i] == s[i].car;
  }

  /** `ok` is false when there is nothing to clip: at the end of the buffer the Python
      function takes the character of None. */
  method ClipWord(buff: Buffer, window: SupplyWindow) returns (start: Cons?, ok: bool)
    requires buff.Valid()
    modifies buff`point, buff`mark, buff`content, buff`cells, buff`pos, buff`place, buff.cells, window`start
    ensures buff.Valid()
    ensures ok <==> old(buff.point) != null
    ensures !ok ==> buff.cells == old(buff.cells) && buff.State() == old(buff.State())
    ensures ok ==>
              var p, q := old(buff.pos), ForwardWord(old(buff.State()).text, old(buff.pos));
              && p < q && start == old(buff.cells)[p]
              && buff.cells == Cut(old(buff.cells), p, q)
              && buff.State() == WordClipped(old(buff.State()))
              && Chain(old(buff.cells)[p..q], null)
              && Text(old(buff.cells)[p..q]) == old(buff.State()).text[p..q]
              && window.start == if p == 0 then buff.content else old(window.start)
  {
    ghost var s, p, v := buff.cells, buff.pos, buff.State();
    start := buff.point;
    var end, hasMark := FindWordEnd(start, buff.mark, s, p);
    if start == null {
      return start, false;
    }
    ok := true;
    ForwardWordLands(v.text, p);
    Unhook(buff, window, end, if end == null then null else end.cdr, hasMark, v, s, ForwardWord(v.text, p));
  }

  /** The cells between point and `cdr`, of which `end` is the last, leave the buffer. */
  method Unhook(buff: Buffer, window: SupplyWindow, end: Cons?, cdr: Cons?, hasMark: bool, ghost v: View,
                ghost s: seq<Cons>, ghost q: nat)
    requires buff.Valid() && buff.cells == s && buff.State() == v
    requires v.point < q <= |s| && cdr == At(s, q, null) && (hasMark <==> buff.mark in s[v.point..q])
    requires if end == null then q == |s| else end == s[q - 1]
    modifies buff`point, buff`mark, buff`content, buff`cells, buff`pos, buff`place, buff.cells, window`start
    ensures buff.Valid() && buff.cells == Cut(s, v.point, q)
    ensures buff.State() == View(Cut(v.text, v.point, q), v.point, MarkAfterWord(v.mark, v.point, q))
    ensures Chain(s[v.point..q], null) && Text(s[v.point..q]) == v.text[v.point..q]
    ensures window.start == if v.point == 0 then buff.content else old(window.start)
  {
    ghost var p := v.point;
    ChainDistinct(s);
    PlacedAfterWord(s, p, q, buff.hil, buff.content, buff.mark, v.mark);
    ghost var u := Cut(v.text, p, q);
    LinkPast(buff, window, cdr, v, s, q);
    if hasMark && buff.mark != buff.hil {
      buff.mark := buff.point;
    }
    if end != null {
      CutLoose(end, s, p, q);
    }
    assert Text(Cut(s, p, q)) == u;
    buff.Became(Cut(s, p, q), p, MarkAfterWord(v.mark, p, q));
  }

  method LinkPast(buff: Buffer, window: SupplyWindow, cdr: Cons?, ghost v: View, ghost s: seq<Cons>, ghost q: nat)
    requires buff.Valid() && buff.cells == s && buff.State() == v && Distinct(s)
    requires v.point < q <= |s| && cdr == At(s, q, null)
    modifies buff`point, buff`content, buff`pos, buff.cells, window`start
    ensures buff.point == cdr && buff.content == if v.point == 0 then cdr else old(buff.content)
    ensures window.start == if v.point == 0 then cdr else old(window.start)
    ensures Chain(Cut(s, v.point, q), null) && Chain(s[v.point..q], cdr)
    ensures Text(Cut(s, v.point, q)) == Cut(v.text, v.point, q) && Text(s[v.point..q]) == v.text[v.point..q]
  {
    ghost var p := v.point;
    SameIndex(s, p, 0);
    TextCut(s, p, q);
    if buff.content == buff.point {
      buff.content, buff.point := cdr, cdr;
      window.start := cdr;
      assert Cut(s, p, q) == s[q..];
    } else {
      var _ := buff.ForwardChars(-1);
      LinkAround(buff.point, cdr, s, p, q);
      buff.point := cdr;
    }
  }

  /** The list that was linked over is ended. */
  method CutLoose(end: Cons, ghost s: seq<Cons>, ghost a: nat, ghost b: nat)
    requires a < b <= |s| && end == s[b - 1] && Distinct(s)
    requires Chain(Cut(s, a, b), null) && Chain(s[a..b], At(s, b, null))
    modifies end`cdr
    ensures Chain(Cut(s, a, b), null) && Chain(s[a..b], null)
    ensures Text(Cut(s, a, b)) == old(Text(Cut(s, a, b))) && Text(s[a..b]) == old(Text(s[a..b]))
  {
    end.cdr := null;
  }
}
