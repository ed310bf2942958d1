/** The window of src/SupplyWindow.cc: where its first row is, and the characters it
    supplies for drawing. */
module Windows {
  import opened Cells
  import opened TextModel
  import opened Lines
  import opened Rows
  import opened Buffers
  import Distances

  datatype Scroll = Scroll(start: nat, adjusted: bool)

  /** How the start `s` moves when point is in a scroll margin or outside the window. */
  function Scrolled(t: seq<char>, p: nat, s: nat, adjusted: bool, margin: int, width: nat, rows: int): (r: Scroll)
    requires p <= |t| && s <= |t| && width > 0
    ensures r.start <= |t|
  {
    var lines := RowDistance(t, s, p, width);
    if lines <= margin - 1 then
      Scroll(if lines < 0 then NextWindowLine(t, s, lines, width)
             else if !adjusted then NextWindowLine(t, s, -1, width)
             else s,
             adjusted)
    else if lines >= rows - margin then
      if lines >= rows then Scroll(NextWindowLine(t, s, lines - rows + 1, width), true)
      else Scroll(if !adjusted then NextWindowLine(t, s, 1, width) else s, adjusted)
    else Scroll(s, false)
  }

  /** What prepare does to a window `width` wide with `rows` rows of text: a start at the
      end, or with point at the beginning, is first moved to the beginning. */
  function Prepared(t: seq<char>, p: nat, start: nat, adjusted: bool, margin: int, width: nat, rows: int): (r: Scroll)
    requires p <= |t| && start <= |t| && width > 0
    ensures r.start <= |t|
  {
    Scrolled(t, p, if start == |t| || p == 0 then 0 else start, adjusted || p == 0, margin, width, rows)
  }

  // ----- where the start goes, by how many rows point is below it -----

  /** Between the margins it stays, and may be adjusted again. */
  lemma PrepareStays(t: seq<char>, p: nat, start: nat, s: nat, adjusted: bool, margin: int, width: nat,
                     rows: int)
    requires p <= |t| && start <= |t| && width > 0 && s == if start == |t| || p == 0 then 0 else start
    requires margin <= RowDistance(t, s, p, width) < rows - margin
    ensures Prepared(t, p, start, adjusted, margin, width, rows) == Scroll(s, false)
  {
  }

  /** On the rows of the bottom margin it moves on to the first place a row further by the
      rows of the search, or to the end of the text; an adjusted one stays. */
  lemma PrepareAtBottom(t: seq<char>, p: nat, start: nat, s: nat, adjusted: bool, margin: int, width: nat,
                        rows: int, q: nat)
    requires p <= |t| && start <= |t| && width > 0 && s == if start == |t| || p == 0 then 0 else start
    requires margin <= RowDistance(t, s, p, width) && rows - margin <= RowDistance(t, s, p, width) < rows
    ensures var r := Prepared(t, p, start, adjusted, margin, width, rows);
            && (r.adjusted <==> adjusted || p == 0)
            && (adjusted || p == 0 ==> r.start == s)
            && (!adjusted && 0 < p && s <= q < |t| ==>
                  s <= r.start && (r.start <= q <==> RowDistance(t, s, q, width + 1) >= 1))
            && (!adjusted && 0 < p && r.start < |t| ==> RowDistance(t, s, r.start, width + 1) == 1)
  {
    ForwardRows(t, s, 1, width);
    if s <= q < |t| {
      ForwardRowsFirst(t, s, q, 1, width);
    }
  }

  /** With point below the window it moves on by all the rows that are too many, and counts
      as adjusted. */
  lemma PrepareBelow(t: seq<char>, p: nat, start: nat, s: nat, adjusted: bool, margin: int, width: nat,
                     rows: int, q: nat)
    requires p <= |t| && start <= |t| && width > 0 && s == if start == |t| || p == 0 then 0 else start
    requires RowDistance(t, s, p, width) >= rows && RowDistance(t, s, p, width) >= margin && margin >= 0 && rows > 0
    ensures var r := Prepared(t, p, start, adjusted, margin, width, rows);
            var k := RowDistance(t, s, p, width) - rows + 1;
            && r.adjusted
            && (s <= q < |t| ==> s <= r.start && (r.start <= q <==> RowDistance(t, s, q, width + 1) >= k))
            && (r.start < |t| ==> RowDistance(t, s, r.start, width + 1) == k)
  {
    var k := RowDistance(t, s, p, width) - rows + 1;
    ForwardRows(t, s, k, width);
    if s <= q < |t| {
      ForwardRowsFirst(t, s, q, k, width);
    }
  }

  /** On the rows of the top margin it moves back by a row; an adjusted one stays. */
  lemma PrepareAtTop(t: seq<char>, p: nat, start: nat, s: nat, adjusted: bool, margin: int, width: nat,
                     rows: int)
    requires p <= |t| && start <= |t| && width > 0 && s == if start == |t| || p == 0 then 0 else start
    requires 0 <= RowDistance(t, s, p, width) < margin
    ensures var r := Prepared(t, p, start, adjusted, margin, width, rows);
            && (r.adjusted <==> adjusted || p == 0)
            && (adjusted || p == 0 ==> r.start == s)
            && (!adjusted && 0 < p && LineStart(t, s) ==> RowsUpFrom(t, s, 1, r.start, width))
  {
    if LineStart(t, s) {
      BackwardRows(t, s, 1, width);
    }
  }

  /** With point above the window it moves back by as many rows. */
  lemma PrepareAbove(t: seq<char>, p: nat, start: nat, s: nat, adjusted: bool, margin: int, width: nat,
                     rows: int)
    requires p <= |t| && start <= |t| && width > 0 && s == if start == |t| || p == 0 then 0 else start
    requires RowDistance(t, s, p, width) < 0 <= margin
    ensures var r := Prepared(t, p, start, adjusted, margin, width, rows);
            && (r.adjusted <==> adjusted)
            && (LineStart(t, s) ==> RowsUpFrom(t, s, 0 - RowDistance(t, s, p, width), r.start, width))
  {
    if LineStart(t, s) {
      BackwardRows(t, s, 0 - RowDistance(t, s, p, width), width);
    }
  }

  /** `r` is where a row begins `k` rows up from `s`, or the start of a text whose later
      lines have fewer. */
  predicate RowsUpFrom(t: seq<char>, s: nat, k: nat, r: nat, width: nat)
    requires s <= |t| && width > 0
  {
    || (0 < r < s && RowDistance(t, r, s, width) == k && Column(t, r) % width == 0)
    || (r == 0 && (SecondLine(t) <= s ==> RowDistance(t, SecondLine(t), s, width) < k))
  }

  // ----- the scroll leaves point visible -----

  ghost predicate ShortLines(t: seq<char>, width: nat) {
    forall q :: 0 <= q <= |t| ==> LineLength(t, q) < width
  }

  lemma ShortIsNarrow(t: seq<char>, i: nat, j: nat, width: nat)
    requires i <= j <= |t| && ShortLines(t, width)
    ensures Narrow(t, i, j, width)
  {
    forall a, b | i <= a <= b <= j && NoNewline(t, a, b)
      ensures b - a < width
    {
      assert LineLength(t, a) < width;
      assert Eol(t, a) >= b;
    }
  }

  /** Whether the end of the buffer is drawn on a row of its own line. */
  function Unfinished(t: seq<char>, i: nat, j: nat): nat
    requires i <= j <= |t|
  {
    if i < j == |t| && !LineStart(t, j) then 1 else 0
  }

  /** On short lines the distance from a line beginning counts newlines, and one more for
      the end of a buffer whose last line has none. */
  lemma ShortDistance(t: seq<char>, i: nat, j: nat, width: nat)
    requires i <= j <= |t| && ShortLines(t, width)
    ensures RowDistance(t, i, j, width) == Newlines(t, i, j) + Unfinished(t, i, j)
  {
    if i < j {
      ShortIsNarrow(t, i, j, width);
      NarrowSteps(t, i, i, j, width, width);
      ShortIsNarrow(t, i, j - 1, width);
      NarrowSteps(t, i, i, j - 1, width, width);
      NewlinesAdd(t, i, j - 1, j);
    }
  }

  /** On short lines the search backward goes up lines. */
  lemma {:induction false} ShortBack(t: seq<char>, b: nat, k: nat, width: nat)
    requires 0 < b <= |t| && LineStart(t, b) && 0 < k && 0 < width && ShortLines(t, width)
    ensures RowsBackward(t, b, LineBackward(t, b), LineBackward(t, b), k, width) == BackLines(t, b, k)
    decreases b
  {
    var a := PreviousLine(t, b);
    assert LineBackward(t, b) == a;
    if a > 0 {
      RoundOfSearch(t, b, k, width);
      LineSpan(t, b - 1, a);
      ShortDistance(t, a, b, width);
      RowDistanceIsSteps(t, a, b, width);
      NewlinesAdd(t, a, b - 1, b);
      NoNewlines(t, a, b - 1);
      if k > 1 {
        ShortBack(t, a, k - 1, width);
      }
    } else {
      BackFromFirst(t, k - 1);
    }
  }

  /** On short lines the search forward goes down lines. */
  lemma {:induction false} ShortForward(t: seq<char>, s: nat, i: nat, k: nat, width: nat)
    requires s <= i <= |t| && NoNewline(t, s, i) && ShortLines(t, width)
    ensures RowsForward(t, i, k, width - (i - s), width) == SkipLines(t, i, k)
    decreases |t| - i
  {
    if k > 0 && i < |t| {
      ShortIsNarrow(t, s, i, width);
      if t[i] == LINEFEED {
        ShortForward(t, i + 1, i + 1, k - 1, width);
      } else {
        ShortForward(t, s, i + 1, k, width);
      }
    }
  }

  /** Up as many lines as lie between `p` and a later line beginning is `p`'s own line. */
  lemma {:induction false} BackToLine(t: seq<char>, p: nat, s: nat)
    requires p < s <= |t| && LineStart(t, s)
    ensures Newlines(t, p, s) > 0 && BackLines(t, s, Newlines(t, p, s)) == Bol(t, p)
    decreases s
  {
    var a := PreviousLine(t, s);
    NewlinesAdd(t, p, s - 1, s);
    LineSpan(t, s - 1, s - 1);
    if a <= p {
      NoNewlines(t, p, s - 1);
      EolOfLine(t, s - 1, s - 1);
      LineSpan(t, s - 1, p);
    } else {
      NewlinesAdd(t, p, a, s - 1);
      NoNewlines(t, a, s - 1);
      BackToLine(t, p, a);
    }
  }

  /** Down `m` of the lines that lie before `p`. */
  lemma {:induction false} SkipInto(t: seq<char>, s: nat, p: nat, m: nat)
    requires s <= p <= |t| && LineStart(t, s) && m <= Newlines(t, s, p)
    ensures var r := SkipLines(t, s, m);
            s <= r <= p && LineStart(t, r) && Newlines(t, r, p) == Newlines(t, s, p) - m
    decreases m
  {
    if m > 0 {
      var e := Eol(t, s);
      SkipOneLine(t, s, m);
      if e >= p {
        LineSpan(t, s, p);
        NoNewlines(t, s, p);
      } else {
        LineSpan(t, s, e);
        NoNewlines(t, s, e);
        NewlinesAdd(t, s, e, p);
        SkipInto(t, e + 1, p, m - 1);
      }
    }
  }

  /** When point is before the window: its line becomes the first. */
  lemma ScrollUp(t: seq<char>, p: nat, s: nat, width: nat)
    requires p < s <= |t| && LineStart(t, s) && ShortLines(t, width) && width > 0
    ensures RowDistance(t, s, p, width) < 0
    ensures NextWindowLine(t, s, RowDistance(t, s, p, width), width) == Bol(t, p)
    ensures RowDistance(t, Bol(t, p), p, width) == 0
  {
    ShortIsNarrow(t, p, s, width);
    NarrowSteps(t, p, p, s, width, width);
    BackToLine(t, p, s);
    RowsBackwardFromLine(t, s, Newlines(t, p, s), width);
    ShortBack(t, s, Newlines(t, p, s), width);
    ShortDistance(t, Bol(t, p), p, width);
    NoNewlines(t, Bol(t, p), p);
  }

  /** From a line beginning the first round of the search finds nothing. */
  lemma RowsBackwardFromLine(t: seq<char>, s: nat, k: nat, width: nat)
    requires 0 < s <= |t| && LineStart(t, s) && 0 < k && 0 < width
    ensures NextWindowLine(t, s, 0 - k, width) == RowsBackward(t, s, LineBackward(t, s), LineBackward(t, s), k, width)
  {
  }

  /** When point is `m` lines too far below. */
  lemma ScrollDown(t: seq<char>, p: nat, s: nat, m: nat, width: nat)
    requires s <= p <= |t| && LineStart(t, s) && ShortLines(t, width) && width > 0
    requires m <= Newlines(t, s, p)
    ensures var r := NextWindowLine(t, s, m, width);
            r <= p && LineStart(t, r) && RowDistance(t, r, p, width) == RowDistance(t, s, p, width) - m
  {
    ShortForward(t, s, s, m, width);
    SkipInto(t, s, p, m);
    ShortDistance(t, s, p, width);
    ShortDistance(t, NextWindowLine(t, s, m, width), p, width);
  }

  /** When the window moves one line up over a point it shows already. */
  lemma ScrollOneUp(t: seq<char>, p: nat, s: nat, width: nat)
    requires s <= p <= |t| && LineStart(t, s) && ShortLines(t, width) && width > 0
    ensures var r := NextWindowLine(t, s, -1, width);
            r <= s && LineStart(t, r)
            && RowDistance(t, r, p, width) == RowDistance(t, s, p, width) + (if s == 0 then 0 else 1)
  {
    if s > 0 {
      var a := PreviousLine(t, s);
      RowsBackwardFromLine(t, s, 1, width);
      ShortBack(t, s, 1, width);
      assert BackLines(t, s, 1) == BackLines(t, a, 0) == a;
      NewlinesAdd(t, a, s - 1, p);
      NewlinesAdd(t, s - 1, s, p);
      NoNewlines(t, a, s - 1);
      ShortDistance(t, s, p, width);
      ShortDistance(t, a, p, width);
    }
  }

  /** On lines shorter than the window is wide, point is on one of the window's rows after
      prepare, wherever it was moved to, and the window still begins with a line. */
  lemma PrepareOnShortLines(t: seq<char>, p: nat, start: nat, adjusted: bool, margin: int, width: nat, rows: int)
    requires p <= |t| && start <= |t| && (start < |t| ==> LineStart(t, start))
    requires width > 0 && ShortLines(t, width)
    requires rows >= 2 && 0 <= 2 * margin < rows
    ensures var r := Prepared(t, p, start, adjusted, margin, width, rows).start;
            && LineStart(t, r) && (r < |t| || t == [])
            && 0 <= RowDistance(t, r, p, width) < rows
  {
    var s := if start == |t| || p == 0 then 0 else start;
    PrepareRow(t, p, start, s, adjusted, margin, width, rows);
    if p < s {
      ScrollUp(t, p, s, width);
    }
  }

  /** The row that point is on after prepare, on such lines, when the start is or becomes a
      line beginning: the first if it was above the window, the last if it was below, and
      one further down or up if it was in a margin and the start not adjusted. */
  lemma PrepareRow(t: seq<char>, p: nat, start: nat, s: nat, adjusted: bool, margin: int, width: nat,
                   rows: int)
    requires p <= |t| && start <= |t| && width > 0 && s == if start == |t| || p == 0 then 0 else start
    requires LineStart(t, s) && ShortLines(t, width) && rows >= 2 && 0 <= 2 * margin < rows
    ensures var r, lines := Prepared(t, p, start, adjusted, margin, width, rows).start, RowDistance(t, s, p, width);
            && LineStart(t, r) && r <= p
            && RowDistance(t, r, p, width) == if lines < 0 then 0
                                              else if lines >= rows then rows - 1
                                              else if adjusted || p == 0 then lines
                                              else if lines < margin && 0 < s then lines + 1
                                              else if lines >= rows - margin then lines - 1
                                              else lines
  {
    var lines := RowDistance(t, s, p, width);
    if p < s {
      ScrollUp(t, p, s, width);
    } else {
      ShortDistance(t, s, p, width);
      if lines <= margin - 1 {
        ScrollOneUp(t, p, s, width);
      } else if lines >= rows {
        ScrollDown(t, p, s, lines - rows + 1, width);
      } else if lines >= rows - margin {
        ScrollDown(t, p, s, 1, width);
      }
    }
  }

  // ----- ... and exactly when it does on lines of any width -----

  /** Point is on one of the rows drawn from `s` on.  The distance alone does not say so:
      it is 0 too when `s` is past point in the same row. */
  predicate Visible(t: seq<char>, s: nat, p: nat, width: nat, rows: int)
    requires s <= |t| && p <= |t|
  {
    s <= p && RowDistance(t, s, p, width) < rows
  }

  /** When prepare brings point into view, by the branch it takes from the start `s`. */
  predicate ScrollWorks(t: seq<char>, p: nat, s: nat, adjusted: bool, margin: int, width: nat, rows: int)
    requires p <= |t| && s <= |t| && width > 0
  {
    if p < s then
      AboveWorks(t, p, s, adjusted, margin, width, rows)
    else if RowDistance(t, s, p, width) < margin && !adjusted && 0 < s && (Bol(t, s) == 0 || s == SecondLine(t)) then
      // One row up from the first line or the second is all of the first.
      RowDistance(t, 0, p, width) < rows
    else
      // The search forward takes wider rows and may overshoot.
      RowDistance(t, s, p, width) >= rows && p < |t| ==> Drift(t, s, p, width) < rows
  }

  /** ... with point before the start.  On the first line the search backward gives up at
      its beginning.  On a later one it counts rows from both ends, the line's beginning
      and its end, or the start if that is inside the line, and may stop past point.  When
      point is less than a row before the start no row is counted at all, and only the top
      margin brings it back. */
  predicate AboveWorks(t: seq<char>, p: nat, s: nat, adjusted: bool, margin: int, width: nat, rows: int)
    requires p < s <= |t| && width > 0
  {
    && (Bol(t, s) <= p && s - p < width ==> margin > 0 && !adjusted)
    && if Bol(t, p) == 0 then p / width < rows
       else if Bol(t, s) <= p then s - p < width || Meets(t, p, s, width)
       else Meets(t, p, Eol(t, p), width)
  }

  /** Rows of the line of `p` counted back from `e` do not stop past `p`: the part row that
      is left before `e` is no longer from `p` than from the line's beginning. */
  predicate Meets(t: seq<char>, p: nat, e: nat, width: nat)
    requires p <= e <= |t| && width > 0
  {
    (e - p) % width <= (e - Bol(t, p)) % width
  }

  lemma WithinLine(t: seq<char>, p: nat)
    requires p <= |t|
    ensures NoNewline(t, Bol(t, p), Eol(t, p))
  {
    forall m | Bol(t, p) <= m < Eol(t, p)
      ensures t[m] != LINEFEED
    {
      if m < p {
        NoNewlineAfterBol(t, p, m);
      } else {
        NoNewlineBeforeEol(t, p, m);
      }
    }
  }

  /** Rows from inside a line up to a line beginning behind it. */
  lemma RowsFromLine(t: seq<char>, p: nat, i: nat, s: nat, width: nat)
    requires p < s <= |t| && LineStart(t, s) && Bol(t, p) <= i <= Eol(t, p) && width > 0
    ensures Eol(t, p) < s
    ensures RowSteps(t, i, s, width, width)
            == (Eol(t, p) - i) / width + 1 + RowSteps(t, Eol(t, p) + 1, s, width, width)
  {
    if Eol(t, p) >= s {
      NoNewlineBeforeEol(t, p, s - 1);
    }
    WithinLine(t, p);
    StretchThenRest(t, i, Eol(t, p), s, width);
  }

  /** From a line beginning behind the line of `p`, not the first: the search for the rows
      between ends on that line, one row further in for each row that there are fewer from
      `p` on than from the line's beginning. */
  lemma {:induction false} SearchToLine(t: seq<char>, p: nat, s: nat, width: nat)
    requires p < s <= |t| && LineStart(t, s) && Bol(t, p) > 0 && width > 0
    ensures 0 < RowSteps(t, p, s, width, width) <= RowSteps(t, Bol(t, p), s, width, width)
    ensures RowsBackward(t, s, LineBackward(t, s), LineBackward(t, s), RowSteps(t, p, s, width, width), width)
            == Bol(t, p) + (RowSteps(t, Bol(t, p), s, width, width) - RowSteps(t, p, s, width, width)) * width
    decreases s
  {
    var a, b, k := PreviousLine(t, s), Bol(t, p), RowSteps(t, p, s, width, width);
    RowStepsSplit(t, b, p, s, width, width);
    if a <= p {
      SearchLastLine(t, p, s, width);
    } else {
      RowStepsAdd(t, p, a, s, width, width);
      RowStepsAdd(t, b, a, s, width, width);
      SearchToLine(t, p, a, width);
      RoundOfSearch(t, s, k, width);
    }
  }

  /** The round that ends on the line of `p`. */
  lemma SearchLastLine(t: seq<char>, p: nat, s: nat, width: nat)
    requires 0 < s <= |t| && PreviousLine(t, s) <= p < s && LineStart(t, s) && Bol(t, p) > 0 && width > 0
    ensures Bol(t, p) == PreviousLine(t, s) && RowSteps(t, p, s, width, width) > 0
    ensures RowsBackward(t, s, LineBackward(t, s), LineBackward(t, s), RowSteps(t, p, s, width, width), width)
            == Bol(t, p) + (RowSteps(t, Bol(t, p), s, width, width) - RowSteps(t, p, s, width, width)) * width
  {
    var a, b := PreviousLine(t, s), Bol(t, p);
    BolOfPrevious(t, p, s);
    assert LineBackward(t, s) == a;
    RowStepsNewline(t, p, s - 1, width, width);
    RowStepsSplit(t, a, p, s, width, width);
    WithinLine(t, s - 1);
    EdgesAreSteps(t, a, s, 0, width);
  }

  lemma BolOfPrevious(t: seq<char>, p: nat, s: nat)
    requires 0 < s <= |t| && PreviousLine(t, s) <= p < s && LineStart(t, s)
    ensures Bol(t, p) == PreviousLine(t, s) && Eol(t, s - 1) == s - 1
  {
    LineSpan(t, s - 1, p);
  }

  /** Going whole rows into a line, as many as `x` cells fill more than `y`, does not pass
      the place `y` cells from its end exactly when the part row that is left of `y` is no
      longer than that of `x`. */
  lemma RowsIntoLine(x: nat, y: nat, d: int, width: nat)
    requires y <= x && width > 0 && d == x / width - y / width
    ensures d * width <= x - y <==> y % width <= x % width
    ensures d * width <= x - y ==> (x - y - d * width) / width == 0
  {
    assert x == x / width * width + x % width && y == y / width * width + y % width;
    assert d * width == x / width * width - y / width * width;
    if d * width <= x - y {
      Quotient(x - y - d * width, 0, x - y - d * width, width);
    }
  }

  /** Point above the window, on the first line. */
  lemma ShowsFirstLine(t: seq<char>, p: nat, s: nat, width: nat)
    requires p < s <= |t| && LineStart(t, s) && Bol(t, p) == 0 && width > 0
    ensures NextWindowLine(t, s, RowDistance(t, s, p, width), width) == 0
    ensures RowDistance(t, 0, p, width) == p / width
  {
    var e, k := Eol(t, p), RowSteps(t, p, s, width, width);
    WithinLine(t, p);
    LineSpan(t, p, 0);
    BeforeLine(t, p, s);
    RowStepsAdd(t, p, e + 1, s, width, width);
    RowStepsNewline(t, p, e, width, width);
    RowDistanceIsSteps(t, e + 1, s, width);
    BackwardRows(t, s, k, width);
    StretchSteps(t, 0, p, width);
  }

  lemma BeforeLine(t: seq<char>, p: nat, s: nat)
    requires p < s <= |t| && LineStart(t, s)
    ensures Eol(t, p) < s
  {
    if Eol(t, p) >= s {
      NoNewlineBeforeEol(t, p, s - 1);
    }
  }

  /** Point above the window, on a later line. */
  lemma ShowsLaterLine(t: seq<char>, p: nat, s: nat, width: nat)
    requires p < s <= |t| && LineStart(t, s) && Bol(t, p) > 0 && width > 0
    ensures var r := NextWindowLine(t, s, RowDistance(t, s, p, width), width);
            && (r <= p <==> Meets(t, p, Eol(t, p), width))
            && (r <= p ==> RowDistance(t, r, p, width) == 0)
  {
    var b, e, k := Bol(t, p), Eol(t, p), RowSteps(t, p, s, width, width);
    var d := RowSteps(t, b, s, width, width) - k;
    SearchToLine(t, p, s, width);
    RowsBackwardFromLine(t, s, k, width);
    RowsFromLine(t, p, p, s, width);
    RowsFromLine(t, p, b, s, width);
    RowsIntoLine(e - b, e - p, d, width);
    InsideLine(t, b, p, d, width);
  }

  lemma InsideLine(t: seq<char>, b: nat, p: nat, d: nat, width: nat)
    requires p < |t| && b == Bol(t, p) && width > 0
    ensures d * width <= p - b ==> RowDistance(t, b + d * width, p, width) == (p - b - d * width) / width
  {
    if d * width <= p - b {
      Scaled(0, d, width);
      WithinLine(t, p);
      PartOfLine(t, b + d * width, p, width);
    }
  }

  lemma PartOfLine(t: seq<char>, r: nat, p: nat, width: nat)
    requires r <= p <= |t| && width > 0 && NoNewline(t, r, p)
    ensures p < |t| ==> RowDistance(t, r, p, width) == (p - r) / width
  {
    StretchSteps(t, r, p, width);
  }

  /** The round of the search on the start's own line, not the first. */
  lemma SearchOwnLine(t: seq<char>, s: nat, k: nat, width: nat)
    requires s <= |t| && 0 < Bol(t, s) < s && 0 < k && width > 0
    ensures var b, e, up := Bol(t, s), RowSteps(t, Bol(t, s), s, width, width), LineBackward(t, s);
            NextWindowLine(t, s, 0 - k, width)
            == if k <= e then b + (e - k) * width else RowsBackward(t, s, up, up, k - e, width)
  {
    WithinLine(t, s);
    EdgesAreSteps(t, Bol(t, s), s, 0, width);
  }

  /** Point above the window, on the line of the start and a row or more before it. */
  lemma ShowsSameLine(t: seq<char>, p: nat, s: nat, width: nat)
    requires s <= |t| && 0 < Bol(t, s) <= p && p + width <= s && width > 0
    ensures var r := NextWindowLine(t, s, RowDistance(t, s, p, width), width);
            && (r <= p <==> Meets(t, p, s, width))
            && (r <= p ==> RowDistance(t, r, p, width) == 0)
  {
    var b := Bol(t, s);
    var k := (s - p) / width;
    LineSpan(t, s, p);
    StretchUpTo(t, p, s, width);
    StretchUpTo(t, b, s, width);
    Quotients(1, s - p, width);
    Monotone(s - p, s - b, width);
    SearchOwnLine(t, s, k, width);
    RowsIntoLine(s - b, s - p, (s - b) / width - k, width);
    InsideLine(t, b, p, (s - b) / width - k, width);
  }

  lemma Monotone(x: nat, y: nat, width: nat)
    requires x <= y && width > 0
    ensures x / width <= y / width
  {
    Quotients(x / width, y, width);
  }

  /** Rows along a line, up to a place inside it. */
  lemma StretchUpTo(t: seq<char>, i: nat, s: nat, width: nat)
    requires s <= |t| && Bol(t, s) <= i <= s && width > 0
    ensures NoNewline(t, i, s) && RowSteps(t, i, s, width, width) == (s - i) / width
  {
    WithinLine(t, s);
    StretchSteps(t, i, s, width);
  }

  lemma RowDistanceAdd(t: seq<char>, r: nat, s: nat, p: nat, width: nat)
    requires r < s <= p <= |t| && s < |t| && LineStart(t, s)
    ensures RowDistance(t, r, s, width) + RowDistance(t, s, p, width) == RowDistance(t, r, p, width)
  {
    RowStepsAdd(t, r, s, if p == |t| then p - 1 else p, width, width);
  }

  // ----- one row up -----

  /** The search stops counting at a newline. */
  lemma {:induction false} EdgesStop(t: seq<char>, i: nat, n: nat, j: nat, col: nat, cols: nat)
    requires i <= n < j <= |t| && NoNewline(t, i, n) && t[n] == LINEFEED
    ensures Edges(t, i, j, col, cols) == Edges(t, i, n + 1, col, cols)
    decreases n - i
  {
    if i < n {
      EdgesStop(t, i + 1, n, j, if col + 1 == cols then 0 else col + 1, cols);
    }
  }

  lemma RowBefore(x: nat, width: nat)
    requires 0 < width <= x
    ensures 0 < x / width && (x / width - 1) * width + width <= x < (x / width - 1) * width + 2 * width
  {
    Quotients(1, x, width);
    assert x == x / width * width + x % width;
    assert x / width * width == (x / width - 1) * width + width;
  }

  /** From inside a line, not the first: a whole row back from the last row end before the
      start, if there is one on the line... */
  lemma OneUpOnLine(t: seq<char>, s: nat, width: nat)
    requires s <= |t| && 0 < Bol(t, s) && Bol(t, s) + width <= s && width > 0
    ensures var r := NextWindowLine(t, s, -1, width);
            Bol(t, s) <= r && r + width <= s < r + 2 * width
  {
    var b := Bol(t, s);
    StretchUpTo(t, b, s, width);
    SearchOwnLine(t, s, 1, width);
    RowBefore(s - b, width);
  }

  /** ... and if not, the last row of the line before, counted from the column it is
      entered at. */
  lemma OneUpToPrevious(t: seq<char>, s: nat, width: nat)
    requires s <= |t| && 0 < Bol(t, s) < s < Bol(t, s) + width
    ensures var r := NextWindowLine(t, s, -1, width);
            r < Bol(t, s) && RowSteps(t, r, Bol(t, s), width, width) == 1
  {
    var b := Bol(t, s);
    StretchUpTo(t, b, s, width);
    Quotient(s - b, 0, s - b, width);
    SearchOwnLine(t, s, 1, width);
    EnterLine(t, b, s, LineBackward(t, s), width);
  }

  lemma EnterLine(t: seq<char>, b: nat, s: nat, up: nat, width: nat)
    requires 0 < b < s <= |t| && LineStart(t, b) && PreviousLine(t, b) <= up < b && width > 0
    requires up == 0 ==> b == 1
    ensures var r := RowsBackward(t, s, up, up, 1, width);
            r < b && RowSteps(t, r, b, width, width) == 1
  {
    EolOfPrevious(t, b);
    WithinLine(t, b - 1);
    EdgesStop(t, up, b - 1, s, 0, width);
    EdgesAreSteps(t, up, b, 0, width);
    LastRow(t, up, b, width);
  }

  lemma EolOfPrevious(t: seq<char>, b: nat)
    requires 0 < b <= |t| && LineStart(t, b)
    ensures Eol(t, b - 1) == b - 1
  {
  }

  /** All rows of a line but the last are full. */
  lemma LastRow(t: seq<char>, i: nat, b: nat, width: nat)
    requires i < b <= |t| && NoNewline(t, i, b - 1) && t[b - 1] == LINEFEED && width > 0
    ensures var e := RowSteps(t, i, b, width, width);
            e > 0 && (e - 1) * width <= b - 1 - i && RowSteps(t, i + (e - 1) * width, b, width, width) == 1
  {
    StretchThenRest(t, i, b - 1, b, width);
    var m := (b - 1 - i) / width;
    assert b - 1 - i == m * width + (b - 1 - i) % width;
    FullRows(t, i, b, m, width);
  }

  /** A start inside a row leaves as many rows behind it as the row's beginning, or one less. */
  lemma RestOfRow(t: seq<char>, i: nat, s: nat, p: nat, width: nat)
    requires i <= s < i + width && s <= p <= |t| && s < |t| && NoNewline(t, i, s)
    ensures RowDistance(t, i, p, width) <= RowDistance(t, s, p, width) + 1
  {
    var j := if p == |t| then p - 1 else p;
    SkipCells(t, i, s, j, width, width);
    LessRoom(t, s, j, width - (s - i), width, width);
  }

  lemma {:induction false} SkipCells(t: seq<char>, i: nat, s: nat, j: nat, col: nat, width: nat)
    requires i <= s <= j <= |t| && s - i < col && NoNewline(t, i, s)
    ensures RowSteps(t, i, j, col, width) == RowSteps(t, s, j, col - (s - i), width)
    decreases s - i
  {
    if i < s {
      SkipCells(t, i + 1, s, j, col - 1, width);
    }
  }

  /** One row up from inside a line, not the first: point, at or behind the start, is at
      most two rows further down. */
  lemma OneUpInside(t: seq<char>, p: nat, s: nat, width: nat)
    requires s <= p <= |t| && s < |t| && 0 < Bol(t, s) < s && width > 0
    ensures var r := NextWindowLine(t, s, -1, width);
            r < s && RowDistance(t, r, p, width) <= RowDistance(t, s, p, width) + 2
  {
    var b, r := Bol(t, s), NextWindowLine(t, s, -1, width);
    StretchUpTo(t, b, s, width);
    if s - b < width {
      OneUpToPrevious(t, s, width);
      RowDistanceAdd(t, r, b, p, width);
      RestOfRow(t, b, s, p, width);
    } else {
      OneUpOnLine(t, s, width);
      FullRow(t, r, if p == |t| then p - 1 else p, width, width);
      RestOfRow(t, r + width, s, p, width);
    }
  }

  /** ... and with point less than a row before the start it is on the first row or the
      second. */
  lemma OneUpNear(t: seq<char>, p: nat, s: nat, width: nat)
    requires s < |t| && 0 < Bol(t, s) <= p < s && s - p < width
    ensures var r := NextWindowLine(t, s, -1, width);
            r <= p && RowDistance(t, r, p, width) <= 1
  {
    var b, r := Bol(t, s), NextWindowLine(t, s, -1, width);
    StretchUpTo(t, b, s, width);
    if s - b < width {
      OneUpToPrevious(t, s, width);
      RowDistanceAdd(t, r, b, p, width);
      PartRow(t, b, p, width, width);
    } else {
      OneUpOnLine(t, s, width);
      LessThanTwoRows(t, r, p, width);
    }
  }

  lemma LessThanTwoRows(t: seq<char>, r: nat, p: nat, width: nat)
    requires r <= p < |t| && p < r + 2 * width && NoNewline(t, r, p)
    ensures RowDistance(t, r, p, width) <= 1
  {
    if p < r + width {
      PartRow(t, r, p, width, width);
    } else {
      FullRow(t, r, p, width, width);
      PartRow(t, r + width, p, width, width);
    }
  }

  /** Point above the window: on an earlier line, the start being a line beginning, or on
      the line of the start. */
  lemma ShowsAbove(t: seq<char>, p: nat, s: nat, width: nat, rows: int)
    requires p < s <= |t| && (p < Bol(t, s) ==> LineStart(t, s)) && width > 0 && rows > 0
    requires Bol(t, s) <= p ==> s - p >= width
    ensures RowDistance(t, s, p, width) < 0
    ensures Visible(t, NextWindowLine(t, s, RowDistance(t, s, p, width), width), p, width, rows)
            <==> AboveWorks(t, p, s, true, 0, width, rows)
  {
    if Bol(t, s) <= p {
      AboveSameLine(t, p, s, width, rows);
    } else {
      AboveOtherLine(t, p, s, width, rows);
    }
  }

  lemma AboveSameLine(t: seq<char>, p: nat, s: nat, width: nat, rows: int)
    requires s <= |t| && Bol(t, s) <= p && p + width <= s && width > 0 && rows > 0
    ensures RowDistance(t, s, p, width) < 0
    ensures Visible(t, NextWindowLine(t, s, RowDistance(t, s, p, width), width), p, width, rows)
            <==> AboveWorks(t, p, s, true, 0, width, rows)
  {
    LineSpan(t, s, p);
    StretchUpTo(t, p, s, width);
    Quotients(1, s - p, width);
    if Bol(t, s) == 0 {
      StretchUpTo(t, 0, p, width);
    } else {
      ShowsSameLine(t, p, s, width);
    }
  }

  lemma AboveOtherLine(t: seq<char>, p: nat, s: nat, width: nat, rows: int)
    requires p < s <= |t| && LineStart(t, s) && width > 0 && rows > 0
    ensures RowDistance(t, s, p, width) < 0
    ensures Visible(t, NextWindowLine(t, s, RowDistance(t, s, p, width), width), p, width, rows)
            <==> AboveWorks(t, p, s, true, 0, width, rows)
  {
    RowsFromLine(t, p, p, s, width);
    assert Bol(t, s) == s;
    if Bol(t, p) == 0 {
      ShowsFirstLine(t, p, s, width);
    } else {
      ShowsLaterLine(t, p, s, width);
    }
  }

  /** Point less than a row before the start: the metric says it is there. */
  lemma ShowsNear(t: seq<char>, p: nat, s: nat, width: nat, rows: int)
    requires s < |t| && Bol(t, s) <= p < s && s - p < width && rows > 1
    ensures RowDistance(t, s, p, width) == 0
    ensures Visible(t, NextWindowLine(t, s, -1, width), p, width, rows) <==> (Bol(t, s) == 0 ==> p / width < rows)
    ensures Bol(t, p) == Bol(t, s)
  {
    LineSpan(t, s, p);
    StretchUpTo(t, p, s, width);
    Quotient(s - p, 0, s - p, width);
    if Bol(t, s) == 0 {
      StretchUpTo(t, 0, p, width);
    } else {
      OneUpNear(t, p, s, width);
    }
  }

  /** The window moves one row up over a point near its top. */
  lemma ShowsOneUp(t: seq<char>, p: nat, s: nat, width: nat, rows: int)
    requires s <= p <= |t| && (s < |t| || s == 0) && width > 0
    requires RowDistance(t, s, p, width) + 2 < rows || (LineStart(t, s) && RowDistance(t, s, p, width) + 1 < rows)
    ensures Visible(t, NextWindowLine(t, s, -1, width), p, width, rows)
            <==> (0 < s && (Bol(t, s) == 0 || s == SecondLine(t)) ==> RowDistance(t, 0, p, width) < rows)
  {
    if LineStart(t, s) {
      OneUpFromLine(t, p, s, width, rows);
    } else if Bol(t, s) > 0 {
      SecondLineFirst(t, Bol(t, s));
      OneUpInside(t, p, s, width);
    }
  }

  lemma OneUpFromLine(t: seq<char>, p: nat, s: nat, width: nat, rows: int)
    requires s <= p <= |t| && (s < |t| || s == 0) && LineStart(t, s) && width > 0
    requires RowDistance(t, s, p, width) + 1 < rows
    ensures Visible(t, NextWindowLine(t, s, -1, width), p, width, rows)
            <==> (0 < s == SecondLine(t) ==> RowDistance(t, 0, p, width) < rows)
  {
    if s > 0 {
      var f, r := SecondLine(t), NextWindowLine(t, s, -1, width);
      SecondLineFirst(t, s);
      BackwardRows(t, s, 1, width);
      if f < s {
        RowStepsNewline(t, f, s - 1, width, width);
        RowDistanceAdd(t, r, s, p, width);
      }
    }
  }

  // ----- the search forward, against point -----

  /** Less room on the first row makes one row more, or none. */
  lemma {:induction false} LessRoom(t: seq<char>, i: nat, j: nat, c: nat, d: nat, width: nat)
    requires i <= j <= |t| && 0 < c <= d <= width
    ensures RowSteps(t, i, j, d, width) <= RowSteps(t, i, j, c, width) <= RowSteps(t, i, j, d, width) + 1
    decreases j - i
  {
    if i < j && t[i] != LINEFEED {
      if c > 1 {
        LessRoom(t, i + 1, j, c - 1, d - 1, width);
      } else if d > 1 {
        LessRoom(t, i + 1, j, d - 1, width, width);
      }
    }
  }

  /** Beginning a row anew on the way makes no more rows. */
  lemma {:induction false} RowStepsSplit(t: seq<char>, i: nat, r: nat, j: nat, col: nat, width: nat)
    requires i <= r <= j <= |t| && 0 < col <= width
    ensures RowSteps(t, i, r, col, width) + RowSteps(t, r, j, width, width) <= RowSteps(t, i, j, col, width)
    decreases r - i
  {
    if i == r {
      LessRoom(t, r, j, col, width, width);
    } else if col == 1 || t[i] == LINEFEED {
      RowStepsSplit(t, i + 1, r, j, width, width);
    } else {
      RowStepsSplit(t, i + 1, r, j, col - 1, width);
    }
  }

  /** Where less than one of the wider rows is completed, at most one of the others is. */
  lemma {:induction false} AtMostOneRow(t: seq<char>, i: nat, j: nat, col: nat, width: nat)
    requires i <= j <= |t| && 0 < col <= width && RowSteps(t, i, j, col + 1, width + 1) == 0
    ensures RowSteps(t, i, j, col, width) <= 1
    decreases j - i
  {
    if i < j && col > 1 {
      AtMostOneRow(t, i + 1, j, col - 1, width);
    }
  }

  /** Going `m` rows forward brings point `m` rows closer, or more, unless it is passed;
      at the end of the text it never is. */
  lemma ForwardTo(t: seq<char>, p: nat, s: nat, m: nat, width: nat)
    requires s < p <= |t| && width > 0 && 0 < m <= RowDistance(t, s, p, width)
    ensures var r := NextWindowLine(t, s, m, width);
            && (r <= p ==> RowDistance(t, r, p, width) <= RowDistance(t, s, p, width) - m)
            && (p < |t| ==> (r <= p <==> RowSteps(t, s, p, width + 1, width + 1) >= m))
  {
    var r := NextWindowLine(t, s, m, width);
    if p < |t| {
      ForwardReaches(t, s, p, m, width, width);
    }
    if r <= p && r < |t| {
      ForwardRowsDrift(t, s, m, width);
      RowStepsSplit(t, s, r, if p == |t| then p - 1 else p, width, width);
    }
  }

  /** Point below the window. */
  lemma ShowsBelow(t: seq<char>, p: nat, s: nat, width: nat, rows: int)
    requires s < p <= |t| && width > 0 && 0 < rows <= RowDistance(t, s, p, width)
    ensures Visible(t, NextWindowLine(t, s, RowDistance(t, s, p, width) - rows + 1, width), p, width, rows)
            <==> (p < |t| ==> Drift(t, s, p, width) < rows)
  {
    ForwardTo(t, p, s, RowDistance(t, s, p, width) - rows + 1, width);
    DriftIsGap(t, s, p, width);
  }

  /** The window moves one row down under a point near its bottom. */
  lemma ShowsOneDown(t: seq<char>, p: nat, s: nat, width: nat, rows: int)
    requires s < p <= |t| && width > 0 && 2 <= RowDistance(t, s, p, width) < rows
    ensures Visible(t, NextWindowLine(t, s, 1, width), p, width, rows)
  {
    ForwardTo(t, p, s, 1, width);
    if p < |t| && RowSteps(t, s, p, width + 1, width + 1) == 0 {
      AtMostOneRow(t, s, p, width, width);
    }
  }

  /** The scroll from a start past point... */
  lemma ScrollShowsBefore(t: seq<char>, p: nat, s: nat, adjusted: bool, margin: int, width: nat, rows: int)
    requires p < s < |t| && (p < Bol(t, s) ==> LineStart(t, s))
    requires width > 0 && 0 <= 2 * margin < rows
    ensures Visible(t, Scrolled(t, p, s, adjusted, margin, width, rows).start, p, width, rows)
            <==> AboveWorks(t, p, s, adjusted, margin, width, rows)
  {
    if Bol(t, s) <= p && s - p < width {
      StretchUpTo(t, p, s, width);
      Quotient(s - p, 0, s - p, width);
      if margin > 0 {
        ShowsNear(t, p, s, width, rows);
      }
    } else {
      ShowsAbove(t, p, s, width, rows);
    }
  }

  /** ... and from one at point or before it. */
  lemma ScrollShowsAfter(t: seq<char>, p: nat, s: nat, adjusted: bool, margin: int, width: nat, rows: int)
    requires s <= p <= |t| && (s < |t| || s == 0)
    requires width > 0 && 0 <= 2 * margin < rows
    ensures Visible(t, Scrolled(t, p, s, adjusted, margin, width, rows).start, p, width, rows)
            <==> ScrollWorks(t, p, s, adjusted, margin, width, rows)
  {
    var lines := RowDistance(t, s, p, width);
    if lines < margin {
      ShowsOneUp(t, p, s, width, rows);
    } else if lines >= rows {
      ShowsBelow(t, p, s, width, rows);
    } else if lines >= rows - margin {
      ShowsOneDown(t, p, s, width, rows);
    }
  }

  /** The display property.  Wherever point was moved to, wherever in a line the window
      begins, and whether or not the start was adjusted: after prepare point is on one of
      the window's rows exactly when the branch taken works.  Left out is a start inside a
      line with point on an earlier line.  The margins leave the window a row. */
  lemma PrepareShowsPoint(t: seq<char>, p: nat, start: nat, adjusted: bool, margin: int, width: nat, rows: int)
    requires p <= |t| && start <= |t| && (0 < p < Bol(t, start) ==> LineStart(t, start) || start == |t|)
    requires width > 0 && 0 <= 2 * margin < rows
    ensures var s := if start == |t| || p == 0 then 0 else start;
            Visible(t, Prepared(t, p, start, adjusted, margin, width, rows).start, p, width, rows)
            <==> ScrollWorks(t, p, s, adjusted || p == 0, margin, width, rows)
  {
    var s := if start == |t| || p == 0 then 0 else start;
    if p < s {
      ScrollShowsBefore(t, p, s, adjusted, margin, width, rows);
    } else {
      ScrollShowsAfter(t, p, s, adjusted || p == 0, margin, width, rows);
    }
  }

  // ----- the four ways to fail -----

  /** Forward: with two columns and two rows, point at 10 of a line of thirteen
      characters, the window scrolls past point. */
  lemma PrepareOvershoots(t: seq<char>)
    requires |t| >= 13 && NoNewline(t, 0, |t|)
    ensures Prepared(t, 10, 0, false, 0, 2, 2).start == 12 && !Visible(t, 12, 10, 2, 2)
  {
    FullRows(t, 0, 10, 5, 2);
    ForwardOneLine(t, 0, 4, 2);
  }

  /** Backward from the second line: with two columns, three rows and a margin of one, the
      window moves up over a first line of six characters and point is below it. */
  lemma PrepareGivesUp(t: seq<char>)
    requires |t| > 7 && NoNewline(t, 0, 6) && t[6] == LINEFEED
    ensures Prepared(t, 7, 7, false, 1, 2, 3).start == 0 && RowDistance(t, 0, 7, 2) == 4
    ensures !Visible(t, 0, 7, 2, 3)
  {
    StretchThenRest(t, 0, 6, 7, 2);
    EolOfLine(t, 0, 6);
    BackwardRows(t, 7, 1, 2);
  }

  /** Backward onto a wide line: with two columns and point at its second character, the
      window begins with the newline behind it. */
  lemma PrepareStopsShort(t: seq<char>)
    requires |t| > 4 && t[0] == t[3] == LINEFEED && NoNewline(t, 1, 3)
    ensures Prepared(t, 2, 4, true, 0, 2, 2).start == 3 && !Visible(t, 3, 2, 2, 2)
  {
    BolOfLine(t, 1, 2);
    EolOfLine(t, 2, 3);
    RowsFromLine(t, 2, 2, 4, 2);
    RowsBackwardFromLine(t, 4, 1, 2);
    SearchToLine(t, 2, 4, 2);
  }

  /** Not at all: the window scrolls down a line of a hundred and twenty characters, so that
      it begins inside it; point goes to the row before, less than a row away, and prepare
      leaves both where they are. */
  lemma PrepareSticks(t: seq<char>)
    requires |t| >= 120 && NoNewline(t, 0, |t|)
    ensures Prepared(t, 110, 0, false, 5, 10, 11) == Scroll(11, true)
    ensures Prepared(t, 10, 11, true, 5, 10, 11) == Scroll(11, true) && !Visible(t, 11, 10, 10, 11)
  {
    FullRows(t, 0, 110, 11, 10);
    ForwardOneLine(t, 0, 1, 10);
    PartRow(t, 10, 11, 10, 10);
  }

  class SupplyWindow {
    const buffer: Buffer
    const scrollMargin: int
    const width: nat
    const height: int
    var modeLine: string
    var start: Cons?    // the cell the first row begins with
    var content: Cons?  // the next cell to supply
    var startAlreadyAdjusted: bool
    var moreChars: bool
    var onePassedPoint: bool
    var onePassedMark: bool
    var currentLine: nat
    var currentColumn: nat

    constructor (buffer: Buffer, start: Cons?, scrollMargin: int, width: nat, height: int)
      ensures this.buffer == buffer && this.start == start && this.scrollMargin == scrollMargin
      ensures this.width == width && this.height == height
      ensures startAlreadyAdjusted && !moreChars
    {
      this.buffer, this.start, this.scrollMargin := buffer, start, scrollMargin;
      this.width, this.height := width, height;
      modeLine, content := "", null;
      startAlreadyAdjusted, moreChars, onePassedPoint, onePassedMark := true, false, false, false;
      currentLine, currentColumn := 0, 0;
    }

    /** The rows left for text: all but one for the mode line, if there is one. */
    function Rows(): (rows: int)
      reads `modeLine
      ensures height - 1 <= rows <= height && (rows == height <==> modeLine == "")
    {
      height - (if |modeLine| > 0 then 1 else 0)
    }

    /** The start, moved from `s`. */
    method StartFrom(count: int, ghost s: nat)
      requires buffer.Valid() && width > 0 && s <= |buffer.cells| && start == At(buffer.cells, s, null)
      modifies `start, buffer`point, buffer`pos
      ensures buffer.Valid() && buffer.State() == old(buffer.State())
      ensures start == At(buffer.cells, NextWindowLine(buffer.State().text, s, count, width), null)
    {
      var tem := buffer.point;
      ghost var p := buffer.pos;
      buffer.PointTo(start, s);
      start := buffer.NextWindowLineFrom(count, width);
      buffer.PointTo(tem, p);
    }

    /** `s` is where start is in the buffer. */
    method Prepare(ghost s: nat)
      requires buffer.Valid() && width > 0 && s <= |buffer.cells| && start == At(buffer.cells, s, null)
      modifies this, buffer`point, buffer`pos
      ensures buffer.Valid() && buffer.State() == old(buffer.State())
      ensures var v := old(buffer.State());
              var r := Prepared(v.text, v.point, s, old(startAlreadyAdjusted), scrollMargin, width, Rows());
              start == At(buffer.cells, r.start, null) && startAlreadyAdjusted == r.adjusted
      ensures var v := old(buffer.State());
              && currentLine == Newlines(v.text, 0, v.point)
              && currentColumn == Width(v.text, Bol(v.text, v.point), v.point, buffer.tabWidth)
      ensures content == start && moreChars && !onePassedPoint && !onePassedMark
      ensures modeLine == old(modeLine)
    {
      var lines;
      ghost var i;
      lines, i := Measure(s);
      Scroll(lines, i);
      content := start;
    }

    /** The first half of prepare: how many rows point is below the adjusted start. */
    method Measure(ghost s: nat) returns (lines: int, ghost i: nat)
      requires buffer.Valid() && s <= |buffer.cells| && start == At(buffer.cells, s, null)
      modifies `start, `startAlreadyAdjusted, `currentLine, `currentColumn, `moreChars, `onePassedPoint, `onePassedMark
      ensures i == if s == |buffer.cells| || buffer.pos == 0 then 0 else s
      ensures start == At(buffer.cells, i, null)
      ensures startAlreadyAdjusted == (old(startAlreadyAdjusted) || buffer.pos == 0)
      ensures moreChars && !onePassedPoint && !onePassedMark
      ensures buffer.Valid() && buffer.State() == old(buffer.State())
      ensures var v := old(buffer.State());
              && currentLine == Newlines(v.text, 0, v.point)
              && currentColumn == Width(v.text, Bol(v.text, v.point), v.point, buffer.tabWidth)
              && lines == RowDistance(v.text, i, v.point, width)
    {
      ghost var v := buffer.State();
      i := AdjustStart(s);
      assert buffer.Valid() && buffer.State() == v;
      currentLine := buffer.CurrentLine();
      currentColumn := buffer.CurrentColumn();
      assert Chain(buffer.cells, null) && Text(buffer.cells) == v.text;
      lines := Distances.WindowLineDistance(start, buffer.point, width, buffer.cells, i, buffer.pos);
    }

    method AdjustStart(ghost s: nat) returns (ghost i: nat)
      requires buffer.Valid() && s <= |buffer.cells| && start == At(buffer.cells, s, null)
      modifies `start, `startAlreadyAdjusted, `moreChars, `onePassedPoint, `onePassedMark
      ensures moreChars && !onePassedPoint && !onePassedMark
      ensures i == if s == |buffer.cells| || buffer.pos == 0 then 0 else s
      ensures start == At(buffer.cells, i, null) && (start == null ==> buffer.point == null)
      ensures startAlreadyAdjusted == (old(startAlreadyAdjusted) || buffer.pos == 0)
    {
      moreChars, onePassedPoint, onePassedMark := true, false, false;
      i := s;
      SameIndex(buffer.cells, s, |buffer.cells|);
      SameIndex(buffer.cells, buffer.pos, 0);
      if start == null {
        start, i := buffer.content, 0;
      }
      if buffer.content == null {
        start, i := null, 0;
      }
      if buffer.content == buffer.point {
        start, i := buffer.point, 0;
        startAlreadyAdjusted := true;
      }
    }

    /** The cell `count` rows away from the one at `s`. */
    ghost function Away(count: int, s: nat): Cons?
      requires buffer.Valid() && width > 0 && s <= |buffer.cells|
      reads buffer, buffer.cells
    {
      At(buffer.cells, NextWindowLine(buffer.State().text, s, count, width), null)
    }

    /** Move the start if point is in a scroll margin or outside. */
    method Scroll(lines: int, ghost s: nat)
      requires buffer.Valid() && width > 0 && s <= |buffer.cells| && start == At(buffer.cells, s, null)
      requires lines == RowDistance(buffer.State().text, s, buffer.pos, width)
      modifies `start, `startAlreadyAdjusted, buffer`point, buffer`pos
      ensures buffer.Valid() && buffer.State() == old(buffer.State())
      ensures var v := old(buffer.State());
              var r := Scrolled(v.text, v.point, s, old(startAlreadyAdjusted), scrollMargin, width, Rows());
              start == At(buffer.cells, r.start, null) && startAlreadyAdjusted == r.adjusted
      // Branch by branch: between the margins, ...
      ensures scrollMargin <= lines < Rows() - scrollMargin ==> start == old(start) && !startAlreadyAdjusted
      // ... in a margin, ...
      ensures 0 <= lines && (lines < scrollMargin || Rows() - scrollMargin <= lines < Rows()) ==>
                && startAlreadyAdjusted == old(startAlreadyAdjusted)
                && start == if old(startAlreadyAdjusted) then old(start)
                            else Away(if lines < scrollMargin then -1 else 1, s)
      // ... and outside the window.
      ensures lines < 0 && lines < scrollMargin ==>
                startAlreadyAdjusted == old(startAlreadyAdjusted) && start == Away(lines, s)
      ensures Rows() <= lines && scrollMargin <= lines && 0 <= scrollMargin ==>
                startAlreadyAdjusted && start == Away(lines - Rows() + 1, s)
    {
      if lines <= scrollMargin - 1 {
        if !startAlreadyAdjusted || lines < 0 {
          StartFrom(if lines < 0 then lines else -1, s);
        }
      } else if lines >= Rows() - scrollMargin {
        if !startAlreadyAdjusted || lines >= Rows() {
          if lines >= Rows() {
            StartFrom(lines - Rows() + 1, s);
            startAlreadyAdjusted := true;
          } else {
            StartFrom(1, s);
          }
        }
      } else {
        startAlreadyAdjusted := false;
      }
    }

    /** The next character, flagged when it is the one at point or at the mark; after
        the last of the buffer a newline, and from then on NUL. */
    method NextChar() returns (ch: char)
      modifies `content, `moreChars, `onePassedPoint, `onePassedMark
      ensures onePassedPoint <==> old(content) == buffer.point
      ensures onePassedMark <==> old(content) == buffer.mark
      ensures old(content) != null ==>
                ch == old(content).car && content == old(content).cdr && moreChars == old(moreChars)
      ensures old(content) == null ==>
                content == null && !moreChars && ch == if old(moreChars) then '\n' else '\0'
    {
      onePassedPoint := content == buffer.point;
      onePassedMark := content == buffer.mark;
      if content != null {
        ch := content.car;
        content := content.cdr;
      } else if moreChars {
        moreChars := false;
        ch := '\n';
      } else {
        ch := '\0';
      }
    }

    /** Drawing without a limit on rows: next_char until more_chars is false, from `i` on,
        supplies the rest of the text and one newline, and flags point and the mark each
        on exactly the character they are before. */
    method SupplyAll(ghost i: nat) returns (out: string, points: seq<bool>, marks: seq<bool>)
      requires buffer.Valid() && moreChars && i <= |buffer.cells| && content == At(buffer.cells, i, null)
      modifies `content, `moreChars, `onePassedPoint, `onePassedMark
      ensures out == buffer.State().text[i..] + "\n"
      ensures |points| == |marks| == |out|
      ensures forall k :: 0 <= k < |out| ==> (points[k] <==> i + k == buffer.pos)
      ensures forall k :: 0 <= k < |out| ==> (marks[k] <==> buffer.place == Place(i + k))
    {
      out, points, marks := "", [], [];
      ghost var m, t := i, Text(buffer.cells);
      while moreChars
        invariant i <= m <= |buffer.cells| && |points| == |marks| == |out|
        invariant if moreChars then content == At(buffer.cells, m, null) && out == t[i..m]
                  else out == t[i..] + "\n"
        invariant forall k :: 0 <= k < |out| ==> (points[k] <==> i + k == buffer.pos)
        invariant forall k :: 0 <= k < |out| ==> (marks[k] <==> buffer.place == Place(i + k))
        decreases moreChars, |buffer.cells| - m
      {
        SameIndex(buffer.cells, m, buffer.pos);
        if buffer.place.Place? {
          SameIndex(buffer.cells, m, buffer.place.i);
        }
        assert m < |t| ==> t[m] == content.car && t[i..m + 1] == t[i..m] + [t[m]];
        var ch := NextChar();
        out := out + [ch];
        points, marks := points + [onePassedPoint], marks + [onePassedMark];
        if moreChars {
          m := m + 1;
        }
      }
    }
  }
}
