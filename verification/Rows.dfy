/** Window rows: a row ends with a newline or at the edge of the window.  The metric of
    window_line_distance, and the search of next_window_line in both directions. */
module Rows {
  import opened TextModel
  import opened Lines

  /** Rows completed by walking from `i` to `j` with room for `col` more cells on the
      first row and `cols` on the others. */
  function RowSteps(t: seq<char>, i: nat, j: nat, col: int, cols: int): nat
    requires i <= j <= |t|
    decreases j - i
  {
    if i == j then 0
    else if col - 1 == 0 || t[i] == LINEFEED then 1 + RowSteps(t, i + 1, j, cols, cols)
    else RowSteps(t, i + 1, j, col - 1, cols)
  }

  /** `window_line_distance`.  The step onto the end of the buffer always counts as a row. */
  function RowDistance(t: seq<char>, i: nat, j: nat, cols: int): int
    requires i <= |t| && j <= |t|
  {
    if i == j then 0
    else if j < i then 0 - RowSteps(t, j, i, cols, cols)
    else if j == |t| then RowSteps(t, i, j - 1, cols, cols) + 1
    else RowSteps(t, i, j, cols, cols)
  }

  /** `next_window_line` forward: `col` counts down to zero, so its rows hold one cell
      more than `cols`. */
  function RowsForward(t: seq<char>, p: nat, count: nat, col: int, cols: int): (r: nat)
    requires p <= |t|
    ensures p <= r <= |t|
    decreases |t| - p
  {
    if count == 0 || p == |t| then p
    else if col == 0 || t[p] == LINEFEED then RowsForward(t, p + 1, count - 1, cols, cols)
    else RowsForward(t, p + 1, count, col - 1, cols)
  }

  /** The row ends that next_window_line counts between `i` and `j`; it stops at a newline. */
  function Edges(t: seq<char>, i: nat, j: nat, col: nat, cols: int): nat
    requires i <= j <= |t|
    decreases j - i
  {
    if i == j then 0
    else if t[i] == LINEFEED then 1
    else if col + 1 == cols then 1 + Edges(t, i + 1, j, 0, cols)
    else Edges(t, i + 1, j, col + 1, cols)
  }

  /** `next_window_line` backward, at a round of its loop: `k` rows are still wanted
      before `pnt`, and `line` is where the line now looked at is entered. */
  function RowsBackward(t: seq<char>, pnt: nat, line: nat, point: nat, k: nat, cols: nat): (r: nat)
    requires line <= point <= pnt <= |t| && k > 0 && cols > 0
    ensures r <= pnt
    decreases point
  {
    if line == 0 then 0
    else
      var e := Edges(t, line, pnt, 0, cols);
      if e > k then
        EdgesFit(t, line, pnt, 0, cols);
        Scaled(e - k, e - 1, cols);
        line + (e - k) * cols
      else if e == k then line
      else
        var up := LineBackward(t, point);
        RowsBackward(t, point, up, up, k - e, cols)
  }

  function NextWindowLine(t: seq<char>, p: nat, count: int, cols: nat): (r: nat)
    requires p <= |t| && cols > 0
    ensures r <= |t|
  {
    if count >= 0 then RowsForward(t, p, count, cols, cols)
    else RowsBackward(t, p, Bol(t, p), p, -count, cols)
  }

  lemma Scaled(a: nat, b: nat, cols: nat)
    requires a <= b
    ensures 0 <= a * cols <= b * cols
  {
  }

  /** All rows counted but the last one are full. */
  lemma {:induction false} EdgesFit(t: seq<char>, i: nat, j: nat, col: nat, cols: nat)
    requires i <= j <= |t| && col < cols
    ensures Edges(t, i, j, col, cols) > 0 ==> i + (Edges(t, i, j, col, cols) - 1) * cols <= j + col
    decreases j - i
  {
    if i < j && t[i] != LINEFEED {
      if col + 1 == cols {
        EdgesFit(t, i + 1, j, 0, cols);
        var e := Edges(t, i + 1, j, 0, cols);
        assert e > 0 ==> e * cols == (e - 1) * cols + cols;
      } else {
        EdgesFit(t, i + 1, j, col + 1, cols);
      }
    }
  }

  // ----- the metric -----

  predicate NoNewline(t: seq<char>, i: nat, j: nat)
    requires i <= j <= |t|
  {
    forall m :: i <= m < j ==> t[m] != LINEFEED
  }

  /** A line beginning starts a row, so distances add up there. */
  lemma {:induction false} RowStepsAdd(t: seq<char>, i: nat, b: nat, j: nat, col: int, cols: int)
    requires i < b <= j <= |t| && LineStart(t, b)
    ensures RowSteps(t, i, b, col, cols) + RowSteps(t, b, j, cols, cols) == RowSteps(t, i, j, col, cols)
    decreases b - i
  {
    if i + 1 < b {
      if col - 1 == 0 || t[i] == LINEFEED {
        RowStepsAdd(t, i + 1, b, j, cols, cols);
      } else {
        RowStepsAdd(t, i + 1, b, j, col - 1, cols);
      }
    }
  }

  /** Stepping over a newline is one more row. */
  lemma {:induction false} RowStepsNewline(t: seq<char>, i: nat, j: nat, col: int, cols: int)
    requires i <= j < |t| && t[j] == LINEFEED
    ensures RowSteps(t, i, j + 1, col, cols) == RowSteps(t, i, j, col, cols) + 1
    decreases j - i
  {
    if i < j {
      if col - 1 == 0 || t[i] == LINEFEED {
        RowStepsNewline(t, i + 1, j, cols, cols);
      } else {
        RowStepsNewline(t, i + 1, j, col - 1, cols);
      }
    }
  }

  /** To the end of a text that ends in a newline, the distance is the plain row count. */
  lemma RowDistanceIsSteps(t: seq<char>, i: nat, j: nat, cols: int)
    requires i <= j <= |t| && (j == |t| ==> LineStart(t, j))
    ensures RowDistance(t, i, j, cols) == RowSteps(t, i, j, cols, cols)
  {
    if i < j == |t| {
      RowStepsNewline(t, i, j - 1, cols, cols);
    }
  }

  /** The metric along a stretch without newlines, both ways. */
  lemma DistanceAlong(t: seq<char>, i: nat, j: nat, cols: nat)
    requires i <= j <= |t| && 0 < cols && forall m :: i <= m < j ==> t[m] != '\n'
    ensures RowDistance(t, i, j, cols) == if i < j == |t| then (j - 1 - i) / cols + 1 else (j - i) / cols
    ensures RowDistance(t, j, i, cols) == 0 - (j - i) / cols
  {
    StretchSteps(t, i, j, cols);
    if i < j {
      StretchSteps(t, i, j - 1, cols);
    }
  }

  /** ... and over the first newline, at `e`. */
  lemma DistanceOverNewline(t: seq<char>, i: nat, e: nat, j: nat, cols: nat)
    requires i <= e < j <= |t| && 0 < cols && t[e] == '\n' && forall m :: i <= m < e ==> t[m] != '\n'
    ensures RowDistance(t, i, j, cols) == (e - i) / cols + 1 + RowDistance(t, e + 1, j, cols)
    ensures RowDistance(t, j, i, cols) == RowDistance(t, j, e + 1, cols) - (e - i) / cols - 1
  {
    StretchThenRest(t, i, e, j, cols);
    if e + 1 < j {
      StretchThenRest(t, i, e, j - 1, cols);
    } else {
      StretchSteps(t, i, e, cols);
    }
  }

  /** Along one line the counter of the search agrees with the metric. */
  lemma {:induction false} EdgesAreSteps(t: seq<char>, i: nat, j: nat, col: nat, cols: nat)
    requires i < j <= |t| && col < cols && NoNewline(t, i, j - 1)
    ensures Edges(t, i, j, col, cols) == RowSteps(t, i, j, cols - col, cols)
    decreases j - i
  {
    if i + 1 < j {
      EdgesAreSteps(t, i + 1, j, if col + 1 == cols then 0 else col + 1, cols);
    }
  }

  /** A row of a long line: `n` cells that fit take no row, the last one ends it. */
  lemma {:induction false} FullRow(t: seq<char>, i: nat, j: nat, n: nat, cols: nat)
    requires 0 < n && i + n <= j <= |t| && NoNewline(t, i, i + n)
    ensures RowSteps(t, i, j, n, cols) == 1 + RowSteps(t, i + n, j, cols, cols)
    decreases n
  {
    if n > 1 {
      FullRow(t, i + 1, j, n - 1, cols);
    }
  }

  lemma {:induction false} FullRows(t: seq<char>, i: nat, j: nat, m: nat, cols: nat)
    requires cols > 0 && i + m * cols <= j <= |t| && NoNewline(t, i, i + m * cols)
    ensures RowSteps(t, i, j, cols, cols) == m + RowSteps(t, i + m * cols, j, cols, cols)
    decreases m
  {
    if m > 0 {
      assert m * cols == (m - 1) * cols + cols;
      FullRow(t, i, j, cols, cols);
      FullRows(t, i + cols, j, m - 1, cols);
    }
  }

  // ----- the search backward -----

  /** One round of the search: from a line beginning `b` to the previous one. */
  lemma RoundOfSearch(t: seq<char>, b: nat, k: nat, cols: nat)
    requires 0 < b <= |t| && LineStart(t, b) && PreviousLine(t, b) > 0 && 0 < k && 0 < cols
    ensures var a := PreviousLine(t, b);
            var e, r := RowSteps(t, a, b, cols, cols), RowsBackward(t, b, a, a, k, cols);
            && e == Edges(t, a, b, 0, cols) > 0
            && (e >= k ==> 0 < r < b && RowSteps(t, r, b, cols, cols) == k && FirstColumn(t, r, cols))
            && (e < k ==> r == RowsBackward(t, a, LineBackward(t, a), LineBackward(t, a), k - e, cols))
  {
    var a := PreviousLine(t, b);
    var e := Edges(t, a, b, 0, cols);
    forall m | a <= m < b - 1
      ensures t[m] != LINEFEED
    {
      NoNewlineAfterBol(t, b - 1, m);
    }
    EdgesAreSteps(t, a, b, 0, cols);
    RowStepsNewline(t, a, b - 1, cols, cols);
    if e > k {
      EdgesFit(t, a, b, 0, cols);
      Scaled(e - k, e - 1, cols);
      EdgesStopShort(t, a, b, 0, cols);
      FullRows(t, a, b, e - k, cols);
      RowsIn(t, a, b - 1, e - k, cols);
    }
  }

  /** A row of the line of `r` begins there. */
  predicate FirstColumn(t: seq<char>, r: nat, cols: nat)
    requires r <= |t| && 0 < cols
  {
    Column(t, r) % cols == 0
  }

  lemma RowsIn(t: seq<char>, a: nat, e: nat, n: nat, cols: nat)
    requires 0 < cols && a + n * cols <= e <= |t| && LineStart(t, a) && NoNewline(t, a, e)
    ensures FirstColumn(t, a + n * cols, cols)
  {
    BolOfLine(t, a, a + n * cols);
    assert n * cols % cols == 0 by {
      Quotient(n * cols, n, 0, cols);
    }
  }

  /** The newline itself completes the last row, so the full rows end before it. */
  lemma {:induction false} EdgesStopShort(t: seq<char>, i: nat, j: nat, col: nat, cols: nat)
    requires i < j <= |t| && col < cols && NoNewline(t, i, j - 1) && t[j - 1] == LINEFEED
    ensures i + (Edges(t, i, j, col, cols) - 1) * cols < j + col
    decreases j - i
  {
    if i + 1 < j {
      if col + 1 == cols {
        EdgesStopShort(t, i + 1, j, 0, cols);
        var e := Edges(t, i + 1, j, 0, cols);
        assert e * cols == (e - 1) * cols + cols;
      } else {
        EdgesStopShort(t, i + 1, j, col + 1, cols);
      }
    }
  }

  /** Where the second line begins. */
  function SecondLine(t: seq<char>): (b: nat)
    ensures b <= |t|
  {
    if Eol(t, 0) < |t| then Eol(t, 0) + 1 else |t|
  }

  lemma SecondLineFirst(t: seq<char>, b: nat)
    requires 0 < b <= |t| && LineStart(t, b)
    ensures SecondLine(t) <= b
  {
    if Eol(t, 0) >= b {
      NoNewlineBeforeEol(t, 0, b - 1);
    }
  }

  /** From a line beginning the search finds the place `k` rows up when the lines from
      the second on have that many rows, and gives up at the start of the text if not. */
  lemma {:induction false} SearchUp(t: seq<char>, b: nat, k: nat, cols: nat)
    requires 0 < b <= |t| && LineStart(t, b) && 0 < k && 0 < cols
    ensures SecondLine(t) <= b
    ensures var r := RowsBackward(t, b, LineBackward(t, b), LineBackward(t, b), k, cols);
            if RowSteps(t, SecondLine(t), b, cols, cols) >= k
            then 0 < r < b && RowSteps(t, r, b, cols, cols) == k && FirstColumn(t, r, cols)
            else r == 0
    decreases b
  {
    SecondLineFirst(t, b);
    var a, f := PreviousLine(t, b), SecondLine(t);
    assert LineBackward(t, b) == a;
    LineSpan(t, b - 1, a);
    if a > 0 {
      SecondLineFirst(t, a);
      RoundOfSearch(t, b, k, cols);
      var e := RowSteps(t, a, b, cols, cols);
      if f < a {
        RowStepsAdd(t, f, a, b, cols, cols);
      }
      if e < k {
        SearchUp(t, a, k - e, cols);
        var r := RowsBackward(t, a, LineBackward(t, a), LineBackward(t, a), k - e, cols);
        if r < a {
          RowStepsAdd(t, r, a, b, cols, cols);
        }
      }
    }
  }

  /** `next_window_line (-k)` with point in the first column of a line: exactly `k` rows
      up when the lines from the second on have that many, else the start of the text. */
  lemma BackwardRows(t: seq<char>, p: nat, k: nat, cols: nat)
    requires p <= |t| && LineStart(t, p) && 0 < k && 0 < cols
    ensures var r := NextWindowLine(t, p, 0 - k, cols);
            if SecondLine(t) <= p && RowDistance(t, SecondLine(t), p, cols) >= k
            then 0 < r < p && RowDistance(t, r, p, cols) == k && Column(t, r) % cols == 0
            else r == 0
  {
    if p > 0 {
      SearchUp(t, p, k, cols);
      var r := NextWindowLine(t, p, 0 - k, cols);
      RowDistanceIsSteps(t, SecondLine(t), p, cols);
      RowDistanceIsSteps(t, r, p, cols);
    }
  }

  // ----- the search forward -----

  /** Forward, the search agrees with the metric at one more column. */
  lemma {:induction false} ForwardSteps(t: seq<char>, p: nat, k: nat, col: nat, cols: nat)
    requires p <= |t|
    ensures var r := RowsForward(t, p, k, col, cols);
            RowSteps(t, p, r, col + 1, cols + 1) <= k
            && (r < |t| ==> RowSteps(t, p, r, col + 1, cols + 1) == k)
    decreases |t| - p
  {
    if k > 0 && p < |t| {
      if col == 0 || t[p] == LINEFEED {
        ForwardSteps(t, p + 1, k - 1, cols, cols);
      } else {
        ForwardSteps(t, p + 1, k, col - 1, cols);
      }
    }
  }

  /** The search for `k` rows ends before or at `q` exactly when that is as many of its rows
      away. */
  lemma {:induction false} ForwardReaches(t: seq<char>, i: nat, q: nat, k: nat, col: nat, cols: nat)
    requires i <= q < |t|
    ensures RowsForward(t, i, k, col, cols) <= q <==> RowSteps(t, i, q, col + 1, cols + 1) >= k
    decreases q - i
  {
    if k > 0 && i < q {
      if col == 0 || t[i] == LINEFEED {
        ForwardReaches(t, i + 1, q, k - 1, cols, cols);
      } else {
        ForwardReaches(t, i + 1, q, k, col - 1, cols);
      }
    }
  }

  /** `next_window_line (k)` is the first place that is `k` rows away at width cols + 1, or
      the end of the text: no place before it is, and it and all others behind it are. */
  lemma ForwardRowsFirst(t: seq<char>, p: nat, q: nat, k: nat, cols: nat)
    requires p <= q < |t| && 0 < cols
    ensures p <= NextWindowLine(t, p, k, cols) <= |t|
    ensures NextWindowLine(t, p, k, cols) <= q <==> RowDistance(t, p, q, cols + 1) >= k
  {
    ForwardReaches(t, p, q, k, cols, cols);
  }

  lemma ForwardRows(t: seq<char>, p: nat, k: nat, cols: nat)
    requires p <= |t| && 0 < cols
    ensures var r := NextWindowLine(t, p, k, cols);
            r < |t| ==> RowDistance(t, p, r, cols + 1) == k
  {
    ForwardSteps(t, p, k, cols, cols);
  }

  /** No stretch of i..j free of newlines has `w` or more characters. */
  ghost predicate Narrow(t: seq<char>, i: nat, j: nat, w: nat)
    requires i <= j <= |t|
  {
    forall a, b :: i <= a <= b <= j && NoNewline(t, a, b) ==> b - a < w
  }

  /** On narrow text rows are lines, at this width and at any greater one. */
  lemma {:induction false} NarrowSteps(t: seq<char>, s: nat, i: nat, j: nat, w: nat, cols: nat)
    requires s <= i <= j <= |t| && NoNewline(t, s, i) && Narrow(t, s, j, w) && w <= cols
    ensures RowSteps(t, i, j, cols - (i - s), cols) == Newlines(t, i, j)
    decreases j - i
  {
    if i < j {
      if t[i] == LINEFEED {
        NarrowSteps(t, i + 1, i + 1, j, w, cols);
      } else {
        assert NoNewline(t, s, i + 1);
        NarrowSteps(t, s, i + 1, j, w, cols);
      }
    }
  }

  lemma {:induction false} PartRow(t: seq<char>, i: nat, j: nat, col: nat, cols: nat)
    requires i <= j <= |t| && j - i < col && NoNewline(t, i, j)
    ensures RowSteps(t, i, j, col, cols) == 0
    decreases j - i
  {
    if i < j {
      PartRow(t, i + 1, j, col - 1, cols);
    }
  }

  // ----- how far the two widths drift apart -----

  lemma WiderIsFewer(x: nat, cols: nat)
    requires 0 < cols
    ensures x / (cols + 1) <= x / cols
  {
    var q := x / (cols + 1);
    assert x == q * (cols + 1) + x % (cols + 1);
    assert x == q * cols + (q + x % (cols + 1));
    Quotients(q, x, cols);
  }

  lemma Quotients(q: nat, x: nat, cols: nat)
    requires 0 < cols && q * cols <= x
    ensures q <= x / cols
  {
    assert x == x / cols * cols + x % cols;
    if x / cols < q {
      Scaled(x / cols + 1, q, cols);
    }
  }

  /** How many more rows `x` cells of a line fill at width `cols` than at one more. */
  function Gap(x: nat, cols: nat): nat
    requires 0 < cols
  {
    WiderIsFewer(x, cols);
    x / cols - x / (cols + 1)
  }

  /** The sum of `f` over the lengths of the stretches of i..j between newlines. */
  function OverStretches(t: seq<char>, i: nat, j: nat, f: nat -> nat): nat
    requires i <= j <= |t|
    decreases j - i
  {
    var e := Min(Eol(t, i), j);
    f(e - i) + if e < j then OverStretches(t, e + 1, j, f) else 0
  }

  /** The rows that i..j has more at width `cols` than at one more. */
  function Drift(t: seq<char>, i: nat, j: nat, cols: nat): nat
    requires i <= j <= |t| && 0 < cols
  {
    OverStretches(t, i, j, x => Gap(x, cols))
  }

  lemma StretchSteps(t: seq<char>, i: nat, e: nat, cols: nat)
    requires i <= e <= |t| && 0 < cols && NoNewline(t, i, e)
    ensures RowSteps(t, i, e, cols, cols) == (e - i) / cols
  {
    var m := (e - i) / cols;
    assert e - i == m * cols + (e - i) % cols;
    Scaled(0, m, cols);
    RowsAndPart(t, i, e, m, i + m * cols, cols);
  }

  lemma RowsAndPart(t: seq<char>, i: nat, e: nat, m: nat, q: nat, cols: nat)
    requires i <= q <= e <= |t| && 0 < cols && NoNewline(t, i, e)
    requires q == i + m * cols && e - q < cols
    ensures RowSteps(t, i, e, cols, cols) == m
  {
    FullRows(t, i, e, m, cols);
    PartRow(t, q, e, cols, cols);
  }

  /** A stretch and the newline behind it are rows of their own. */
  lemma StretchThenRest(t: seq<char>, i: nat, e: nat, j: nat, cols: nat)
    requires i <= e < j <= |t| && 0 < cols && NoNewline(t, i, e) && t[e] == LINEFEED
    ensures RowSteps(t, i, j, cols, cols) == (e - i) / cols + 1 + RowSteps(t, e + 1, j, cols, cols)
  {
    StretchSteps(t, i, e, cols);
    RowStepsNewline(t, i, e, cols, cols);
    RowStepsAdd(t, i, e + 1, j, cols, cols);
  }

  lemma {:induction false} DriftIsGap(t: seq<char>, i: nat, j: nat, cols: nat)
    requires i <= j <= |t| && 0 < cols
    ensures RowSteps(t, i, j, cols, cols) == RowSteps(t, i, j, cols + 1, cols + 1) + Drift(t, i, j, cols)
    decreases j - i
  {
    var e := Min(Eol(t, i), j);
    FirstStretch(t, i, j);
    if e < j {
      StretchThenRest(t, i, e, j, cols);
      StretchThenRest(t, i, e, j, cols + 1);
      DriftIsGap(t, e + 1, j, cols);
    } else {
      StretchSteps(t, i, e, cols);
      StretchSteps(t, i, e, cols + 1);
    }
  }

  /** `k` rows forward are `k` rows of the metric and the drift on the way. */
  lemma ForwardRowsDrift(t: seq<char>, p: nat, k: nat, cols: nat)
    requires p <= |t| && 0 < cols
    ensures var r := NextWindowLine(t, p, k, cols);
            r < |t| ==> RowDistance(t, p, r, cols) == k + Drift(t, p, r, cols)
  {
    var r := NextWindowLine(t, p, k, cols);
    ForwardSteps(t, p, k, cols, cols);
    DriftIsGap(t, p, r, cols);
  }

  /** a..b is all of i..j between two newlines, or between one and an end of i..j. */
  ghost predicate Stretch(t: seq<char>, i: nat, j: nat, a: nat, b: nat)
    requires i <= j <= |t|
  {
    && i <= a <= b <= j && NoNewline(t, a, b)
    && (a == i || t[a - 1] == LINEFEED) && (b == j || t[b] == LINEFEED)
  }

  /** Every stretch has as many full rows at width `cols` as at one more. */
  ghost predicate Even(t: seq<char>, i: nat, j: nat, cols: nat)
    requires i <= j <= |t| && 0 < cols
  {
    forall a: nat, b: nat :: Stretch(t, i, j, a, b) ==> Gap(b - a, cols) == 0
  }

  ghost predicate NothingOn(t: seq<char>, i: nat, j: nat, f: nat -> nat)
    requires i <= j <= |t|
  {
    forall a: nat, b: nat :: Stretch(t, i, j, a, b) ==> f(b - a) == 0
  }

  lemma {:induction false} NothingOver(t: seq<char>, i: nat, j: nat, f: nat -> nat)
    requires i <= j <= |t|
    ensures OverStretches(t, i, j, f) == 0 <==> NothingOn(t, i, j, f)
    decreases j - i
  {
    var e := Min(Eol(t, i), j);
    FirstStretch(t, i, j);
    if e < j {
      var n: nat := e + 1;
      NothingOver(t, n, j, f);
      forall a: nat, b: nat | Stretch(t, i, j, a, b)
        ensures (a == i && b == e) || Stretch(t, n, j, a, b)
      {
        OtherStretches(t, i, j, a, b);
      }
      forall a: nat, b: nat | Stretch(t, n, j, a, b)
        ensures Stretch(t, i, j, a, b)
      {
        OtherStretches(t, i, j, a, b);
      }
    } else {
      forall a: nat, b: nat | Stretch(t, i, j, a, b)
        ensures a == i && b == e
      {
      }
    }
  }

  lemma FirstStretch(t: seq<char>, i: nat, j: nat)
    requires i <= j <= |t|
    ensures Stretch(t, i, j, i, Min(Eol(t, i), j))
  {
    forall m | i <= m < Min(Eol(t, i), j)
      ensures t[m] != LINEFEED
    {
      NoNewlineBeforeEol(t, i, m);
    }
  }

  lemma OtherStretches(t: seq<char>, i: nat, j: nat, a: nat, b: nat)
    requires i <= j <= |t| && Eol(t, i) < j
    ensures Stretch(t, i, j, a, b) <==> (a == i && b == Eol(t, i)) || Stretch(t, Eol(t, i) + 1, j, a, b)
  {
    FirstStretch(t, i, j);
  }

  /** The forward search agrees with the metric exactly where every stretch crossed has
      as many full rows at either width. */
  lemma ForwardRowsAgree(t: seq<char>, p: nat, k: nat, cols: nat)
    requires p <= |t| && 0 < cols
    ensures var r := NextWindowLine(t, p, k, cols);
            r < |t| ==> (RowDistance(t, p, r, cols) == k <==> Even(t, p, r, cols))
  {
    ForwardRowsDrift(t, p, k, cols);
    NothingOver(t, p, NextWindowLine(t, p, k, cols), x => Gap(x, cols));
  }

  /** In particular where no stretch crossed has `cols` characters. */
  lemma ForwardRowsNarrow(t: seq<char>, p: nat, k: nat, cols: nat)
    requires p <= |t| && 0 < cols
    requires Narrow(t, p, NextWindowLine(t, p, k, cols), cols)
    ensures Even(t, p, NextWindowLine(t, p, k, cols), cols)
  {
    forall x: nat | x < cols
      ensures Gap(x, cols) == 0
    {
      Quotient(x, 0, x, cols);
      WiderIsFewer(x, cols);
    }
  }

  /** Along one wide line `k` rows forward are `k + k / cols` rows of the metric, so they
      agree exactly while `k` is less than `cols`. */
  lemma ForwardRowsWide(t: seq<char>, p: nat, k: nat, cols: nat)
    requires 0 < cols && p + k * (cols + 1) < |t| && NoNewline(t, p, p + k * (cols + 1))
    ensures RowDistance(t, p, NextWindowLine(t, p, k, cols), cols) == k + k / cols
    ensures RowDistance(t, p, NextWindowLine(t, p, k, cols), cols) == k <==> k < cols
  {
    WideRows(k, cols);
    ForwardOneLine(t, p, k, cols);
    StretchSteps(t, p, p + k * (cols + 1), cols);
  }

  lemma WideRows(k: nat, cols: nat)
    requires 0 < cols
    ensures k * (cols + 1) / cols == k + k / cols
    ensures k / cols == 0 <==> k < cols
  {
    var x := k * (cols + 1);
    assert k == k / cols * cols + k % cols;
    assert (k + k / cols) * cols == k * cols + k / cols * cols;
    Quotient(x, k + k / cols, k % cols, cols);
    if k / cols > 0 {
      Scaled(1, k / cols, cols);
    }
  }

  lemma Quotient(x: nat, q: nat, r: nat, cols: nat)
    requires r < cols && x == q * cols + r
    ensures x / cols == q
  {
    if x / cols < q {
      Scaled(x / cols + 1, q, cols);
    } else if q < x / cols {
      Scaled(q + 1, x / cols, cols);
    }
  }

  lemma {:induction false} ForwardOneLine(t: seq<char>, p: nat, k: nat, cols: nat)
    requires p + k * (cols + 1) <= |t| && NoNewline(t, p, p + k * (cols + 1))
    ensures RowsForward(t, p, k, cols, cols) == p + k * (cols + 1)
    decreases k
  {
    if k > 0 {
      assert k * (cols + 1) == (k - 1) * (cols + 1) + cols + 1;
      ForwardOneRow(t, p, k, cols, cols);
      ForwardOneLine(t, p + cols + 1, k - 1, cols);
    }
  }

  lemma {:induction false} ForwardOneRow(t: seq<char>, p: nat, k: nat, col: nat, cols: nat)
    requires p + col + 1 <= |t| && NoNewline(t, p, p + col + 1) && k > 0
    ensures RowsForward(t, p, k, col, cols) == RowsForward(t, p + col + 1, k - 1, cols, cols)
    decreases col
  {
    if col > 0 {
      ForwardOneRow(t, p + 1, k, col - 1, cols);
    }
  }
}
