/** Lines of a text: where they begin and end, and the vertical motions. */
module Lines {
  import opened TextModel

  const LINEFEED := '\n'

  predicate LineStart(t: seq<char>, b: nat)
    requires b <= |t|
  {
    b == 0 || t[b - 1] == LINEFEED
  }

  /** The beginning of the line `p` is on. */
  function Bol(t: seq<char>, p: nat): (b: nat)
    requires p <= |t|
    ensures b <= p && LineStart(t, b)
  {
    if LineStart(t, p) then p else Bol(t, p - 1)
  }

  /** The newline that ends the line `p` is on, or the end of the text. */
  function Eol(t: seq<char>, p: nat): (e: nat)
    requires p <= |t|
    ensures p <= e <= |t| && (e < |t| ==> t[e] == LINEFEED)
    decreases |t| - p
  {
    if p == |t| || t[p] == LINEFEED then p else Eol(t, p + 1)
  }

  function Column(t: seq<char>, p: nat): nat
    requires p <= |t|
  {
    p - Bol(t, p)
  }

  /** The number of characters of the line `p` is on, its newline apart. */
  function LineLength(t: seq<char>, p: nat): nat
    requires p <= |t|
  {
    Eol(t, p) - Bol(t, p)
  }

  /** Newlines in t[i..j]. */
  function Newlines(t: seq<char>, i: nat, j: nat): nat
    requires i <= j <= |t|
    decreases j - i
  {
    if i == j then 0 else (if t[i] == LINEFEED then 1 else 0) + Newlines(t, i + 1, j)
  }

  /** The end of the k-th line from `p`, that line's newline included. */
  function SkipLines(t: seq<char>, p: nat, k: nat): (q: nat)
    requires p <= |t|
    ensures p <= q <= |t|
    decreases |t| - p
  {
    if k == 0 || p == |t| then p
    else SkipLines(t, p + 1, if t[p] == LINEFEED then k - 1 else k)
  }

  /** The beginning of the line before the one that begins at `b`; the first line has none. */
  function PreviousLine(t: seq<char>, b: nat): (r: nat)
    requires b <= |t|
    ensures r <= b && LineStart(t, r)
  {
    if b == 0 then 0 else Bol(t, b - 1)
  }

  function BackLines(t: seq<char>, b: nat, k: nat): (r: nat)
    requires b <= |t|
    ensures r <= b
  {
    if k == 0 then b else BackLines(t, PreviousLine(t, b), k - 1)
  }

  function NextLine(t: seq<char>, p: nat, count: int): (r: nat)
    requires p <= |t|
    ensures r <= |t|
  {
    if count >= 0 then SkipLines(t, Bol(t, p), count) else BackLines(t, Bol(t, p), -count)
  }

  /** `len` cells on from the newline at `e`, but not past the end of the next line. */
  function OnFrom(t: seq<char>, e: nat, len: nat): (r: nat)
    requires e < |t|
    ensures r <= |t|
  {
    e + Min(len, Eol(t, e + 1) - e)
  }

  /** `len` cells into the line before the one that begins at `b`, but not past its end. */
  function BackFrom(t: seq<char>, b: nat, len: nat): (r: nat)
    requires 0 < b <= |t| && LineStart(t, b)
    ensures r < b
  {
    var a := Bol(t, b - 1);
    a + Min(len, b - 1 - a)
  }

  /** Where forward_line goes: on the last line, the end of the text. */
  function LineForward(t: seq<char>, p: nat): (r: nat)
    requires p <= |t|
    ensures r <= |t|
  {
    var e := Eol(t, p);
    if e == |t| then e else OnFrom(t, e, Column(t, p) + 1)
  }

  /** Where backward_line goes: on the first line, its beginning. */
  function LineBackward(t: seq<char>, p: nat): (r: nat)
    requires p <= |t|
    ensures r <= p && (p > 0 ==> r < p)
  {
    var b := Bol(t, p);
    if b == 0 then 0 else BackFrom(t, b, Column(t, p))
  }

  /** From a line's beginning that is to the beginning of the line before. */
  lemma BackOne(t: seq<char>, b: nat)
    requires b <= |t| && LineStart(t, b)
    ensures LineBackward(t, b) == PreviousLine(t, b) && LineStart(t, LineBackward(t, b))
  {
  }

  // ----- where lines begin and end -----

  /** Bol is the last line start up to `p`. */
  lemma {:induction false} BolIsLast(t: seq<char>, p: nat, i: nat)
    requires p <= |t| && Bol(t, p) < i <= p
    ensures !LineStart(t, i)
  {
    if i < p {
      BolIsLast(t, p - 1, i);
    }
  }

  /** All positions of a line have the same beginning... */
  lemma {:induction false} BolOfLine(t: seq<char>, b: nat, p: nat)
    requires b <= p <= |t| && LineStart(t, b)
    requires forall i :: b <= i < p ==> t[i] != LINEFEED
    ensures Bol(t, p) == b
  {
    if b < p {
      BolOfLine(t, b, p - 1);
    }
  }

  /** ...and the same end. */
  lemma {:induction false} EolOfLine(t: seq<char>, p: nat, e: nat)
    requires p <= e <= |t| && (e < |t| ==> t[e] == LINEFEED)
    requires forall i :: p <= i < e ==> t[i] != LINEFEED
    ensures Eol(t, p) == e
    decreases e - p
  {
    if p < e {
      EolOfLine(t, p + 1, e);
    }
  }

  lemma {:induction false} NoNewlineBeforeEol(t: seq<char>, p: nat, i: nat)
    requires p <= |t| && p <= i < Eol(t, p)
    ensures t[i] != LINEFEED
    decreases |t| - p
  {
    if p < i {
      NoNewlineBeforeEol(t, p + 1, i);
    }
  }

  lemma {:induction false} NoNewlineAfterBol(t: seq<char>, p: nat, i: nat)
    requires p <= |t| && Bol(t, p) <= i < p
    ensures t[i] != LINEFEED
  {
    if i + 1 < p {
      NoNewlineAfterBol(t, p - 1, i);
    }
  }

  lemma NoNewlineOnLine(t: seq<char>, p: nat, i: nat)
    requires p <= |t| && Bol(t, p) <= i < Eol(t, p)
    ensures t[i] != LINEFEED
  {
    if i < p {
      NoNewlineAfterBol(t, p, i);
    } else {
      NoNewlineBeforeEol(t, p, i);
    }
  }

  /** A line from its beginning `b` to its end `e`: everything between belongs to it. */
  lemma LineSpan(t: seq<char>, p: nat, q: nat)
    requires p <= |t| && Bol(t, p) <= q <= Eol(t, p)
    ensures Bol(t, q) == Bol(t, p) && Eol(t, q) == Eol(t, p)
  {
    forall i | Bol(t, p) <= i < Eol(t, p)
      ensures t[i] != LINEFEED
    {
      NoNewlineOnLine(t, p, i);
    }
    BolOfLine(t, Bol(t, p), q);
    EolOfLine(t, q, Eol(t, p));
  }

  // ----- vertical motion -----

  /** Where forward_line goes on the text itself: from the line b..e to the next, e + 1..n. */
  lemma ForwardOntoNext(t: seq<char>, p: nat, b: nat, e: nat, n: nat)
    requires b <= p <= e < n <= |t|
    requires (b == 0 || t[b - 1] == '\n') && t[e] == '\n' && (n == |t| || t[n] == '\n')
    requires forall i :: b <= i < n && i != e ==> t[i] != '\n'
    ensures LineForward(t, p) == if p - b <= n - e - 1 then e + 1 + (p - b) else n
  {
    BolOfLine(t, b, p);
    EolOfLine(t, p, e);
    EolOfLine(t, e + 1, n);
  }

  /** ... and from the last line to the end of the text. */
  lemma ForwardOffLast(t: seq<char>, p: nat)
    requires p <= |t| && forall i :: p <= i < |t| ==> t[i] != '\n'
    ensures LineForward(t, p) == |t|
  {
    EolOfLine(t, p, |t|);
  }

  /** backward_line from the line that begins at `b` to the one before, a..b - 1. */
  lemma BackwardOntoPrevious(t: seq<char>, p: nat, a: nat, b: nat)
    requires a < b <= p <= |t|
    requires (a == 0 || t[a - 1] == '\n') && t[b - 1] == '\n'
    requires forall i :: a <= i < p && i != b - 1 ==> t[i] != '\n'
    ensures LineBackward(t, p) == if p - b <= b - 1 - a then a + (p - b) else b - 1
  {
    BolOfLine(t, b, p);
    BolOfLine(t, a, b - 1);
  }

  /** ... and from the first line to the start of the text. */
  lemma BackwardOffFirst(t: seq<char>, p: nat)
    requires p <= |t| && forall i :: 0 <= i < p ==> t[i] != '\n'
    ensures LineBackward(t, p) == 0
  {
    BolOfLine(t, 0, p);
  }

  /** forward_line keeps the column, or stops at the end of a shorter line. */
  lemma LineForwardLands(t: seq<char>, p: nat)
    requires p <= |t| && Eol(t, p) < |t|
    ensures var r := LineForward(t, p);
            Bol(t, r) == Eol(t, p) + 1 && Eol(t, r) == Eol(t, Eol(t, p) + 1)
            && Column(t, r) == Min(Column(t, p), LineLength(t, r))
  {
    LineSpan(t, Eol(t, p) + 1, LineForward(t, p));
  }

  /** backward_line keeps the column, or stops at the end of a shorter line. */
  lemma LineBackwardLands(t: seq<char>, p: nat)
    requires p <= |t| && Bol(t, p) > 0
    ensures var r := LineBackward(t, p);
            Eol(t, r) == Bol(t, p) - 1 && Bol(t, r) == PreviousLine(t, Bol(t, p))
            && LineLength(t, Bol(t, p) - 1) == LineLength(t, r)
            && Column(t, r) == Min(Column(t, p), LineLength(t, r))
  {
    var b := Bol(t, p);
    EolOfLine(t, b - 1, b - 1);
    LineSpan(t, b - 1, LineBackward(t, p));
  }

  /** Down and up again is the identity exactly when there is a next line that is long
      enough for the column, or point is at the start of the buffer. */
  lemma ForwardThenBackward(t: seq<char>, p: nat)
    requires p <= |t|
    ensures LineBackward(t, LineForward(t, p)) == p <==>
            p == 0 || (Eol(t, p) < |t| && LineLength(t, Eol(t, p) + 1) >= Column(t, p))
  {
    if Eol(t, p) < |t| {
      DownAndUp(t, p);
    } else {
      LineSpan(t, p, |t|);
    }
  }

  /** With a next line it comes back to the column it went to. */
  lemma DownAndUp(t: seq<char>, p: nat)
    requires p <= |t| && Eol(t, p) < |t|
    ensures LineBackward(t, LineForward(t, p)) == Bol(t, p) + Min(Column(t, p), LineLength(t, Eol(t, p) + 1))
  {
    var b, e, r := Bol(t, p), Eol(t, p), LineForward(t, p);
    DownOne(t, p);
    LineSpan(t, p, e);
    BackwardOnto(t, r, b, e);
  }

  lemma DownOne(t: seq<char>, p: nat)
    requires p <= |t| && Eol(t, p) < |t|
    ensures var e, r := Eol(t, p), LineForward(t, p);
            && r == e + 1 + Min(Column(t, p), LineLength(t, e + 1))
            && Bol(t, r) == e + 1
  {
    LineSpan(t, Eol(t, p) + 1, LineForward(t, p));
  }

  /** Up and down again is the identity exactly when there is a previous line that is
      long enough for the column, or point is at the end of a one-line buffer. */
  lemma BackwardThenForward(t: seq<char>, p: nat)
    requires p <= |t|
    ensures LineForward(t, LineBackward(t, p)) == p <==>
            if Bol(t, p) == 0 then p == |t| else LineLength(t, Bol(t, p) - 1) >= Column(t, p)
  {
    var b := Bol(t, p);
    LineSpan(t, p, b);
    if b > 0 {
      var r := LineBackward(t, p);
      LineBackwardLands(t, p);
      ForwardOnto(t, r, b);
    } else if Eol(t, 0) < |t| {
      LineForwardLands(t, 0);
    }
  }

  /** backward_line from the line behind b..e. */
  lemma BackwardOnto(t: seq<char>, r: nat, b: nat, e: nat)
    requires b <= e < r <= |t| && Bol(t, r) == e + 1 && Bol(t, e) == b
    ensures LineBackward(t, r) == b + Min(Column(t, r), e - b)
  {
  }

  /** forward_line when the next line, which begins at `b`, is long enough. */
  lemma ForwardOnto(t: seq<char>, r: nat, b: nat)
    requires r < b <= |t| && Eol(t, r) == b - 1 && Column(t, r) <= Eol(t, b) - b
    ensures LineForward(t, r) == b + Column(t, r)
  {
  }

  // ----- counting lines -----

  /** The count is that of the places where there is a newline. */
  lemma {:induction false} NewlinesAreCounted(t: seq<char>, i: nat, j: nat)
    requires i <= j <= |t|
    ensures Newlines(t, i, j) == |set m | i <= m < j && t[m] == '\n'|
    decreases j - i
  {
    var here := set m | i <= m < j && t[m] == '\n';
    if i < j {
      NewlinesAreCounted(t, i + 1, j);
      var rest := set m | i + 1 <= m < j && t[m] == '\n';
      assert here == if t[i] == '\n' then {i} + rest else rest;
    } else {
      assert here == {};
    }
  }

  lemma {:induction false} NewlinesAdd(t: seq<char>, i: nat, j: nat, k: nat)
    requires i <= j <= k <= |t|
    ensures Newlines(t, i, j) + Newlines(t, j, k) == Newlines(t, i, k)
    decreases j - i
  {
    if i < j {
      NewlinesAdd(t, i + 1, j, k);
    }
  }

  /** Skipping over a line is going to its end and one further. */
  lemma {:induction false} SkipOneLine(t: seq<char>, p: nat, k: nat)
    requires p <= |t| && k > 0
    ensures SkipLines(t, p, k) == if Eol(t, p) == |t| then |t| else SkipLines(t, Eol(t, p) + 1, k - 1)
    decreases |t| - p
  {
    if p < |t| && t[p] != LINEFEED {
      SkipOneLine(t, p + 1, k);
    }
  }

  lemma {:induction false} NewlinesOfLine(t: seq<char>, p: nat)
    requires p <= |t|
    ensures Newlines(t, p, |t|) == if Eol(t, p) == |t| then 0 else 1 + Newlines(t, Eol(t, p) + 1, |t|)
    decreases |t| - p
  {
    if p < |t| && t[p] != LINEFEED {
      NewlinesOfLine(t, p + 1);
    }
  }

  lemma {:induction false} BackLinesStep(t: seq<char>, b: nat, k: nat)
    requires b <= |t| && k > 0
    ensures BackLines(t, b, k) == PreviousLine(t, BackLines(t, b, k - 1))
  {
    if k > 1 {
      BackLinesStep(t, PreviousLine(t, b), k - 1);
    }
  }

  /** The skip ends behind the k-th newline, or at the end of a text with fewer. */
  lemma {:induction false} SkipIsBehind(t: seq<char>, p: nat, k: nat)
    requires p <= |t|
    ensures var r := SkipLines(t, p, k);
            || (Newlines(t, p, r) == k && (r == p || t[r - 1] == '\n'))
            || (r == |t| && Newlines(t, p, r) < k)
    decreases |t| - p
  {
    if k > 0 && p < |t| {
      SkipIsBehind(t, p + 1, if t[p] == LINEFEED then k - 1 else k);
    }
  }

  lemma BackFromFirst(t: seq<char>, k: nat)
    ensures BackLines(t, 0, k) == 0
  {
  }

  /** From a line's beginning, `k` lines down is a line's beginning, and `k` lines up
      from there is back, as long as there are `k` newlines to cross. */
  lemma {:induction false} SkipThenBack(t: seq<char>, b: nat, k: nat)
    requires b <= |t| && LineStart(t, b) && Newlines(t, b, |t|) >= k
    ensures LineStart(t, SkipLines(t, b, k))
    ensures BackLines(t, SkipLines(t, b, k), k) == b
    decreases k
  {
    if k > 0 {
      SkipOneLine(t, b, k);
      NewlinesOfLine(t, b);
      var n := Eol(t, b) + 1;
      SkipThenBack(t, n, k - 1);
      BackLinesStep(t, SkipLines(t, b, k), k);
      LineSpan(t, b, n - 1);
    }
  }

  /** With fewer newlines than that, the skip ends at the end of the text, whose line is
      that many lines down. */
  lemma {:induction false} SkipToLastLine(t: seq<char>, b: nat, k: nat)
    requires b <= |t| && LineStart(t, b) && Newlines(t, b, |t|) < k
    ensures SkipLines(t, b, k) == |t|
    ensures BackLines(t, Bol(t, |t|), Newlines(t, b, |t|)) == b
    decreases k
  {
    SkipOneLine(t, b, k);
    NewlinesOfLine(t, b);
    LineSpan(t, b, Eol(t, b));
    if Eol(t, b) < |t| {
      var n := Eol(t, b) + 1;
      SkipToLastLine(t, n, k - 1);
      BackLinesStep(t, Bol(t, |t|), Newlines(t, b, |t|));
    }
  }

  lemma {:induction false} BackLinesSplit(t: seq<char>, b: nat, j: nat, k: nat)
    requires b <= |t|
    ensures BackLines(t, b, j + k) == BackLines(t, BackLines(t, b, j), k)
    decreases j
  {
    if j > 0 {
      BackLinesSplit(t, PreviousLine(t, b), j - 1, k);
    }
  }

  /** `next_line (k)` and, from its result, `next_line (-k)` come back to the line exactly
      when at least `k` newlines lie at or after point, or it is the first line. */
  lemma NextLineRoundTrip(t: seq<char>, p: nat, k: nat)
    requires p <= |t|
    ensures NextLine(t, NextLine(t, p, k), 0 - k) == Bol(t, p) <==> Newlines(t, p, |t|) >= k || Bol(t, p) == 0
  {
    var b := Bol(t, p);
    NoNewlines(t, b, p);
    NewlinesAdd(t, b, p, |t|);
    if Newlines(t, p, |t|) >= k {
      SkipThenBack(t, b, k);
    } else {
      SkipTooFar(t, b, k);
    }
  }

  lemma SkipTooFar(t: seq<char>, b: nat, k: nat)
    requires b <= |t| && LineStart(t, b) && Newlines(t, b, |t|) < k
    ensures BackLines(t, Bol(t, SkipLines(t, b, k)), k) == b <==> b == 0
  {
    var n := Newlines(t, b, |t|);
    SkipToLastLine(t, b, k);
    BackLinesSplit(t, Bol(t, |t|), n, k - n);
    if b == 0 {
      BackFromFirst(t, k - n);
    }
  }

  /** From a line's beginning, up to the one with `k` newlines between, or to the start. */
  lemma {:induction false} BackIsBefore(t: seq<char>, b: nat, k: nat)
    requires b <= |t| && LineStart(t, b)
    ensures var r := BackLines(t, b, k);
            && LineStart(t, r)
            && (Newlines(t, r, b) == k || (r == 0 && Newlines(t, r, b) < k))
    decreases k
  {
    if k > 0 && b > 0 {
      var a := PreviousLine(t, b);
      BackIsBefore(t, a, k - 1);
      NoNewlines(t, a, b - 1);
      NewlinesAdd(t, a, b - 1, b);
      NewlinesAdd(t, BackLines(t, a, k - 1), a, b);
    } else if k > 0 {
      BackFromFirst(t, k);
    }
  }

  /** next_line from the line that begins at `b`, by the newlines it crosses. */
  lemma NextLineLands(t: seq<char>, p: nat, b: nat, count: int)
    requires b <= p <= |t| && (b == 0 || t[b - 1] == '\n')
    requires forall i :: b <= i < p ==> t[i] != '\n'
    ensures var r := NextLine(t, p, count);
            if count >= 0 then
              b <= r && ((Newlines(t, b, r) == count && (r == b || t[r - 1] == '\n'))
                         || (r == |t| && Newlines(t, b, r) < count))
            else
              r <= b && (r == 0 || t[r - 1] == '\n')
              && (Newlines(t, r, b) == -count || (r == 0 && Newlines(t, r, b) < -count))
  {
    BolOfLine(t, b, p);
    if count >= 0 {
      SkipIsBehind(t, b, count);
    } else {
      BackIsBefore(t, b, -count);
    }
  }

  lemma {:induction false} NoNewlines(t: seq<char>, i: nat, j: nat)
    requires i <= j <= |t| && Bol(t, j) <= i
    ensures Newlines(t, i, j) == 0
    decreases j - i
  {
    if i < j {
      NoNewlineAfterBol(t, j, i);
      NoNewlines(t, i + 1, j);
    }
  }

  /** The width of t[i..j] on the screen, with tabs `tab` wide. */
  function Width(t: seq<char>, i: nat, j: nat, tab: nat): nat
    requires i <= j <= |t|
  {
    if i == j then 0 else Width(t, i, j - 1, tab) + (if t[j - 1] == '\t' then tab else 1)
  }

  /** One column a character, and `tab` of them instead for every tab. */
  lemma {:induction false} WidthOfTabs(t: seq<char>, i: nat, j: nat, tab: nat)
    requires i <= j <= |t|
    ensures var tabs := |set m | i <= m < j && t[m] == '\t'|;
            Width(t, i, j, tab) == j - i - tabs + tabs * tab
    decreases j - i
  {
    var here := set m | i <= m < j && t[m] == '\t';
    if i < j {
      WidthOfTabs(t, i, j - 1, tab);
      var rest := set m | i <= m < j - 1 && t[m] == '\t';
      if t[j - 1] == '\t' {
        assert here == rest + {j - 1};
        assert (|rest| + 1) * tab == |rest| * tab + tab;
      } else {
        assert here == rest;
      }
    } else {
      assert here == {};
    }
  }
}
