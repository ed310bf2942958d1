/** What each command of src/bindables.cc does, said on characters and places alone.  The
    editor that runs a command on the heap is tied to the same step. */
module Commands {
  import opened TextModel
  import opened Lines
  import opened Words
  import opened Edits
  import opened Sessions

  /** Point goes to `r`, and nothing else has happened; a command that clips nothing ends a
      row of clips. */
  function WithPoint(s: Session, r: nat): Session {
    Session(View(s.view.text, r, s.view.mark), s.ring, false, s.spot)
  }

  // ----- typing -----

  lemma TypingTypes(s: Session, c: Command, ch: char)
    requires s.Ok() && (c == InsertLastInputChar(ch) || (c == InsertNewline && ch == '\n'))
    ensures var t, p, r := s.view.text, s.view.point, Step(s, c);
            && r.view.text == t[..p] + [ch] + t[p..] && r.view.point == p + 1
            && r.view.mark == (match s.view.mark
                               case Place(i) => if i < p || (i == p < |t|) then Place(i) else Place(i + 1)
                               case _ => s.view.mark)
            && r.ring == s.ring && !r.append
  {
    TypedIsThere(s.view, ch);
  }

  // ----- motion -----

  /** bol goes back to the nearest place behind a newline, or to the start. */
  lemma BolGoesBack(s: Session)
    requires s.Ok()
    ensures var t, p, r := s.view.text, s.view.point, Step(s, Command.BeginningOfLine).view.point;
            && r <= p && (r == 0 || t[r - 1] == '\n')
            && (forall i :: r <= i < p ==> t[i] != '\n')
            && Step(s, Command.BeginningOfLine) == WithPoint(s, r)
  {
    var t, p := s.view.text, s.view.point;
    forall i | Bol(t, p) <= i < p
      ensures t[i] != '\n'
    {
      NoNewlineAfterBol(t, p, i);
    }
  }

  /** eol goes on to the nearest newline, or to the end. */
  lemma EolGoesOn(s: Session)
    requires s.Ok()
    ensures var t, p, r := s.view.text, s.view.point, Step(s, Command.EndOfLine).view.point;
            && p <= r <= |t| && (r == |t| || t[r] == '\n')
            && (forall i :: p <= i < r ==> t[i] != '\n')
            && Step(s, Command.EndOfLine) == WithPoint(s, r)
  {
    var t, p := s.view.text, s.view.point;
    forall i | p <= i < Eol(t, p)
      ensures t[i] != '\n'
    {
      NoNewlineBeforeEol(t, p, i);
    }
  }

  /** One character on or back, but not out of the text; all the way to either end. */
  lemma CharsAndEnds(s: Session)
    requires s.Ok()
    ensures var t, p := s.view.text, s.view.point;
            && Step(s, ForwardChar) == WithPoint(s, if p < |t| then p + 1 else p)
            && Step(s, BackwardChar) == WithPoint(s, if p > 0 then p - 1 else p)
            && Step(s, BeginningOfBuffer) == WithPoint(s, 0)
            && Step(s, EndOfBuffer) == WithPoint(s, |t|)
  {
  }

  /** From the line b..e forward_line goes to the same column of the next one, e + 1..n, or
      to its end if it is shorter. */
  lemma ForwardLineGoesDown(s: Session, b: nat, e: nat, n: nat)
    requires s.Ok() && b <= s.view.point <= e < n <= |s.view.text|
    requires b == 0 || s.view.text[b - 1] == '\n'
    requires s.view.text[e] == '\n' && (n == |s.view.text| || s.view.text[n] == '\n')
    requires forall i :: b <= i < n && i != e ==> s.view.text[i] != '\n'
    ensures var col := s.view.point - b;
            Step(s, Command.ForwardLine) == WithPoint(s, if e + 1 + col <= n then e + 1 + col else n)
  {
    ForwardOntoNext(s.view.text, s.view.point, b, e, n);
  }

  /** From the line that begins at `b` backward_line goes to the same column of the one
      before, a..b - 1, or to its end if it is shorter. */
  lemma BackwardLineGoesUp(s: Session, a: nat, b: nat)
    requires s.Ok() && a < b <= s.view.point
    requires (a == 0 || s.view.text[a - 1] == '\n') && s.view.text[b - 1] == '\n'
    requires forall i :: a <= i < s.view.point && i != b - 1 ==> s.view.text[i] != '\n'
    ensures var col := s.view.point - b;
            Step(s, Command.BackwardLine) == WithPoint(s, if a + col <= b - 1 then a + col else b - 1)
  {
    BackwardOntoPrevious(s.view.text, s.view.point, a, b);
  }

  /** On the last line forward_line goes to the end, on the first backward_line goes to the
      start. */
  lemma LinesGoNoFurther(s: Session)
    requires s.Ok()
    ensures (forall i :: s.view.point <= i < |s.view.text| ==> s.view.text[i] != '\n') ==>
              Step(s, Command.ForwardLine) == WithPoint(s, |s.view.text|)
    ensures (forall i :: 0 <= i < s.view.point ==> s.view.text[i] != '\n') ==>
              Step(s, Command.BackwardLine) == WithPoint(s, 0)
  {
    var t, p := s.view.text, s.view.point;
    if forall i :: p <= i < |t| ==> t[i] != '\n' {
      ForwardOffLast(t, p);
    }
    if forall i :: 0 <= i < p ==> t[i] != '\n' {
      BackwardOffFirst(t, p);
    }
  }

  /** backward_word goes back to the first character of a word, `m` being where that word or
      point ends it, or to the start. */
  lemma BackwardWordGoesBack(s: Session) returns (m: nat)
    requires s.Ok()
    ensures var t, p, r := s.view.text, s.view.point, Step(s, Command.BackwardWord).view.point;
            && Step(s, Command.BackwardWord) == WithPoint(s, r)
            && r <= m <= p && (p > 0 ==> r < p) && r != 1
            && (r == 0 || (IsAlnum(t[r]) && !IsAlnum(t[r - 1])))
            && (forall i :: m <= i < p ==> !IsAlnum(t[i]))
            && (forall i :: r < i < m ==> IsAlnum(t[i]))
  {
    var t, p := s.view.text, s.view.point;
    BackwardWordLands(t, p);
    m :| Words.BackwardWord(t, p) <= m <= p && NoWord(t, m, p) && AllWord(t, Words.BackwardWord(t, p), m);
  }

  /** forward_word goes on to just behind a word, which begins at `m`, or to the end. */
  lemma ForwardWordGoesOn(s: Session) returns (m: nat)
    requires s.Ok()
    ensures var t, p, r := s.view.text, s.view.point, Step(s, Command.ForwardWord).view.point;
            && Step(s, Command.ForwardWord) == WithPoint(s, r)
            && p <= m <= r <= |t| && (p < |t| ==> p < r)
            && (r == |t| || (m < r && !IsAlnum(t[r])))
            && (forall i :: p <= i < m ==> !IsAlnum(t[i]))
            && (forall i :: m <= i < r ==> IsAlnum(t[i]))
  {
    var t, p := s.view.text, s.view.point;
    ForwardWordLands(t, p);
    m := OnToWord(t, p);
  }

  // ----- the mark -----

  lemma SetMarkMarksPoint(s: Session)
    requires s.Ok()
    ensures Step(s, Command.SetMark)
            == Session(View(s.view.text, s.view.point, Place(s.view.point)), s.ring, false, s.spot)
  {
  }

  lemma SwapExchanges(s: Session)
    requires s.Ok() && s.view.mark != Stray
    ensures Step(s, Command.SwapPositions)
            == match s.view.mark
               case Place(i) => Session(View(s.view.text, i, Place(s.view.point)), s.ring, false, s.spot)
               case _ => WithPoint(s, s.view.point)
  {
  }

  // ----- single characters -----

  /** clip_char takes the character at point, clip_char_back the one before it; with none
      there nothing happens.  The last character of the text takes a set mark to the end. */
  lemma CharsGo(s: Session, c: Command, q: int)
    requires s.Ok() && ((c == Command.ClipChar && q == s.view.point) || (c == ClipCharBack && q == s.view.point - 1))
    ensures var t, m, r := s.view.text, s.view.mark, Step(s, c);
            if 0 <= q < |t| then
              && r.view.text == t[..q] + t[q + 1..] && r.view.point == q
              && r.view.mark == (if m == Unset then Unset
                                 else if q + 1 == |t| then Place(q)
                                 else if m.Place? && m.i > q then Place(m.i - 1)
                                 else m)
              && r.ring == s.ring && !r.append
            else r == WithPoint(s, s.view.point)
  {
    StepOfChar(s, c, q);
    CharIsGone(s.view, q - s.view.point);
  }

  lemma StepOfChar(s: Session, c: Command, q: int)
    requires s.Ok() && ((c == Command.ClipChar && q == s.view.point) || (c == ClipCharBack && q == s.view.point - 1))
    ensures Step(s, c) == Session(CharClipped(s.view, q - s.view.point), s.ring, false, s.spot)
  {
  }

  // ----- clips -----

  /** What clip_line takes: the newline at point, or else all up to the next newline or the
      end of the text; at the end nothing.  It goes to a new entry of the ring, or onto the
      front one when the last command gave the ring something too. */
  lemma ClipLineTakes(s: Session) returns (q: nat)
    requires s.Ok()
    ensures var t, p, r := s.view.text, s.view.point, Step(s, Command.ClipLine);
            if p == |t| then q == p && r == WithPoint(s, p)
            else
              && p < q <= |t|
              && (t[p] == '\n' ==> q == p + 1)
              && (t[p] != '\n' ==> (q == |t| || t[q] == '\n') && forall i :: p <= i < q ==> t[i] != '\n')
              && r.view.text == t[..p] + t[q..] && r.view.point == p
              && r.view.mark == (match s.view.mark
                                 case Place(i) => if i < p then Place(i)
                                                  else if i >= q then Place(i - (q - p))
                                                  else if i + 1 == q then Stray
                                                  else Place(p)
                                 case _ => s.view.mark)
              && r.append
              && r.ring == if s.append && s.ring != [] then [s.ring[0] + t[p..q]] + s.ring[1..]
                           else [t[p..q]] + s.ring
  {
    q := ClipLineEnd(s.view.text, s.view.point);
    if s.view.point < |s.view.text| {
      ClipLineEndIs(s.view.text, s.view.point, q);
      ClippedIsGone(s.view, q, s.view.point, q);
    }
  }

  /** Between point and a mark elsewhere, from `lo` to `hi`: clip_region takes it out and
      copy_region does not; both give it to the ring. */
  lemma RegionGoes(s: Session, lo: nat, hi: nat)
    requires s.Ok() && lo < hi && s.view.mark.Place?
    requires (lo == s.view.point && hi == s.view.mark.i) || (lo == s.view.mark.i && hi == s.view.point)
    ensures var t, r := s.view.text, Step(s, Command.ClipRegion);
            && r.view == View(t[..lo] + t[hi..], lo, if s.view.mark == Place(hi - 1) then Stray else Place(lo))
            && r.ring == (if s.append && s.ring != [] then [s.ring[0] + t[lo..hi]] + s.ring[1..]
                          else [t[lo..hi]] + s.ring)
            && r.append
    ensures var r := Step(s, Command.CopyRegion);
            r.view == s.view && r.ring == Step(s, Command.ClipRegion).ring && r.append
  {
    ClippedIsGone(s.view, s.view.mark.i, lo, hi);
  }

  /** With no mark, one at point, or a stray one that is looked for from inside the text,
      there is no region. */
  lemma NoRegion(s: Session)
    requires s.Ok()
    requires s.view.mark == Unset || s.view.mark == Place(s.view.point)
             || (s.view.mark == Stray && s.view.point < |s.view.text|)
    ensures Step(s, Command.ClipRegion) == Step(s, Command.CopyRegion) == WithPoint(s, s.view.point)
  {
  }

  /** From the end copy_region finds a stray mark: it gives the ring what stands there from
      the mark to the end of its entry. */
  lemma StrayRegion(s: Session)
    requires s.Ok() && s.view.mark == Stray && s.view.point == |s.view.text|
    ensures var clip, r := s.ring[s.spot.entry][s.spot.offset..], Step(s, Command.CopyRegion);
            && r.view == s.view && r.append
            && r.ring == if s.append then [s.ring[0] + clip] + s.ring[1..] else [clip] + s.ring
  {
  }

  /** yank puts a copy of the front entry before point. */
  lemma YankPutsBack(s: Session)
    requires s.Ok()
    ensures var t, p, r := s.view.text, s.view.point, Step(s, Command.Yank);
            if s.ring == [] then r == WithPoint(s, p)
            else
              && r.view.text == t[..p] + s.ring[0] + t[p..] && r.view.point == p + |s.ring[0]|
              && r.view.mark == (match s.view.mark
                                 case Place(i) => Place(if i < p then i else i + |s.ring[0]|)
                                 case _ => s.view.mark)
              && r.ring == s.ring && !r.append
  {
    if s.ring != [] {
      InsertedIsThere(s.view, s.ring[0]);
    }
  }

  /** A command leaves the append flag set exactly when it gave something to the ring. */
  lemma AppendIsGain(s: Session, c: Command)
    requires s.Ok() && Allowed(s, c)
    ensures Step(s, c).append <==> Step(s, c).ring != s.ring
  {
    var r := Step(s, c);
    if r.append && |r.ring| == |s.ring| {
      assert |r.ring[0]| > |s.ring[0]|;
    }
  }
}
