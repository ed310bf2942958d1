/** Editing sessions: what each command of src/bindables.cc does to the text, the mark
    and the clip ring, and what whole runs of commands do. */
module Sessions {
  import opened Sequences
  import opened TextModel
  import opened Lines
  import opened Words

  /** A character of an entry of the clip ring. */
  datatype Spot = Spot(entry: nat, offset: nat)

  ghost predicate InRing<T>(ring: seq<seq<T>>, spot: Spot) {
    spot.entry < |ring| && spot.offset < |ring[spot.entry]|
  }

  /** `append` says that the last command clipped, so that a clip now would be appended.
      `spot` is where a stray mark is, and says nothing otherwise. */
  datatype Session = Session(view: View, ring: seq<string>, append: bool, spot: Spot) {
    ghost predicate Ok() {
      view.Ok() && (view.mark == Stray ==> InRing(ring, spot))
    }
  }

  datatype Command =
    | InsertLastInputChar(ch: char)
    | InsertNewline
    | SetMark
    | SwapPositions
    | BeginningOfLine
    | EndOfLine
    | ForwardChar
    | BackwardChar
    | ForwardLine
    | BackwardLine
    | ForwardWord
    | BackwardWord
    | BeginningOfBuffer
    | EndOfBuffer
    | ClipChar
    | ClipCharBack
    | ClipLine
    | ClipRegion
    | CopyRegion
    | Yank

  /** A clip goes to the front of the ring, or onto the end of the front entry. */
  function ClipAdded<T>(ring: seq<seq<T>>, append: bool, clip: seq<T>): (r: seq<seq<T>>)
    ensures |r| > 0 && |r[0]| >= |clip|
  {
    if |ring| == 0 then [clip]
    else if append then [ring[0] + clip] + ring[1..]
    else [clip] + ring
  }

  /** Where a stray mark is when a clip has been added: at the end of it, unless it was
      astray before. */
  function SpotAfter<T>(ring: seq<seq<T>>, append: bool, clip: seq<T>, astray: bool, spot: Spot): Spot
    requires |clip| > 0
  {
    if !astray then Spot(0, |ClipAdded(ring, append, clip)[0]| - 1)
    else if |ring| > 0 && append then spot
    else Spot(spot.entry + 1, spot.offset)
  }

  /** It stays on what it was on, or is on the last of the clip. */
  lemma SpotKept<T>(ring: seq<seq<T>>, append: bool, clip: seq<T>, astray: bool, spot: Spot)
    requires |clip| > 0 && (astray ==> InRing(ring, spot))
    ensures var r, q := ClipAdded(ring, append, clip), SpotAfter(ring, append, clip, astray, spot);
            && InRing(r, q)
            && r[q.entry][q.offset] == if astray then ring[spot.entry][spot.offset] else clip[|clip| - 1]
  {
  }

  /** `astray` says that the mark was stray before. */
  function Added(s: Session, append: bool, clip: string, astray: bool): Session
    requires |clip| > 0
  {
    Session(s.view, ClipAdded(s.ring, append, clip), true, SpotAfter(s.ring, append, clip, astray, s.spot))
  }

  /** Where clip_line clips to: over a newline at point, else to the end of the line. */
  function ClipLineEnd(t: seq<char>, p: nat): (c: nat)
    requires p <= |t|
    ensures p <= c <= |t| && (p < |t| ==> p < c)
  {
    if p < |t| && t[p] == LINEFEED then p + 1 else Eol(t, p)
  }

  /** The newline at `p`, or what is left of its line, is p..q. */
  ghost predicate LineRest(t: seq<char>, p: nat, q: nat) {
    && p < q <= |t|
    && if t[p] == '\n' then q == p + 1
       else (q == |t| || t[q] == '\n') && forall i :: p <= i < q ==> t[i] != '\n'
  }

  lemma ClipLineEndIs(t: seq<char>, p: nat, q: nat)
    requires p < |t|
    ensures LineRest(t, p, q) <==> q == ClipLineEnd(t, p)
  {
    var e := ClipLineEnd(t, p);
    if t[p] != LINEFEED {
      assert LineRest(t, p, e) by {
        forall i | p <= i < e
          ensures t[i] != LINEFEED
        {
          NoNewlineBeforeEol(t, p, i);
        }
      }
      if LineRest(t, p, q) {
        EolOfLine(t, p, q);
      }
    }
  }

  /** A clip of everything between point and `c`; nothing happens when there is nothing. */
  function ClippedTo(s: Session, append: bool, c: nat): (r: Session)
    requires s.Ok() && c <= |s.view.text|
    ensures r.Ok()
  {
    if c == s.view.point then s else
    var clip, astray := Between(s.view, c), s.view.mark == Stray;
    SpotKept(s.ring, append, clip, astray, s.spot);
    Added(s.(view := Clipped(s.view, c)), append, clip, astray)
  }

  function CopiedTo(s: Session, append: bool, c: nat): (r: Session)
    requires s.Ok() && c <= |s.view.text|
    ensures r.Ok()
  {
    if c == s.view.point then s else CopyAdded(s, append, Between(s.view, c))
  }

  function CopyAdded(s: Session, append: bool, clip: string): (r: Session)
    requires s.Ok() && |clip| > 0
    ensures r.Ok()
  {
    SpotKept(s.ring, append, clip, s.view.mark == Stray, s.spot);
    Added(s, append, clip, s.view.mark == Stray)
  }

  /** What stands in the ring from the stray mark to the end of its entry. */
  function Astray(s: Session): (clip: string)
    requires s.Ok() && s.view.mark == Stray
    ensures |clip| > 0
  {
    s.ring[s.spot.entry][s.spot.offset..]
  }

  /** What must not be done with a mark on a cell that was clipped: to swap it with point,
      and to clip from the end of the buffer to it. */
  predicate Allowed(s: Session, c: Command) {
    s.view.mark == Stray ==> c != SwapPositions && (c == ClipRegion ==> s.view.point < |s.view.text|)
  }

  function Goto(v: View, p: nat): View {
    v.(point := p)
  }

  /** A command that leaves the clip ring alone. */
  function Edited(v: View, c: Command): (r: View)
    requires v.Ok() && (c == SwapPositions ==> v.mark != Stray)
    ensures r.Ok()
  {
    match c
    case InsertLastInputChar(ch) => Typed(v, ch)
    case InsertNewline => Typed(v, LINEFEED)
    case SetMark => v.(mark := Place(v.point))
    case SwapPositions => Swapped(v)
    case BeginningOfLine => Goto(v, Bol(v.text, v.point))
    case EndOfLine => Goto(v, Eol(v.text, v.point))
    case ForwardChar => Moved(v, 1)
    case BackwardChar => Moved(v, -1)
    case ForwardLine => Goto(v, LineForward(v.text, v.point))
    case BackwardLine => Goto(v, LineBackward(v.text, v.point))
    case ForwardWord => Goto(v, Words.ForwardWord(v.text, v.point))
    case BackwardWord => Goto(v, Words.BackwardWord(v.text, v.point))
    case BeginningOfBuffer => Goto(v, 0)
    case EndOfBuffer => Goto(v, |v.text|)
    case ClipChar => CharClipped(v, 0)
    case ClipCharBack => CharClipped(v, -1)
    case _ => v
  }

  /** A command, with `append` the shadowed flag that clips look at.  From inside the
      buffer a stray mark is just not found; from the end copy_region finds it. */
  function Performed(s: Session, append: bool, c: Command): (r: Session)
    requires s.Ok() && Allowed(s, c)
    ensures r.Ok()
  {
    match c
    case ClipLine => ClippedTo(s, append, ClipLineEnd(s.view.text, s.view.point))
    case ClipRegion => if s.view.mark.Place? then ClippedTo(s, append, s.view.mark.i) else s
    case CopyRegion =>
      if s.view.mark.Place? then CopiedTo(s, append, s.view.mark.i)
      else if s.view.mark == Stray && s.view.point == |s.view.text| then CopyAdded(s, append, Astray(s))
      else s
    case Yank => if s.ring == [] then s else s.(view := Inserted(s.view, s.ring[0]))
    case _ => s.(view := Edited(s.view, c))
  }

  /** One round of the display loop: the append flag is shadowed and reset, then the
      command runs. */
  function Step(s: Session, c: Command): (r: Session)
    requires s.Ok() && Allowed(s, c)
    ensures r.Ok()
  {
    Performed(s.(append := false), s.append, c)
  }

  /** No command of the run does with a stray mark what it must not. */
  predicate AllowedRun(s: Session, cs: seq<Command>)
    requires s.Ok()
    decreases cs
  {
    cs == [] || (Allowed(s, cs[0]) && AllowedRun(Step(s, cs[0]), cs[1..]))
  }

  function Run(s: Session, cs: seq<Command>): (r: Session)
    requires s.Ok() && AllowedRun(s, cs)
    ensures r.Ok()
    decreases cs
  {
    if cs == [] then s else Run(Step(s, cs[0]), cs[1..])
  }

  lemma RunOne(s: Session, cs: seq<Command>, i: nat)
    requires s.Ok() && i < |cs| && AllowedRun(s, cs[i..])
    ensures Allowed(s, cs[i]) && AllowedRun(Step(s, cs[i]), cs[i + 1..])
    ensures Run(s, cs[i..]) == Run(Step(s, cs[i]), cs[i + 1..])
  {
  }

  lemma {:induction false} RunAppend(s: Session, cs: seq<Command>, ds: seq<Command>)
    requires s.Ok() && AllowedRun(s, cs)
    ensures AllowedRun(s, cs + ds) <==> AllowedRun(Run(s, cs), ds)
    ensures AllowedRun(s, cs + ds) ==> Run(s, cs + ds) == Run(Run(s, cs), ds)
    decreases cs
  {
    if cs == [] {
      assert cs + ds == ds;
    } else {
      assert (cs + ds)[1..] == cs[1..] + ds;
      RunAppend(Step(s, cs[0]), cs[1..], ds);
    }
  }

  // ----- the mark over a run -----

  /** The command is a clip that takes something, and the mark is on the last cell it
      takes. */
  ghost predicate Strands(s: Session, c: Command)
    requires s.Ok()
  {
    var v := s.view;
    v.mark.Place?
    && ((c == ClipLine && LineRest(v.text, v.point, v.mark.i + 1))
        || (c == ClipRegion && v.mark.i + 1 == v.point))
  }

  lemma StrandsMark(s: Session, c: Command)
    requires s.Ok() && s.view.mark != Stray
    ensures Step(s, c).view.mark == Stray <==> Strands(s, c)
  {
    if c == ClipLine {
      LineStrandsMark(s);
    }
  }

  lemma LineStrandsMark(s: Session)
    requires s.Ok() && s.view.mark != Stray
    ensures Step(s, ClipLine).view.mark == Stray <==> Strands(s, ClipLine)
  {
    var v := s.view;
    if v.mark.Place? && v.point < |v.text| {
      ClipLineEndIs(v.text, v.point, v.mark.i + 1);
    }
  }

  ghost predicate NeverStrands(s: Session, cs: seq<Command>)
    requires s.Ok() && s.view.mark != Stray
    decreases cs
  {
    cs == [] || (!Strands(s, cs[0]) && (StrandsMark(s, cs[0]); NeverStrands(Step(s, cs[0]), cs[1..])))
  }

  /** The first `i` commands of a run are allowed and leave the mark in the buffer. */
  predicate MarkHome(s: Session, cs: seq<Command>, i: nat)
    requires s.Ok() && i <= |cs|
  {
    AllowedRun(s, cs[..i]) && Run(s, cs[..i]).view.mark != Stray
  }

  /** The mark stays in the buffer all through a run, which is then allowed, exactly when
      no clip of the run ends on it. */
  lemma {:induction false} MarkStaysHome(s: Session, cs: seq<Command>)
    requires s.Ok() && s.view.mark != Stray
    ensures NeverStrands(s, cs) <==> forall i :: 0 <= i <= |cs| ==> MarkHome(s, cs, i)
    decreases cs
  {
    if cs != [] {
      StrandsMark(s, cs[0]);
      var s1 := Step(s, cs[0]);
      forall i | 0 <= i < |cs|
        ensures MarkHome(s, cs, i + 1) <==> MarkHome(s1, cs[1..], i)
      {
        assert cs[..i + 1][1..] == cs[1..][..i];
      }
      if Strands(s, cs[0]) {
        assert !MarkHome(s1, cs[1..], 0);
        assert !MarkHome(s, cs, 0 + 1);
      } else {
        MarkStaysHome(s1, cs[1..]);
        forall i | 0 <= i <= |cs|
          ensures MarkHome(s, cs, i) <==> i == 0 || MarkHome(s1, cs[1..], i - 1)
        {
          assert i > 0 ==> (MarkHome(s, cs, i - 1 + 1) <==> MarkHome(s1, cs[1..], i - 1));
        }
        assert forall i :: 0 <= i < |cs| ==> (MarkHome(s1, cs[1..], i) <==> MarkHome(s, cs, i + 1));
      }
    }
  }

  /** It is then on the last character of the front entry. */
  lemma StrandedAtEnd(s: Session, c: Command)
    requires s.Ok() && s.view.mark != Stray && Strands(s, c)
    ensures Step(s, c).view.mark == Stray && Astray(Step(s, c)) == [s.view.text[s.view.mark.i]]
  {
    var v, q := s.view, if c == ClipLine then ClipLineEnd(s.view.text, s.view.point) else s.view.mark.i;
    var clip := Between(v, q);
    if c == ClipLine {
      ClipLineEndIs(v.text, v.point, v.mark.i + 1);
    }
    assert clip[|clip| - 1] == v.text[v.mark.i];
    SpotKept(s.ring, s.append, clip, false, s.spot);
  }

  /** A stray mark can still be copied from: at the end of the buffer copy_region gives the
      ring what follows the mark in its entry. */
  lemma CopyFromStray(s: Session)
    requires s.Ok() && s.view.mark == Stray
    ensures var r := Step(Step(s, EndOfBuffer), CopyRegion);
            && r.view == s.view.(point := |s.view.text|) && r.view.mark == Stray
            && r.ring == [Astray(s)] + s.ring && Astray(r) == Astray(s)
  {
    var s1 := Step(s, EndOfBuffer);
    assert s1 == Session(s.view.(point := |s.view.text|), s.ring, false, s.spot);
  }

  /** In particular every run without the two clip commands. */
  lemma {:induction false} RunsWithoutClips(s: Session, cs: seq<Command>)
    requires s.Ok() && s.view.mark != Stray
    requires ClipLine !in cs && ClipRegion !in cs
    ensures NeverStrands(s, cs)
    decreases cs
  {
    if cs != [] {
      StrandsMark(s, cs[0]);
      RunsWithoutClips(Step(s, cs[0]), cs[1..]);
    }
  }

  /** The trap: mark, move over one character, clip the region, and the mark is lost; the
      next region command is then not safe. */
  lemma MarkTrap(t: string, ring: seq<string>, append: bool, spot: Spot)
    requires |t| > 0
    ensures var s := Session(View(t, 0, Unset), ring, append, spot);
            && AllowedRun(s, [SetMark, ForwardChar, ClipRegion])
            && Run(s, [SetMark, ForwardChar, ClipRegion]).view.mark == Stray
            && !AllowedRun(s, [SetMark, ForwardChar, ClipRegion] + [SwapPositions])
  {
    var s := Session(View(t, 0, Unset), ring, append, spot);
    var s1 := Step(s, SetMark);
    var s2 := Step(s1, ForwardChar);
    var s3 := Step(s2, ClipRegion);
    assert s3.view.mark == Stray;
    var cs := [SetMark, ForwardChar, ClipRegion];
    assert cs[1..] == [ForwardChar, ClipRegion] && cs[1..][1..] == [ClipRegion] && cs[1..][1..][1..] == [];
    assert AllowedRun(s2, [ClipRegion]) && Run(s2, [ClipRegion]) == s3;
    assert AllowedRun(s1, [ForwardChar, ClipRegion]) && Run(s1, [ForwardChar, ClipRegion]) == s3;
    assert AllowedRun(s, cs) && Run(s, cs) == s3;
    RunAppend(s, cs, [SwapPositions]);
  }

  // ----- killing and yanking -----

  function Repeated(c: Command, n: nat): (r: seq<Command>)
    ensures |r| == n
  {
    if n == 0 then [] else Repeated(c, n - 1) + [c]
  }

  /** `s` came from `o` by consecutive clips at point that took everything up to `q`. */
  ghost predicate Killed(o: Session, s: Session, q: nat) {
    var t, p := o.view.text, o.view.point;
    && o.Ok() && s.Ok() && p < q <= |t|
    && s.view.text == Cut(t, p, q) && s.view.point == p
    && s.ring == ClipAdded(o.ring, o.append, t[p..q])
    && (s.append || q == |t|)
  }

  /** Two clips in a row make one entry. */
  lemma ClipsJoin(ring: seq<string>, append: bool, x: string, y: string)
    ensures ClipAdded(ClipAdded(ring, append, x), true, y) == ClipAdded(ring, append, x + y)
  {
    if ring != [] && append {
      assert (ring[0] + x) + y == ring[0] + (x + y);
      assert ([ring[0] + x] + ring[1..])[1..] == ring[1..];
    } else {
      assert ([x] + ring)[1..] == ring;
    }
  }

  /** Where the newlines and the runs of other characters in t[p..q] begin. */
  ghost function Pieces(t: seq<char>, p: nat, q: nat): set<nat>
    requires p <= q <= |t|
  {
    set i | p <= i < q && PieceBegins(t, p, i)
  }

  predicate PieceBegins(t: seq<char>, p: nat, i: nat)
    requires p <= i < |t|
  {
    i == p || t[i] == '\n' || t[i - 1] == '\n'
  }

  /** t[p..q] is the first `n` pieces of t[p..], or all of that when it has not so many. */
  ghost predicate FirstPieces(t: seq<char>, p: nat, q: nat, n: nat) {
    && p < q <= |t| && (q == |t| || t[q] == '\n' || t[q - 1] == '\n')
    && |Pieces(t, p, q)| <= n && (q < |t| ==> |Pieces(t, p, q)| == n)
  }

  lemma OnePiece(t: seq<char>, p: nat, q: nat)
    requires LineRest(t, p, q)
    ensures FirstPieces(t, p, q, 1)
  {
    assert Pieces(t, p, q) == {p};
  }

  lemma OneMorePiece(t: seq<char>, p: nat, q: nat, n: nat, r: nat)
    requires FirstPieces(t, p, q, n) && if q < |t| then LineRest(t, q, r) else r == q
    ensures FirstPieces(t, p, r, n + 1)
  {
    if q < |t| {
      assert Pieces(t, p, r) == Pieces(t, p, q) + {q};
    }
  }

  lemma FirstKill(o: Session)
    requires o.Ok() && o.view.point < |o.view.text|
    ensures Killed(o, Step(o, ClipLine), ClipLineEnd(o.view.text, o.view.point))
    ensures FirstPieces(o.view.text, o.view.point, ClipLineEnd(o.view.text, o.view.point), 1)
  {
    var t, p := o.view.text, o.view.point;
    ClipLineEndIs(t, p, ClipLineEnd(t, p));
    OnePiece(t, p, ClipLineEnd(t, p));
  }

  /** The stretch that lies at `p` once p..q is cut. */
  lemma CutThenCut(t: string, p: nat, q: nat, c: nat)
    requires p <= q <= |t| && p <= c <= |Cut(t, p, q)|
    ensures q + (c - p) <= |t| && Cut(t, p, q)[p..c] == t[q..q + (c - p)]
    ensures t[p..q] + t[q..q + (c - p)] == t[p..q + (c - p)]
    ensures Cut(Cut(t, p, q), p, c) == Cut(t, p, q + (c - p))
  {
    assert Cut(t, p, q)[p..] == t[q..];
    assert t[q..][..c - p] == t[q..q + (c - p)];
  }

  lemma RestBehindCut(t: seq<char>, p: nat, q: nat)
    requires p <= q <= |t|
    ensures var r := q + (ClipLineEnd(Cut(t, p, q), p) - p);
            if q < |t| then LineRest(t, q, r) else r == q
  {
    var u := Cut(t, p, q);
    var c := ClipLineEnd(u, p);
    if q == |t| {
      return;
    }
    ClipLineEndIs(u, p, c);
    assert forall i :: p <= i < |u| ==> u[i] == t[i + (q - p)];
    forall i | q <= i < q + (c - p)
      ensures t[i] == u[i - (q - p)]
    {
    }
  }

  /** Another clip_line takes more of the original text, or nothing at its end. */
  lemma NextKill(o: Session, s: Session, q: nat) returns (r: nat)
    requires Killed(o, s, q)
    ensures Killed(o, Step(s, ClipLine), r)
    ensures r == q + (ClipLineEnd(s.view.text, s.view.point) - s.view.point)
  {
    var t, p := o.view.text, o.view.point;
    var c := ClipLineEnd(s.view.text, p);
    r := q + (c - p);
    if c > p {
      CutThenCut(t, p, q, c);
      ClipsJoin(o.ring, o.append, t[p..q], t[q..r]);
      var s1 := Step(s, ClipLine);
      assert s1.view.text == Cut(t, p, r) && s1.view.point == p;
      assert s1.ring == ClipAdded(s.ring, true, t[q..r]);
    }
  }

  lemma {:induction false} Kills(o: Session, n: nat) returns (q: nat)
    requires o.Ok() && o.view.point < |o.view.text| && n > 0
    ensures AllowedRun(o, Repeated(ClipLine, n))
    ensures Killed(o, Run(o, Repeated(ClipLine, n)), q)
    ensures FirstPieces(o.view.text, o.view.point, q, n)
    decreases n
  {
    if n == 1 {
      FirstKill(o);
      q := ClipLineEnd(o.view.text, o.view.point);
      assert Repeated(ClipLine, 1) == [ClipLine];
      assert Run(o, [ClipLine]) == Run(Step(o, ClipLine), []);
    } else {
      var m := Kills(o, n - 1);
      var s := Run(o, Repeated(ClipLine, n - 1));
      q := NextKill(o, s, m);
      RestBehindCut(o.view.text, o.view.point, m);
      OneMorePiece(o.view.text, o.view.point, m, n - 1, q);
      RunAppend(o, Repeated(ClipLine, n - 1), [ClipLine]);
      assert AllowedRun(s, [ClipLine]);
      assert Run(s, [ClipLine]) == Run(Step(s, ClipLine), []);
    }
  }

  /** Any number of consecutive clip_line commands that remove something, and then a
      yank.  What was removed is as many pieces of the text, a piece being a newline or a
      run of other characters; the front entry of the ring has gained the whole of it, and
      the text is as it was exactly when no clip came before, or none that is in the ring. */
  lemma KillsThenYank(o: Session, n: nat) returns (q: nat)
    requires o.Ok() && o.view.point < |o.view.text| && n > 0
    ensures var t, p, cs := o.view.text, o.view.point, Repeated(ClipLine, n) + [Yank];
            && AllowedRun(o, cs) && p < q <= |t| && FirstPieces(t, p, q, n)
            && var r := Run(o, cs);
               && r.ring == ClipAdded(o.ring, o.append, t[p..q])
               && (r.view.text == t <==> !o.append || o.ring == [] || o.ring[0] == "")
               && (r.view.text == t ==> r.view.point == q)
  {
    q := Kills(o, n);
    var s := Run(o, Repeated(ClipLine, n));
    RunAppend(o, Repeated(ClipLine, n), [Yank]);
    assert AllowedRun(s, [Yank]);
    assert Run(s, [Yank]) == Run(Step(s, Yank), []);
    YankBack(o, s, o.view.point, q);
  }

  /** Clipping the region and yanking, on whichever side the mark is: the text is restored
      exactly when no clip came before, or none that is in the ring. */
  lemma ClipRegionThenYank(o: Session)
    requires o.Ok() && o.view.mark.Place? && o.view.mark.i != o.view.point
    ensures var r, clip := Step(Step(o, ClipRegion), Yank), Between(o.view, o.view.mark.i);
            && r.ring == ClipAdded(o.ring, o.append, clip)
            && (r.view.text == o.view.text <==> !o.append || o.ring == [] || o.ring[0] == "")
            && (r.view.text == o.view.text ==> r.view.point == Max(o.view.point, o.view.mark.i))
  {
    var lo, hi := Min(o.view.point, o.view.mark.i), Max(o.view.point, o.view.mark.i);
    YankBack(o, Step(o, ClipRegion), lo, hi);
  }

  /** A yank after the stretch lo..hi of `o` went to the ring. */
  lemma YankBack(o: Session, s: Session, lo: nat, hi: nat)
    requires o.Ok() && s.Ok() && lo < hi <= |o.view.text|
    requires s.view.text == Cut(o.view.text, lo, hi) && s.view.point == lo
    requires s.ring == ClipAdded(o.ring, o.append, o.view.text[lo..hi])
    ensures var r := Step(s, Yank);
            && r.ring == s.ring
            && (r.view.text == o.view.text <==> !o.append || o.ring == [] || o.ring[0] == "")
            && (r.view.text == o.view.text ==> r.view.point == hi)
  {
    var t, x := o.view.text, s.ring[0];
    SpliceUndoesCut(t, lo, hi);
    assert |Splice(s.view.text, lo, x)| == |t| - (hi - lo) + |x|;
    if o.append && o.ring != [] {
      assert x == o.ring[0] + t[lo..hi];
    }
  }

  /** Copying the region leaves the buffer alone and adds to the ring what clipping it
      would have added. */
  lemma CopyKeepsText(o: Session)
    requires o.Ok() && o.view.mark.Place?
    ensures Step(o, CopyRegion).view == o.view
    ensures Step(o, CopyRegion).ring == Step(o, ClipRegion).ring
    ensures Step(o, CopyRegion).append == Step(o, ClipRegion).append
  {
  }
}
