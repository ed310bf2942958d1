/** The editor: a buffer, a window on it and a clip ring, driven by commands. */
module Editors {
  import opened Sequences
  import opened Cells
  import opened TextModel
  import opened Lines
  import opened Rows
  import opened Words
  import opened Buffers
  import opened Windows
  import opened ClipRings
  import opened Sessions
  import ConsList

  /** Backward over a run of alphanumerics, or of the others. */
  method LeadBackward(buff: Buffer, alnum: bool)
    requires buff.Valid() && (buff.pos < |buff.cells| || buff.pos == 0)
    modifies buff`point, buff`pos
    ensures buff.Valid()
    ensures buff.State() == Goto(old(buff.State()),
                                 if alnum then BackOverWord(old(buff.State()).text, old(buff.pos))
                                 else BackToWord(old(buff.State()).text, old(buff.pos)))
  {
    ghost var v := buff.State();
    SameIndex(buff.cells, buff.pos, 0);
    assert buff.pos > 0 ==> Text(buff.cells)[buff.pos] == buff.point.car;
    while buff.point != buff.content && IsAlnum(buff.point.car) == alnum
      invariant buff.Valid() && buff.State() == v.(point := buff.pos) && buff.pos <= v.point
      invariant buff.point == buff.content <==> buff.pos == 0
      invariant buff.pos > 0 ==> v.text[buff.pos] == buff.point.car
      invariant if alnum then BackOverWord(v.text, buff.pos) == BackOverWord(v.text, v.point)
                else BackToWord(v.text, buff.pos) == BackToWord(v.text, v.point)
      decreases buff.pos
    {
      var _ := buff.ForwardChars(-1);
      SameIndex(buff.cells, buff.pos, 0);
      assert Text(buff.cells)[buff.pos] == buff.point.car;
    }
  }

  /** Forward over a run of alphanumerics, or of the others. */
  method LeadForward(buff: Buffer, alnum: bool)
    requires buff.Valid()
    modifies buff`point, buff`pos
    ensures buff.Valid()
    ensures buff.State() == Goto(old(buff.State()),
                                 if alnum then OnOverWord(old(buff.State()).text, old(buff.pos))
                                 else OnToWord(old(buff.State()).text, old(buff.pos)))
  {
    ghost var v := buff.State();
    while buff.point != null && IsAlnum(buff.point.car) == alnum
      invariant buff.Valid() && buff.State() == v.(point := buff.pos)
      invariant if alnum then OnOverWord(v.text, buff.pos) == OnOverWord(v.text, v.point)
                else OnToWord(v.text, buff.pos) == OnToWord(v.text, v.point)
      decreases |v.text| - buff.pos
    {
      assert Text(buff.cells)[buff.pos] == buff.point.car;
      var _ := buff.ForwardChars(1);
    }
    assert buff.point != null ==> Text(buff.cells)[buff.pos] == buff.point.car;
  }

  /** Point goes where backward_word goes on the text. */
  method MoveBackwardWord(buff: Buffer)
    requires buff.Valid()
    modifies buff`point, buff`pos
    ensures buff.Valid()
    ensures buff.State() == Goto(old(buff.State()), Words.BackwardWord(old(buff.State()).text, old(buff.pos)))
  {
    var _ := buff.ForwardChars(-1);
    LeadBackward(buff, false);
    LeadBackward(buff, true);
    SameIndex(buff.cells, buff.pos, 0);
    if buff.point != buff.content {
      var _ := buff.ForwardChars(1);
    }
  }

  /** Point goes where forward_word goes on the text. */
  method MoveForwardWord(buff: Buffer)
    requires buff.Valid()
    modifies buff`point, buff`pos
    ensures buff.Valid()
    ensures buff.State() == Goto(old(buff.State()), Words.ForwardWord(old(buff.State()).text, old(buff.pos)))
  {
    LeadForward(buff, false);
    var _ := buff.ForwardChars(1);
    LeadForward(buff, true);
  }

  predicate IsMotion(c: Command) {
    c in {BeginningOfLine, EndOfLine, ForwardChar, BackwardChar, ForwardLine, BackwardLine, ForwardWord,
          BackwardWord, BeginningOfBuffer, EndOfBuffer}
  }

  predicate UsesRing(c: Command) {
    c in {ClipLine, ClipRegion, CopyRegion, Yank}
  }

  /** The other commands leave the window where it is. */
  predicate MovesWindow(c: Command) {
    c in {ClipLine, ClipRegion, Yank, BeginningOfBuffer, EndOfBuffer}
  }

  /** The commands that leave the clip ring alone. */
  method EditBuffer(buff: Buffer, window: SupplyWindow, c: Command)
    requires buff.Valid() && (c == SwapPositions ==> buff.place != Stray)
    requires !UsesRing(c) && window.buffer == buff && window.width > 0
    modifies buff, buff.cells, window`start, window`startAlreadyAdjusted
    ensures buff.Valid() && buff.State() == Edited(old(buff.State()), c)
    ensures !MovesWindow(c) ==> window.start == old(window.start)
    ensures window.startAlreadyAdjusted <==>
              c == BeginningOfBuffer || c == EndOfBuffer || old(window.startAlreadyAdjusted)
    ensures forall i :: 0 <= i < |buff.cells| ==> buff.cells[i] in old(buff.cells) || fresh(buff.cells[i])
    ensures buff.place == Stray ==> buff.mark == old(buff.mark) && old(buff.place) == Stray
  {
    if IsMotion(c) {
      Move(buff, window, c);
    } else {
      Change(buff, c);
    }
  }

  /** The commands that change the text or the mark. */
  method Change(buff: Buffer, c: Command)
    requires buff.Valid() && (c == SwapPositions ==> buff.place != Stray)
    requires !UsesRing(c) && !IsMotion(c)
    modifies buff, buff.cells
    ensures buff.Valid() && buff.State() == Edited(old(buff.State()), c)
    ensures forall i :: 0 <= i < |buff.cells| ==> buff.cells[i] in old(buff.cells) || fresh(buff.cells[i])
    ensures buff.place == Stray ==> buff.mark == old(buff.mark) && old(buff.place) == Stray
  {
    if c.InsertLastInputChar? || c.InsertNewline? {
      var _, _ := buff.InsertChar(if c.InsertNewline? then LINEFEED else c.ch);
    } else if c.ClipChar? || c.ClipCharBack? {
      var _ := buff.ClipChar(if c.ClipChar? then 0 else -1);
    } else if c.SetMark? {
      buff.SetMark();
    } else {
      buff.SwapPositions();
    }
  }

  method Move(buff: Buffer, window: SupplyWindow, c: Command)
    requires buff.Valid() && window.buffer == buff && window.width > 0
    requires IsMotion(c)
    modifies buff`point, buff`pos, window`start, window`startAlreadyAdjusted
    ensures buff.Valid() && buff.State() == Edited(old(buff.State()), c)
    ensures var t := old(buff.State()).text;
            window.start == if c == BeginningOfBuffer then buff.content
                            else if c == EndOfBuffer
                            then At(buff.cells, NextWindowLine(t, |t|, 1 - window.Rows(), window.width), null)
                            else old(window.start)
    ensures window.startAlreadyAdjusted <==>
              c == BeginningOfBuffer || c == EndOfBuffer || old(window.startAlreadyAdjusted)
  {
    match c
    case BeginningOfLine =>
      var tem := buff.BeginningOfLine();
      buff.PointTo(tem, Bol(buff.State().text, buff.pos));
    case EndOfLine =>
      var tem := buff.EndOfLine();
      buff.PointTo(tem, Eol(buff.State().text, buff.pos));
    case ForwardChar =>
      var _ := buff.ForwardChars(1);
    case BackwardChar =>
      var _ := buff.ForwardChars(-1);
    case ForwardLine =>
      var _ := buff.ForwardLine();
    case BackwardLine =>
      var _ := buff.BackwardLine();
    case ForwardWord =>
      MoveForwardWord(buff);
    case BackwardWord =>
      MoveBackwardWord(buff);
    case BeginningOfBuffer =>
      buff.PointTo(buff.content, 0);
      window.start := buff.content;
      window.startAlreadyAdjusted := true;
    case EndOfBuffer =>
      GotoEnd(buff, window);
  }

  /** The end is shown at the bottom of the window. */
  method GotoEnd(buff: Buffer, window: SupplyWindow)
    requires buff.Valid() && window.buffer == buff && window.width > 0
    modifies buff`point, buff`pos, window`start, window`startAlreadyAdjusted
    ensures buff.Valid() && buff.State() == Goto(old(buff.State()), |old(buff.State()).text|)
    ensures var t := old(buff.State()).text;
            window.start == At(buff.cells, NextWindowLine(t, |t|, 1 - window.Rows(), window.width), null)
    ensures window.startAlreadyAdjusted
  {
    buff.PointTo(null, |buff.cells|);
    window.start :=
      buff.NextWindowLineFrom(-window.height + (if |window.modeLine| > 0 then 1 else 0) + 1, window.width);
    window.startAlreadyAdjusted := true;
  }

  class Editor {
    const buffer: Buffer
    const window: SupplyWindow
    const ring: ClipRing
    var appendNextClip: bool     // set by a clip, for the command after it
    var oldAppendNextClip: bool  // what it was when the command began
    ghost var spot: Spot         // where a stray mark is in the ring

    /** The source leaves both flags unset here; the ring is empty, so that nothing hangs
        on them. */
    constructor (buffer: Buffer, window: SupplyWindow, append: bool, oldAppend: bool)
      requires buffer.Valid() && buffer.place != Stray && window.buffer == buffer && window.width > 0
      ensures Valid() && State() == Session(buffer.State(), [], append, Spot(0, 0))
      ensures this.buffer == buffer && this.window == window && fresh(ring)
    {
      this.buffer, this.window := buffer, window;
      ring := new ClipRing();
      appendNextClip, oldAppendNextClip, spot := append, oldAppend, Spot(0, 0);
    }

    /** The buffer shares no cell with the clips, and a mark that is neither in the buffer
        nor unset is in a clip, at the spot. */
    ghost predicate Valid()
      reads this, buffer, buffer.cells, ring, ring.ring, ring.cells
    {
      Sound() && (buffer.place == Stray ==> ring.Holds(buffer.mark, spot))
    }

    ghost predicate Sound()
      reads buffer, buffer.cells, ring, ring.ring, ring.cells
    {
      && buffer.Valid() && ring.Valid()
      && window.buffer == buffer && window.width > 0
      && forall i :: 0 <= i < |buffer.cells| ==> buffer.cells[i] !in ring.cells
    }

    ghost function State(): (s: Session)
      requires Sound()
      reads this, buffer, buffer.cells, ring, ring.ring, ring.cells
      ensures s.view.Ok() && (Valid() ==> s.Ok())
    {
      SpotIsThere();
      Session(buffer.State(), ring.texts, appendNextClip, spot)
    }

    lemma SpotIsThere()
      requires Sound()
      ensures Valid() && buffer.place == Stray ==> InRing(ring.texts, spot)
    {
      if Valid() && buffer.place == Stray {
        var _ := ring.ListFrom(buffer.mark, spot);
      }
    }

    ghost function Repr(): set<object>
      reads this, buffer, ring
    {
      {this, buffer, window, ring} + (set c | c in ring.ring) + Held()
    }

    /** The cells of the buffer and of the clips. */
    ghost function Held(): set<Cons>
      reads buffer, ring
    {
      ring.cells + (set c | c in buffer.cells)
    }

    /** Every cell the editor now holds was held before or is new, and so for the ring. */
    twostate predicate OnlyNew(held: set<Cons>, clips: seq<Clip>)
      reads buffer, ring
    {
      && (forall i :: 0 <= i < |buffer.cells| ==> buffer.cells[i] in held || fresh(buffer.cells[i]))
      && (forall i :: 0 <= i < |ring.ring| ==> ring.ring[i] in clips || fresh(ring.ring[i]))
      && (forall c :: c in ring.cells ==> c in held || fresh(c))
    }

    /** A clip goes to the ring; `astray` says that the mark was stray before it was taken. */
    method AddClip(clip: Cons, ghost s: seq<Cons>, ghost astray: bool)
      requires Sound() && Chain(s, null) && |s| > 0 && clip == s[0]
      requires Trail(s, astray)
      requires forall i :: 0 <= i < |s| ==> s[i] !in ring.cells
      requires forall i :: 0 <= i < |buffer.cells| ==> buffer.cells[i] !in s
      modifies this, ring, ring.ring, ring.cells
      ensures Valid()
      ensures State() == Added(old(State()), old(oldAppendNextClip), old(Text(s)), astray)
      ensures ring.cells == old(ring.cells) + (set c | c in s)
      ensures forall i :: 0 <= i < |ring.ring| ==> ring.ring[i] in old(ring.ring) || fresh(ring.ring[i])
      ensures oldAppendNextClip == old(oldAppendNextClip)
    {
      ghost var r := Added(State(), oldAppendNextClip, Text(s), astray);
      AddToRing(clip, s, astray);
      appendNextClip := true;
      assert State() == r;
    }

    /** The ring takes the clip, and the spot moves so that what was there is there still. */
    method AddToRing(clip: Cons, ghost s: seq<Cons>, ghost astray: bool)
      requires ring.Valid() && Chain(s, null) && |s| > 0 && clip == s[0] && Trail(s, astray)
      requires forall i :: 0 <= i < |s| ==> s[i] !in ring.cells
      modifies `spot, ring, ring.ring, ring.cells
      ensures ring.Valid() && ring.texts == ClipAdded(old(ring.texts), oldAppendNextClip, old(Text(s)))
      ensures spot == SpotAfter(old(ring.texts), oldAppendNextClip, old(Text(s)), astray, old(spot))
      ensures old(buffer.place) == Stray ==> ring.Holds(old(buffer.mark), spot)
      ensures ring.cells == old(ring.cells) + (set c | c in s)
      ensures forall i :: 0 <= i < |ring.ring| ==> ring.ring[i] in old(ring.ring) || fresh(ring.ring[i])
    {
      SpotMoves(s, astray);
      spot := SpotAfter(ring.texts, oldAppendNextClip, Text(s), astray, spot);
      ring.AddClip(clip, oldAppendNextClip, s);
    }

    lemma SpotMoves(s: seq<Cons>, astray: bool)
      requires ring.Valid() && |s| > 0 && Trail(s, astray)
      ensures var e, q := ClipAdded(ring.entries, oldAppendNextClip, s),
                          SpotAfter(ring.texts, oldAppendNextClip, Text(s), astray, spot);
              buffer.place == Stray ==> InRing(e, q) && e[q.entry][q.offset] == buffer.mark
    {
      SpotKept(ring.entries, oldAppendNextClip, s, astray, spot);
      assert ring.ring != [] ==> Says(ring.ring[0], ring.entries[0], ring.texts[0]);
    }

    /** A stray mark is where it was in the ring, or at the end of the clip `t`. */
    ghost predicate Trail(t: seq<Cons>, astray: bool)
      reads this, buffer, ring
    {
      && (astray ==> ring.Holds(buffer.mark, spot))
      && (buffer.place == Stray && !astray ==> |t| > 0 && buffer.mark == t[|t| - 1])
    }

    /** A cell that is in the buffer, or a stray mark while point is in the buffer. */
    ghost predicate CanReach(c: Cons?)
      reads this, buffer, ring
    {
      buffer.Here(c) || (buffer.point != null && ring.Holds(c, spot))
    }

    /** The end of clip_line and clip_region: what clip_to takes goes to the ring. */
    method ClipTo(c: Cons?)
      requires Valid() && CanReach(c)
      modifies this, buffer, buffer.cells, ring, ring.ring, ring.cells
      ensures Valid() && OnlyNew(old(Held()), old(ring.ring))
      ensures State() == if old(buffer.Here(c))
                         then ClippedTo(old(State()), old(oldAppendNextClip), Index(old(buffer.cells), c))
                         else old(State())
    {
      var tem;
      ghost var t, astray := [], buffer.place == Stray;
      tem, t := TakeClip(c);
      if tem != null {
        AddClip(tem, t, astray);
      }
    }

    /** clip_to, with the ring looking on: the clip belongs to neither any more.  A cell
        of a clip is not found. */
    method TakeClip(c: Cons?) returns (tem: Cons?, ghost t: seq<Cons>)
      requires Valid() && CanReach(c)
      modifies buffer, buffer.cells
      ensures Sound() && Trail(t, old(buffer.place) == Stray)
      ensures buffer.State() == if old(buffer.Here(c)) then Clipped(old(buffer.State()), Index(old(buffer.cells), c))
                                else old(buffer.State())
      ensures Text(t) == if old(buffer.Here(c)) then Between(old(buffer.State()), Index(old(buffer.cells), c)) else []
      ensures tem == null <==> !old(buffer.Here(c)) || Index(old(buffer.cells), c) == old(buffer.pos)
      ensures Chain(t, null) && tem == At(t, 0, null)
      ensures forall i :: 0 <= i < |t| ==> t[i] !in ring.cells && t[i] in old(buffer.cells)
      ensures forall i :: 0 <= i < |buffer.cells| ==> buffer.cells[i] !in t && buffer.cells[i] in old(buffer.cells)
    {
      ghost var other := [];
      if !buffer.Here(c) {
        other := ring.ListFrom(c, spot);
      }
      tem, t := buffer.ClipAway(c, other);
    }

    /** The end of copy_region.  A stray mark is found from the end of the buffer. */
    method CopyTo(c: Cons?)
      requires Valid() && (buffer.Here(c) || (buffer.place == Stray && c == buffer.mark))
      modifies this, buffer.cells, ring, ring.ring, ring.cells
      ensures Valid() && OnlyNew(old(Held()), old(ring.ring))
      ensures State() == if old(buffer.Here(c))
                         then CopiedTo(old(State()), old(oldAppendNextClip), Index(old(buffer.cells), c))
                         else if old(buffer.point) == null
                         then CopyAdded(old(State()), old(oldAppendNextClip), Astray(old(State())))
                         else old(State())
    {
      var tem;
      ghost var t;
      tem, t := TakeCopy(c);
      if tem != null {
        AddClip(tem, t, buffer.place == Stray);
      }
    }

    /** copy_to, with the ring looking on. */
    method TakeCopy(c: Cons?) returns (tem: Cons?, ghost t: seq<Cons>)
      requires Valid() && (buffer.Here(c) || (buffer.place == Stray && c == buffer.mark))
      modifies buffer.cells, ring.cells
      ensures Valid() && State() == old(State()) && Held() == old(Held()) && ring.ring == old(ring.ring)
      ensures tem == null <==> if buffer.Here(c) then Index(buffer.cells, c) == buffer.pos else buffer.point != null
      ensures tem != null ==> Text(t) == if buffer.Here(c) then Between(buffer.State(), Index(buffer.cells, c))
                                         else Astray(State())
      ensures Chain(t, null) && tem == At(t, 0, null)
      ensures forall i :: 0 <= i < |t| ==> fresh(t[i])
    {
      ghost var other: seq<Cons> := [];
      if buffer.Here(c) {
        SameIndex(buffer.cells, buffer.pos, Index(buffer.cells, c));
      } else {
        other := ring.ListFrom(c, spot);
      }
      tem, t := buffer.CopyTo(c, other);
      assert unchanged(buffer.cells) && unchanged(ring.cells);
    }

    /** Clip the rest of the line, or the newline point is on: all up to `q`.  The window
        start moves along if it was at point. */
    method ClipLine() returns (ghost q: nat)
      requires Valid()
      modifies this, window`start, buffer, buffer.cells, ring, ring.ring, ring.cells
      ensures Valid() && OnlyNew(old(Held()), old(ring.ring))
      ensures State() == Performed(old(State()), old(oldAppendNextClip), Command.ClipLine)
      ensures IsLineRest(old(buffer.State()).text, old(buffer.pos), q)
      ensures buffer.State().text == old(buffer.State()).text[..old(buffer.pos)] + old(buffer.State()).text[q..]
      ensures window.start == if old(window.start) == old(buffer.point) then At(old(buffer.cells), q, null)
                              else old(window.start)
    {
      q := ClipLineEnd(buffer.State().text, buffer.pos);
      LineClipped(State(), oldAppendNextClip);
      ClipRest();
    }

    method ClipRest()
      requires Valid()
      modifies this, window`start, buffer, buffer.cells, ring, ring.ring, ring.cells
      ensures Valid() && OnlyNew(old(Held()), old(ring.ring))
      ensures State() == Performed(old(State()), old(oldAppendNextClip), Command.ClipLine)
      ensures var v := old(buffer.State());
              window.start == if old(window.start) == old(buffer.point)
                              then At(old(buffer.cells), ClipLineEnd(v.text, v.point), null)
                              else old(window.start)
    {
      ghost var s := State();
      var tem := LineRest(buffer);
      MoveStartFrom(tem);
      assert Valid() && State() == s;
      ClipToLineEnd(tem);
    }

    /** What is left of the line at `p`, or its newline, or nothing at the end, is p..q. */
    static ghost predicate IsLineRest(t: seq<char>, p: nat, q: nat) {
      && p <= q <= |t| && (q == p ==> p == |t|)
      && (p < |t| && t[p] == '\n' ==> q == p + 1)
      && (p < |t| && t[p] != '\n' ==> (q == |t| || t[q] == '\n') && forall i :: p <= i < q ==> t[i] != '\n')
    }

    static lemma LineClipped(s: Session, append: bool)
      requires s.Ok()
      ensures var t, p, q := s.view.text, s.view.point, ClipLineEnd(s.view.text, s.view.point);
              && IsLineRest(t, p, q)
              && Performed(s, append, Command.ClipLine).view.text == t[..p] + t[q..]
    {
      var v := s.view;
      if v.point < |v.text| {
        ClipLineEndIs(v.text, v.point, ClipLineEnd(v.text, v.point));
      }
    }

    method ClipToLineEnd(tem: Cons?)
      requires Valid() && buffer.Here(tem)
      requires Index(buffer.cells, tem) == ClipLineEnd(buffer.State().text, buffer.pos)
      modifies this, buffer, buffer.cells, ring, ring.ring, ring.cells
      ensures Valid() && OnlyNew(old(Held()), old(ring.ring))
      ensures State() == Performed(old(State()), old(oldAppendNextClip), Command.ClipLine)
    {
      ClipTo(tem);
    }

    /** A window start at point goes to `c`. */
    method MoveStartFrom(c: Cons?)
      modifies window`start
      ensures window.start == if old(window.start) == buffer.point then c else old(window.start)
    {
      if window.start == buffer.point {
        window.start := c;
      }
    }

    /** Where clip_line clips to. */
    static method LineRest(buff: Buffer) returns (tem: Cons?)
      requires buff.Valid()
      ensures buff.Here(tem) && Index(buff.cells, tem) == ClipLineEnd(buff.State().text, buff.pos)
      ensures tem == At(buff.cells, ClipLineEnd(buff.State().text, buff.pos), null)
    {
      ghost var s := buff.cells;
      assert buff.point != null ==> Text(s)[buff.pos] == buff.point.car;
      if buff.point != null && buff.point.car == LINEFEED {
        tem := buff.point.cdr;
      } else {
        tem := buff.EndOfLine();
      }
      SameIndex(s, Index(s, tem), ClipLineEnd(buff.State().text, buff.pos));
    }

    /** A window start that is at one end of the region goes to the other. */
    method MoveStart()
      modifies window`start
      ensures window.start == if old(window.start) == buffer.point then buffer.mark
                              else if old(window.start) == buffer.mark then buffer.point
                              else old(window.start)
    {
      if window.start == buffer.point {
        window.start := buffer.mark;
      } else if window.start == buffer.mark {
        window.start := buffer.point;
      }
    }

    /** Without a mark there is nothing to do but complain, and a stray mark is not found. */
    method ClipRegion()
      requires Valid() && (buffer.place == Stray ==> buffer.point != null)
      modifies this, window`start, buffer, buffer.cells, ring, ring.ring, ring.cells
      ensures Valid() && OnlyNew(old(Held()), old(ring.ring))
      ensures State() == Performed(old(State()), old(oldAppendNextClip), Command.ClipRegion)
      ensures window.start == if old(buffer.place) == Unset then old(window.start)
                              else if old(window.start) == old(buffer.point) then old(buffer.mark)
                              else if old(window.start) == old(buffer.mark) then old(buffer.point)
                              else old(window.start)
    {
      if buffer.mark != buffer.hil {
        MoveStart();
        ClipToMark();
      }
    }

    method ClipToMark()
      requires Valid() && buffer.place != Unset && (buffer.place == Stray ==> buffer.point != null)
      modifies this, buffer, buffer.cells, ring, ring.ring, ring.cells
      ensures Valid() && OnlyNew(old(Held()), old(ring.ring))
      ensures State() == Performed(old(State()), old(oldAppendNextClip), Command.ClipRegion)
    {
      FindMark(buffer);
      ClipTo(buffer.mark);
    }

    /** Where a set mark is found: at its place, or nowhere. */
    static lemma FindMark(buff: Buffer)
      requires buff.Valid() && buff.place != Unset
      ensures buff.place.Place? ==> buff.Here(buff.mark) && Index(buff.cells, buff.mark) == buff.place.i
      ensures buff.place == Stray ==> !buff.Here(buff.mark)
    {
      if buff.place.Place? {
        SameIndex(buff.cells, Index(buff.cells, buff.mark), buff.place.i);
      }
    }

    /** Without a mark there is nothing to do but complain. */
    method CopyRegion()
      requires Valid()
      modifies this, buffer.cells, ring, ring.ring, ring.cells
      ensures Valid() && OnlyNew(old(Held()), old(ring.ring))
      ensures State() == Performed(old(State()), old(oldAppendNextClip), Command.CopyRegion)
    {
      if buffer.mark != buffer.hil {
        FindMark(buffer);
        CopyTo(buffer.mark);
      }
    }

    /** A copy of the front clip is inserted, so that the ring keeps its cells to itself. */
    method Yank()
      requires Valid()
      modifies window`start, buffer, buffer.cells
      ensures Valid() && OnlyNew(old(Held()), old(ring.ring))
      ensures State() == Performed(old(State()), old(oldAppendNextClip), Command.Yank)
      ensures window.start == if old(ring.ring) != [] && old(buffer.pos) == 0 && old(buffer.content) != null
                              then buffer.content else old(window.start)
    {
      if ring.clip != null {
        assert Says(ring.ring[0], ring.entries[0], ring.texts[0]);
        InsertCopy(buffer, window, ring.clip.car, ring.entries[0]);
      }
    }

    static method InsertCopy(buff: Buffer, window: SupplyWindow, list: Cons?, ghost e: seq<Cons>)
      requires buff.Valid() && Chain(e, null) && list == At(e, 0, null)
      modifies buff, buff.cells, window`start
      ensures buff.Valid() && buff.State() == Inserted(old(buff.State()), old(Text(e)))
      ensures window.start == if e != [] && old(buff.pos) == 0 && old(buff.content) != null
                              then buff.content else old(window.start)
      ensures forall i :: 0 <= i < |buff.cells| ==> buff.cells[i] in old(buff.cells) || fresh(buff.cells[i])
      ensures buff.place == Stray ==> buff.mark == old(buff.mark) && old(buff.place) == Stray
    {
      var tem;
      ghost var t;
      tem, t := ConsList.CopyList(list, e);
      tem := buff.Insert(tem, t);
      if tem != null {
        window.start := tem;
      }
    }

    /** The window begins where it did unless the command moves it, and only bob and eob
        count it as adjusted. */
    twostate predicate WindowStays(c: Command)
      reads window
    {
      && (!MovesWindow(c) ==> window.start == old(window.start))
      && (window.startAlreadyAdjusted <==>
            c == BeginningOfBuffer || c == EndOfBuffer || old(window.startAlreadyAdjusted))
    }

    method Edit(c: Command)
      requires Valid() && !UsesRing(c) && Allowed(State(), c)
      modifies window`start, window`startAlreadyAdjusted, buffer, buffer.cells
      ensures Valid() && OnlyNew(old(Held()), old(ring.ring))
      ensures State() == Performed(old(State()), old(oldAppendNextClip), c)
      ensures WindowStays(c)
    {
      EditBuffer(buffer, window, c);
    }

    method Dispatch(c: Command)
      requires Valid() && Allowed(State(), c)
      modifies this, window`start, window`startAlreadyAdjusted, buffer, buffer.cells, ring, ring.ring, ring.cells
      ensures Valid() && OnlyNew(old(Held()), old(ring.ring))
      ensures State() == Performed(old(State()), old(oldAppendNextClip), c)
      ensures WindowStays(c)
    {
      if UsesRing(c) {
        ClipOrYank(c);
      } else {
        Edit(c);
      }
    }

    method ClipOrYank(c: Command)
      requires Valid() && Allowed(State(), c) && UsesRing(c)
      modifies this, window`start, buffer, buffer.cells, ring, ring.ring, ring.cells
      ensures Valid() && OnlyNew(old(Held()), old(ring.ring))
      ensures State() == Performed(old(State()), old(oldAppendNextClip), c)
      ensures c == Command.CopyRegion ==> window.start == old(window.start)
    {
      if c == Command.ClipLine {
        var _ := ClipLine();
      } else if c == Command.ClipRegion {
        ClipRegion();
      } else if c == Command.CopyRegion {
        CopyRegion();
      } else {
        Yank();
      }
    }

    /** One round of the display loop on a command. */
    method Execute(c: Command)
      requires Valid() && Allowed(State(), c)
      modifies this, window`start, window`startAlreadyAdjusted, buffer, buffer.cells, ring, ring.ring, ring.cells
      ensures Valid() && OnlyNew(old(Held()), old(ring.ring))
      ensures State() == Step(old(State()), c)
      ensures WindowStays(c)
    {
      Shadow();
      Dispatch(c);
    }

    /** The append flag is shadowed and reset. */
    method Shadow()
      requires Valid()
      modifies `appendNextClip, `oldAppendNextClip
      ensures Valid() && Held() == old(Held()) && State() == old(State()).(append := false)
      ensures oldAppendNextClip == old(State()).append
    {
      oldAppendNextClip := appendNextClip;
      appendNextClip := false;
    }

    /** Any run of commands that may be done with the mark where it is keeps the editor valid and
        does to it what the commands mean, one after the other. */
    method RunCommands(cs: seq<Command>)
      requires Valid() && AllowedRun(State(), cs)
      modifies Repr()
      ensures Valid() && OnlyNew(old(Held()), old(ring.ring))
      ensures State() == Run(old(State()), cs)
    {
      ghost var s, t := State(), State();
      for i := 0 to |cs|
        invariant Valid() && OnlyNew(old(Held()), old(ring.ring)) && State() == t
        invariant AllowedRun(t, cs[i..]) && Run(t, cs[i..]) == Run(s, cs)
      {
        RunOne(t, cs, i);
        Execute(cs[i]);
        t := Step(t, cs[i]);
      }
      assert cs[|cs|..] == [];
    }
  }
}
