/** The clip ring of src/Editor.cc: a list of clipped lists, the current one in front. */
module ClipRings {
  import opened Cells
  import opened Sessions
  import opened Buffers

  class Clip {
    var car: Cons?
    var cdr: Clip?

    constructor (car: Cons?, cdr: Clip?)
      ensures this.car == car && this.cdr == cdr
    {
      this.car, this.cdr := car, cdr;
    }
  }

  /** The conses of a ring lead from each to the next. */
  ghost predicate Linked(ring: seq<Clip>)
    reads ring
  {
    && (forall i {:trigger ring[i].cdr} ::
          0 <= i < |ring| ==> ring[i].cdr == if i + 1 < |ring| then ring[i + 1] else null)
    && (forall i :: 0 < i < |ring| ==> ring[i] != ring[0])
  }

  /** A cons holds the list `e`, which says `text`. */
  ghost predicate Says(c: Clip, e: seq<Cons>, text: string)
    reads c, e
  {
    |e| > 0 && c.car == e[0] && Chain(e, null) && Text(e) == text
  }

  ghost predicate Held(e: seq<Cons>, cells: set<Cons>) {
    forall k :: 0 <= k < |e| ==> e[k] in cells
  }

  /** The conses of a ring hold the entries, whose cells are among `cells`. */
  ghost predicate AllSay(ring: seq<Clip>, entries: seq<seq<Cons>>, texts: seq<string>, cells: set<Cons>)
    requires |ring| == |entries| == |texts|
    reads ring, cells
  {
    forall i :: 0 <= i < |ring| ==> Held(entries[i], cells) && Says(ring[i], entries[i], texts[i])
  }

  ghost predicate FrontApart(entries: seq<seq<Cons>>) {
    forall i :: 0 < i < |entries| ==> Apart(entries[i], entries[0])
  }

  /** The cells of the entries. */
  ghost function CellsOf(entries: seq<seq<Cons>>): set<Cons> {
    if entries == [] then {} else (set c | c in entries[0]) + CellsOf(entries[1..])
  }

  lemma CellsOfLonger(e: seq<Cons>, s: seq<Cons>, entries: seq<seq<Cons>>)
    ensures CellsOf([e + s] + entries) == CellsOf([e] + entries) + (set c | c in s)
    ensures CellsOf([s] + entries) == CellsOf(entries) + (set c | c in s)
  {
    assert ([e + s] + entries)[1..] == ([e] + entries)[1..] == ([s] + entries)[1..] == entries;
    assert (set c | c in e + s) == (set c | c in e) + (set c | c in s);
  }

  /** The front entry may grow by cells that are in no entry. */
  lemma FrontStaysApart(entries: seq<seq<Cons>>, s: seq<Cons>, cells: set<Cons>)
    requires |entries| > 0 && FrontApart(entries) && forall i :: 0 <= i < |entries| ==> Held(entries[i], cells)
    requires forall k :: 0 <= k < |s| ==> s[k] !in cells
    ensures FrontApart([entries[0] + s] + entries[1..])
  {
    forall i | 0 < i < |entries|
      ensures Apart(entries[i], entries[0] + s)
    {
      assert Apart(entries[i], entries[0]) && Held(entries[i], cells);
    }
  }

  class ClipRing {
    var clips: Clip?                  // the first cons
    var clip: Clip?                   // the one that yank takes from, always the first
    ghost var ring: seq<Clip>         // the conses from clips on
    ghost var entries: seq<seq<Cons>> // the lists they hold
    ghost var texts: seq<string>      // what these say
    ghost var cells: set<Cons>        // all their cells

    constructor ()
      ensures Valid() && texts == [] && ring == [] && cells == {}
    {
      clips, clip := null, null;
      ring, entries, texts, cells := [], [], [], {};
    }

    ghost predicate Valid()
      reads this, ring, cells
    {
      Fits(ring, entries, texts, cells) && cells == CellsOf(entries)
    }

    ghost predicate Fits(ring: seq<Clip>, entries: seq<seq<Cons>>, texts: seq<string>, cells: set<Cons>)
      reads this, ring, cells
    {
      && clip == clips == (if ring == [] then null else ring[0])
      && |entries| == |ring| == |texts|
      && Linked(ring) && AllSay(ring, entries, texts, cells) && FrontApart(entries)
    }

    ghost method Relabel(ring: seq<Clip>, entries: seq<seq<Cons>>, texts: seq<string>, cells: set<Cons>)
      requires Fits(ring, entries, texts, cells)
      modifies `ring, `entries, `texts, `cells
      ensures Fits(this.ring, this.entries, this.texts, this.cells)
      ensures this.ring == ring && this.entries == entries && this.texts == texts && this.cells == cells
    {
      this.ring, this.entries, this.texts, this.cells := ring, entries, texts, cells;
    }

    /** `list` becomes the front entry, or is linked to the end of it; it shares no cell
        with the ring. */
    method AddClip(list: Cons, append: bool, ghost s: seq<Cons>)
      requires Valid() && Chain(s, null) && |s| > 0 && list == s[0]
      requires forall k :: 0 <= k < |s| ==> s[k] !in cells
      modifies this, ring, cells
      ensures Valid() && texts == ClipAdded(old(texts), append, old(Text(s)))
      ensures entries == ClipAdded(old(entries), append, s)
      ensures cells == old(cells) + (set c | c in s)
      ensures forall i :: 0 <= i < |ring| ==> ring[i] in old(ring) || fresh(ring[i])
    {
      ghost var held := cells + (set c | c in s);
      CellsOfLonger(if ring == [] then [] else entries[0], s, if ring == [] then [] else entries[1..]);
      CellsOfLonger([], s, entries);
      assert ring != [] ==> [entries[0]] + entries[1..] == entries;
      if clip == null {
        clips := new Clip(list, null);
        clip := clips;
        assert Says(clip, s, Text(s)) && Held(s, held);
        Relabel([clip], [s], [Text(s)], held);
      } else if append {
        Append(list, s);
      } else {
        Push(list, s);
      }
    }

    /** The clip is linked to the end of the front entry. */
    method Append(list: Cons, ghost s: seq<Cons>)
      requires Fits(ring, entries, texts, cells) && ring != [] && Chain(s, null) && |s| > 0 && list == s[0]
      requires forall k :: 0 <= k < |s| ==> s[k] !in cells
      modifies this, cells
      ensures Fits(ring, entries, texts, cells) && texts == [old(texts)[0] + old(Text(s))] + old(texts)[1..]
      ensures entries == [old(entries)[0] + s] + old(entries)[1..]
      ensures cells == old(cells) + (set c | c in s) && ring == old(ring)
    {
      ghost var e := entries[0];
      Buffer.LinkEnd(clip.car, list, e, s);
      ChainJoin(e, s, null);
      assert forall i :: 0 < i < |entries| ==> Says(ring[i], entries[i], texts[i]);
      assert Says(ring[0], e + s, texts[0] + Text(s));
      ghost var held := cells + (set c | c in s);
      assert Held(e + s, held) && forall i :: 0 < i < |entries| ==> Held(entries[i], held);
      ghost var longer, said := [e + s] + entries[1..], [texts[0] + Text(s)] + texts[1..];
      forall i | 0 <= i < |ring|
        ensures Held(longer[i], held) && Says(ring[i], longer[i], said[i])
      {
        assert i > 0 ==> longer[i] == entries[i] && said[i] == texts[i];
      }
      FrontStaysApart(entries, s, cells);
      Relabel(ring, longer, said, held);
    }

    /** The front cons moves back as a copy and its original takes the clip. */
    method Push(list: Cons, ghost s: seq<Cons>)
      requires Fits(ring, entries, texts, cells) && ring != [] && Chain(s, null) && |s| > 0 && list == s[0]
      requires forall k :: 0 <= k < |s| ==> s[k] !in cells
      modifies this, ring
      ensures Fits(ring, entries, texts, cells) && texts == [old(Text(s))] + old(texts)
      ensures entries == [s] + old(entries)
      ensures cells == old(cells) + (set c | c in s)
      ensures forall i :: 0 <= i < |ring| ==> ring[i] in old(ring) || fresh(ring[i])
    {
      ghost var longer, held := [s] + entries, cells + (set c | c in s);
      assert FrontApart(longer);
      var cons := PushCons(list, s, held);
      Relabel([ring[0], cons] + ring[1..], longer, [Text(s)] + texts, held);
    }

    /** What happens to the conses. */
    method PushCons(list: Cons, ghost s: seq<Cons>, ghost held: set<Cons>) returns (cons: Clip)
      requires Fits(ring, entries, texts, cells) && ring != [] && Chain(s, null) && |s| > 0 && list == s[0]
      requires Held(s, held) && cells <= held
      modifies ring
      ensures fresh(cons) && Linked([ring[0], cons] + ring[1..])
      ensures AllSay([ring[0], cons] + ring[1..], [s] + entries, [Text(s)] + texts, held)
    {
      cons := new Clip(clip.car, clip.cdr);
      clip.cdr := cons;
      clip.car := list;
      ghost var r, e, x := [ring[0], cons] + ring[1..], [s] + entries, [Text(s)] + texts;
      assert Says(cons, entries[0], texts[0]) && Says(ring[0], s, Text(s));
      assert forall i :: 0 < i < |entries| ==> Says(ring[i], entries[i], texts[i]);
      forall i | 0 <= i < |r|
        ensures Held(e[i], held) && Says(r[i], e[i], x[i])
      {
        if i > 0 {
          assert e[i] == entries[i - 1] && x[i] == texts[i - 1] && r[i] == if i == 1 then cons else ring[i - 1];
        }
      }
    }

    /** The cell is there in the ring. */
    ghost predicate Holds(c: Cons?, spot: Spot)
      reads this
    {
      InRing(entries, spot) && c == entries[spot.entry][spot.offset]
    }

    /** It then heads the rest of its entry, a list. */
    lemma ListFrom(c: Cons?, spot: Spot) returns (e: seq<Cons>)
      requires Valid() && Holds(c, spot)
      ensures InRing(texts, spot) && e == entries[spot.entry][spot.offset..] && c == e[0]
      ensures Chain(e, null) && Text(e) == texts[spot.entry][spot.offset..]
      ensures forall k :: 0 <= k < |e| ==> e[k] in cells
    {
      var i := spot.entry;
      assert Says(ring[i], entries[i], texts[i]) && Held(entries[i], cells);
      e := entries[i][spot.offset..];
    }
  }
}
