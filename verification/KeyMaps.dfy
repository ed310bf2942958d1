/** The key maps of src/Editor.cc: tables of bindings, some of which lead to further
    tables, mutated in place.  They mean a prefix-free map from key sequences to
    functions. */
module KeyMaps {
  /** One more than the last key; KEY_MAX in curses. */
  const KEY_TABLE_SIZE: nat := 511

  type Key = k: nat | k < KEY_TABLE_SIZE
  type Path = seq<Key>
  type Meanings = Path -> Meaning

  /** A slot of a table.  A func of NULL is `Unbound`, a func of interpret_last_input with
      its table is `Prefix`, anything else is a function and its parameter, 0 for NULL. */
  datatype Slot = Unbound | Bound(func: nat, param: nat) | Prefix(keys: array<Slot>)

  /** What a key sequence means. */
  datatype Meaning = Nothing | Function(func: nat, param: nat) | Map

  /** What became of typing: a function was run, or the keys turned out to be bound to
      nothing, for which the program returns 3. */
  datatype Outcome = Ran(func: nat, param: nat) | Empty

  function MeaningOf(s: Slot): Meaning {
    match s
    case Unbound => Nothing
    case Bound(f, p) => Function(f, p)
    case Prefix(_) => Map
  }

  /** `p` continues `q` by at least one key. */
  predicate Extends(p: Path, q: Path) {
    |q| < |p| && q == p[..|q|]
  }

  lemma PrefixStep(q: Path, r: Path, k: Key)
    ensures q <= r + [k] <==> q <= r || q == r + [k]
  {
  }

  /** Part of the prefix of `s` is bound to a function. */
  ghost predicate Refused(m: Meanings, s: Path) {
    s != [] && !Passable(m, s, |s| - 1)
  }

  /** None of the first `n` keys of `s` completes a sequence bound to a function. */
  ghost predicate Passable(m: Meanings, s: Path, n: nat)
    requires n <= |s|
  {
    forall i :: 0 < i <= n ==> !m(s[..i]).Function?
  }

  lemma PassOneMore(m: Meanings, s: Path, n: nat)
    requires n < |s| && Passable(m, s, n) && !m(s[..n + 1]).Function?
    ensures Passable(m, s, n + 1)
  {
  }

  /** What key sequences mean after an attempt to bind `s`. */
  ghost function Bind(m: Meanings, s: Path, b: Slot): Meanings {
    if s == [] || Refused(m, s) then m else u => Rebound(m(u), s, b, u)
  }

  /** What key sequences mean once the first `n` keys of `s` lead to maps. */
  ghost function Opened(m: Meanings, s: Path, n: nat): Meanings {
    u => if u <= s && |u| <= n then Map else m(u)
  }

  /** Key sequences lead somewhere through maps only. */
  ghost predicate IsTrie(m: Meanings) {
    forall u, v :: u != [] && Extends(v, u) && m(v) != Nothing ==> m(u) == Map
  }

  lemma NothingIsTrie()
    ensures IsTrie(_ => Nothing)
  {
  }

  /** Binding keeps a trie a trie. */
  lemma BindKeepsTrie(m: Meanings, s: Path, b: Slot)
    requires IsTrie(m) && !b.Prefix?
    ensures IsTrie(Bind(m, s, b))
  {
  }

  lemma MapsLeadOn(m: Meanings, s: Path, n: nat)
    requires IsTrie(m) && n < |s|
    ensures m(s[..n + 1]) == Nothing || n == 0 || m(s[..n]) == Map
  {
    assert n > 0 ==> Extends(s[..n + 1], s[..n]);
  }

  /** One more key opened is one more sequence that leads to a map. */
  lemma OpenOneMore(m: Meanings, s: Path, n: nat)
    requires n < |s|
    ensures forall u :: Opened(m, s, n + 1)(u) == if u == s[..n + 1] then Map else Opened(m, s, n)(u)
  {
    forall u
      ensures Opened(m, s, n + 1)(u) == if u == s[..n + 1] then Map else Opened(m, s, n)(u)
    {
      if u <= s && |u| == n + 1 {
        assert u == s[..n + 1];
      }
    }
  }

  /** Where a function stops the opening, nothing had to be opened. */
  lemma OpenedUpToFunction(m: Meanings, s: Path, n: nat)
    requires IsTrie(m) && n + 1 < |s| && m(s[..n + 1]).Function?
    ensures Refused(m, s)
    ensures forall u :: u != [] ==> Opened(m, s, n)(u) == m(u)
  {
  }

  /** Opening the way and setting the last slot binds the sequence. */
  lemma OpenedThenSet(m: Meanings, s: Path, b: Slot)
    requires s != [] && !Refused(m, s) && !b.Prefix?
    ensures forall u :: u != [] ==>
              AfterSlot(Opened(m, s, |s| - 1)(u), s, b, map[], u) == Bind(m, s, b)(u)
  {
    forall u: Path | u != []
      ensures AfterSlot(Opened(m, s, |s| - 1)(u), s, b, map[], u) == Rebound(m(u), s, b, u)
    {
      assert Extends(s, u) <==> u <= s && |u| <= |s| - 1;
    }
  }

  /** An attempt to bind changes nothing exactly when a function is on the way; otherwise
      the sequence means what it was given, what leads to it is a map, what continues it
      means nothing, and everything else means what it did. */
  lemma BindSays(m: Meanings, s: Path, b: Slot, u: Path)
    requires !b.Prefix? && s != [] && u != []
    ensures var blocked := exists i :: 0 < i < |s| && m(s[..i]).Function?;
            Bind(m, s, b)(u) == if blocked then m(u)
                                else if u == s && b.Bound? then Function(b.func, b.param)
                                else if u == s then Nothing
                                else if |u| < |s| && s[..|u|] == u then Map
                                else if |s| < |u| && u[..|s|] == s then Nothing
                                else m(u)
  {
    assert Refused(m, s) <==> exists i :: 0 < i < |s| && m(s[..i]).Function?;
    assert Bind(m, s, b)(u) == if Refused(m, s) then m(u) else Rebound(m(u), s, b, u);
  }

  /** No bound sequence continues another. */
  lemma PrefixFree(m: Meanings, s: Path, t: Path)
    requires IsTrie(m) && s != [] && s <= t
    requires m(s).Function? && m(t).Function?
    ensures s == t
  {
  }

  /** The first `n` keys of what is typed. */
  function Beginning(input: nat -> Key, n: nat): (p: Path)
    ensures |p| == n
  {
    if n == 0 then [] else Beginning(input, n - 1) + [input(n - 1)]
  }

  lemma {:induction false} BeginningsExtend(input: nat -> Key, m: nat, n: nat)
    requires m <= n
    ensures Beginning(input, m) == Beginning(input, n)[..m]
  {
    if m < n {
      BeginningsExtend(input, m, n - 1);
    }
  }

  function OutcomeOf(m: Meaning): Outcome {
    match m
    case Function(f, p) => Ran(f, p)
    case _ => Empty
  }

  /** Following maps to the first key where they end finds the one beginning of the input
      that is bound to a function, if there is one. */
  lemma OneBoundBeginning(m: Meanings, input: nat -> Key, used: nat)
    requires IsTrie(m) && used > 0 && m(Beginning(input, used)) != Map
    requires forall j :: 0 < j < used ==> m(Beginning(input, j)) == Map
    ensures forall n :: n > 0 && m(Beginning(input, n)).Function? ==> n == used
    ensures OutcomeOf(m(Beginning(input, used))) == Empty <==>
            forall n :: n > 0 ==> !m(Beginning(input, n)).Function?
  {
    forall n: nat | n > used
      ensures m(Beginning(input, n)) == Nothing
    {
      BeginningsExtend(input, used, n);
      assert Extends(Beginning(input, n), Beginning(input, used));
    }
  }

  /** A sequence that is bound and then typed runs its function. */
  lemma BindThenType(m: Meanings, s: Path, b: Slot, input: nat -> Key, used: nat)
    requires IsTrie(m) && s != [] && !Refused(m, s) && b.Bound?
    requires Beginning(input, |s|) == s
    requires used > 0 && Bind(m, s, b)(Beginning(input, used)) != Map
    requires forall j :: 0 < j < used ==> Bind(m, s, b)(Beginning(input, j)) == Map
    ensures used == |s| && OutcomeOf(Bind(m, s, b)(Beginning(input, used))) == Ran(b.func, b.param)
  {
    assert Bind(m, s, b)(Beginning(input, |s|)) == Function(b.func, b.param);
    BeginningsExtend(input, if used < |s| then used else |s|, |s|);
    assert used < |s| ==> Extends(s, Beginning(input, used));
  }

  /** A run of attempts to bind sequences. */
  ghost function BindAll(m: Meanings, bindings: seq<(Path, Slot)>): Meanings {
    if bindings == [] then m
    else
      var last := bindings[|bindings| - 1];
      Bind(BindAll(m, bindings[..|bindings| - 1]), last.0, last.1)
  }

  /** Every trie met on the way is one: no run of bindings makes one bound sequence
      continue another. */
  lemma {:induction false} BindAllKeepsTrie(m: Meanings, bindings: seq<(Path, Slot)>)
    requires IsTrie(m)
    requires forall i :: 0 <= i < |bindings| ==> !bindings[i].1.Prefix?
    ensures IsTrie(BindAll(m, bindings))
  {
    if bindings != [] {
      var last := bindings[|bindings| - 1];
      BindAllKeepsTrie(m, bindings[..|bindings| - 1]);
      BindKeepsTrie(BindAll(m, bindings[..|bindings| - 1]), last.0, last.1);
    }
  }

  /** From an empty root table on, no run of bindings makes one bound sequence continue
      another. */
  lemma RunsArePrefixFree(bindings: seq<(Path, Slot)>, s: Path, t: Path)
    requires forall i :: 0 <= i < |bindings| ==> !bindings[i].1.Prefix?
    requires s != [] && s <= t
    requires BindAll(_ => Nothing, bindings)(s).Function? && BindAll(_ => Nothing, bindings)(t).Function?
    ensures s == t
  {
    NothingIsTrie();
    BindAllKeepsTrie(_ => Nothing, bindings);
    PrefixFree(BindAll(_ => Nothing, bindings), s, t);
  }

  /** Sequences of which none continues another. */
  ghost predicate Separate(bindings: seq<(Path, Slot)>) {
    && (forall i :: 0 <= i < |bindings| ==> bindings[i].0 != [] && bindings[i].1.Bound?)
    && (forall i, j :: 0 <= i < |bindings| && 0 <= j < |bindings| && i != j ==>
          !(bindings[i].0 <= bindings[j].0))
  }

  lemma {:induction false} SeparateNotRefused(bindings: seq<(Path, Slot)>)
    requires Separate(bindings) && bindings != []
    ensures !Refused(BindAll(_ => Nothing, bindings[..|bindings| - 1]), bindings[|bindings| - 1].0)
    decreases |bindings|, 0
  {
    var n := |bindings| - 1;
    var rest, s := bindings[..n], bindings[n].0;
    forall i | 0 < i < |s|
      ensures !BindAll(_ => Nothing, rest)(s[..i]).Function?
    {
      NothingElseBound(rest, s[..i]);
      assert forall j :: 0 <= j < n ==> rest[j] == bindings[j];
      assert s[..i] <= s;
    }
  }

  /** The last of separate sequences has nothing to do with the others. */
  lemma LastIsApart(bindings: seq<(Path, Slot)>, i: nat)
    requires Separate(bindings) && i + 1 < |bindings|
    ensures var s, u := bindings[|bindings| - 1].0, bindings[i].0;
            u != s && !Extends(s, u) && !Extends(u, s)
  {
    var s, u := bindings[|bindings| - 1].0, bindings[i].0;
    assert Extends(s, u) ==> u <= s;
    assert Extends(u, s) ==> s <= u;
  }

  /** Bound in any order, separate sequences are all bound in the end... */
  lemma {:induction false} SeparateAllBound(bindings: seq<(Path, Slot)>, i: nat)
    requires Separate(bindings) && i < |bindings|
    ensures BindAll(_ => Nothing, bindings)(bindings[i].0) == MeaningOf(bindings[i].1)
  {
    var n := |bindings| - 1;
    SeparateNotRefused(bindings);
    if i < n {
      LastIsApart(bindings, i);
      assert bindings[..n][i] == bindings[i];
      SeparateAllBound(bindings[..n], i);
    }
  }

  /** ... every function that is bound is one of theirs, and maps are on the way to them. */
  lemma {:induction false} NothingElseBound(bindings: seq<(Path, Slot)>, u: Path)
    requires Separate(bindings) && u != []
    ensures BindAll(_ => Nothing, bindings)(u).Function? ==>
              exists i :: 0 <= i < |bindings| && bindings[i].0 == u
    ensures BindAll(_ => Nothing, bindings)(u) == Map ==>
              exists i :: 0 <= i < |bindings| && Extends(bindings[i].0, u)
    decreases |bindings|, 1
  {
    if bindings != [] {
      var n := |bindings| - 1;
      var rest := bindings[..n];
      SeparateNotRefused(bindings);
      NothingElseBound(rest, u);
      if i :| 0 <= i < n && (rest[i].0 == u || Extends(rest[i].0, u)) {
        assert bindings[i] == rest[i];
      }
    }
  }

  /** Tables by the keys that lead to them. */
  type Nodes = map<Path, array<Slot>>

  ghost predicate AllTables(nodes: Nodes) {
    forall p :: p in nodes ==> nodes[p].Length == KEY_TABLE_SIZE
  }

  /** The tables reached from `root` form a tree: each is reached by one path only. */
  ghost predicate TreeOf(nodes: Nodes, root: array<Slot>)
    reads nodes.Values
  {
    && [] in nodes && nodes[[]] == root && AllTables(nodes)
    && (forall p, q :: p in nodes && q in nodes && p != q ==> nodes[p] != nodes[q])
    && (forall p: Path, k: Key {:trigger nodes[p][k]} :: p in nodes && nodes[p][k].Prefix? ==>
          p + [k] in nodes && nodes[p + [k]] == nodes[p][k].keys)
    && (forall p: Path, k: Key {:trigger p + [k]} :: p + [k] in nodes ==>
          p in nodes && nodes[p][k].Prefix?)
  }

  /** What a key sequence means in them. */
  ghost function MeansIn(nodes: Nodes, u: Path): Meaning
    requires AllTables(nodes) && u != []
    reads nodes.Values
  {
    var p, k := u[..|u| - 1], u[|u| - 1];
    if p in nodes then MeaningOf(nodes[p][k]) else Nothing
  }

  /** What `u` means after the slot that `q` leads to is set to `b`, which leads to the
      tables `sub`, if any. */
  ghost function AfterSlot(was: Meaning, q: Path, b: Slot, sub: Nodes, u: Path): Meaning
    requires AllTables(sub)
    reads sub.Values
  {
    if u == q then MeaningOf(b) else if Extends(u, q) then MeansIn(sub, u[|q|..]) else was
  }

  /** What `u` means after `s` is bound to `b`. */
  function Rebound(was: Meaning, s: Path, b: Slot, u: Path): Meaning {
    if u == s then MeaningOf(b)
    else if Extends(s, u) then Map
    else if Extends(u, s) then Nothing
    else was
  }

  /** The tables that are left when everything from `q` on is dropped. */
  ghost function Pruned(nodes: Nodes, q: Path): Nodes {
    map r | r in nodes && !(q <= r) :: nodes[r]
  }

  /** Where the tables `sub` are when `q` leads to them. */
  ghost function Under(sub: Nodes, q: Path): (s: set<Path>)
    ensures forall r :: r in s <==> q <= r && r[|q|..] in sub
  {
    assert forall x :: x in sub ==> (q + x)[|q|..] == x;
    assert forall r :: q <= r ==> r == q + r[|q|..];
    set x | x in sub :: q + x
  }

  /** ... and put there. */
  ghost function Grafted(nodes: Nodes, q: Path, sub: Nodes): Nodes {
    map r | r in Pruned(nodes, q).Keys + Under(sub, q) :: if q <= r then sub[r[|q|..]] else nodes[r]
  }

  /** A tree but for what the slot `k` of the table at `p` leads to. */
  ghost predicate TreeBut(nodes: Nodes, root: array<Slot>, p: Path, key: Key)
    reads nodes.Values
  {
    && [] in nodes && nodes[[]] == root && AllTables(nodes) && p in nodes
    && (forall p, q :: p in nodes && q in nodes && p != q ==> nodes[p] != nodes[q])
    && (forall r: Path, k: Key {:trigger nodes[r][k]} :: r in nodes && nodes[r][k].Prefix? && (r != p || k != key) ==>
          r + [k] in nodes && nodes[r + [k]] == nodes[r][k].keys)
    && (forall r: Path, k: Key {:trigger r + [k]} :: r + [k] in nodes && (r != p || k != key) ==>
          r in nodes && nodes[r][k].Prefix?)
  }

  /** How paths continue `q`, which ends with `key`. */
  lemma PathsUnder(p: Path, key: Key, r: Path, k: Key)
    ensures var q := p + [key];
            && (q <= r + [k] <==> q <= r || (r == p && k == key))
            && (q <= r ==> (r + [k])[|q|..] == r[|q|..] + [k] && r == q + r[|q|..])
            && !(q <= p) && (p + [key])[|q|..] == []
  {
    var q := p + [key];
    PrefixStep(q, r, k);
    assert (r + [k])[..|r|] == r && (r + [k])[|r|] == k;
    assert q[..|p|] == p && q[|p|] == key;
  }

  ghost predicate CanGraft(nodes: Nodes, root: array<Slot>, p: Path, key: Key, sub: Nodes)
    reads nodes.Values, sub.Values
  {
    && TreeBut(nodes, root, p, key) && sub.Values !! nodes.Values
    && if nodes[p][key].Prefix? then TreeOf(sub, nodes[p][key].keys) else sub == map[]
  }

  lemma GraftedOnce(nodes: Nodes, root: array<Slot>, p: Path, key: Key, sub: Nodes, r1: Path, r2: Path)
    requires CanGraft(nodes, root, p, key, sub)
    requires var g := Grafted(nodes, p + [key], sub); r1 in g && r2 in g && g[r1] == g[r2]
    ensures r1 == r2
  {
    var q, g := p + [key], Grafted(nodes, p + [key], sub);
    PathsUnder(p, key, r1, key);
    PathsUnder(p, key, r2, key);
    assert q <= r1 ==> g[r1] in sub.Values;
    assert q <= r2 ==> g[r2] in sub.Values;
    assert !(q <= r1) ==> g[r1] in nodes.Values;
    assert !(q <= r2) ==> g[r2] in nodes.Values;
  }

  lemma GraftedDown(nodes: Nodes, root: array<Slot>, p: Path, key: Key, sub: Nodes, r: Path, k: Key)
    requires CanGraft(nodes, root, p, key, sub)
    requires var g := Grafted(nodes, p + [key], sub); AllTables(g) && r in g && g[r][k].Prefix?
    ensures var g := Grafted(nodes, p + [key], sub); r + [k] in g && g[r + [k]] == g[r][k].keys
  {
    var q := p + [key];
    PathsUnder(p, key, r, k);
    if q <= r {
      assert r[|q|..] + [k] in sub;
    } else if r == p && k == key {
      assert [] in sub;
    }
  }

  lemma GraftedUp(nodes: Nodes, root: array<Slot>, p: Path, key: Key, sub: Nodes, r: Path, k: Key)
    requires CanGraft(nodes, root, p, key, sub)
    requires var g := Grafted(nodes, p + [key], sub); AllTables(g) && r + [k] in g
    ensures var g := Grafted(nodes, p + [key], sub); r in g && g[r][k].Prefix?
  {
    var q := p + [key];
    PathsUnder(p, key, r, k);
    if q <= r {
      assert r[|q|..] + [k] in sub;
    }
  }

  /** Tables put where there is room for them make a tree again. */
  lemma GraftedIsTree(nodes: Nodes, root: array<Slot>, p: Path, key: Key, sub: Nodes)
    requires CanGraft(nodes, root, p, key, sub)
    ensures TreeOf(Grafted(nodes, p + [key], sub), root)
  {
    var g := Grafted(nodes, p + [key], sub);
    PathsUnder(p, key, [], key);
    assert [] in g && g[[]] == root && AllTables(g);
    forall r1, r2 | r1 in g && r2 in g && g[r1] == g[r2]
      ensures r1 == r2
    {
      GraftedOnce(nodes, root, p, key, sub, r1, r2);
    }
    forall r: Path, k: Key | r in g && g[r][k].Prefix?
      ensures r + [k] in g && g[r + [k]] == g[r][k].keys
    {
      GraftedDown(nodes, root, p, key, sub, r, k);
    }
    forall r: Path, k: Key | r + [k] in g
      ensures r in g && g[r][k].Prefix?
    {
      GraftedUp(nodes, root, p, key, sub, r, k);
    }
  }

  lemma GraftedValues(nodes: Nodes, q: Path, sub: Nodes)
    ensures Grafted(nodes, q, sub).Values <= Pruned(nodes, q).Values + sub.Values
  {
    var g := Grafted(nodes, q, sub);
    forall a | a in g.Values
      ensures a in Pruned(nodes, q).Values + sub.Values
    {
      var r :| r in g && g[r] == a;
      assert if q <= r then r[|q|..] in sub else r in Pruned(nodes, q);
    }
  }

  /** What sequences mean once tables are put there: those that continue `q` what they mean
      from there on, the others what they did. */
  lemma GraftedMeans(nodes: Nodes, q: Path, sub: Nodes, u: Path)
    requires AllTables(nodes) && AllTables(sub) && u != [] && q != []
    ensures AllTables(Grafted(nodes, q, sub))
    ensures MeansIn(Grafted(nodes, q, sub), u) == if Extends(u, q) then MeansIn(sub, u[|q|..]) else MeansIn(nodes, u)
  {
    var p := u[..|u| - 1];
    if Extends(u, q) {
      assert q <= p && p[|q|..] == u[|q|..][..|u| - |q| - 1];
    } else {
      assert !(q <= p);
    }
  }

  ghost predicate IsBlank(keys: array<Slot>)
    reads keys
  {
    keys.Length == KEY_TABLE_SIZE && forall k :: 0 <= k < keys.Length ==> keys[k] == Unbound
  }

  /** A table with nothing bound is a tree of its own, where nothing means anything. */
  lemma BlankTree(keys: array<Slot>)
    requires IsBlank(keys)
    ensures var sub: Nodes := map[[] := keys];
            TreeOf(sub, keys) && sub.Values == {keys} && forall w: Path :: w != [] ==> MeansIn(sub, w) == Nothing
  {
    var sub: Nodes := map[[] := keys];
    assert sub[[]] == keys;
  }

  lemma BlankSlot(keys: array<Slot>, q: Path, was: Meaning, u: Path)
    requires IsBlank(keys)
    ensures AfterSlot(was, q, Prefix(keys), map[[] := keys], u)
            == if u == q then Map else if Extends(u, q) then Nothing else was
  {
    BlankTree(keys);
  }

  lemma GraftedRoot(nodes: Nodes, q: Path, sub: Nodes)
    requires [] in sub
    ensures q in Grafted(nodes, q, sub) && Grafted(nodes, q, sub)[q] == sub[[]]
  {
    assert q[|q|..] == [];
  }

  class KeyBindings {
    const keyBindings: array<Slot>              // the root table
    ghost var nodes: Nodes                      // every table, by the keys that lead to it
    ghost var freed: set<array<Slot>>           // the tables given back
    ghost var meaning: Meanings                 // what the tables amount to

    constructor ()
      ensures Valid() && fresh(nodes.Values) && fresh(keyBindings)
      ensures meaning == (_ => Nothing)
    {
      keyBindings := new Slot[KEY_TABLE_SIZE](_ => Unbound);
      nodes := map[[] := keyBindings];
      freed := {};
      meaning := _ => Nothing;
    }

    ghost predicate Tree()
      reads this, nodes.Values
    {
      TreeOf(nodes, keyBindings)
    }

    /** The tables form a tree, and none still in use was given back. */
    ghost predicate Sound()
      reads this, nodes.Values
    {
      Tree() && freed !! nodes.Values
    }

    /** The tables amount to `m`. */
    ghost predicate Amounts(m: Meanings)
      requires Tree()
      reads this, nodes.Values
    {
      forall u: Path :: u != [] ==> Means(u) == m(u)
    }

    ghost predicate Valid()
      reads this, nodes.Values
    {
      Sound() && Amounts(meaning)
    }

    ghost function Means(u: Path): Meaning
      requires Tree() && u != []
      reads this, nodes.Values
    {
      MeansIn(nodes, u)
    }

    /** The paths of the tables that free_key_map gives back when called on the one at
        `p`: those below it, but none that the last key of some table leads to. */
    ghost function Swept(p: Path): set<Path>
      reads this
    {
      set r | r in nodes && p <= r && KEY_TABLE_SIZE - 1 !in r[|p|..]
    }

    /** ... when the keys from `k` on are done. */
    ghost function SweptFrom(p: Path, k: nat): set<Path>
      reads this
    {
      set r | r in nodes && p < r && r[|p|] >= k && KEY_TABLE_SIZE - 1 !in r[|p|..]
    }

    ghost function Below(p: Path): set<Path>
      reads this
    {
      set r | r in nodes && p <= r
    }

    ghost function Tables(paths: set<Path>): set<array<Slot>>
      requires paths <= nodes.Keys
      reads this
    {
      set r | r in paths :: nodes[r]
    }

    /** Whatever has a table below it has a table. */
    lemma {:induction false} PathsToTables(q: Path, r: Path)
      requires Tree() && q <= r && r in nodes
      ensures q in nodes
    {
      if q != r {
        var k := r[|r| - 1];
        assert r == r[..|r| - 1] + [k];
        PathsToTables(q, r[..|r| - 1]);
      }
    }

    lemma SweepOne(p: Path, k: Key)
      requires Tree() && p in nodes && k < KEY_TABLE_SIZE - 1
      ensures SweptFrom(p, k) == SweptFrom(p, k + 1) + Swept(p + [k])
      ensures !nodes[p][k].Prefix? ==> Swept(p + [k]) == {}
      ensures SweptFrom(p, k + 1) !! Swept(p + [k])
    {
      forall r | r in nodes && p < r && r[|p|] == k
        ensures p + [k] <= r && r[|p|..] == [k] + r[|p| + 1..] && nodes[p][k].Prefix?
      {
        assert p + [k] <= r;
        PathsToTables(p + [k], r);
      }
      forall r | r in nodes && p + [k] <= r
        ensures p < r && r[|p|] == k
      {
      }
    }

    lemma SweepAll(p: Path)
      requires p in nodes
      ensures Swept(p) == SweptFrom(p, 0) + {p}
    {
      assert p[|p|..] == [];
      forall r | r in nodes
        ensures r in Swept(p) <==> r in SweptFrom(p, 0) || r == p
      {
        assert p <= r <==> p < r || r == p;
      }
    }

    /** Nothing is swept where there is no table, and what is swept goes out of use. */
    lemma SweptAway(p: Path, k: Key)
      requires Tree() && p in nodes
      ensures !nodes[p][k].Prefix? ==> Swept(p + [k]) == {}
      ensures Tables(Swept(p + [k])) !! Pruned(nodes, p + [k]).Values
    {
      if r :| r in nodes && p + [k] <= r {
        PathsToTables(p + [k], r);
      }
    }

    /** What can be put into a slot: a function, nothing, or a table that leads to a tree of
        tables of its own. */
    ghost predicate CanPut(b: Slot, sub: Nodes)
      reads this, sub.Values
    {
      && AllTables(sub) && sub.Values !! nodes.Values
      && if b.Prefix? then TreeOf(sub, b.keys) else sub == map[]
    }

    /** Put `b` into a slot.  Whatever the slot led to is out of reach from now on. */
    method SetSlot(keys: array<Slot>, key: Key, b: Slot, ghost sub: Nodes, ghost p: Path)
      requires Tree() && p in nodes && nodes[p] == keys && CanPut(b, sub)
      modifies `nodes, keys
      ensures Tree() && nodes == Grafted(old(nodes), p + [key], sub) && AllTables(sub)
      ensures forall u: Path :: u != [] ==> Means(u) == AfterSlot(old(Means(u)), p + [key], b, sub, u)
    {
      ghost var q, was := p + [key], nodes;
      WriteSlot(keys, key, b, p);
      GraftedIsTree(was, keyBindings, p, key, sub);
      nodes := Grafted(was, q, sub);
      forall u: Path | u != []
        ensures Means(u) == AfterSlot(old(Means(u)), q, b, sub, u)
      {
        GraftedMeans(was, q, sub, u);
      }
    }

    method WriteSlot(keys: array<Slot>, key: Key, b: Slot, ghost p: Path)
      requires Tree() && p in nodes && nodes[p] == keys
      modifies keys
      ensures TreeBut(nodes, keyBindings, p, key) && nodes[p][key] == b
      ensures forall u: Path :: u != [] ==>
                MeansIn(nodes, u) == if u == p + [key] then MeaningOf(b) else old(MeansIn(nodes, u))
    {
      keys[key] := b;
      forall u: Path | u != []
        ensures MeansIn(nodes, u) == if u == p + [key] then MeaningOf(b) else old(MeansIn(nodes, u))
      {
        LastKey(u, p, key);
      }
    }

    static lemma LastKey(u: Path, p: Path, key: Key)
      requires u != []
      ensures u == p + [key] <==> u[..|u| - 1] == p && u[|u| - 1] == key
    {
      assert u == u[..|u| - 1] + [u[|u| - 1]];
    }

    lemma ChildTable(p: Path, k: Key)
      requires Tree() && p in nodes && nodes[p][k].Prefix?
      ensures p + [k] in nodes && nodes[p + [k]] == nodes[p][k].keys
      ensures Below(p + [k]) < Below(p)
    {
      assert p in Below(p) && p !in Below(p + [k]);
    }

    lemma MeansHere(p: Path, k: Key)
      requires Tree() && p in nodes
      ensures Means(p + [k]) == MeaningOf(nodes[p][k])
    {
      assert (p + [k])[..|p|] == p;
    }

    /** Give back the memory of one table; it must not have been given back before. */
    ghost method Free(keys: array<Slot>)
      requires keys !in freed
      modifies `freed
      ensures freed == old(freed) + {keys}
    {
      freed := freed + {keys};
    }

    method FreeKeyMap(keys: array<Slot>, ghost p: Path)
      requires Tree() && p in nodes && nodes[p] == keys
      requires forall r :: r in nodes && p <= r ==> nodes[r] !in freed
      modifies `freed
      ensures freed == old(freed) + Tables(Swept(p))
      ensures forall r :: r in nodes ==>
                (nodes[r] in freed <==> nodes[r] in old(freed) || (p <= r && KEY_TABLE_SIZE - 1 !in r[|p|..]))
      decreases Below(p)
    {
      var tem: nat := KEY_TABLE_SIZE - 1;
      while tem > 0
        invariant tem <= KEY_TABLE_SIZE - 1
        invariant freed == old(freed) + Tables(SweptFrom(p, tem))
      {
        tem := tem - 1;
        SweepOne(p, tem);
        if keys[tem].Prefix? {
          ChildTable(p, tem);
          FreeKeyMap(keys[tem].keys, p + [tem]);
        }
      }
      SweepAll(p);
      Free(keys);
    }

    /** Bind one key of a table, giving back the tables it led to; the parameter of the
        function it was bound to before is returned. */
    method BindKeyInMap(key: nat, b: Slot, keys: array<Slot>, ghost p: Path) returns (ret: nat)
      requires Sound() && p in nodes && nodes[p] == keys && !b.Prefix?
      modifies `nodes, `freed, keys
      ensures Sound()
      ensures key >= KEY_TABLE_SIZE ==>
                nodes == old(nodes) && freed == old(freed) && keys[..] == old(keys[..]) && ret == 0
      ensures key < KEY_TABLE_SIZE ==>
                && nodes == Pruned(old(nodes), p + [key])
                && (forall u: Path :: u != [] ==>
                      Means(u) == AfterSlot(old(Means(u)), p + [key], b, map[], u))
                && freed == old(freed) + old(Tables(Swept(p + [key])))
                && ret == match old(keys[key]) case Bound(_, param) => param case _ => 0
    {
      ret := 0;
      if key < KEY_TABLE_SIZE {
        ghost var was := nodes;
        SweptAway(p, key);
        if keys[key].Prefix? {
          FreeKeyMap(keys[key].keys, p + [key]);
        } else if keys[key].Bound? {
          ret := keys[key].param;
        }
        SetSlot(keys, key, b, map[], p);
        assert nodes == Pruned(was, p + [key]);
      }
    }

    /** Make one key of a table lead to another, from which the tables `sub` are reached. */
    method BindKeyToMapInMap(key: nat, keys: array<Slot>, bindings: array<Slot>, ghost sub: Nodes, ghost p: Path)
        returns (ret: nat)
      requires Sound() && p in nodes && nodes[p] == bindings
      requires CanPut(Prefix(keys), sub) && sub.Values !! freed
      modifies `nodes, `freed, bindings
      ensures Sound() && AllTables(sub)
      ensures ret == if key < KEY_TABLE_SIZE then 1 else 0
      ensures ret == 0 ==>
                nodes == old(nodes) && freed == old(freed) && bindings[..] == old(bindings[..])
      ensures ret == 1 ==>
                && nodes == Grafted(old(nodes), p + [key], sub)
                && (forall u: Path :: u != [] ==>
                      Means(u) == AfterSlot(old(Means(u)), p + [key], Prefix(keys), sub, u))
                && freed == old(freed) + old(Tables(Swept(p + [key])))
    {
      ret := 0;
      if key < KEY_TABLE_SIZE {
        SweptAway(p, key);
        if bindings[key].Prefix? {
          FreeKeyMap(bindings[key].keys, p + [key]);
        }
        GraftedValues(nodes, p + [key], sub);
        SetSlot(bindings, key, Prefix(keys), sub, p);
        ret := 1;
      }
    }

    /** Whatever leads to a key sequence that is bound is a map. */
    lemma {:induction false} LedByMaps(u: Path, v: Path)
      requires Tree() && u != [] && Extends(v, u) && Means(v) != Nothing
      ensures Means(u) == Map
    {
      var w := v[..|v| - 1];
      PathsToTables(u, w);
      assert u == u[..|u| - 1] + [u[|u| - 1]];
    }

    /** The meanings are a trie whenever the tables are valid. */
    lemma MeaningIsTrie()
      requires Valid()
      ensures IsTrie(meaning)
    {
      forall u, v | u != [] && Extends(v, u) && meaning(v) != Nothing
        ensures meaning(u) == Map
      {
        LedByMaps(u, v);
      }
    }

    /** Bind one key at the root. */
    method BindKey(key: nat, b: Slot) returns (ret: nat)
      requires Valid() && !b.Prefix?
      modifies `nodes, `freed, `meaning, keyBindings
      ensures Valid()
      ensures meaning == if key < KEY_TABLE_SIZE then Bind(old(meaning), [key], b) else old(meaning)
      ensures ret == if key >= KEY_TABLE_SIZE then 0
                     else match old(meaning([key])) case Function(_, param) => param case _ => 0
    {
      if key < KEY_TABLE_SIZE {
        OneKey(meaning, key, b);
      }
      ret := BindKeyInMap(key, b, keyBindings, []);
      if key < KEY_TABLE_SIZE {
        meaning := Bind(meaning, [key], b);
      }
    }

    /** Setting a slot of the root is binding a sequence of one key. */
    static lemma OneKey(m: Meanings, key: Key, b: Slot)
      requires !b.Prefix?
      ensures [] + [key] == [key] && [key][..0] == []
      ensures forall u :: u != [] ==> AfterSlot(m(u), [] + [key], b, map[], u) == Bind(m, [key], b)(u)
    {
      assert [] + [key] == [key];
      OpenedThenSet(m, [key], b);
    }

    /** Whatever continues a key sequence bound to nothing is bound to nothing. */
    lemma NothingLeadsNowhere(q: Path)
      requires Tree() && q != [] && Means(q) == Nothing
      ensures forall u :: Extends(u, q) ==> Means(u) == Nothing
    {
      forall u | Extends(u, q)
        ensures Means(u) == Nothing
      {
        if Means(u) != Nothing {
          LedByMaps(q, u);
        }
      }
    }

    /** The first `n` keys of `s` lead to maps, the last of them to `table`, and nothing
        else has changed since the tables amounted to `meaning`. */
    ghost predicate Opening(s: Path, n: nat, table: array<Slot>)
      reads this, nodes.Values
    {
      && Sound() && n <= |s| && s[..n] in nodes && nodes[s[..n]] == table
      && Amounts(Opened(meaning, s, n))
    }

    /** Get from the table that the first `n` keys of `s` lead to to the next, making that
        if nothing is bound yet, or fail on a function. */
    method NextTable(s: Path, n: nat, table: array<Slot>) returns (next: array?<Slot>)
      requires n < |s| && Opening(s, n, table)
      modifies `nodes, `freed, table
      ensures freed == old(freed) && fresh(nodes.Values - old(nodes.Values))
      ensures (next == null) == meaning(s[..n + 1]).Function?
      ensures if next == null then Opening(s, n, table) else Opening(s, n + 1, next)
      ensures meaning(s[..n + 1]) != Nothing ==> nodes == old(nodes) && unchanged(table)
    {
      ghost var q := s[..n + 1];
      assert q == s[..n] + [s[n]] && q[..n] == s[..n];
      assert Means(q) == meaning(q);
      if table[s[n]].Bound? {
        next := null;
      } else if table[s[n]].Prefix? {
        next := table[s[n]].keys;
        OpenOneMore(meaning, s, n);
      } else {
        next := MakeTable(s, n, table);
      }
    }

    /** One more table on the way. */
    method MakeTable(s: Path, n: nat, table: array<Slot>) returns (newTable: array<Slot>)
      requires n < |s| && Opening(s, n, table) && table[s[n]].Unbound?
      modifies `nodes, `freed, table
      ensures freed == old(freed) && fresh(nodes.Values - old(nodes.Values))
      ensures Opening(s, n + 1, newTable)
    {
      ghost var q := s[..n + 1];
      assert q == s[..n] + [s[n]] && q[..n] == s[..n];
      NothingLeadsNowhere(q);
      newTable := BindNewTable(s[n], table, s[..n]);
      OpenOneMore(meaning, s, n);
    }

    /** A table with nothing bound, where nothing was bound. */
    method BindNewTable(key: Key, table: array<Slot>, ghost p: Path) returns (newTable: array<Slot>)
      requires Sound() && p in nodes && nodes[p] == table && table[key].Unbound?
      modifies `nodes, `freed, table
      ensures Sound() && freed == old(freed) && fresh(nodes.Values - old(nodes.Values))
      ensures p + [key] in nodes && nodes[p + [key]] == newTable
      ensures forall u: Path :: u != [] ==>
                Means(u) == if u == p + [key] then Map else if Extends(u, p + [key]) then Nothing else old(Means(u))
    {
      newTable := new Slot[KEY_TABLE_SIZE](_ => Unbound);
      BindBlank(key, newTable, table, p);
    }

    method BindBlank(key: Key, keys: array<Slot>, table: array<Slot>, ghost p: Path)
      requires Sound() && p in nodes && nodes[p] == table && table[key].Unbound?
      requires IsBlank(keys) && keys !in nodes.Values && keys !in freed
      modifies `nodes, `freed, table
      ensures Sound() && freed == old(freed) && nodes.Values <= old(nodes.Values) + {keys}
      ensures p + [key] in nodes && nodes[p + [key]] == keys
      ensures forall u: Path :: u != [] ==>
                Means(u) == if u == p + [key] then Map else if Extends(u, p + [key]) then Nothing else old(Means(u))
    {
      ghost var q, was := p + [key], nodes;
      ghost var sub: Nodes := map[[] := keys];
      SweptAway(p, key);
      BlankTree(keys);
      GraftedValues(was, q, sub);
      GraftedRoot(was, q, sub);
      var _ := BindKeyToMapInMap(key, keys, table, sub, p);
      forall u: Path | u != []
        ensures Means(u) == if u == q then Map else if Extends(u, q) then Nothing else old(Means(u))
      {
        BlankSlot(keys, q, old(Means(u)), u);
      }
    }

    /** Get to the table for the last key of `s`, making the tables missing on the way. */
    method LastTable(s: Path) returns (table: array?<Slot>)
      requires Valid() && s != []
      modifies `nodes, `freed, nodes.Values
      ensures freed == old(freed) && fresh(nodes.Values - old(nodes.Values))
      ensures (table == null) == Refused(meaning, s)
      ensures if table == null then Valid() && nodes == old(nodes) && unchanged(nodes.Values)
              else Opening(s, |s| - 1, table)
    {
      MeaningIsTrie();
      ghost var m, gone, made := meaning, freed, false;
      var size := |s| - 1;
      var tem := 0;
      table := keyBindings;
      while tem < size
        invariant 0 <= tem <= size && meaning == m && freed == gone
        invariant table != null && Opening(s, tem, table) && Passable(m, s, tem)
        invariant fresh(nodes.Values - old(nodes.Values))
        invariant made ==> tem > 0 && m(s[..tem]) == Nothing
        invariant !made ==> nodes == old(nodes) && unchanged(nodes.Values)
      {
        MapsLeadOn(m, s, tem);
        made := m(s[..tem + 1]) == Nothing;
        ghost var before := nodes.Values;
        table := NextTable(s, tem, table);
        assert nodes.Values - old(nodes.Values) <= (nodes.Values - before) + (before - old(nodes.Values));
        if table == null {
          OpenedUpToFunction(m, s, tem);
          return;
        }
        PassOneMore(m, s, tem);
        tem := tem + 1;
      }
    }

    method BindSequence(sequence: Path, b: Slot) returns (ret: nat)
      requires Valid() && !b.Prefix?
      modifies `nodes, `freed, `meaning, nodes.Values
      ensures Valid() && fresh(nodes.Values - old(nodes.Values))
      ensures meaning == Bind(old(meaning), sequence, b)
      ensures ret == if Refused(old(meaning), sequence) then 0 else 1
      ensures ret == 0 <==> exists i :: 0 < i < |sequence| && old(meaning)(sequence[..i]).Function?
      ensures ret == 0 ==> nodes == old(nodes) && freed == old(freed) && unchanged(nodes.Values)
    {
      if sequence == [] {
        return 1;
      }
      var table := LastTable(sequence);
      if table == null {
        return 0;
      }
      BindLast(sequence, b, table);
      return 1;
    }

    /** The last key. */
    method BindLast(s: Path, b: Slot, table: array<Slot>)
      requires s != [] && Opening(s, |s| - 1, table) && !b.Prefix? && !Refused(meaning, s)
      modifies `nodes, `freed, `meaning, table
      ensures Valid() && nodes.Values <= old(nodes.Values)
      ensures meaning == Bind(old(meaning), s, b)
    {
      ghost var m, size := meaning, |s| - 1;
      assert s == s[..size] + [s[size]];
      OpenedThenSet(m, s, b);
      var _ := BindKeyInMap(s[|s| - 1], b, table, s[..size]);
      meaning := Bind(m, s, b);
    }

    /** Run the function that the keys typed lead to from the table that the first `n` of
        them have led to. */
    method Interpret(keys: array<Slot>, input: nat -> Key, n: nat) returns (outcome: Outcome, used: nat)
      requires Tree() && Beginning(input, n) in nodes && nodes[Beginning(input, n)] == keys
      ensures n < used && forall j :: n < j < used ==> Means(Beginning(input, j)) == Map
      ensures Means(Beginning(input, used)) != Map
      ensures outcome == OutcomeOf(Means(Beginning(input, used)))
      decreases Below(Beginning(input, n))
    {
      var ch := input(n);
      ghost var p := Beginning(input, n);
      MeansHere(p, ch);
      used := n + 1;
      if keys[ch].Prefix? {
        ChildTable(p, ch);
        assert Means(Beginning(input, n + 1)) == Map;
        outcome, used := Interpret(keys[ch].keys, input, n + 1);
      } else if keys[ch].Bound? {
        outcome := Ran(keys[ch].func, keys[ch].param);
      } else {
        outcome := Empty;
      }
    }

    /** From the root: the function run is that of the one beginning of the input that is
        bound, and the keys read are exactly that beginning; 3 is returned if none is. */
    method InterpretLastInput(input: nat -> Key) returns (outcome: Outcome, used: nat)
      requires Valid()
      ensures used > 0 && outcome == OutcomeOf(meaning(Beginning(input, used)))
      ensures outcome == Empty <==> forall n :: n > 0 ==> !meaning(Beginning(input, n)).Function?
      ensures forall n :: n > 0 && meaning(Beginning(input, n)).Function? ==> n == used
      ensures forall j :: 0 < j < used ==> meaning(Beginning(input, j)) == Map
    {
      assert Beginning(input, 0) == [];
      outcome, used := Interpret(keyBindings, input, 0);
      MeaningIsTrie();
      OneBoundBeginning(meaning, input, used);
    }
  }
}
