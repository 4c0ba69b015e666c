/** Walking the menu tree without a stack, and writing every symbol once. */
module MenuWalk {
  import opened Exprs
  import opened MenuForest

  // ----- next_menu -----

  /** Climbing from m, at most d parents up, the first following sibling found is r; null at the top. */
  ghost predicate ClimbsTo(h: Links, m: Menu, r: Menu?, d: nat) {
    m in h &&
    if h[m].next != null then r == h[m].next
    else if h[m].parent == null then r == null
    else d > 0 && ClimbsTo(h, h[m].parent, r, d - 1)
  }

  ghost predicate FollowedBy(h: Links, m: Menu, r: Menu?, d: nat) {
    m in h && if h[m].list != null then r == h[m].list else ClimbsTo(h, m, r, d)
  }

  /** The entry after position i of a preorder; `r` after the last. */
  function After(s: seq<Menu>, i: nat, r: Menu?): Menu?
    requires i < |s|
  {
    if i + 1 < |s| then s[i + 1] else r
  }

  /**
   * In a forest below `par`, from which one climbs to r, every entry is followed by the next
   * one in preorder, and the last by r.
   */
  lemma {:induction false} PreorderFollows(h: Links, ts: seq<Tree>, head: Menu?, par: Menu, r: Menu?, d: nat, i: nat)
    returns (d': nat)
    requires Seg(h, ts, head, par, null) && ClimbsTo(h, par, r, d) && i < |Pre(ts)|
    ensures FollowedBy(h, Pre(ts)[i], After(Pre(ts), i, r), d')
  {
    var t, rest := ts[0], ts[1..];
    var m, k := t.m, Pre(t.kids);
    var r1 := if rest == [] then r else rest[0].m;
    ClimbsOn(h, ts, head, par, r, d);
    if i == 0 {
      d' := d + 1;
    } else if i <= |k| {
      assert Pre(ts)[i] == k[i - 1];
      d' := PreorderFollows(h, t.kids, h[m].list, m, r1, d + 1, i - 1);
      if i == |k| && rest != [] { assert Pre(ts)[i + 1] == Pre(rest)[0]; }
    } else {
      assert Pre(ts)[i] == Pre(rest)[i - 1 - |k|];
      d' := PreorderFollows(h, rest, h[m].next, par, r, d, i - 1 - |k|);
    }
  }

  /** From the first entry of a list one climbs to the second, or to where its parent climbs. */
  lemma ClimbsOn(h: Links, ts: seq<Tree>, head: Menu?, par: Menu, r: Menu?, d: nat)
    requires Seg(h, ts, head, par, null) && ClimbsTo(h, par, r, d) && ts != []
    ensures ClimbsTo(h, ts[0].m, if ts[1..] == [] then r else ts[1..][0].m, d + 1)
  {}

  class Walker {
    ghost const nodes: set<Menu>

    ghost constructor (nodes: set<Menu>)
      ensures this.nodes == nodes
    {
      this.nodes := nodes;
    }

    ghost function L(): Links
      reads nodes`next, nodes`list, nodes`parent
    {
      LinksOf(nodes)
    }

    /** The root entry, with the forest below it. */
    ghost predicate Rooted(root: Menu, kids: seq<Tree>)
      reads nodes`next, nodes`list, nodes`parent
    {
      root in nodes && root.next == null && root.parent == null && Seg(L(), kids, root.list, root, null)
    }

    /** Goes down if there is a list, else up until there is a sibling. */
    method NextMenu(menu: Menu, ghost r: Menu?, ghost d: nat) returns (next: Menu?)
      requires FollowedBy(L(), menu, r, d)
      ensures next == r
    {
      if menu.list != null { return menu.list; }
      var m: Menu := menu;
      ghost var left := d;
      while m.next == null
        invariant ClimbsTo(L(), m, r, left)
        decreases left
      {
        assert L()[m].next == m.next && L()[m].parent == m.parent;
        if m.parent == null { return null; }
        m := m.parent;
        left := left - 1;
      }
      assert L()[m].next == m.next;
      return m.next;
    }

    /** The loop over all entries visits them in preorder, each once. */
    method Next(root: Menu, ghost kids: seq<Tree>, menu: Menu, ghost i: nat) returns (next: Menu?)
      requires Rooted(root, kids) && i < |Pre(kids)| && menu == Pre(kids)[i]
      ensures next == After(Pre(kids), i, null)
    {
      ghost var d := PreorderFollows(L(), kids, root.list, root, null, 0, i);
      next := NextMenu(menu, After(Pre(kids), i, null), d);
    }

    /** Flags every symbol that some entry has. */
    method Flag(root: Menu, ghost kids: seq<Tree>) returns (force: set<Sym>)
      requires Rooted(root, kids)
      ensures force == Flagged(Pre(kids))
    {
      ghost var all := Pre(kids);
      force := {};
      var menu := root.list;
      ghost var i := 0;
      First(root, kids);
      assert all[..0] == [];
      while menu != null
        invariant 0 <= i <= |all| && menu == if i < |all| then all[i] else null
        invariant force == Flagged(all[..i])
        decreases |all| - i
      {
        if menu.sym.Some? { force := force + {menu.sym.value}; }
        assert all[..i + 1][..i] == all[..i];
        menu := Next(root, kids, menu, i);
        i := i + 1;
      }
      assert all[..i] == all;
    }

    lemma First(root: Menu, kids: seq<Tree>)
      requires Rooted(root, kids)
      ensures root.list == if |Pre(kids)| > 0 then Pre(kids)[0] else null
    {}
  }

  // ----- which symbols are written -----

  /** The symbols that some entry has. */
  function Flagged(ms: seq<Menu>): set<Sym> {
    if ms == [] then {}
    else Flagged(ms[..|ms| - 1]) + (if ms[|ms| - 1].sym.Some? then {ms[|ms| - 1].sym.value} else {})
  }

  /** Entries are visited in order; a symbol is written while its flag is set, which clears it. */
  function Written(ms: seq<Menu>, force: set<Sym>): seq<Sym> {
    if ms == [] then []
    else if ms[0].sym.Some? && !ms[0].isChoice && ms[0].sym.value in force then
      [ms[0].sym.value] + Written(ms[1..], force - {ms[0].sym.value})
    else Written(ms[1..], force)
  }

  lemma {:induction false} FlaggedHas(ms: seq<Menu>, m: Menu)
    requires m in ms && m.sym.Some?
    ensures m.sym.value in Flagged(ms)
  {
    if m != ms[|ms| - 1] {
      assert m in ms[..|ms| - 1];
      FlaggedHas(ms[..|ms| - 1], m);
    }
  }

  /** Every symbol of a non-choice entry is written exactly once, and nothing else is. */
  lemma {:induction false} WrittenOnce(ms: seq<Menu>, force: set<Sym>, x: Sym)
    ensures multiset(Written(ms, force))[x] ==
      if x in force && exists m :: m in ms && m.sym == Some(x) && !m.isChoice then 1 else 0
  {
    if ms != [] {
      var m, rest := ms[0], ms[1..];
      assert forall n :: n in ms <==> n == m || n in rest;
      if m.sym.Some? && !m.isChoice && m.sym.value in force {
        WrittenOnce(rest, force - {m.sym.value}, x);
        assert Written(ms, force) == [m.sym.value] + Written(rest, force - {m.sym.value});
      } else {
        WrittenOnce(rest, force, x);
      }
    }
  }

  lemma AllWrittenOnce(ms: seq<Menu>, x: Sym)
    ensures multiset(Written(ms, Flagged(ms)))[x] ==
      if exists m :: m in ms && m.sym == Some(x) && !m.isChoice then 1 else 0
  {
    WrittenOnce(ms, Flagged(ms), x);
    forall m | m in ms && m.sym == Some(x) && !m.isChoice
      ensures x in Flagged(ms)
    {
      FlaggedHas(ms, m);
    }
  }
}
