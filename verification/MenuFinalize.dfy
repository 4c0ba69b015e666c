/** menu_finalize: inherits dependencies, nests siblings, and hoists children of textless entries. */
module MenuFinalize {
  import opened Exprs
  import opened Sequences
  import opened Dependencies
  import opened MenuForest
  import opened MenuConditions
  import opened MenuArrange

  class Finalizer {
    ghost const nodes: set<Menu>
    /** The entries in the order in which they are finalised. */
    ghost var log: seq<Menu>

    /** The entries that have a text. */
    ghost const texted: set<Menu>

    /** The conditions that all entries will have in the end. */
    ghost const final: Conditions

    /** For the entries of the forest below the root. */
    ghost constructor (nodes: set<Menu>, root: Menu, kids: seq<Tree>)
      ensures this.nodes == nodes && log == [] && Texts()
      ensures final == Below(Entries(), [Node(root, kids)])
    {
      var e := map n | n in nodes :: Entry(n.dep, n.prompt, n.others);
      this.nodes := nodes;
      log := [];
      texted := TextSet(e);
      final := Below(e, [Node(root, kids)]);
      BelowTexts(e, [Node(root, kids)]);
    }

    /** No entry gets a text or loses it. */
    ghost predicate Texts()
      reads nodes`dep, nodes`prompt, nodes`others
    {
      TextSet(Entries()) == texted && TextSet(final) == texted
    }

    /** What is still to be inherited below `ts` leads to the final conditions of its entries. */
    ghost predicate Settles(ts: seq<Tree>)
      reads nodes`dep, nodes`prompt, nodes`others
    {
      SettlesTo(Entries(), ts, final)
    }

    /** The conditions of m are final. */
    ghost predicate Settled(m: Menu)
      reads nodes`dep, nodes`prompt, nodes`others
    {
      m in nodes && m in final && Entries()[m] == final[m]
    }

    ghost function L(): Links
      reads nodes`next, nodes`list, nodes`parent
    {
      LinksOf(nodes)
    }

    /** Pointers of entries outside `s` are as they were. */
    ghost predicate Outside(h: Links, s: seq<Menu>)
      reads nodes`next, nodes`list, nodes`parent
    {
      forall n :: n in nodes && n !in s ==> n in h && L()[n] == h[n]
    }

    // ----- hoisting -----

    method SetParent(m: Menu, p: Menu?)
      requires m in nodes
      modifies m`parent
      ensures L() == old(L())[m := old(L())[m].(parent := p)]
    {
      m.parent := p;
    }

    method SetNext(m: Menu, p: Menu?)
      requires m in nodes
      modifies m`next
      ensures L() == old(L())[m := old(L())[m].(next := p)]
    {
      m.next := p;
    }

    method SetList(m: Menu, p: Menu?)
      requires m in nodes
      modifies m`list
      ensures L() == old(L())[m := old(L())[m].(list := p)]
    {
      m.list := p;
    }

    /** Gives every entry of the first level of `kids` the parent `parent`; returns the last one. */
    method Adopt(first: Menu, ghost kids: seq<Tree>, parent: Menu, ghost before: Menu?) returns (last: Menu)
      requires kids != [] && Seg(L(), kids, first, before, null) && NoDup(Pre(kids))
      modifies nodes`parent
      ensures L() == Reparented(old(L()), Tops(kids), parent)
      ensures last == kids[|kids| - 1].m
    {
      ghost var h0 := L();
      ghost var i := 0;
      last := first;
      SegNext(h0, kids, first, before, null, 0);
      assert Reparented(h0, Tops(kids)[..0], parent) == h0;
      ReparentedStep(h0, Tops(kids), 0, parent);
      SetParent(last, parent);
      while last.next != null
        invariant 0 <= i < |kids| && last == kids[i].m && last in nodes
        invariant L() == Reparented(h0, Tops(kids)[..i + 1], parent)
        decreases |kids| - i
      {
        SegNext(h0, kids, first, before, null, i);
        assert L()[last].next == h0[last].next;
        last := last.next;
        i := i + 1;
        SegNext(h0, kids, first, before, null, i);
        ReparentedStep(h0, Tops(kids), i, parent);
        SetParent(last, parent);
      }
      SegNext(h0, kids, first, before, null, i);
      assert L()[last].next == h0[last].next;
      assert Tops(kids)[..i + 1] == Tops(kids);
    }

    /** Splices the list of `menu`, which ends with `last`, in behind it. */
    method Relink(menu: Menu, last: Menu)
      requires menu in nodes && last in nodes && menu != last
      modifies nodes`next, nodes`list
      ensures L() == Relinked(old(L()), menu, last)
    {
      SetNext(last, menu.next);
      ghost var h2 := L();
      SetNext(menu, menu.list);
      SetList(menu, null);
      assert L() == h2[menu := Link(h2[menu].list, null, h2[menu].parent)];
    }

    /** The children of `menu` are put behind it, as siblings. */
    method HoistChildren(menu: Menu, parent: Menu, ghost kids: seq<Tree>, ghost todo: seq<Tree>)
      requires menu in nodes && menu.list != null && menu.parent == parent
      requires Seg(L(), kids, menu.list, menu, null) && Seg(L(), todo, menu.next, parent, null)
      requires NoDup([menu] + Pre(kids) + Pre(todo))
      modifies nodes`next, nodes`list, nodes`parent
      ensures Seg(L(), [Node(menu, [])] + (kids + todo), menu, parent, null)
      ensures Outside(old(L()), [menu] + Pre(kids))
    {
      HoistFacts(L(), menu, parent, kids, todo);
      HoistedAt(L(), menu, parent, kids);
      HoistedRest(L(), menu, parent, kids, todo);
      var last := Adopt(menu.list, kids, parent, menu);
      Relink(menu, last);
    }

    /** Where the hoisting loop stands: `done` up to `menu`, `todo` from there. */
    ghost predicate Between(parent: Menu, done: seq<Tree>, todo: seq<Tree>, menu: Menu?, all: seq<Menu>)
      reads nodes`next, nodes`list, nodes`parent
    {
      && parent in nodes && NoDup([parent] + all)
      && Seg(L(), done, parent.list, parent, menu) && Seg(L(), todo, menu, parent, null)
      && Pre(done) + Pre(todo) == all
    }

    /** Where the loop stands, against the pointers at its beginning and the list that is to come out. */
    ghost predicate Hoisting(parent: Menu, done: seq<Tree>, todo: seq<Tree>, menu: Menu?, all: seq<Menu>, h0: Links, goal: seq<Tree>)
      reads nodes`next, nodes`list, nodes`parent
    {
      Between(parent, done, todo, menu, all) && Outside(h0, all) && done + Lifted(todo, texted) == goal
    }

    /** Hoists the children of every entry of the list that has no text of its own. */
    method HoistAll(parent: Menu, ghost kids: seq<Tree>) returns (ghost kids': seq<Tree>)
      requires parent in nodes && Seg(L(), kids, parent.list, parent, null) && NoDup([parent] + Pre(kids))
      requires Texts()
      modifies nodes`next, nodes`list, nodes`parent
      ensures Seg(L(), kids', parent.list, parent, null)
      ensures Pre(kids') == Pre(kids)
      ensures Outside(old(L()), Pre(kids))
      ensures kids' == Lifted(kids, texted)
    {
      ghost var todo, h0 := kids, L();
      ghost var all, goal := Pre(kids), Lifted(kids, texted);
      kids' := [];
      var menu := parent.list;
      assert Pre(kids') + Pre(todo) == all && [] + goal == goal;
      while menu != null
        invariant Hoisting(parent, kids', todo, menu, all, h0, goal)
        decreases |Pre(todo)|
      {
        ghost var t;
        menu, t, todo := HoistStep(parent, menu, kids', todo, all, h0, goal);
        kids' := kids' + [t];
      }
      HoistingEnds(parent, kids', todo, all, h0, goal);
    }

    lemma HoistingEnds(parent: Menu, done: seq<Tree>, todo: seq<Tree>, all: seq<Menu>, h0: Links, goal: seq<Tree>)
      requires Hoisting(parent, done, todo, null, all, h0, goal)
      ensures Seg(L(), done, parent.list, parent, null) && Pre(done) == all && done == goal
    {
      assert todo == [] && Pre(todo) == [] && done + [] == done;
    }

    method HoistStep(parent: Menu, menu: Menu, ghost done: seq<Tree>, ghost todo: seq<Tree>, ghost all: seq<Menu>, ghost h0: Links, ghost goal: seq<Tree>)
      returns (next: Menu?, ghost t: Tree, ghost todo': seq<Tree>)
      requires Hoisting(parent, done, todo, menu, all, h0, goal) && Texts()
      modifies nodes`next, nodes`list, nodes`parent
      ensures Hoisting(parent, done + [t], todo', next, all, h0, goal)
      ensures |Pre(todo')| < |Pre(todo)|
    {
      t, todo' := HoistIfTextless(parent, menu, done, todo, all);
      PreCons(t, todo');
      OneMore(done, t, Lifted(todo', texted));
      StepOn(L(), parent, done, t, todo', menu);
      next := menu.next;
    }

    method HoistIfTextless(parent: Menu, menu: Menu, ghost done: seq<Tree>, ghost todo: seq<Tree>, ghost all: seq<Menu>)
      returns (ghost t: Tree, ghost todo': seq<Tree>)
      requires Between(parent, done, todo, menu, all)
      requires Texts()
      modifies nodes`next, nodes`list, nodes`parent
      ensures Between(parent, done, [t] + todo', menu, all)
      ensures Outside(old(L()), all)
      ensures |Pre(todo')| < |Pre(todo)|
      ensures Lifted(todo, texted) == [t] + Lifted(todo', texted)
    {
      t, todo' := todo[0], todo[1..];
      assert todo == [t] + todo';
      LiftedMeasure(todo);
      LiftedStep(t, todo', texted);
      StepOn(L(), parent, done, t, todo', menu);
      assert menu in texted <==> HasText(menu);
      if menu.list != null && !HasText(menu) {
        HoistOne(parent, menu, done, t, todo', all);
        t, todo' := Node(menu, []), t.kids + todo';
      }
    }

    method HoistOne(parent: Menu, menu: Menu, ghost done: seq<Tree>, ghost t: Tree, ghost rest: seq<Tree>, ghost all: seq<Menu>)
      requires menu in nodes && menu.list != null && Between(parent, done, [t] + rest, menu, all)
      modifies nodes`next, nodes`list, nodes`parent
      ensures t.m == menu && Between(parent, done, [Node(menu, [])] + (t.kids + rest), menu, all)
      ensures Outside(old(L()), all)
    {
      ghost var h := L();
      SegStep(h, done, t, rest, parent.list, menu, parent, null);
      PreStep(done, t, rest);
      PreHoist(t, rest);
      NoDupAround(parent, Pre(done), menu, Pre(t.kids), Pre(rest));
      SegKnown(h, done, parent.list, parent, menu);
      HoistChildren(menu, parent, t.kids, rest);
      SegFrame(h, L(), done, parent.list, parent, menu);
    }

    // ----- dependencies -----

    ghost function Entries(): Conditions
      reads nodes`dep, nodes`prompt, nodes`others
    {
      map n | n in nodes :: Entry(n.dep, n.prompt, n.others)
    }

    /** What the entries below `parent` inherit. */
    function Inherited(parent: Menu): Option<Expr>
      reads parent`prompt, parent`dep
    {
      if parent.sym.Some? && parent.isChoice then Some(Leaf(parent.sym.value))
      else if parent.prompt.Some? then parent.prompt.value.visible
      else parent.dep
    }

    /** Gives every entry of the list a new condition and prompt, computed from its own. */
    method UpdateEntries(parent: Menu, ghost kids: seq<Tree>, combine: Combine, relax: Relax)
      requires parent in nodes && Seg(L(), kids, parent.list, parent, null) && NoDup([parent] + Pre(kids))
      modifies nodes`dep, nodes`prompt, nodes`others
      ensures Entries() == Updated(old(Entries()), Tops(kids), combine, relax)
    {
      var menu := parent.list;
      ghost var i := 0;
      ghost var tops, e0 := Tops(kids), Entries();
      DistinctTops(kids, parent);
      if kids != [] { SegNext(L(), kids, parent.list, parent, null, 0); }
      assert Updated(e0, tops[..0], combine, relax) == e0;
      while menu != null
        invariant 0 <= i <= |tops| && menu == if i < |tops| then tops[i] else null
        invariant Entries() == Updated(e0, tops[..i], combine, relax)
        decreases |tops| - i
      {
        SegNext(L(), kids, parent.list, parent, null, i);
        UpdateAt(menu, tops, i, e0, combine, relax);
        menu := menu.next;
        i := i + 1;
      }
      assert tops[..i] == tops;
    }

    method UpdateAt(menu: Menu, ghost tops: seq<Menu>, ghost i: nat, ghost e0: Conditions, combine: Combine, relax: Relax)
      requires i < |tops| && menu == tops[i] && menu in nodes && forall j :: 0 <= j < i ==> tops[j] != menu
      requires Entries() == Updated(e0, tops[..i], combine, relax)
      modifies menu`dep, menu`prompt, menu`others
      ensures Entries() == Updated(e0, tops[..i + 1], combine, relax)
    {
      assert menu in Updated(e0, tops[..i], combine, relax);
      UpdatedStep(e0, tops, i, combine, relax);
      UpdateEntry(menu, combine, relax);
    }

    /** The loop over the properties of an entry, the prompt first. */
    method UpdateEntry(menu: Menu, combine: Combine, relax: Relax)
      requires menu in nodes
      modifies menu`dep, menu`prompt, menu`others
      ensures Entries() == old(Entries())[menu := NewEntry(menu, old(Entries())[menu], combine, relax)]
    {
      menu.dep := combine(menu.dep);
      if menu.prompt.Some? {
        menu.prompt := Some(menu.prompt.value.(visible := relax(menu, menu.dep, menu.prompt.value.visible)));
      }
      UpdateOthers(menu, relax);
    }

    method UpdateOthers(menu: Menu, relax: Relax)
      modifies menu`others
      ensures menu.others == NewOthers(menu, menu.dep, old(menu.others), relax)
    {
      ghost var others, all' := menu.others, NewOthers(menu, menu.dep, menu.others, relax);
      var i := 0;
      while i < |menu.others|
        invariant i <= |menu.others| == |others|
        invariant forall j :: 0 <= j < |others| ==> menu.others[j] == if j < i then all'[j] else others[j]
      {
        menu.others := menu.others[i := relax(menu, menu.dep, menu.others[i])];
        i := i + 1;
      }
    }

    /** Every child combines its condition with the inherited one, and its prompt with the result. */
    method InheritDeps(parent: Menu, ghost kids: seq<Tree>)
      requires parent in nodes && Seg(L(), kids, parent.list, parent, null) && NoDup([parent] + Pre(kids))
      modifies nodes`dep, nodes`prompt, nodes`others
      ensures Entries() == Updated(old(Entries()), Tops(kids), Combining(old(Inherited(parent))), Relaxing())
      ensures Entries() == Passed(old(Entries()), parent, kids)
      ensures old(Texts()) ==> Texts()
    {
      ghost var e0 := Entries();
      assert Inherited(parent) == InheritedBy(parent, e0[parent]);
      UpdateEntries(parent, kids, Combining(Inherited(parent)), Relaxing());
      PassedTexts(e0, parent, kids);
    }

    // ----- the recursion -----

    /** The condition under which an entry is shown. */
    function Condition(m: Menu): Option<Expr>
      reads m`prompt, m`dep
    {
      if m.prompt.Some? then m.prompt.value.visible else m.dep
    }

    /** Everything that `parent` may touch: itself, what is below it and what follows it. */
    ghost predicate Own(parent: Menu, kids: seq<Tree>, rest: seq<Tree>, par: Menu?, all: seq<Menu>)
      reads nodes`next, nodes`list, nodes`parent
    {
      parent in nodes && Family(L(), parent, kids, rest, par, all)
    }

    /**
     * Finalises `parent`, whose children are `kids` and whose following siblings are `rest`.
     * Following siblings may become children; the preorder of all entries stays the same, every
     * entry at or below `parent` is finalised once, in preorder, and the parent pointers of all
     * entries are those of the new structure.
     */
    method Finalize(parent: Menu, ghost kids: seq<Tree>, ghost rest: seq<Tree>, ghost par: Menu?, ghost all: seq<Menu>, ghost e0: Conditions)
      returns (ghost kids': seq<Tree>, ghost rest': seq<Tree>)
      requires Own(parent, kids, rest, par, all)
      requires Texts() && e0 == Entries()
      requires Settles([Node(parent, kids)] + rest)
      modifies this`log, nodes`next, nodes`list, nodes`parent, nodes`dep, nodes`prompt, nodes`others
      ensures Own(parent, kids', rest', par, all)
      ensures Suffix(rest', rest)
      ensures log == old(log) + ([parent] + Pre(kids'))
      ensures Outside(old(L()), [parent] + all)
      ensures Entries() == Below(e0, [Node(parent, kids)] + Taken(rest, rest')) && Texts()
      ensures Textual(kids', texted)
      ensures Placed(kids', rest') == Arrange(final, Node(parent, kids), rest)
      decreases |all|, 11
    {
      kids', rest' := FinalizeEntry(parent, kids, rest, par, all, e0);
      LiftedTextual(kids', texted);
      kids' := HoistBelow(parent, kids', rest', par, all);
    }

    method FinalizeEntry(parent: Menu, ghost kids: seq<Tree>, ghost rest: seq<Tree>, ghost par: Menu?, ghost all: seq<Menu>, ghost e0: Conditions)
      returns (ghost kids': seq<Tree>, ghost rest': seq<Tree>)
      requires Own(parent, kids, rest, par, all)
      requires Texts() && e0 == Entries()
      requires Settles([Node(parent, kids)] + rest)
      modifies this`log, nodes`next, nodes`list, nodes`parent, nodes`dep, nodes`prompt, nodes`others
      ensures Own(parent, kids', rest', par, all)
      ensures Suffix(rest', rest)
      ensures log == old(log) + ([parent] + Pre(kids'))
      ensures Outside(old(L()), [parent] + all)
      ensures Entries() == Below(e0, [Node(parent, kids)] + Taken(rest, rest')) && Texts()
      ensures Loose(kids', texted)
      ensures Placed(kids', rest') == Gather(final, Node(parent, kids), rest)
      decreases |all|, 10
    {
      ghost var log0, h0 := log, L();
      log := log + [parent];
      assert L() == h0 && Entries() == e0;
      kids', rest' := Restructure(parent, kids, rest, par, all, e0);
      Assoc(log0, [parent], Pre(kids'), []);
    }

    /** The two ways an entry gets its children: it has a list, or it absorbs what follows. */
    method Restructure(parent: Menu, ghost kids: seq<Tree>, ghost rest: seq<Tree>, ghost par: Menu?, ghost all: seq<Menu>, ghost e0: Conditions)
      returns (ghost kids': seq<Tree>, ghost rest': seq<Tree>)
      requires Own(parent, kids, rest, par, all)
      requires Texts() && e0 == Entries()
      requires Settles([Node(parent, kids)] + rest)
      modifies this`log, nodes`next, nodes`list, nodes`parent, nodes`dep, nodes`prompt, nodes`others
      ensures Own(parent, kids', rest', par, all)
      ensures Suffix(rest', rest)
      ensures log == old(log) + Pre(kids')
      ensures Outside(old(L()), [parent] + all)
      ensures Entries() == Below(e0, [Node(parent, kids)] + Taken(rest, rest')) && Texts()
      ensures Loose(kids', texted)
      ensures Placed(kids', rest') == Gather(final, Node(parent, kids), rest)
      decreases |all|, 9
    {
      if parent.list != null {
        kids' := FinalizeBelow(parent, kids, rest, par, all);
        rest' := rest;
        assert [Node(parent, kids)] + Taken(rest, rest') == [Node(parent, kids)];
      } else {
        assert kids == [];
        SettledEntry(parent, kids, rest, par, all);
        kids', rest' := AbsorbIfSymbol(parent, rest, par, all, e0);
        BelowLeaf(e0, parent, Taken(rest, rest'));
      }
    }

    lemma SettledEntry(parent: Menu, kids: seq<Tree>, rest: seq<Tree>, par: Menu?, all: seq<Menu>)
      requires Own(parent, kids, rest, par, all) && kids == [] && Settles([Node(parent, kids)] + rest)
      ensures Settles(rest) && Settled(parent)
    {
      var t := Node(parent, []);
      PreOwn(t, rest);
      SettledTop(Entries(), [t] + rest, final, parent);
      BelowLeaf(Entries(), parent, rest);
      assert [t] + rest == [Node(parent, kids)] + rest;
    }

    lemma SettledKids(parent: Menu, kids: seq<Tree>, rest: seq<Tree>, par: Menu?, all: seq<Menu>)
      requires Own(parent, kids, rest, par, all) && Settles([Node(parent, kids)] + rest)
      ensures SettlesTo(Passed(Entries(), parent, kids), kids, final)
    {
      var t := Node(parent, kids);
      PreOwn(t, rest);
      SettlesKids(Entries(), t, rest, final);
    }

    method AbsorbIfSymbol(parent: Menu, ghost rest: seq<Tree>, ghost par: Menu?, ghost all: seq<Menu>, ghost e0: Conditions)
      returns (ghost kids': seq<Tree>, ghost rest': seq<Tree>)
      requires parent.list == null && Own(parent, [], rest, par, all)
      requires Texts() && e0 == Entries()
      requires Settles(rest) && Settled(parent)
      modifies this`log, nodes`next, nodes`list, nodes`parent, nodes`dep, nodes`prompt, nodes`others
      ensures Own(parent, kids', rest', par, all)
      ensures Suffix(rest', rest)
      ensures log == old(log) + Pre(kids')
      ensures Outside(old(L()), [parent] + all)
      ensures Entries() == Below(e0, Taken(rest, rest')) && Texts()
      ensures Loose(kids', texted)
      ensures Placed(kids', rest') == if parent.sym.Some? then Absorb(final, parent, rest) else Placed([], rest)
      decreases |all|, 8
    {
      if parent.sym.None? {
        kids', rest' := [], rest;
        assert Suffix(rest', rest);
        assert log == old(log) + Pre(kids');
      } else {
        kids', rest' := AbsorbSiblings(parent, rest, par, all, e0);
      }
    }

    method HoistBelow(parent: Menu, ghost kids: seq<Tree>, ghost rest: seq<Tree>, ghost par: Menu?, ghost all: seq<Menu>)
      returns (ghost kids': seq<Tree>)
      requires Own(parent, kids, rest, par, all)
      requires Texts()
      modifies nodes`next, nodes`list, nodes`parent
      ensures Own(parent, kids', rest, par, all)
      ensures Pre(kids') == Pre(kids)
      ensures Outside(old(L()), all)
      ensures kids' == Lifted(kids, texted)
      ensures Entries() == old(Entries())
    {
      ghost var h := L();
      FamilyKids(h, parent, kids, rest, par, all);
      kids' := HoistAll(parent, kids);
      FamilyBelow(h, L(), parent, kids, kids', rest, par, all);
    }

    /** An entry that has children: they inherit its condition and are finalised one by one. */
    method FinalizeBelow(parent: Menu, ghost kids: seq<Tree>, ghost rest: seq<Tree>, ghost par: Menu?, ghost all: seq<Menu>)
      returns (ghost kids': seq<Tree>)
      requires Own(parent, kids, rest, par, all)
      requires Texts() && Settles([Node(parent, kids)] + rest)
      modifies this`log, nodes`next, nodes`list, nodes`parent, nodes`dep, nodes`prompt, nodes`others
      ensures Own(parent, kids', rest, par, all)
      ensures log == old(log) + Pre(kids')
      ensures Outside(old(L()), all)
      ensures Entries() == Below(old(Entries()), [Node(parent, kids)]) && Texts()
      ensures Loose(kids', texted) && kids' == ArrangeList(final, kids)
      decreases |all|, 3
    {
      ghost var h := L();
      FamilyKids(h, parent, kids, rest, par, all);
      SettledKids(parent, kids, rest, par, all);
      kids' := InheritAndFinalize(parent, kids, Entries());
      FamilyBelow(h, L(), parent, kids, kids', rest, par, all);
    }

    method InheritAndFinalize(parent: Menu, ghost kids: seq<Tree>, ghost e0: Conditions) returns (ghost kids': seq<Tree>)
      requires parent in nodes && Seg(L(), kids, parent.list, parent, null) && NoDup([parent] + Pre(kids))
      requires Texts() && e0 == Entries()
      requires SettlesTo(Passed(e0, parent, kids), kids, final)
      modifies this`log, nodes`next, nodes`list, nodes`parent, nodes`dep, nodes`prompt, nodes`others
      ensures Seg(L(), kids', parent.list, parent, null)
      ensures Pre(kids') == Pre(kids)
      ensures log == old(log) + Pre(kids')
      ensures Outside(old(L()), Pre(kids))
      ensures Entries() == Below(e0, [Node(parent, kids)]) && Texts()
      ensures Loose(kids', texted) && kids' == ArrangeList(final, kids)
      decreases |Pre(kids)|, 2
    {
      ghost var h0 := L();
      InheritDeps(parent, kids);
      assert L() == h0;
      kids' := FinalizeChildren(parent, kids);
      BelowOne(e0, parent, kids);
    }

    method FinalizeChildren(parent: Menu, ghost kids: seq<Tree>) returns (ghost kids': seq<Tree>)
      requires parent in nodes && Seg(L(), kids, parent.list, parent, null) && NoDup([parent] + Pre(kids))
      requires Texts() && Settles(kids)
      modifies this`log, nodes`next, nodes`list, nodes`parent, nodes`dep, nodes`prompt, nodes`others
      ensures Seg(L(), kids', parent.list, parent, null)
      ensures Pre(kids') == Pre(kids)
      ensures log == old(log) + Pre(kids')
      ensures Outside(old(L()), Pre(kids))
      ensures Entries() == Below(old(Entries()), kids) && Texts()
      ensures Loose(kids', texted) && kids' == ArrangeList(final, kids)
      decreases |Pre(kids)|, 1
    {
      ghost var todo, log0 := kids, log;
      ghost var all, goal := Pre(kids), Below(Entries(), kids);
      SegKnown(L(), kids, parent.list, parent, null);
      kids' := [];
      var menu := parent.list;
      assert Pre(kids') + Pre(todo) == all;
      while menu != null
        invariant Between(parent, kids', todo, menu, all)
        invariant Outside(old(L()), all)
        invariant log == log0 + Pre(kids')
        invariant Known(Entries(), todo) && Below(Entries(), todo) == goal && Texts() && Loose(kids', texted)
        invariant Settles(todo) && kids' + ArrangeList(final, todo) == ArrangeList(final, kids)
        decreases |Pre(todo)|
      {
        ghost var t;
        assert |Pre(todo)| <= |all|;
        ghost var e1, todo1 := Entries(), todo;
        menu, t, todo := FinalizeStep(parent, menu, kids', todo, all);
        BelowAll(e1, todo1, todo);
        SettlesRest(e1, todo1, todo, final);
        ListStep(final, todo1, t.kids, todo);
        OneMore(kids', t, ArrangeList(final, todo));
        KnownSuffix(Entries(), todo1, todo);
        Assoc(log0, Pre(kids'), [t.m] + Pre(t.kids), []);
        kids' := kids' + [t];
      }
      assert Pre(todo) == [];
    }

    method FinalizeStep(parent: Menu, menu: Menu, ghost done: seq<Tree>, ghost todo: seq<Tree>, ghost all: seq<Menu>)
      returns (next: Menu?, ghost t: Tree, ghost todo': seq<Tree>)
      requires Between(parent, done, todo, menu, all)
      requires Texts() && Settles(todo)
      modifies this`log, nodes`next, nodes`list, nodes`parent, nodes`dep, nodes`prompt, nodes`others
      ensures Between(parent, done + [t], todo', next, all)
      ensures Outside(old(L()), all)
      ensures |Pre(todo')| < |Pre(todo)|
      ensures Pre(done + [t]) == Pre(done) + ([t.m] + Pre(t.kids))
      ensures log == old(log) + ([t.m] + Pre(t.kids))
      ensures Suffix(todo', todo) && Entries() == Below(old(Entries()), Taken(todo, todo')) && Texts()
      ensures Textual(t.kids, texted) && todo != [] && t.m == todo[0].m
      ensures Placed(t.kids, todo') == Arrange(final, todo[0], todo[1..])
      decreases |Pre(todo)|, 0
    {
      ghost var t0, r0 := todo[0], todo[1..];
      assert todo == [t0] + r0;
      ghost var h := L();
      StepInto(h, done, t0, r0, parent.list, menu, parent, parent, all);
      ghost var own := Pre(t0.kids) + Pre(r0);
      ghost var kids';
      kids', todo' := Finalize(menu, t0.kids, r0, parent, own, Entries());
      TakenFirst(t0, r0, todo');
      assert t0 == Node(menu, t0.kids);
      t := Node(menu, kids');
      StepOut(h, L(), done, t, todo', parent.list, parent);
      next := menu.next;
    }

    /** Where the absorbing loop stands: `done` up to `menu` belongs to `parent`, `todo` to its own parent. */
    ghost predicate Absorbing(parent: Menu, done: seq<Tree>, todo: seq<Tree>, menu: Menu?, par: Menu?, all: seq<Menu>)
      reads nodes`next, nodes`list, nodes`parent
    {
      && parent in nodes && NoDup([parent] + all)
      && L()[parent].parent == par && L()[parent].list == null
      && Seg(L(), done, L()[parent].next, parent, menu) && Seg(L(), todo, menu, par, null)
      && Pre(done) + Pre(todo) == all
    }

    /** Which conditions of a following sibling make it a child of `parent`. */
    function Decision(parent: Menu): Option<Expr> -> bool
      requires parent.sym.Some?
      reads parent`prompt
    {
      var visible := if parent.prompt.Some? then parent.prompt.value.visible else None;
      c => Nests(visible, parent.sym.value, c)
    }

    /** Siblings that depend on the symbol of `parent`, or are hidden whenever it is, become its children. */
    method AbsorbSiblings(parent: Menu, ghost rest: seq<Tree>, ghost par: Menu?, ghost all: seq<Menu>, ghost e0: Conditions)
      returns (ghost kids': seq<Tree>, ghost rest': seq<Tree>)
      requires parent.sym.Some? && parent.list == null && Own(parent, [], rest, par, all)
      requires Texts() && e0 == Entries()
      requires Settles(rest) && Settled(parent)
      modifies this`log, nodes`next, nodes`list, nodes`parent, nodes`dep, nodes`prompt, nodes`others
      ensures Own(parent, kids', rest', par, all)
      ensures Suffix(rest', rest)
      ensures log == old(log) + Pre(kids')
      ensures Outside(old(L()), [parent] + all)
      ensures Entries() == Below(e0, Taken(rest, rest')) && Texts()
      ensures Loose(kids', texted)
      ensures Placed(kids', rest') == Absorb(final, parent, rest)
      ensures LongestRun(final, parent, rest, kids', rest')
      decreases |all|, 7
    {
      AbsorbsLongestRun(final, parent, rest);
      kids', rest' := AbsorbWhile(parent, rest, par, all, Decision(parent), e0);
    }

    /** The decision about an entry is the one its final condition calls for. */
    ghost predicate Decides(nests: Option<Expr> -> bool, parent: Menu) {
      forall n :: n in final ==> (nests(ConditionOf(final[n])) <==> NestsUnder(final, parent, n))
    }

    /** What is taken in of `rest` is `done` and what will be taken in of `todo`. */
    ghost predicate Progress(parent: Menu, rest: seq<Tree>, done: seq<Tree>, todo: seq<Tree>) {
      var p := Absorb(final, parent, todo);
      Absorb(final, parent, rest) == Placed(done + p.kids, p.rest)
    }

    lemma ProgressStep(parent: Menu, rest: seq<Tree>, done: seq<Tree>, todo: seq<Tree>, t: Tree, todo': seq<Tree>)
      requires Progress(parent, rest, done, todo) && todo != [] && NestsUnder(final, parent, todo[0].m)
      requires t.m == todo[0].m && Placed(t.kids, todo') == Arrange(final, todo[0], todo[1..])
      ensures Progress(parent, rest, done + [t], todo')
    {
      AbsorbTurnOf(final, parent, todo, t.kids, todo');
      assert t == Node(todo[0].m, t.kids);
      OneMore(done, t, Absorb(final, parent, todo').kids);
    }

    /** The condition looked at in the loop is final. */
    lemma HeadDecided(nests: Option<Expr> -> bool, parent: Menu, menu: Menu, todo: seq<Tree>)
      requires Decides(nests, parent) && Settles(todo) && NoDup(Pre(todo)) && todo != [] && menu == todo[0].m && menu in nodes
      ensures nests(Condition(menu)) <==> NestsUnder(final, parent, menu)
    {
      assert Tops(todo)[0] == menu;
      SettledTop(Entries(), todo, final, menu);
      assert Condition(menu) == ConditionOf(final[menu]);
    }

    method AbsorbWhile(parent: Menu, ghost rest: seq<Tree>, ghost par: Menu?, ghost all: seq<Menu>, nests: Option<Expr> -> bool, ghost e0: Conditions)
      returns (ghost kids': seq<Tree>, ghost rest': seq<Tree>)
      requires parent.list == null && Own(parent, [], rest, par, all)
      requires Settles(rest) && Decides(nests, parent)
      requires Texts() && e0 == Entries()
      modifies this`log, nodes`next, nodes`list, nodes`parent, nodes`dep, nodes`prompt, nodes`others
      ensures Own(parent, kids', rest', par, all)
      ensures Suffix(rest', rest)
      ensures log == old(log) + Pre(kids')
      ensures Outside(old(L()), [parent] + all)
      ensures Entries() == Below(e0, Taken(rest, rest')) && Texts()
      ensures Loose(kids', texted)
      ensures Placed(kids', rest') == Absorb(final, parent, rest)
      decreases |all|, 6
    {
      AbsorbStart(parent, rest, par, all);
      assert Taken(rest, rest) == [] && Below(e0, []) == e0;
      ghost var log0, h0 := log, L();
      var menu, last;
      menu, last, kids', rest' := AbsorbLoop(parent, rest, par, all, nests, e0);
      AbsorbFinish(parent, kids', rest', menu, last, rest, par, all, log0, h0);
    }

    lemma AbsorbStart(parent: Menu, rest: seq<Tree>, par: Menu?, all: seq<Menu>)
      requires parent.list == null && Own(parent, [], rest, par, all)
      ensures Absorbing(parent, [], rest, parent.next, par, all) && all == Pre(rest) && NoDup(Pre(rest))
      ensures Known(Entries(), rest)
    {
      SegKnown(L(), rest, parent.next, par, null);
      assert Pre([]) + Pre(rest) == Pre(rest);
      NoDupSplit([parent], all);
    }

    method AbsorbFinish(parent: Menu, ghost done: seq<Tree>, ghost todo: seq<Tree>, menu: Menu?, last: Menu?, ghost rest: seq<Tree>,
                        ghost par: Menu?, ghost all: seq<Menu>, ghost log0: seq<Menu>, ghost h0: Links)
      requires LoopState(parent, done, todo, menu, last, rest, par, all, log0, h0)
      modifies nodes`next, nodes`list
      ensures Own(parent, done, todo, par, all)
      ensures Entries() == old(Entries())
      ensures Suffix(todo, rest) && log == log0 + Pre(done)
      ensures Outside(h0, [parent] + all)
    {
      if last != null {
        TakeOver(parent, last, done, todo, menu, par, all);
      }
    }

    /** Where the loop stands, against what was there when it began. */
    ghost predicate LoopState(parent: Menu, done: seq<Tree>, todo: seq<Tree>, menu: Menu?, last: Menu?, rest: seq<Tree>,
                              par: Menu?, all: seq<Menu>, log0: seq<Menu>, h0: Links)
      reads this`log, nodes`next, nodes`list, nodes`parent, nodes`dep, nodes`prompt, nodes`others
    {
      && Absorbing(parent, done, todo, menu, par, all)
      && last == (if done == [] then null else done[|done| - 1].m)
      && Suffix(todo, rest) && all == Pre(rest) && NoDup(Pre(rest))
      && log == log0 + Pre(done)
      && Outside(h0, all)
    }

    /** The conditions after the siblings of `rest` in front of `todo` have been finalised. */
    ghost predicate Passing(e0: Conditions, rest: seq<Tree>, done: seq<Tree>, todo: seq<Tree>)
      reads nodes`dep, nodes`prompt, nodes`others
    {
      && Suffix(todo, rest) && Entries() == Below(e0, Taken(rest, todo))
      && Texts() && Loose(done, texted)
    }

    /** One more sibling of `rest` has been finalised and taken in. */
    lemma LoopGrows(parent: Menu, rest: seq<Tree>, done: seq<Tree>, todo: seq<Tree>, t: Tree, todo': seq<Tree>, e0: Conditions, e1: Conditions)
      requires Known(e0, rest) && Suffix(todo, rest) && e1 == Below(e0, Taken(rest, todo))
      requires Suffix(todo', todo) && Entries() == Below(e1, Taken(todo, todo')) && Texts()
      requires SettlesTo(e1, todo, final) && Progress(parent, rest, done, todo)
      requires todo != [] && NestsUnder(final, parent, todo[0].m)
      requires t.m == todo[0].m && Placed(t.kids, todo') == Arrange(final, todo[0], todo[1..])
      requires Loose(done, texted) && Textual(t.kids, texted)
      ensures Passing(e0, rest, done + [t], todo') && Settles(todo') && Progress(parent, rest, done + [t], todo')
    {
      BelowStep(e0, rest, todo, todo');
      KnownSuffix(e0, rest, todo);
      BelowKeys(e0, Taken(rest, todo));
      SettlesRest(e1, todo, todo', final);
      ProgressStep(parent, rest, done, todo, t, todo');
    }

    lemma LoopEnds(parent: Menu, rest: seq<Tree>, done: seq<Tree>, todo: seq<Tree>)
      requires Progress(parent, rest, done, todo) && (todo == [] || !NestsUnder(final, parent, todo[0].m))
      ensures Placed(done, todo) == Absorb(final, parent, rest)
    {
      assert Absorb(final, parent, todo) == Placed([], todo) && done + [] == done;
    }

    /** The state of the loop, with what it has to do with the result. */
    ghost predicate Taking(parent: Menu, done: seq<Tree>, todo: seq<Tree>, menu: Menu?, last: Menu?, rest: seq<Tree>,
                           par: Menu?, all: seq<Menu>, log0: seq<Menu>, h0: Links,
                           e0: Conditions)
      reads this`log, nodes`next, nodes`list, nodes`parent, nodes`dep, nodes`prompt, nodes`others
    {
      && LoopState(parent, done, todo, menu, last, rest, par, all, log0, h0)
      && Known(e0, rest) && Passing(e0, rest, done, todo) && Settles(todo) && Progress(parent, rest, done, todo)
    }

    lemma TakingStarts(parent: Menu, rest: seq<Tree>)
      ensures Progress(parent, rest, [], rest)
    {
      assert [] + Absorb(final, parent, rest).kids == Absorb(final, parent, rest).kids;
    }

    /** In the loop, the test of the next sibling is that of its final condition. */
    lemma TakingDecided(parent: Menu, done: seq<Tree>, todo: seq<Tree>, menu: Menu, last: Menu?, rest: seq<Tree>,
                        par: Menu?, all: seq<Menu>, log0: seq<Menu>, h0: Links, e0: Conditions, nests: Option<Expr> -> bool)
      requires Taking(parent, done, todo, menu, last, rest, par, all, log0, h0, e0) && Decides(nests, parent)
      ensures todo != [] && menu == todo[0].m && menu in nodes
      ensures nests(Condition(menu)) <==> NestsUnder(final, parent, menu)
    {
      SuffixDistinct(todo, rest);
      HeadDecided(nests, parent, menu, todo);
    }

    method AbsorbLoop(parent: Menu, ghost rest: seq<Tree>, ghost par: Menu?, ghost all: seq<Menu>, nests: Option<Expr> -> bool,
                      ghost e0: Conditions)
      returns (menu: Menu?, last: Menu?, ghost kids': seq<Tree>, ghost rest': seq<Tree>)
      requires LoopState(parent, [], rest, parent.next, null, rest, par, all, log, L())
      requires Settles(rest) && Decides(nests, parent)
      requires e0 == Entries() && Known(e0, rest) && Passing(e0, rest, [], rest)
      modifies this`log, nodes`next, nodes`list, nodes`parent, nodes`dep, nodes`prompt, nodes`others
      ensures LoopState(parent, kids', rest', menu, last, rest, par, all, old(log), old(L()))
      ensures Passing(e0, rest, kids', rest')
      ensures Placed(kids', rest') == Absorb(final, parent, rest)
      decreases |all|, 5
    {
      menu, last := parent.next, null;
      ghost var log0, h0 := log, L();
      kids', rest' := [], rest;
      TakingStarts(parent, rest);
      while menu != null && nests(Condition(menu))
        invariant Taking(parent, kids', rest', menu, last, rest, par, all, log0, h0, e0)
        decreases |Pre(rest')|
      {
        ghost var t;
        TakingDecided(parent, kids', rest', menu, last, rest, par, all, log0, h0, e0, nests);
        menu, last, t, rest' := AbsorbNext(parent, menu, kids', rest', last, rest, par, all, log0, h0, e0);
        kids' := kids' + [t];
      }
      if menu != null { TakingDecided(parent, kids', rest', menu, last, rest, par, all, log0, h0, e0, nests); }
      LoopEnds(parent, rest, kids', rest');
    }

    method AbsorbNext(parent: Menu, menu: Menu, ghost done: seq<Tree>, ghost todo: seq<Tree>, ghost last: Menu?, ghost rest: seq<Tree>,
                      ghost par: Menu?, ghost all: seq<Menu>, ghost log0: seq<Menu>, ghost h0: Links,
                      ghost e0: Conditions)
      returns (next: Menu?, last': Menu?, ghost t: Tree, ghost todo': seq<Tree>)
      requires Taking(parent, done, todo, menu, last, rest, par, all, log0, h0, e0)
      requires todo != [] && NestsUnder(final, parent, todo[0].m)
      modifies this`log, nodes`next, nodes`list, nodes`parent, nodes`dep, nodes`prompt, nodes`others
      ensures Taking(parent, done + [t], todo', next, last', rest, par, all, log0, h0, e0)
      ensures |Pre(todo')| < |Pre(todo)|
      decreases |all|, 4
    {
      ghost var e1 := Entries();
      next, last', t, todo' := AbsorbTurn(parent, menu, done, todo, last, rest, par, all, log0, h0, e1);
      LoopGrows(parent, rest, done, todo, t, todo', e0, e1);
    }

    method AbsorbTurn(parent: Menu, menu: Menu, ghost done: seq<Tree>, ghost todo: seq<Tree>, ghost last: Menu?, ghost rest: seq<Tree>,
                      ghost par: Menu?, ghost all: seq<Menu>, ghost log0: seq<Menu>, ghost h0: Links,
                      ghost e1: Conditions)
      returns (next: Menu?, last': Menu?, ghost t: Tree, ghost todo': seq<Tree>)
      requires LoopState(parent, done, todo, menu, last, rest, par, all, log0, h0)
      requires Texts() && e1 == Entries() && Settles(todo)
      modifies this`log, nodes`next, nodes`list, nodes`parent, nodes`dep, nodes`prompt, nodes`others
      ensures LoopState(parent, done + [t], todo', next, last', rest, par, all, log0, h0)
      ensures todo != [] && t.m == todo[0].m && Placed(t.kids, todo') == Arrange(final, todo[0], todo[1..])
      ensures |Pre(todo')| < |Pre(todo)|
      ensures Suffix(todo', todo) && Entries() == Below(e1, Taken(todo, todo')) && Texts() && Textual(t.kids, texted)
      decreases |all|, 3
    {
      next, t, todo' := AbsorbMore(parent, menu, done, todo, rest, par, all, log0, h0, e1);
      assert (done + [t])[|done + [t]| - 1] == t;
      last' := menu;
    }

    /** Links the absorbed siblings below `parent`. */
    method TakeOver(parent: Menu, last: Menu, ghost done: seq<Tree>, ghost todo: seq<Tree>, ghost menu: Menu?, ghost par: Menu?, ghost all: seq<Menu>)
      requires Absorbing(parent, done, todo, menu, par, all)
      requires done != [] && last == done[|done| - 1].m
      modifies nodes`next, nodes`list
      ensures Own(parent, done, todo, par, all)
      ensures Outside(old(L()), [parent] + all)
    {
      AbsorbedLinks(L(), parent, done, todo, menu, par);
      Unlink(parent, last);
    }

    method Unlink(parent: Menu, last: Menu)
      requires parent in nodes && last in nodes && parent != last
      modifies nodes`next, nodes`list
      ensures L() == Absorbed(old(L()), parent, last)
    {
      parent.list := parent.next;
      parent.next := last.next;
      last.next := null;
    }

    method AbsorbMore(parent: Menu, menu: Menu, ghost done: seq<Tree>, ghost todo: seq<Tree>, ghost rest: seq<Tree>,
                      ghost par: Menu?, ghost all: seq<Menu>, ghost log0: seq<Menu>, ghost h0: Links,
                      ghost e1: Conditions)
      returns (next: Menu?, ghost t: Tree, ghost todo': seq<Tree>)
      requires Absorbing(parent, done, todo, menu, par, all) && Suffix(todo, rest) && NoDup(Pre(rest)) && all == Pre(rest)
      requires log == log0 + Pre(done) && Outside(h0, all)
      requires Texts() && e1 == Entries() && Settles(todo)
      modifies this`log, nodes`next, nodes`list, nodes`parent, nodes`dep, nodes`prompt, nodes`others
      ensures Absorbing(parent, done + [t], todo', next, par, all)
      ensures Suffix(todo', rest) && |Pre(todo')| < |Pre(todo)|
      ensures todo != [] && t.m == menu == todo[0].m && Placed(t.kids, todo') == Arrange(final, todo[0], todo[1..])
      ensures log == log0 + Pre(done + [t])
      ensures Outside(h0, all)
      ensures Suffix(todo', todo) && Entries() == Below(e1, Taken(todo, todo')) && Texts() && Textual(t.kids, texted)
      decreases |all|, 2
    {
      assert |Pre(todo)| <= |all|;
      next, t, todo' := AbsorbStep(parent, menu, done, todo, par, all, e1);
      IsPlacedMeans(DELAY, final, todo[0], todo[1..], t.kids, todo');
      assert forall n :: n in Pre(todo) ==> n in all;
      SuffixTrans(todo', todo, rest);
      Assoc(log0, Pre(done), [t.m] + Pre(t.kids), []);
    }

    method FinalizeSibling(menu: Menu, ghost t: Tree, ghost rest: seq<Tree>, ghost par: Menu?, ghost own: seq<Menu>, ghost e0: Conditions)
      returns (ghost kids': seq<Tree>, ghost rest': seq<Tree>)
      requires t.m == menu && Own(menu, t.kids, rest, par, own)
      requires Texts() && e0 == Entries() && Settles([t] + rest)
      modifies this`log, nodes`next, nodes`list, nodes`parent, nodes`dep, nodes`prompt, nodes`others
      ensures Own(menu, kids', rest', par, own)
      ensures Suffix(rest', rest)
      ensures log == old(log) + ([menu] + Pre(kids'))
      ensures Outside(old(L()), [menu] + own)
      ensures Entries() == Below(e0, [t] + Taken(rest, rest')) && Texts() && Textual(kids', texted)
      ensures Placed(kids', rest') == Arrange(final, t, rest)
      decreases |own|, 12
    {
      TopsCons(t, rest);
      PreOwn(t, rest);
      NoDupSplit([menu], own);
      assert menu in [menu];
      assert t == Node(menu, t.kids);
      kids', rest' := Finalize(menu, t.kids, rest, par, own, e0);
    }

    /** `menu` has been finalised; once its parent is changed, it is absorbed. */
    ghost predicate Ready(parent: Menu, menu: Menu, done: seq<Tree>, todo: seq<Tree>, par: Menu?, all: seq<Menu>)
      reads nodes`next, nodes`list, nodes`parent
    {
      && parent in nodes && menu in nodes && menu != parent && NoDup([parent] + all)
      && L()[parent].parent == par && L()[parent].list == null
      && Pre(done) + Pre(todo) == all
      && var h := L()[menu := L()[menu].(parent := parent)];
        Seg(h, done, h[parent].next, parent, h[menu].next) && Seg(h, todo, h[menu].next, par, null)
    }

    method AbsorbStep(parent: Menu, menu: Menu, ghost done: seq<Tree>, ghost todo: seq<Tree>, ghost par: Menu?, ghost all: seq<Menu>, ghost e1: Conditions)
      returns (next: Menu?, ghost t: Tree, ghost todo': seq<Tree>)
      requires Absorbing(parent, done, todo, menu, par, all)
      requires Texts() && e1 == Entries() && Settles(todo)
      modifies this`log, nodes`next, nodes`list, nodes`parent, nodes`dep, nodes`prompt, nodes`others
      ensures Absorbing(parent, done + [t], todo', next, par, all)
      ensures Suffix(todo', todo) && |Pre(todo')| < |Pre(todo)|
      ensures todo != [] && t.m == menu == todo[0].m && IsPlaced(DELAY, final, todo[0], todo[1..], t.kids, todo')
      ensures Pre(done + [t]) == Pre(done) + ([t.m] + Pre(t.kids))
      ensures log == old(log) + ([t.m] + Pre(t.kids))
      ensures Outside(old(L()), all)
      ensures Entries() == Below(e1, Taken(todo, todo')) && Texts() && Textual(t.kids, texted)
      decreases |Pre(todo)|, 1
    {
      ghost var h0 := L();
      t, todo' := AbsorbReady(parent, menu, done, todo, par, all, e1);
      next := TakeIn(menu, parent, done + [t], todo', par, all, h0);
    }

    method AbsorbReady(parent: Menu, menu: Menu, ghost done: seq<Tree>, ghost todo: seq<Tree>, ghost par: Menu?, ghost all: seq<Menu>, ghost e1: Conditions)
      returns (ghost t: Tree, ghost todo': seq<Tree>)
      requires Absorbing(parent, done, todo, menu, par, all)
      requires Texts() && e1 == Entries() && Settles(todo)
      modifies this`log, nodes`next, nodes`list, nodes`parent, nodes`dep, nodes`prompt, nodes`others
      ensures Ready(parent, menu, done + [t], todo', par, all)
      ensures Suffix(todo', todo) && |Pre(todo')| < |Pre(todo)|
      ensures todo != [] && t.m == menu == todo[0].m && menu in all && IsPlaced(DELAY, final, todo[0], todo[1..], t.kids, todo')
      ensures Pre(done + [t]) == Pre(done) + ([t.m] + Pre(t.kids))
      ensures log == old(log) + ([t.m] + Pre(t.kids))
      ensures Outside(old(L()), all)
      ensures Entries() == Below(e1, Taken(todo, todo')) && Texts() && Textual(t.kids, texted)
      decreases |Pre(todo)|, 0
    {
      ghost var t0, r0 := todo[0], todo[1..];
      assert todo == [t0] + r0;
      ghost var h := L();
      AbsorbInto(h, done, t0, r0, parent.next, menu, parent, par, all);
      ghost var own := Pre(t0.kids) + Pre(r0);
      ghost var kids';
      kids', todo' := FinalizeSibling(menu, t0, r0, par, own, e1);
      TakenFirst(t0, r0, todo');
      t := Node(menu, kids');
      IsPlacedMeans(DELAY, final, t0, r0, kids', todo');
      AbsorbOut(h, L(), done, t, todo', parent.next, parent, par, own);
    }

    method TakeIn(menu: Menu, parent: Menu, ghost done: seq<Tree>, ghost todo: seq<Tree>, ghost par: Menu?, ghost all: seq<Menu>, ghost h0: Links)
      returns (next: Menu?)
      requires Ready(parent, menu, done, todo, par, all) && menu in all && Outside(h0, all) && Texts()
      modifies menu`parent
      ensures Absorbing(parent, done, todo, next, par, all)
      ensures Entries() == old(Entries()) && Texts()
      ensures Outside(h0, all)
    {
      SetParent(menu, parent);
      next := menu.next;
    }

    lemma RootSettles(root: Menu, kids: seq<Tree>)
      requires root in nodes && Seg(L(), kids, root.list, root, null) && final == Below(Entries(), [Node(root, kids)])
      ensures Settles([Node(root, kids)] + [])
    {
      var t := Node(root, kids);
      assert [t] + [] == [t];
      PreCons(t, []);
      SegKnown(L(), kids, root.list, root, null);
      BelowKeys(Entries(), [t]);
    }

    /**
     * menu_finalize on the root: the preorder of the entries is what it was, each has been
     * finalised exactly once, every entry's parent pointer leads to the entry it is below, and
     * every entry has the children that the final conditions call for.
     */
    method FinalizeRoot(root: Menu, ghost kids: seq<Tree>) returns (ghost kids': seq<Tree>)
      requires root in nodes && root.next == null && root.parent == null && log == []
      requires Seg(L(), kids, root.list, root, null) && NoDup([root] + Pre(kids)) && Texts()
      requires final == Below(Entries(), [Node(root, kids)])
      modifies this`log, nodes`next, nodes`list, nodes`parent, nodes`dep, nodes`prompt, nodes`others
      ensures root.next == null && root.parent == null
      ensures Seg(L(), kids', root.list, root, null)
      ensures Pre(kids') == Pre(kids)
      ensures log == [root] + Pre(kids) && NoDup(log)
      ensures Entries() == Below(old(Entries()), [Node(root, kids)])
      ensures Textual(kids', texted) && Texts()
      ensures kids' == Arrange(Entries(), Node(root, kids), []).kids
      ensures forall t, after :: Occurs(kids, t, after) && t.kids == [] && t.m.sym.Some? ==> HasRun(Entries(), t, after, kids')
      ensures forall t, after :: Occurs(kids, t, after) && t.kids != [] && t.m in texted ==> exists below :: KeepsList(t, below, kids')
    {
      NoSiblings(L(), root, kids);
      RootSettles(root, kids);
      ghost var rest;
      kids', rest := Finalize(root, kids, [], null, Pre(kids), Entries());
      assert rest == [] && [Node(root, kids)] + Taken([], rest) == [Node(root, kids)];
      NoSiblingsLeft(L(), root, kids', Pre(kids));
      assert [] + ([root] + Pre(kids)) == [root] + Pre(kids);
      FinalForest(Entries(), root, kids);
    }
  }

  lemma {:induction false} DistinctTops(kids: seq<Tree>, parent: Menu)
    requires NoDup([parent] + Pre(kids))
    ensures parent !in Tops(kids)
    ensures forall i, j :: 0 <= i < j < |kids| ==> kids[i].m != kids[j].m
  {
    NoDupSplit([parent], Pre(kids));
    assert parent in [parent];
    if kids != [] {
      PreParts(kids);
      NoDupParts([kids[0].m], Pre(kids[1..]));
      DistinctTops(kids[1..], kids[0].m);
      forall n | n in Tops(kids)
        ensures n in Pre(kids)
      {
        TopsInPre(kids, n);
      }
      forall i, j | 0 <= i < j < |kids|
        ensures kids[i].m != kids[j].m
      {
        if i == 0 { assert Tops(kids[1..])[j - 1] == kids[j].m; } else { assert kids[i] == kids[1..][i - 1] && kids[j] == kids[1..][j - 1]; }
      }
    }
  }

  /** One more entry of the list has been dealt with. */
  lemma StepOn(h: Links, parent: Menu, done: seq<Tree>, t: Tree, rest: seq<Tree>, menu: Menu)
    requires parent in h && Seg(h, done, h[parent].list, parent, menu) && Seg(h, [t] + rest, menu, parent, null)
    ensures menu == t.m && menu in h
    ensures Seg(h, done + [t], h[parent].list, parent, h[menu].next) && Seg(h, rest, h[menu].next, parent, null)
    ensures Pre(done + [t]) + Pre(rest) == Pre(done) + Pre([t] + rest)
    ensures h[menu].list != null <==> t.kids != []
  {
    SegStep(h, done, t, rest, h[parent].list, menu, parent, null);
    PreStep(done, t, rest);
  }

  predicate HasText(m: Menu)
    reads m`prompt
  {
    m.prompt.Some? && m.prompt.value.text
  }

  ghost function Relinked(h: Links, menu: Menu, last: Menu): Links
    requires menu in h && last in h && menu != last
  {
    var h2 := h[last := h[last].(next := h[menu].next)];
    h2[menu := Link(h2[menu].list, null, h2[menu].parent)]
  }

  /** The pointers after `kids` have been moved from below `menu` to behind it. */
  ghost function Hoisted(h: Links, menu: Menu, parent: Menu, kids: seq<Tree>): Links
    requires kids != [] && menu in h && kids[|kids| - 1].m in h && menu != kids[|kids| - 1].m
  {
    Relinked(Reparented(h, Tops(kids), parent), menu, kids[|kids| - 1].m)
  }

  /** Membership: the moved entries, the one they follow and the rest are distinct and known. */
  lemma HoistFacts(h: Links, menu: Menu, parent: Menu, kids: seq<Tree>, todo: seq<Tree>)
    requires menu in h && kids != [] && NoDup([menu] + Pre(kids) + Pre(todo))
    requires Seg(h, kids, h[menu].list, menu, null) && Seg(h, todo, h[menu].next, parent, null)
    ensures NoDup(Pre(kids)) && menu !in Tops(kids)
    ensures forall n :: n in Pre(kids) ==> n in h && n != menu
    ensures forall n :: n in Pre(todo) ==> n in h && n != menu && n !in Pre(kids)
    ensures forall n :: n in Tops(kids) ==> n in Pre(kids)
    ensures kids[|kids| - 1].m in Pre(kids)
  {
    NoDupSplit([menu] + Pre(kids), Pre(todo));
    NoDupSplit([menu], Pre(kids));
    assert menu in [menu];
    assert menu in [menu] + Pre(kids);
    SegKnown(h, kids, h[menu].list, menu, null);
    SegKnown(h, todo, h[menu].next, parent, null);
    LastInPre(kids);
    forall n | n in Tops(kids)
      ensures n in Pre(kids)
    {
      TopsInPre(kids, n);
    }
  }

  lemma HoistedKids(h: Links, menu: Menu, parent: Menu, kids: seq<Tree>)
    requires menu in h && Seg(h, kids, h[menu].list, menu, null) && NoDup(Pre(kids)) && kids != []
    requires forall n :: n in Pre(kids) ==> n in h && n != menu
    requires kids[|kids| - 1].m in Pre(kids) && menu !in Tops(kids)
    ensures Seg(Hoisted(h, menu, parent, kids), kids, h[menu].list, parent, h[menu].next)
  {
    var first, rest, last := h[menu].list, h[menu].next, kids[|kids| - 1].m;
    var h1 := Reparented(h, Tops(kids), parent);
    SegReparent(h, h1, kids, first, menu, null, parent);
    SegRetarget(h1, kids, first, parent, null, last, rest);
    SegFrame(h1[last := h1[last].(next := rest)], Hoisted(h, menu, parent, kids), kids, first, parent, rest);
  }

  lemma HoistedAt(h: Links, menu: Menu, parent: Menu, kids: seq<Tree>)
    requires kids != [] && menu in h && kids[|kids| - 1].m in h && menu != kids[|kids| - 1].m && menu !in Tops(kids)
    requires forall n :: n in Tops(kids) ==> n in Pre(kids)
    requires kids[|kids| - 1].m in Pre(kids)
    ensures Hoisted(h, menu, parent, kids)[menu] == Link(h[menu].list, null, h[menu].parent)
    ensures forall n :: n in h && n != menu && n !in Pre(kids) ==>
      n in Hoisted(h, menu, parent, kids) && Hoisted(h, menu, parent, kids)[n] == h[n]
  {}

  lemma HoistedRest(h: Links, menu: Menu, parent: Menu, kids: seq<Tree>, todo: seq<Tree>)
    requires menu in h && h[menu].parent == parent && kids != [] && NoDup(Pre(kids)) && menu !in Tops(kids)
    requires Seg(h, kids, h[menu].list, menu, null) && Seg(h, todo, h[menu].next, parent, null)
    requires forall n :: n in Pre(kids) ==> n in h && n != menu
    requires forall n :: n in Pre(todo) ==> n in h && n != menu && n !in Pre(kids)
    requires forall n :: n in Tops(kids) ==> n in Pre(kids)
    requires kids[|kids| - 1].m in Pre(kids)
    ensures Seg(Hoisted(h, menu, parent, kids), [Node(menu, [])] + (kids + todo), menu, parent, null)
  {
    var h3 := Hoisted(h, menu, parent, kids);
    HoistedAt(h, menu, parent, kids);
    HoistedKids(h, menu, parent, kids);
    SegFrame(h, h3, todo, h[menu].next, parent, null);
    SegAppend(h3, kids, todo, h[menu].list, h[menu].next, parent, null);
    HoistedHead(h3, menu, parent, kids + todo);
  }

  lemma HoistedHead(h: Links, menu: Menu, parent: Menu, rest: seq<Tree>)
    requires menu in h && h[menu].parent == parent && h[menu].list == null && Seg(h, rest, h[menu].next, parent, null)
    ensures Seg(h, [Node(menu, [])] + rest, menu, parent, null)
  {
    var all := [Node(menu, [])] + rest;
    assert all[0] == Node(menu, []) && all[1..] == rest;
  }
}
