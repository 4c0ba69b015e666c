/** Where menu_finalize puts every entry, as a function of the original forest and the final conditions. */
module MenuArrange {
  import opened Exprs
  import opened Dependencies
  import opened MenuForest
  import opened MenuConditions

  /** The condition that decides about an entry: that of its prompt, or else its own. */
  function ConditionOf(e: Entry): Option<Expr> {
    if e.prompt.Some? then e.prompt.value.visible else e.dep
  }

  function VisibleOf(e: Entry): Option<Expr> {
    if e.prompt.Some? then e.prompt.value.visible else None
  }

  /** The sibling n becomes a child of m. */
  predicate NestsUnder(f: Conditions, m: Menu, n: Menu) {
    m.sym.Some? && m in f && n in f && Nests(VisibleOf(f[m]), m.sym.value, ConditionOf(f[n]))
  }

  /** The list of an entry without text is moved behind it. */
  function Lifted(ts: seq<Tree>, texted: set<Menu>): seq<Tree>
    decreases |Pre(ts)|
  {
    if ts == [] then []
    else
      LiftedMeasure(ts);
      if ts[0].kids != [] && ts[0].m !in texted then [Node(ts[0].m, [])] + Lifted(ts[0].kids + ts[1..], texted)
      else [ts[0]] + Lifted(ts[1..], texted)
  }

  lemma LiftedMeasure(ts: seq<Tree>)
    requires ts != []
    ensures |Pre(ts[0].kids + ts[1..])| < |Pre(ts)| && |Pre(ts[1..])| < |Pre(ts)| && |Pre(ts[0].kids)| < |Pre(ts)|
    ensures Pre([ts[0]] + ts[1..]) == Pre(ts)
  {
    var t, rest := ts[0], ts[1..];
    assert ts == [t] + rest;
    PreCons(t, rest);
    PreConcat(t.kids, rest);
  }

  lemma LiftedStep(t: Tree, rest: seq<Tree>, texted: set<Menu>)
    ensures Lifted([t] + rest, texted) ==
      if t.kids != [] && t.m !in texted then [Node(t.m, [])] + Lifted(t.kids + rest, texted) else [t] + Lifted(rest, texted)
  {
    assert ([t] + rest)[1..] == rest;
  }

  lemma SuffixMeasure(a: seq<Tree>, b: seq<Tree>)
    requires Suffix(a, b)
    ensures |Pre(a)| <= |Pre(b)|
  {
    var c := Taken(b, a);
    assert b == c + a;
    PreConcat(c, a);
  }

  /** The children that an entry ends up with, and the following siblings that are left. */
  datatype Placed = Placed(kids: seq<Tree>, rest: seq<Tree>)

  /** An entry keeps its list; without one it takes in siblings, if it has a symbol. */
  ghost function Gather(f: Conditions, t: Tree, rest: seq<Tree>): (p: Placed)
    ensures Suffix(p.rest, rest)
    decreases |Pre([t] + rest)|, 0
  {
    PreCons(t, rest);
    if t.kids != [] then Placed(ArrangeList(f, t.kids), rest)
    else if t.m.sym.Some? then Absorb(f, t.m, rest)
    else Placed([], rest)
  }

  ghost function Arrange(f: Conditions, t: Tree, rest: seq<Tree>): (p: Placed)
    ensures Suffix(p.rest, rest)
    decreases |Pre([t] + rest)|, 1
  {
    var p := Gather(f, t, rest);
    Placed(Lifted(p.kids, TextSet(f)), p.rest)
  }

  ghost function ArrangeList(f: Conditions, ts: seq<Tree>): seq<Tree>
    decreases |Pre(ts)|, 2
  {
    if ts == [] then []
    else
      LiftedMeasure(ts);
      var p := Arrange(f, ts[0], ts[1..]);
      SuffixMeasure(p.rest, ts[1..]);
      [Node(ts[0].m, p.kids)] + ArrangeList(f, p.rest)
  }

  /** Siblings are taken in as long as they nest; each is arranged itself before. */
  ghost function Absorb(f: Conditions, m: Menu, rest: seq<Tree>): (p: Placed)
    ensures Suffix(p.rest, rest)
    decreases |Pre(rest)|, 2
  {
    if rest == [] || !NestsUnder(f, m, rest[0].m) then Placed([], rest)
    else
      LiftedMeasure(rest);
      var p := Arrange(f, rest[0], rest[1..]);
      SuffixMeasure(p.rest, rest[1..]);
      var q := Absorb(f, m, p.rest);
      Placed([Node(rest[0].m, p.kids)] + q.kids, q.rest)
  }

  lemma ListStep(f: Conditions, ts: seq<Tree>, kids: seq<Tree>, left: seq<Tree>)
    requires ts != [] && Placed(kids, left) == Arrange(f, ts[0], ts[1..])
    ensures ArrangeList(f, ts) == [Node(ts[0].m, kids)] + ArrangeList(f, left)
  {
    LiftedMeasure(ts);
  }

  lemma AbsorbTurnOf(f: Conditions, m: Menu, rest: seq<Tree>, kids: seq<Tree>, left: seq<Tree>)
    requires rest != [] && NestsUnder(f, m, rest[0].m) && Placed(kids, left) == Arrange(f, rest[0], rest[1..])
    ensures Absorb(f, m, rest) == Placed([Node(rest[0].m, kids)] + Absorb(f, m, left).kids, Absorb(f, m, left).rest)
  {
    LiftedMeasure(rest);
  }

  /**
   * What Arrange gives, said with a delay of d steps: proofs that are about pointers pass this
   * on without looking at the definition of Arrange.
   */
  ghost predicate IsPlaced(d: nat, f: Conditions, t: Tree, rest: seq<Tree>, kids: seq<Tree>, left: seq<Tree>) {
    if d == 0 then Placed(kids, left) == Arrange(f, t, rest) else IsPlaced(d - 1, f, t, rest, kids, left)
  }

  const DELAY: nat := 3

  lemma {:induction false} IsPlacedMeans(d: nat, f: Conditions, t: Tree, rest: seq<Tree>, kids: seq<Tree>, left: seq<Tree>)
    ensures IsPlaced(d, f, t, rest, kids, left) <==> Placed(kids, left) == Arrange(f, t, rest)
  {
    if d > 0 { IsPlacedMeans(d - 1, f, t, rest, kids, left); }
  }

  // ----- lifting -----

  /** An entry that keeps its list. */
  predicate Keeps(t: Tree, texted: set<Menu>) { t.kids == [] || t.m in texted }

  lemma {:induction false} LiftedKeepsOrder(ts: seq<Tree>, texted: set<Menu>)
    ensures Pre(Lifted(ts, texted)) == Pre(ts)
    ensures ts != [] ==> Lifted(ts, texted) != [] && Lifted(ts, texted)[0].m == ts[0].m
    decreases |Pre(ts)|
  {
    if ts != [] {
      LiftedMeasure(ts);
      if !Keeps(ts[0], texted) {
        LiftedKeepsOrder(ts[0].kids + ts[1..], texted);
        PreConcat(ts[0].kids, ts[1..]);
        PreCons(Node(ts[0].m, []), Lifted(ts[0].kids + ts[1..], texted));
        Assoc([ts[0].m], Pre(ts[0].kids), Pre(ts[1..]), []);
        assert [ts[0].m] + Pre([]) == [ts[0].m];
      } else {
        LiftedKeepsOrder(ts[1..], texted);
        PreCons(ts[0], Lifted(ts[1..], texted));
      }
    }
  }

  lemma {:induction false} LiftedKeep(ts: seq<Tree>, texted: set<Menu>)
    ensures forall k :: k in Lifted(ts, texted) ==> Keeps(k, texted)
    decreases |Pre(ts)|
  {
    if ts != [] {
      LiftedMeasure(ts);
      LiftedKeep(if Keeps(ts[0], texted) then ts[1..] else ts[0].kids + ts[1..], texted);
    }
  }

  /** Above entries all of which keep their lists, or have none, lifting leaves no other. */
  lemma {:induction false} LiftedTextual(ts: seq<Tree>, texted: set<Menu>)
    requires Loose(ts, texted)
    ensures Textual(Lifted(ts, texted), texted)
    decreases |Pre(ts)|
  {
    if ts != [] {
      LiftedMeasure(ts);
      assert Textual(ts[0].kids, texted);
      if Keeps(ts[0], texted) {
        LiftedTextual(ts[1..], texted);
      } else {
        TextualLoose(ts[0].kids, texted);
        LiftedTextual(ts[0].kids + ts[1..], texted);
      }
    }
  }

  /** u is an entry of the forest, at any depth, with exactly the entries below it. */
  predicate Has(ts: seq<Tree>, u: Tree) {
    ts != [] && (u == ts[0] || Has(ts[0].kids, u) || Has(ts[1..], u))
  }

  lemma {:induction false} HasConcat(a: seq<Tree>, b: seq<Tree>, u: Tree)
    ensures Has(a + b, u) <==> Has(a, u) || Has(b, u)
  {
    if a == [] {
      assert a + b == b;
    } else {
      assert (a + b)[0] == a[0] && (a + b)[1..] == a[1..] + b;
      HasConcat(a[1..], b, u);
    }
  }

  lemma {:induction false} HasTop(ts: seq<Tree>, u: Tree)
    requires u in ts
    ensures Has(ts, u)
  {
    if u != ts[0] { HasTop(ts[1..], u); }
  }

  lemma HasCons(t: Tree, rest: seq<Tree>, u: Tree)
    ensures Has([t] + rest, u) <==> u == t || Has(t.kids, u) || Has(rest, u)
  {
    assert ([t] + rest)[1..] == rest;
  }

  lemma {:induction false} LiftedHas(ts: seq<Tree>, u: Tree, texted: set<Menu>)
    requires Has(ts, u) && Keeps(u, texted)
    ensures Has(Lifted(ts, texted), u)
    decreases |Pre(ts)|
  {
    LiftedMeasure(ts);
    if Keeps(ts[0], texted) {
      HasCons(ts[0], Lifted(ts[1..], texted), u);
      if u != ts[0] && !Has(ts[0].kids, u) { LiftedHas(ts[1..], u, texted); }
    } else {
      HasConcat(ts[0].kids, ts[1..], u);
      HasCons(Node(ts[0].m, []), Lifted(ts[0].kids + ts[1..], texted), u);
      LiftedHas(ts[0].kids + ts[1..], u, texted);
    }
  }

  /** m has these entries below it, or, if it cannot keep them, is there without, and so are they. */
  ghost predicate Shows(ts: seq<Tree>, m: Menu, kids: seq<Tree>, texted: set<Menu>) {
    if Keeps(Node(m, kids), texted) then Has(ts, Node(m, kids))
    else Has(ts, Node(m, [])) && forall k :: k in kids ==> Has(ts, k)
  }

  lemma {:induction false} LiftedStrips(ts: seq<Tree>, x: Tree, texted: set<Menu>)
    requires x in ts && !Keeps(x, texted) && forall k :: k in x.kids ==> Keeps(k, texted)
    ensures Has(Lifted(ts, texted), Node(x.m, [])) && forall k :: k in x.kids ==> Has(Lifted(ts, texted), k)
    decreases |Pre(ts)|
  {
    LiftedMeasure(ts);
    if x == ts[0] {
      var rest := Lifted(x.kids + ts[1..], texted);
      HasCons(Node(x.m, []), rest, Node(x.m, []));
      forall k | k in x.kids
        ensures Has(Lifted(ts, texted), k)
      {
        HasTop(x.kids, k);
        HasConcat(x.kids, ts[1..], k);
        LiftedHas(x.kids + ts[1..], k, texted);
        HasCons(Node(x.m, []), rest, k);
      }
    } else {
      var rest := if Keeps(ts[0], texted) then ts[1..] else ts[0].kids + ts[1..];
      LiftedStrips(rest, x, texted);
      var head := if Keeps(ts[0], texted) then ts[0] else Node(ts[0].m, []);
      HasCons(head, Lifted(rest, texted), Node(x.m, []));
      forall k | k in x.kids
        ensures Has(Lifted(ts, texted), k)
      {
        HasCons(head, Lifted(rest, texted), k);
      }
    }
  }

  lemma LiftedShows(ts: seq<Tree>, m: Menu, kids: seq<Tree>, texted: set<Menu>)
    requires Node(m, kids) in ts || Shows(ts, m, kids, texted)
    requires forall k :: k in kids ==> Keeps(k, texted)
    ensures Shows(Lifted(ts, texted), m, kids, texted)
  {
    var x := Node(m, kids);
    if Keeps(x, texted) {
      if x in ts { HasTop(ts, x); }
      LiftedHas(ts, x, texted);
    } else if x in ts {
      LiftedStrips(ts, x, texted);
    } else {
      LiftedHas(ts, Node(m, []), texted);
      forall k | k in kids
        ensures Has(Lifted(ts, texted), k)
      {
        LiftedHas(ts, k, texted);
      }
    }
  }

  // ----- where every entry is -----

  /** t is an entry of the forest with its list, and `after` are the siblings that follow it. */
  predicate Occurs(ts: seq<Tree>, t: Tree, after: seq<Tree>) {
    ts != [] && ((t == ts[0] && after == ts[1..]) || Occurs(ts[0].kids, t, after) || Occurs(ts[1..], t, after))
  }

  /** As Shows, but at the first level also an entry that is still to be lifted. */
  ghost predicate Carries(ts: seq<Tree>, m: Menu, kids: seq<Tree>, texted: set<Menu>) {
    Node(m, kids) in ts || Shows(ts, m, kids, texted)
  }

  lemma CarriesHead(h: Tree, rest: seq<Tree>, m: Menu, kids: seq<Tree>, texted: set<Menu>)
    requires Shows(h.kids, m, kids, texted) || Carries(rest, m, kids, texted)
    ensures Carries([h] + rest, m, kids, texted)
  {
    if Node(m, kids) in rest {
      assert Node(m, kids) in [h] + rest;
    } else {
      HasCons(h, rest, Node(m, kids));
      HasCons(h, rest, Node(m, []));
      forall k | k in kids
        ensures Has(h.kids, k) || Has(rest, k) ==> Has([h] + rest, k)
      {
        HasCons(h, rest, k);
      }
    }
  }

  lemma ArrangedKeep(f: Conditions, t: Tree, after: seq<Tree>)
    ensures forall k :: k in Arrange(f, t, after).kids ==> Keeps(k, TextSet(f))
  {
    LiftedKeep(Gather(f, t, after).kids, TextSet(f));
  }

  lemma {:induction false} ListCarries(f: Conditions, ts: seq<Tree>, t: Tree, after: seq<Tree>)
    requires Occurs(ts, t, after)
    ensures Carries(ArrangeList(f, ts), t.m, Arrange(f, t, after).kids, TextSet(f))
    decreases |Pre(ts)|, 2
  {
    LiftedMeasure(ts);
    var p := Arrange(f, ts[0], ts[1..]);
    SuffixMeasure(p.rest, ts[1..]);
    var head, rest := Node(ts[0].m, p.kids), ArrangeList(f, p.rest);
    var kids := Arrange(f, t, after).kids;
    if t == ts[0] && after == ts[1..] {
      assert head in [head] + rest;
    } else {
      EntryShows(f, ts[0], ts[1..], t, after);
      if Occurs(p.rest, t, after) { ListCarries(f, p.rest, t, after); }
      CarriesHead(head, rest, t.m, kids, TextSet(f));
    }
  }

  /** Below an entry that has been arranged, or behind it. */
  lemma {:induction false} EntryShows(f: Conditions, t0: Tree, rest: seq<Tree>, t: Tree, after: seq<Tree>)
    requires Occurs(t0.kids, t, after) || Occurs(rest, t, after)
    ensures var p := Arrange(f, t0, rest);
      Shows(p.kids, t.m, Arrange(f, t, after).kids, TextSet(f)) || Occurs(p.rest, t, after)
    decreases |Pre([t0] + rest)|, 1
  {
    PreCons(t0, rest);
    ArrangedKeep(f, t, after);
    var kids := Arrange(f, t, after).kids;
    if t0.kids != [] {
      if Occurs(t0.kids, t, after) {
        ListCarries(f, t0.kids, t, after);
        LiftedShows(ArrangeList(f, t0.kids), t.m, kids, TextSet(f));
      }
    } else if t0.m.sym.Some? {
      AbsorbCarries(f, t0.m, rest, t, after);
      var q := Absorb(f, t0.m, rest);
      if Carries(q.kids, t.m, kids, TextSet(f)) { LiftedShows(q.kids, t.m, kids, TextSet(f)); }
    }
  }

  lemma {:induction false} AbsorbCarries(f: Conditions, m: Menu, rest: seq<Tree>, t: Tree, after: seq<Tree>)
    requires Occurs(rest, t, after)
    ensures var q := Absorb(f, m, rest);
      Carries(q.kids, t.m, Arrange(f, t, after).kids, TextSet(f)) || Occurs(q.rest, t, after)
    decreases |Pre(rest)|, 2
  {
    if NestsUnder(f, m, rest[0].m) {
      LiftedMeasure(rest);
      var p := Arrange(f, rest[0], rest[1..]);
      SuffixMeasure(p.rest, rest[1..]);
      var head, q := Node(rest[0].m, p.kids), Absorb(f, m, p.rest);
      if t == rest[0] && after == rest[1..] {
        assert head in [head] + q.kids;
      } else {
        EntryShows(f, rest[0], rest[1..], t, after);
        if Shows(p.kids, t.m, Arrange(f, t, after).kids, TextSet(f)) {
          CarriesHead(head, q.kids, t.m, Arrange(f, t, after).kids, TextSet(f));
        } else {
          AbsorbCarries(f, m, p.rest, t, after);
          if Carries(q.kids, t.m, Arrange(f, t, after).kids, TextSet(f)) {
            CarriesHead(head, q.kids, t.m, Arrange(f, t, after).kids, TextSet(f));
          }
        }
      }
    }
  }

  /**
   * In the final forest every entry has the children that Arrange gives it, or, without a text,
   * none, and they have moved up.
   */
  lemma EveryEntry(f: Conditions, root: Menu, kids: seq<Tree>, t: Tree, after: seq<Tree>)
    requires Occurs(kids, t, after)
    ensures Shows(Arrange(f, Node(root, kids), []).kids, t.m, Arrange(f, t, after).kids, TextSet(f))
  {
    EntryShows(f, Node(root, kids), [], t, after);
  }

  // ----- which children those are -----

  /** `run` are the siblings taken in by m: each nests, and what is left does not begin with one that does. */
  ghost predicate LongestRun(f: Conditions, m: Menu, rest: seq<Tree>, run: seq<Tree>, left: seq<Tree>) {
    && Suffix(left, rest) && Pre(run) + Pre(left) == Pre(rest)
    && (forall k :: k in run ==> k.m in Tops(rest) && NestsUnder(f, m, k.m))
    && (left != [] ==> !NestsUnder(f, m, left[0].m))
  }

  lemma {:induction false} AbsorbsLongestRun(f: Conditions, m: Menu, rest: seq<Tree>)
    ensures var q := Absorb(f, m, rest); LongestRun(f, m, rest, q.kids, q.rest)
    decreases |Pre(rest)|, 2
  {
    if rest != [] && NestsUnder(f, m, rest[0].m) {
      LiftedMeasure(rest);
      var p := Arrange(f, rest[0], rest[1..]);
      SuffixMeasure(p.rest, rest[1..]);
      ArrangeKeepsOrder(f, rest[0], rest[1..]);
      AbsorbsLongestRun(f, m, p.rest);
      var q := Absorb(f, m, p.rest);
      RunGrows(f, m, rest, Node(rest[0].m, p.kids), p.rest, q.kids, q.rest);
    }
  }

  lemma RunGrows(f: Conditions, m: Menu, rest: seq<Tree>, head: Tree, mid: seq<Tree>, run: seq<Tree>, left: seq<Tree>)
    requires rest != [] && head.m == rest[0].m && NestsUnder(f, m, head.m) && Suffix(mid, rest[1..])
    requires Pre(head.kids) + Pre(mid) == Pre(rest[0].kids) + Pre(rest[1..])
    requires LongestRun(f, m, mid, run, left)
    ensures LongestRun(f, m, rest, [head] + run, left)
  {
    SuffixTrans(left, mid, rest[1..]);
    SuffixOfTail(left, rest);
    PreCons(head, run);
    Joined([head.m], Pre(head.kids), Pre(run), Pre(left));
    Joined([head.m], Pre(rest[0].kids), Pre(rest[1..]), []);
    TopsOfTail(rest, mid);
  }

  lemma Joined(a: seq<Menu>, b: seq<Menu>, c: seq<Menu>, d: seq<Menu>)
    ensures a + b + c + d == a + (b + (c + d))
    ensures d == [] ==> a + b + c == a + (b + c)
  {}

  lemma SuffixOfTail(a: seq<Tree>, b: seq<Tree>)
    requires b != [] && Suffix(a, b[1..])
    ensures Suffix(a, b)
  {}

  lemma TopsOfTail(rest: seq<Tree>, left: seq<Tree>)
    requires rest != [] && Suffix(left, rest[1..])
    ensures rest[0].m in Tops(rest) && forall n :: n in Tops(left) ==> n in Tops(rest)
  {
    assert rest == [rest[0]] + Taken(rest[1..], left) + left;
    TopsConcat([rest[0]] + Taken(rest[1..], left), left);
    assert Tops(rest)[0] == rest[0].m;
  }

  /** No entry is lost and the preorder is kept. */
  lemma {:induction false} ArrangeKeepsOrder(f: Conditions, t: Tree, rest: seq<Tree>)
    ensures var p := Arrange(f, t, rest); Pre(p.kids) + Pre(p.rest) == Pre(t.kids) + Pre(rest)
    decreases |Pre([t] + rest)|, 1
  {
    var p := Gather(f, t, rest);
    LiftedKeepsOrder(p.kids, TextSet(f));
    GatherKeepsOrder(f, t, rest);
  }

  /** An entry with a list, or without a symbol, takes in none. */
  lemma {:induction false} GatherKeepsOrder(f: Conditions, t: Tree, rest: seq<Tree>)
    ensures var p := Gather(f, t, rest); Pre(p.kids) + Pre(p.rest) == Pre(t.kids) + Pre(rest)
    ensures t.kids != [] || t.m.sym.None? ==> Gather(f, t, rest).rest == rest
    decreases |Pre([t] + rest)|, 0
  {
    PreCons(t, rest);
    if t.kids != [] {
      ListKeepsOrder(f, t.kids);
    } else if t.m.sym.Some? {
      AbsorbsLongestRun(f, t.m, rest);
    }
  }

  lemma {:induction false} ListKeepsOrder(f: Conditions, ts: seq<Tree>)
    ensures Pre(ArrangeList(f, ts)) == Pre(ts)
    decreases |Pre(ts)|, 2
  {
    if ts != [] {
      LiftedMeasure(ts);
      var p := Arrange(f, ts[0], ts[1..]);
      SuffixMeasure(p.rest, ts[1..]);
      ArrangeKeepsOrder(f, ts[0], ts[1..]);
      ListKeepsOrder(f, p.rest);
      PreCons(Node(ts[0].m, p.kids), ArrangeList(f, p.rest));
      Assoc([ts[0].m], Pre(p.kids), Pre(p.rest), []);
      Assoc([ts[0].m], Pre(ts[0].kids), Pre(ts[1..]), []);
    }
  }

  /**
   * An entry with a symbol and without a list gets the longest run of siblings that nest, up to
   * lifting, and so gets one at all exactly if the next one nests.
   */
  lemma ChildrenOfSymbol(f: Conditions, t: Tree, after: seq<Tree>) returns (run: seq<Tree>)
    requires t.kids == [] && t.m.sym.Some?
    ensures var p := Arrange(f, t, after);
      && LongestRun(f, t.m, after, run, p.rest)
      && p.kids == Lifted(run, TextSet(f)) && Pre(p.kids) == Pre(run)
      && (p.kids != [] <==> after != [] && NestsUnder(f, t.m, after[0].m))
      && (p.kids != [] ==> p.kids[0].m == after[0].m)
  {
    run := Absorb(f, t.m, after).kids;
    AbsorbsLongestRun(f, t.m, after);
    LiftedKeepsOrder(run, TextSet(f));
  }

  /** An entry without a list and with a symbol has, up to lifting, the longest run of siblings that nest. */
  ghost predicate HasRun(f: Conditions, t: Tree, after: seq<Tree>, kids': seq<Tree>) {
    var p := Gather(f, t, after);
    LongestRun(f, t.m, after, p.kids, p.rest) && Shows(kids', t.m, Lifted(p.kids, TextSet(f)), TextSet(f))
  }

  /** An entry with a list and a text keeps exactly that below it. */
  ghost predicate KeepsList(t: Tree, below: seq<Tree>, kids': seq<Tree>) {
    Pre(below) == Pre(t.kids) && Has(kids', Node(t.m, below))
  }

  lemma SymbolHasRun(f: Conditions, root: Menu, kids: seq<Tree>, t: Tree, after: seq<Tree>)
    requires Occurs(kids, t, after) && t.kids == [] && t.m.sym.Some?
    ensures HasRun(f, t, after, Arrange(f, Node(root, kids), []).kids)
  {
    AbsorbsLongestRun(f, t.m, after);
    EveryEntry(f, root, kids, t, after);
  }

  lemma ListStays(f: Conditions, root: Menu, kids: seq<Tree>, t: Tree, after: seq<Tree>)
    requires Occurs(kids, t, after) && t.kids != [] && t.m in TextSet(f)
    ensures KeepsList(t, Arrange(f, t, after).kids, Arrange(f, Node(root, kids), []).kids)
  {
    EveryEntry(f, root, kids, t, after);
    ArrangeKeepsOrder(f, t, after);
    GatherKeepsOrder(f, t, after);
    SamePrefix(Pre(Arrange(f, t, after).kids), Pre(t.kids), Pre(after));
  }

  /** The final forest, entry by entry. */
  lemma FinalForest(f: Conditions, root: Menu, kids: seq<Tree>)
    ensures var kids' := Arrange(f, Node(root, kids), []).kids;
      && (forall t, after :: Occurs(kids, t, after) && t.kids == [] && t.m.sym.Some? ==> HasRun(f, t, after, kids'))
      && (forall t, after :: Occurs(kids, t, after) && t.kids != [] && t.m in TextSet(f) ==> exists below :: KeepsList(t, below, kids'))
  {
    var kids' := Arrange(f, Node(root, kids), []).kids;
    forall t, after | Occurs(kids, t, after) && t.kids == [] && t.m.sym.Some?
      ensures HasRun(f, t, after, kids')
    {
      SymbolHasRun(f, root, kids, t, after);
    }
    forall t, after | Occurs(kids, t, after) && t.kids != [] && t.m in TextSet(f)
      ensures exists below :: KeepsList(t, below, kids')
    {
      ListStays(f, root, kids, t, after);
    }
  }

  lemma SamePrefix(a: seq<Menu>, b: seq<Menu>, c: seq<Menu>)
    requires a + c == b + c
    ensures a == b
  {
    assert |a| == |b|;
    assert a == (a + c)[..|a|] && b == (b + c)[..|b|];
  }
}
