/** What the conditions of finalised menu entries mean: the AND of those along the original ancestors. */
module MenuMeaning {
  import opened Tristates
  import opened Exprs
  import opened Sequences
  import opened ExprTransform
  import opened Dependencies
  import opened MenuForest
  import opened MenuConditions

  /** The value that m hands on if it gets the value a: its own, or that of its prompt. */
  function HandedOn(m: Menu, e: Entry, a: Tristate, s: State): Tristate {
    if m.sym.Some? && m.isChoice then TriOf(m.sym.value, s)
    else
      var d := Apply(And, a, EvalOpt(e.dep, s));
      if e.prompt.Some? then Apply(And, d, EvalOpt(e.prompt.value.visible, s)) else d
  }

  /** The value that comes down to n through the entries above it, with their original conditions. */
  ghost function Reaching(e: Conditions, ts: seq<Tree>, n: Menu, a: Tristate, s: State): Tristate
    requires Known(e, ts)
    decreases ts
  {
    if ts == [] || ts[0].m == n then a
    else
      KnownParts(e, ts);
      if n in Pre(ts[0].kids) then Reaching(e, ts[0].kids, n, HandedOn(ts[0].m, e[ts[0].m], a, s), s)
      else Reaching(e, ts[1..], n, a, s)
  }

  lemma KnownParts(e: Conditions, ts: seq<Tree>)
    requires Known(e, ts) && ts != []
    ensures ts[0].m in e && Known(e, ts[0].kids) && Known(e, ts[1..])
  {
    assert Pre(ts) == [ts[0].m] + Pre(ts[0].kids) + Pre(ts[1..]);
  }

  /** A condition is n where the intended one is, and exact means that it always has its value. */
  predicate Tracks(f: Tristate, intended: Tristate, exact: bool) {
    (intended == NO ==> f == NO) && (exact ==> f == intended)
  }

  ghost predicate TracksOpt(f: Option<Expr>, intended: Tristate, s: State, exact: bool) {
    NormalOpt(f) && Tracks(EvalOpt(f, s), intended, exact)
  }

  /** The final conditions of an entry, against its original ones and what comes down to it. */
  ghost predicate EntryTracks(f: Entry, e: Entry, a: Tristate, s: State, exact: bool) {
    var d := Apply(And, a, EvalOpt(e.dep, s));
    && TracksOpt(f.dep, d, s, exact)
    && (f.prompt.Some? <==> e.prompt.Some?)
    && (e.prompt.Some? ==> TracksOpt(f.prompt.value.visible, Apply(And, d, EvalOpt(e.prompt.value.visible, s)), s, exact))
    && |f.others| == |e.others|
    && forall i :: 0 <= i < |e.others| ==> TracksOpt(f.others[i], Apply(And, d, EvalOpt(e.others[i], s)), s, exact)
  }

  ghost predicate RelaxedOpt(e: Option<Expr>) { e.Some? ==> !TestsNotN(e.value) }

  /** A condition of a property: relaxed for a symbol that is no tristate, else without redundancy. */
  ghost predicate SimpleOpt(m: Menu, e: Option<Expr>) {
    if m.sym.Some? && m.sym.value.Type() != Tri then RelaxedOpt(e) else IrredundantOpt(e)
  }

  ghost predicate EntrySimple(m: Menu, f: Entry) {
    && IrredundantOpt(f.dep)
    && (f.prompt.Some? ==> SimpleOpt(m, f.prompt.value.visible))
    && (forall i :: 0 <= i < |f.others| ==> SimpleOpt(m, f.others[i]))
  }

  /** None of the conditions of an entry is m, nor is its symbol. */
  ghost predicate Settled(m: Menu, e: Entry, s: State) {
    && EvalOpt(e.dep, s) != MOD
    && (e.prompt.Some? ==> EvalOpt(e.prompt.value.visible, s) != MOD)
    && (forall i :: 0 <= i < |e.others| ==> EvalOpt(e.others[i], s) != MOD)
    && (m.sym.Some? ==> TriOf(m.sym.value, s) != MOD)
  }

  /** No symbol is m, and no condition of the forest. */
  ghost predicate AllSettled(e: Conditions, ts: seq<Tree>, s: State) {
    TwoValued(s) && forall n :: n in Pre(ts) && n in e ==> Settled(n, e[n], s)
  }

  lemma {:induction false} TransBoolTwoValued(e: Expr, s: State)
    requires Normal(e) && TwoValued(s)
    ensures Eval(TransBool(e), s) == Eval(e, s)
  {
    match e
    case Bin(_, l, r) =>
      TransBoolTwoValued(l, s);
      TransBoolTwoValued(r, s);
    case Cmp(_, l, r) => if l.Type() == Tri { TriNamesDiffer(s.tri(l), NO); }
    case _ =>
  }

  lemma InheritTracks(inherited: Option<Expr>, own: Option<Expr>, a: Tristate, s: State, exact: bool)
    requires Legal(s) && TracksOpt(inherited, a, s, exact)
    requires exact ==> a != MOD && EvalOpt(own, s) != MOD
    ensures TracksOpt(Inherit(inherited, own), Apply(And, a, EvalOpt(own, s)), s, exact)
  {
    InheritSound(inherited, own, s);
  }

  lemma InheritForTracks(inherited: Option<Expr>, own: Option<Expr>, tristate: bool, a: Tristate, s: State, exact: bool)
    requires Legal(s) && TracksOpt(inherited, a, s, exact)
    requires exact ==> TwoValued(s) && a != MOD && EvalOpt(own, s) != MOD
    ensures TracksOpt(InheritFor(inherited, own, tristate), Apply(And, a, EvalOpt(own, s)), s, exact)
  {
    InheritTracks(inherited, own, a, s, exact);
    InheritForKeepsNotN(inherited, own, tristate, s);
    var e := Inherit(inherited, own);
    if e.Some? && exact { TransBoolTwoValued(e.value, s); }
  }

  /** One step down: what an entry becomes when it inherits. */
  lemma NewEntryTracks(m: Menu, e: Entry, inherited: Option<Expr>, a: Tristate, s: State, exact: bool)
    requires Legal(s) && TracksOpt(inherited, a, s, exact)
    requires exact ==> TwoValued(s) && a != MOD && Settled(m, e, s)
    ensures EntryTracks(NewEntry(m, e, Combining(inherited), Relaxing()), e, a, s, exact)
    ensures EntrySimple(m, NewEntry(m, e, Combining(inherited), Relaxing()))
  {
    var f := NewEntry(m, e, Combining(inherited), Relaxing());
    var d := Apply(And, a, EvalOpt(e.dep, s));
    var tristate := m.sym.None? || m.sym.value.Type() == Tri;
    InheritTracks(inherited, e.dep, a, s, exact);
    InheritIrredundant(inherited, e.dep);
    if e.prompt.Some? {
      InheritForTracks(f.dep, e.prompt.value.visible, tristate, d, s, exact);
      InheritForRelaxes(f.dep, e.prompt.value.visible, s);
      InheritIrredundant(f.dep, e.prompt.value.visible);
    }
    forall i | 0 <= i < |e.others|
      ensures TracksOpt(f.others[i], Apply(And, d, EvalOpt(e.others[i], s)), s, exact)
      ensures SimpleOpt(m, f.others[i])
    {
      InheritForTracks(f.dep, e.others[i], tristate, d, s, exact);
      InheritForRelaxes(f.dep, e.others[i], s);
      InheritIrredundant(f.dep, e.others[i]);
    }
  }

  lemma HandedOnTracks(m: Menu, f: Entry, e: Entry, a: Tristate, s: State, exact: bool)
    requires Legal(s) && EntryTracks(f, e, a, s, exact) && (exact ==> a != MOD && Settled(m, e, s))
    ensures TracksOpt(InheritedBy(m, f), HandedOn(m, e, a, s), s, exact)
    ensures exact ==> HandedOn(m, e, a, s) != MOD
  {}

  /** The first level has inherited from `inherited`, everything below has its original conditions. */
  ghost predicate Inheriting(e0: Conditions, e: Conditions, ts: seq<Tree>, inherited: Option<Expr>) {
    && Known(e0, ts) && Known(e, ts)
    && forall t :: t in ts ==>
      && t.m in e && t.m in e0 && e[t.m] == NewEntry(t.m, e0[t.m], Combining(inherited), Relaxing())
      && forall n :: n in Pre(t.kids) ==> n in e && n in e0 && e[n] == e0[n]
  }

  lemma InheritingDown(e0: Conditions, e: Conditions, t: Tree)
    requires t.m in e && Known(e0, t.kids) && NoDup(Pre(t.kids))
    requires forall n :: n in Pre(t.kids) ==> n in e && e[n] == e0[n]
    ensures Inheriting(e0, Passed(e, t.m, t.kids), t.kids, InheritedBy(t.m, e[t.m]))
  {
    forall k | k in t.kids
      ensures k.m in Pre(t.kids) && k.m in Tops(t.kids)
      ensures forall n :: n in Pre(k.kids) ==> n in Pre(t.kids) && n !in Tops(t.kids)
    {
      TopOf(t.kids, k);
      forall n | n in Pre(k.kids)
        ensures n in Pre(t.kids) && n !in Tops(t.kids)
      {
        InnerInPre(t.kids, k, n);
        InnerNotTop(t.kids, k, n);
      }
      InnerInPre(t.kids, k, k.m);
    }
  }

  /** One tree of the list is done; the others are as they were. */
  lemma InheritingOn(e0: Conditions, e: Conditions, ts: seq<Tree>, inherited: Option<Expr>)
    requires ts != [] && Inheriting(e0, e, ts, inherited) && NoDup(Pre(ts))
    ensures var e2 := Below(Passed(e, ts[0].m, ts[0].kids), ts[0].kids);
      && Inheriting(e0, e2, ts[1..], inherited)
      && ts[0].m in e2 && e2[ts[0].m] == e[ts[0].m]
  {
    var t, rest := ts[0], ts[1..];
    var e1 := Passed(e, t.m, t.kids);
    PreParts(ts);
    KnownParts(e, ts);
    KnownParts(e0, ts);
    forall n | n in e && n !in Pre(t.kids)
      ensures n in Below(e1, t.kids) && Below(e1, t.kids)[n] == e[n]
    {
      if n in Tops(t.kids) { TopsInPre(t.kids, n); }
      forall k | k in t.kids
        ensures n !in Pre(k.kids)
      {
        InnerInPre(t.kids, k, n);
      }
      BelowOutside(e1, t.kids, n);
    }
    forall k | k in rest
      ensures k in ts && k.m in Pre(rest) && forall n :: n in Pre(k.kids) ==> n in Pre(rest)
    {
      InnerInPre(rest, k, k.m);
      forall n | n in Pre(k.kids)
        ensures n in Pre(rest)
      {
        InnerInPre(rest, k, n);
      }
    }
  }

  /** Every entry of a list, at any depth, ends with the conditions intended. */
  lemma {:induction false} BelowTracks(e0: Conditions, e: Conditions, ts: seq<Tree>, inherited: Option<Expr>, n: Menu,
                                       a: Tristate, s: State, exact: bool)
    requires Legal(s) && NoDup(Pre(ts)) && Inheriting(e0, e, ts, inherited) && TracksOpt(inherited, a, s, exact)
    requires exact ==> a != MOD && AllSettled(e0, ts, s)
    requires n in Pre(ts)
    ensures n in Below(e, ts) && n in e0 && EntryTracks(Below(e, ts)[n], e0[n], Reaching(e0, ts, n, a, s), s, exact)
    ensures EntrySimple(n, Below(e, ts)[n])
    decreases ts
  {
    var t, rest := ts[0], ts[1..];
    assert Pre(ts) == [t.m] + Pre(t.kids) + Pre(rest) && t in ts;
    PreParts(ts);
    KnownParts(e0, ts);
    var e1 := Passed(e, t.m, t.kids);
    var e2 := Below(e1, t.kids);
    InheritingOn(e0, e, ts, inherited);
    NewEntryTracks(t.m, e0[t.m], inherited, a, s, exact);
    if n in Pre(rest) && n != t.m && n !in Pre(t.kids) {
      BelowTracks(e0, e2, rest, inherited, n, a, s, exact);
    } else {
      forall k | k in rest
        ensures n !in Pre(k.kids)
      {
        InnerInPre(rest, k, n);
      }
      if n in Pre(t.kids) {
        InheritingDown(e0, e, t);
        HandedOnTracks(t.m, e[t.m], e0[t.m], a, s, exact);
        BelowTracks(e0, e1, t.kids, InheritedBy(t.m, e[t.m]), n, HandedOn(t.m, e0[t.m], a, s), s, exact);
      }
      BelowOutside(e2, rest, n);
    }
  }

  /**
   * The final conditions of every entry below the root are in normal form, and n wherever the
   * AND of its own condition with those that come down to it along its original ancestors is;
   * without any m they are equal to it. Own conditions say nothing twice, nor do those of properties,
   * except that for a symbol that is no tristate these have no test for other than n instead.
   */
  lemma FinalConditions(e: Conditions, root: Menu, kids: seq<Tree>, n: Menu, s: State)
    requires Legal(s) && root in e && Known(e, kids) && NoDup(Pre(kids)) && NormalOpt(InheritedBy(root, e[root]))
    requires n in Pre(kids)
    ensures var f := Below(e, [Node(root, kids)]);
      var a := EvalOpt(InheritedBy(root, e[root]), s);
      && n in f && n in e
      && EntryTracks(f[n], e[n], Reaching(e, kids, n, a, s), s, false) && EntrySimple(n, f[n])
      && (a != MOD && AllSettled(e, kids, s) ==> EntryTracks(f[n], e[n], Reaching(e, kids, n, a, s), s, true))
  {
    BelowOne(e, root, kids);
    InheritingDown(e, e, Node(root, kids));
    var inherited := InheritedBy(root, e[root]);
    var a := EvalOpt(inherited, s);
    BelowTracks(e, Passed(e, root, kids), kids, inherited, n, a, s, false);
    if a != MOD && AllSettled(e, kids, s) {
      BelowTracks(e, Passed(e, root, kids), kids, inherited, n, a, s, true);
    }
  }
}
