/** The conditions of menu entries, and what finalising makes of them from the top down. */
module MenuConditions {
  import opened Exprs
  import opened Sequences
  import opened Dependencies
  import opened MenuForest

  /** The conditions that an entry and its properties have. */
  datatype Entry = Entry(dep: Option<Expr>, prompt: Option<PromptInfo>, others: seq<Option<Expr>>)

  type Conditions = map<Menu, Entry>

  /** How a condition follows from the one inherited, and a property's from that of its entry. */
  type Combine = Option<Expr> -> Option<Expr>
  type Relax = (Menu, Option<Expr>, Option<Expr>) -> Option<Expr>

  function NewEntry(m: Menu, e: Entry, combine: Combine, relax: Relax): Entry {
    var d := combine(e.dep);
    Entry(d,
      if e.prompt.None? then None else Some(e.prompt.value.(visible := relax(m, d, e.prompt.value.visible))),
      NewOthers(m, d, e.others, relax))
  }

  function NewOthers(m: Menu, d: Option<Expr>, others: seq<Option<Expr>>, relax: Relax): (r: seq<Option<Expr>>)
    ensures |r| == |others| && forall i :: 0 <= i < |r| ==> r[i] == relax(m, d, others[i])
  {
    if others == [] then [] else [relax(m, d, others[0])] + NewOthers(m, d, others[1..], relax)
  }

  function Updated(e: Conditions, s: seq<Menu>, combine: Combine, relax: Relax): Conditions {
    map n | n in e :: if n in s then NewEntry(n, e[n], combine, relax) else e[n]
  }

  lemma UpdatedStep(e: Conditions, s: seq<Menu>, i: nat, combine: Combine, relax: Relax)
    requires i < |s| && s[i] in e && forall j :: 0 <= j < i ==> s[j] != s[i]
    ensures var u := Updated(e, s[..i], combine, relax);
      s[i] in u && u[s[i] := NewEntry(s[i], u[s[i]], combine, relax)] == Updated(e, s[..i + 1], combine, relax)
  {
    assert s[..i + 1] == s[..i] + [s[i]];
    assert s[i] !in s[..i];
  }

  function Combining(inherited: Option<Expr>): Combine {
    d => Inherit(inherited, d)
  }

  /** The properties of a symbol that is no tristate have their conditions relaxed. */
  function Relaxing(): Relax {
    (m: Menu, d: Option<Expr>, c: Option<Expr>) => InheritFor(d, c, m.sym.None? || m.sym.value.Type() == Tri)
  }

  /** What the entries below an entry inherit. */
  function InheritedBy(m: Menu, e: Entry): Option<Expr> {
    if m.sym.Some? && m.isChoice then Some(Leaf(m.sym.value))
    else if e.prompt.Some? then e.prompt.value.visible
    else e.dep
  }

  /**
   * The entries below those of `ts` inherit, list by list and from the top down; those of `ts`
   * themselves keep what they have.
   */
  function Below(e: Conditions, ts: seq<Tree>): Conditions
    decreases ts
  {
    if ts == [] || ts[0].m !in e then e
    else Below(Below(Passed(e, ts[0].m, ts[0].kids), ts[0].kids), ts[1..])
  }

  /** The list `kids` inherits from m. */
  function Passed(e: Conditions, m: Menu, kids: seq<Tree>): Conditions
    requires m in e
  {
    Updated(e, Tops(kids), Combining(InheritedBy(m, e[m])), Relaxing())
  }

  lemma {:induction false} BelowKeys(e: Conditions, ts: seq<Tree>)
    ensures Below(e, ts).Keys == e.Keys
    decreases ts
  {
    if ts != [] && ts[0].m in e {
      var e1 := Passed(e, ts[0].m, ts[0].kids);
      BelowKeys(e1, ts[0].kids);
      BelowKeys(Below(e1, ts[0].kids), ts[1..]);
    }
  }

  /** All entries of the forest are known. */
  ghost predicate Known(e: Conditions, ts: seq<Tree>) { forall n :: n in Pre(ts) ==> n in e }

  lemma {:induction false} BelowConcat(e: Conditions, a: seq<Tree>, b: seq<Tree>)
    requires Known(e, a)
    ensures Below(e, a + b) == Below(Below(e, a), b)
    decreases a
  {
    if a == [] {
      assert a + b == b;
    } else {
      assert (a + b)[0] == a[0] && (a + b)[1..] == a[1..] + b;
      assert a[0].m in Pre(a) && forall n :: n in Pre(a[1..]) ==> n in Pre(a);
      var e1 := Below(Passed(e, a[0].m, a[0].kids), a[0].kids);
      BelowKeys(Passed(e, a[0].m, a[0].kids), a[0].kids);
      BelowConcat(e1, a[1..], b);
    }
  }

  lemma BelowAll(e: Conditions, all: seq<Tree>, left: seq<Tree>)
    requires Known(e, all) && Suffix(left, all)
    ensures Below(e, all) == Below(Below(e, Taken(all, left)), left)
  {
    assert all == Taken(all, left) + left;
    PreConcat(Taken(all, left), left);
    BelowConcat(e, Taken(all, left), left);
  }

  lemma BelowStep(e: Conditions, all: seq<Tree>, mid: seq<Tree>, left: seq<Tree>)
    requires Known(e, all) && Suffix(mid, all) && Suffix(left, mid)
    ensures Suffix(left, all) && Below(e, Taken(all, left)) == Below(Below(e, Taken(all, mid)), Taken(mid, left))
  {
    TakenTrans(left, mid, all);
    KnownSuffix(e, all, mid);
    BelowConcat(e, Taken(all, mid), Taken(mid, left));
  }

  /** An entry without a list of its own hands on nothing. */
  lemma BelowLeaf(e: Conditions, m: Menu, ts: seq<Tree>)
    requires m in e
    ensures Below(e, [Node(m, [])] + ts) == Below(e, ts)
  {
    var all := [Node(m, [])] + ts;
    assert all[0] == Node(m, []) && all[1..] == ts;
    assert Passed(e, m, []) == e;
  }

  lemma BelowOne(e: Conditions, m: Menu, kids: seq<Tree>)
    requires m in e
    ensures Below(e, [Node(m, kids)]) == Below(Passed(e, m, kids), kids)
  {
    assert [Node(m, kids)][1..] == [];
  }

  /** The entries with a text. */
  ghost function TextSet(e: Conditions): set<Menu> { set n | n in e && e[n].prompt.Some? && e[n].prompt.value.text }

  lemma PassedTexts(e: Conditions, m: Menu, kids: seq<Tree>)
    requires m in e
    ensures TextSet(Passed(e, m, kids)) == TextSet(e)
  {}

  lemma KnownSuffix(e: Conditions, all: seq<Tree>, left: seq<Tree>)
    requires Known(e, all) && Suffix(left, all)
    ensures Known(e, left) && Known(e, Taken(all, left))
  {
    assert all == Taken(all, left) + left;
    PreConcat(Taken(all, left), left);
  }

  /** Only entries below the first level change. */
  lemma {:induction false} BelowOutside(e: Conditions, ts: seq<Tree>, n: Menu)
    requires n in e && forall t :: t in ts ==> n !in Pre(t.kids)
    ensures n in Below(e, ts) && Below(e, ts)[n] == e[n]
    decreases ts
  {
    if ts != [] && ts[0].m in e {
      var t := ts[0];
      var e1 := Passed(e, t.m, t.kids);
      if n in Tops(t.kids) { TopsInPre(t.kids, n); }
      forall k | k in t.kids
        ensures n !in Pre(k.kids)
      {
        InnerInPre(t.kids, k, n);
      }
      BelowOutside(e1, t.kids, n);
      BelowOutside(Below(e1, t.kids), ts[1..], n);
    }
  }

  // ----- the conditions that are never changed again -----

  /** Once the lists below `ts` have inherited, the entries of `ts` have the conditions of f. */
  ghost predicate SettlesTo(e: Conditions, ts: seq<Tree>, f: Conditions) {
    forall n :: n in Pre(ts) ==> n in f && n in Below(e, ts) && Below(e, ts)[n] == f[n]
  }

  /** The first level already has them. */
  lemma SettledTop(e: Conditions, ts: seq<Tree>, f: Conditions, n: Menu)
    requires SettlesTo(e, ts, f) && NoDup(Pre(ts)) && n in Tops(ts) && n in e
    ensures n in f && f[n] == e[n]
  {
    TopsInPre(ts, n);
    forall t | t in ts
      ensures n !in Pre(t.kids)
    {
      if n in Pre(t.kids) { InnerNotTop(ts, t, n); }
    }
    BelowOutside(e, ts, n);
  }

  lemma SettlesRest(e: Conditions, ts: seq<Tree>, left: seq<Tree>, f: Conditions)
    requires SettlesTo(e, ts, f) && Known(e, ts) && Suffix(left, ts)
    ensures SettlesTo(Below(e, Taken(ts, left)), left, f)
  {
    BelowAll(e, ts, left);
    assert ts == Taken(ts, left) + left;
    PreConcat(Taken(ts, left), left);
  }

  lemma SettlesKids(e: Conditions, t: Tree, rest: seq<Tree>, f: Conditions)
    requires SettlesTo(e, [t] + rest, f) && NoDup(Pre([t] + rest)) && t.m in e
    ensures SettlesTo(Passed(e, t.m, t.kids), t.kids, f)
  {
    var ts := [t] + rest;
    assert ts[0] == t && ts[1..] == rest;
    PreParts(ts);
    var e1 := Below(Passed(e, t.m, t.kids), t.kids);
    forall n | n in Pre(t.kids)
      ensures n in f && n in e1 && e1[n] == f[n]
    {
      assert n in Pre(ts);
      forall k | k in rest
        ensures n !in Pre(k.kids)
      {
        InnerInPre(rest, k, n);
      }
      BelowKeys(e1, rest);
      BelowOutside(e1, rest, n);
    }
  }

  lemma {:induction false} BelowTexts(e: Conditions, ts: seq<Tree>)
    ensures TextSet(Below(e, ts)) == TextSet(e)
    decreases ts
  {
    if ts != [] && ts[0].m in e {
      var e1 := Passed(e, ts[0].m, ts[0].kids);
      PassedTexts(e, ts[0].m, ts[0].kids);
      BelowTexts(e1, ts[0].kids);
      BelowTexts(Below(e1, ts[0].kids), ts[1..]);
    }
  }
}
