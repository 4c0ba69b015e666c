/** Symbol records and their properties, and the symbols that evaluating one may consult. */
module Symbols {
  import opened Exprs

  datatype PropKind = Prompt | Comment | MenuTitle | Default | ChoiceProp | Select | Range

  /** `text` is set for properties that carry a prompt. */
  datatype Property = Property(kind: PropKind, text: bool, visible: Option<Expr>, expr: Option<Expr>)

  /** A choice lists its members; a member names its choice. */
  datatype SymInfo = SymInfo(
    props: seq<Property>,
    revDep: Option<Expr>,
    isChoice: bool,
    members: seq<Sym>,
    choiceOf: Option<Sym>)

  type Table = map<Sym, SymInfo>

  const NO_INFO := SymInfo([], None, false, [], None)

  /** Constants and symbols that are only mentioned have no properties. */
  function Info(t: Table, x: Sym): SymInfo {
    if x in t then t[x] else NO_INFO
  }

  // ----- the symbols an expression or a record mentions, in the order they are visited -----

  function ExprSyms(e: Expr): seq<Sym> {
    match e
    case Leaf(x) => [x]
    case Not(a) => ExprSyms(a)
    case Cmp(_, l, r) => [l, r]
    case Bin(_, l, r) => ExprSyms(l) + ExprSyms(r)
  }

  function OptSyms(e: Option<Expr>): seq<Sym> {
    if e.None? then [] else ExprSyms(e.value)
  }

  /** Choice and select properties are skipped; only defaults of ordinary symbols count. */
  function PropSyms(p: Property, isChoice: bool): seq<Sym> {
    if p.kind == ChoiceProp || p.kind == Select then []
    else OptSyms(p.visible) + (if p.kind == Default && !isChoice then OptSyms(p.expr) else [])
  }

  function PropsSyms(ps: seq<Property>, isChoice: bool): seq<Sym> {
    if ps == [] then [] else PropSyms(ps[0], isChoice) + PropsSyms(ps[1..], isChoice)
  }

  function Deps(t: Table, x: Sym): seq<Sym> {
    var info := Info(t, x);
    OptSyms(info.revDep) + PropsSyms(info.props, info.isChoice)
  }

  /** A finite set of symbols that contains everything its members depend on. */
  ghost predicate Closed(t: Table, all: set<Sym>) {
    forall x, y :: x in all && y in Deps(t, x) ==> y in all
  }

  /** Property p of a symbol mentions y in its condition, or in the value of a default. */
  predicate Mentions(p: Property, isChoice: bool, y: Sym) {
    && p.kind != ChoiceProp && p.kind != Select
    && (y in OptSyms(p.visible) || (p.kind == Default && !isChoice && y in OptSyms(p.expr)))
  }

  lemma {:induction false} PropsSymsAre(ps: seq<Property>, isChoice: bool, y: Sym)
    ensures y in PropsSyms(ps, isChoice) <==> exists i :: 0 <= i < |ps| && Mentions(ps[i], isChoice, y)
  {
    if ps != [] {
      PropsSymsAre(ps[1..], isChoice, y);
      assert forall i :: 0 < i < |ps| ==> ps[i] == ps[1..][i - 1];
      if y in PropsSyms(ps[1..], isChoice) {
        var i :| 0 <= i < |ps[1..]| && Mentions(ps[1..][i], isChoice, y);
        assert Mentions(ps[i + 1], isChoice, y);
      }
      assert Mentions(ps[0], isChoice, y) <==> y in PropSyms(ps[0], isChoice);
    }
  }

  /** The search follows reverse dependencies, conditions and default values, and nothing else. */
  lemma DepsAre(t: Table, x: Sym, y: Sym)
    ensures var info := Info(t, x);
      y in Deps(t, x) <==> y in OptSyms(info.revDep) || exists i :: 0 <= i < |info.props| && Mentions(info.props[i], info.isChoice, y)
  {
    PropsSymsAre(Info(t, x).props, Info(t, x).isChoice, y);
  }
}
