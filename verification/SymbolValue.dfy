/** The value of a symbol as a function of the values it consults: bounds, defaults, user values. */
module SymbolValue {
  import opened Tristates
  import opened Exprs
  import opened Symbols
  import opened ExprTransform

  /** What the user has set; a symbol in `unset` still carries SYMBOL_NEW. */
  datatype UserValue = UserValue(tri: Tristate, str: string)

  /** Everything an evaluation depends on besides the values of other symbols. */
  datatype Context = Context(table: Table, user: map<Sym, UserValue>, unset: set<Sym>, modules: Tristate)

  const NO_VALUE := UserValue(NO, "")

  function User(c: Context, x: Sym): UserValue {
    if x in c.user then c.user[x] else NO_VALUE
  }

  predicate HasValue(c: Context, x: Sym) { x !in c.unset }

  /** curr, visible and rev_dep.tri of a symbol, and its SYMBOL_WRITE flag. */
  datatype SymState = SymState(tri: Tristate, str: string, visible: Tristate, rev: Tristate, write: bool)

  /** Without modules a tristate symbol is treated as a boolean. */
  predicate EffectivelyBoolean(c: Context, x: Sym) {
    x.Type() == Boolean || (x.Type() == Tri && c.modules == NO)
  }

  function Promote(v: Tristate, promote: bool): Tristate { if v == MOD && promote then YES else v }

  function PromptVisibility(ps: seq<Property>, s: State): Tristate {
    if ps == [] then NO
    else Apply(Or, if ps[0].text then EvalOpt(ps[0].visible, s) else NO, PromptVisibility(ps[1..], s))
  }

  function Visibility(c: Context, x: Sym, s: State): Tristate {
    Promote(PromptVisibility(Info(c.table, x).props, s), x.Type() != Tri || c.modules == NO)
  }

  function ReverseDep(c: Context, x: Sym, s: State): Tristate {
    var e := Info(c.table, x).revDep;
    Promote(if e.Some? then Eval(e.value, s) else NO, EffectivelyBoolean(c, x))
  }

  /** The first default whose condition is not n. */
  function DefaultProp(ps: seq<Property>, s: State): Option<Property> {
    if ps == [] then None
    else if ps[0].kind == Default && EvalOpt(ps[0].visible, s) != NO then Some(ps[0])
    else DefaultProp(ps[1..], s)
  }

  function DefaultTri(ps: seq<Property>, s: State): Tristate {
    var d := DefaultProp(ps, s);
    if d.Some? then EvalOpt(d.value.expr, s) else NO
  }

  /** The string a symbol holds: boolean and tristate symbols always hold "n" there. */
  function HeldString(x: Sym, s: State): string {
    if x.IsTristate() then "n" else StrOf(x, s)
  }

  /** A string default must be a single symbol. */
  function DefaultSym(ps: seq<Property>, s: State): Option<Sym> {
    var d := DefaultProp(ps, s);
    if d.Some? && d.value.expr.Some? && d.value.expr.value.Leaf? then Some(d.value.expr.value.sym) else None
  }

  function Bounded(v: Tristate, visible: Tristate, rev: Tristate): Tristate {
    Apply(Or, Apply(And, v, visible), rev)
  }

  function TristateStep(c: Context, x: Sym, s: State): SymState {
    var ps := Info(c.table, x).props;
    var visible, rev := Visibility(c, x, s), ReverseDep(c, x, s);
    if Apply(Or, visible, rev) != NO then
      var v := if HasValue(c, x) then User(c, x).tri else DefaultTri(ps, s);
      SymState(Promote(Bounded(v, visible, rev), EffectivelyBoolean(c, x)), "n", visible, rev, true)
    else
      SymState(Promote(DefaultTri(ps, s), EffectivelyBoolean(c, x)), "n", visible, rev, DefaultProp(ps, s).Some?)
  }

  function StringStep(c: Context, x: Sym, s: State): SymState {
    var ps := Info(c.table, x).props;
    var visible, rev := Visibility(c, x, s), ReverseDep(c, x, s);
    if visible != NO && HasValue(c, x) then SymState(NO, User(c, x).str, visible, rev, true)
    else
      var d := DefaultSym(ps, s);
      SymState(NO, if d.Some? then HeldString(d.value, s) else "", visible, rev, visible != NO || d.Some?)
  }

  /** One evaluation of a symbol outside any choice, reading the others from `s`. */
  function Step(c: Context, x: Sym, s: State): SymState {
    if x.IsTristate() then TristateStep(c, x, s)
    else if x.Type() == Unknown then SymState(TriOf(x, s), x.name, NO, NO, false)
    else StringStep(c, x, s)
  }

  // ----- an evaluation reads its dependencies only -----

  ghost predicate AgreeOn(s: State, s': State, xs: seq<Sym>) {
    forall x :: x in xs ==> s.tri(x) == s'.tri(x) && s.str(x) == s'.str(x)
  }

  lemma {:induction false} EvalLocal(e: Expr, s: State, s': State)
    requires AgreeOn(s, s', ExprSyms(e))
    ensures Eval(e, s) == Eval(e, s')
  {
    match e
    case Not(a) => EvalLocal(a, s, s');
    case Bin(_, l, r) =>
      EvalLocal(l, s, s');
      EvalLocal(r, s, s');
    case Leaf(x) => assert x in ExprSyms(e);
    case Cmp(_, l, r) => assert l in ExprSyms(e) && r in ExprSyms(e);
  }

  lemma EvalOptLocal(e: Option<Expr>, s: State, s': State)
    requires AgreeOn(s, s', OptSyms(e))
    ensures EvalOpt(e, s) == EvalOpt(e, s')
  {
    if e.Some? { EvalLocal(e.value, s, s'); }
  }

  /** No property of `ps` belongs to a choice. */
  predicate Plain(ps: seq<Property>) {
    forall i :: 0 <= i < |ps| ==> ps[i].kind != ChoiceProp && !(ps[i].kind == Select && ps[i].text)
  }

  lemma {:induction false} PropsLocal(ps: seq<Property>, s: State, s': State)
    requires Plain(ps) && AgreeOn(s, s', PropsSyms(ps, false))
    ensures PromptVisibility(ps, s) == PromptVisibility(ps, s')
    ensures DefaultProp(ps, s) == DefaultProp(ps, s')
    ensures DefaultTri(ps, s) == DefaultTri(ps, s')
    ensures DefaultSym(ps, s) == DefaultSym(ps, s')
    ensures DefaultSym(ps, s).Some? ==> HeldString(DefaultSym(ps, s).value, s) == HeldString(DefaultSym(ps, s).value, s')
  {
    if ps != [] {
      PropsLocal(ps[1..], s, s');
      if ps[0].kind != Select {
        EvalOptLocal(ps[0].visible, s, s');
        if ps[0].kind == Default {
          EvalOptLocal(ps[0].expr, s, s');
        }
      }
    }
  }

  ghost predicate ChoiceFree(t: Table) {
    forall x :: x in t ==> !t[x].isChoice && t[x].choiceOf.None? && Plain(t[x].props)
  }

  lemma StepLocal(c: Context, x: Sym, s: State, s': State)
    requires ChoiceFree(c.table) && AgreeOn(s, s', Deps(c.table, x))
    ensures Step(c, x, s) == Step(c, x, s')
  {
    var info := Info(c.table, x);
    if info.revDep.Some? { EvalLocal(info.revDep.value, s, s'); }
    PropsLocal(info.props, s, s');
  }

  // ----- relaxed prompt conditions -----

  function RelaxVisible(p: Property): Property {
    if p.visible.None? then p else p.(visible := Some(TransBool(p.visible.value)))
  }

  function RelaxProps(ps: seq<Property>): seq<Property> {
    if ps == [] then [] else [RelaxVisible(ps[0])] + RelaxProps(ps[1..])
  }

  lemma {:induction false} RelaxKeepsNotN(ps: seq<Property>, s: State)
    requires forall i :: 0 <= i < |ps| && ps[i].visible.Some? ==> Normal(ps[i].visible.value)
    ensures PromptVisibility(RelaxProps(ps), s) != NO <==> PromptVisibility(ps, s) != NO
  {
    if ps != [] {
      RelaxKeepsNotN(ps[1..], s);
      if ps[0].visible.Some? { TransBoolKeepsNotN(ps[0].visible.value, s); }
      assert RelaxProps(ps)[0] == RelaxVisible(ps[0]) && RelaxProps(ps)[1..] == RelaxProps(ps[1..]);
    }
  }

  /** For a symbol that is no tristate, relaxing `FOO != n` to FOO leaves the visibility as it was. */
  lemma RelaxKeepsVisibility(c: Context, x: Sym, s: State, c': Context)
    requires x.Type() != Tri
    requires Info(c'.table, x).props == RelaxProps(Info(c.table, x).props)
    requires forall p :: p in Info(c.table, x).props && p.visible.Some? ==> Normal(p.visible.value)
    ensures Visibility(c', x, s) == Visibility(c, x, s)
  {
    var ps := Info(c.table, x).props;
    forall i | 0 <= i < |ps| && ps[i].visible.Some?
      ensures Normal(ps[i].visible.value)
    {
      assert ps[i] in ps;
    }
    RelaxKeepsNotN(ps, s);
  }

  // ----- what an evaluation yields, property by property -----

  /** Property i is the default in force: the first one whose condition is not n. */
  predicate DefaultInForce(ps: seq<Property>, s: State, i: nat) {
    && i < |ps| && ps[i].kind == Default && EvalOpt(ps[i].visible, s) != NO
    && forall j :: 0 <= j < i && ps[j].kind == Default ==> EvalOpt(ps[j].visible, s) == NO
  }

  predicate NoDefaultInForce(ps: seq<Property>, s: State) {
    forall j :: 0 <= j < |ps| && ps[j].kind == Default ==> EvalOpt(ps[j].visible, s) == NO
  }

  lemma {:induction false} DefaultPropAt(ps: seq<Property>, s: State, i: nat)
    requires DefaultInForce(ps, s, i)
    ensures DefaultProp(ps, s) == Some(ps[i])
  {
    if i > 0 {
      assert ps[0].kind == Default ==> EvalOpt(ps[0].visible, s) == NO;
      DefaultPropAt(ps[1..], s, i - 1);
    }
  }

  lemma {:induction false} NoDefaultProp(ps: seq<Property>, s: State)
    requires NoDefaultInForce(ps, s)
    ensures DefaultProp(ps, s) == None
  {
    if ps != [] {
      assert ps[0].kind == Default ==> EvalOpt(ps[0].visible, s) == NO;
      NoDefaultProp(ps[1..], s);
    }
  }

  /** v is the greatest value of a prompt condition, or n without a prompt. */
  predicate GreatestPrompt(ps: seq<Property>, s: State, v: Tristate) {
    && (forall i :: 0 <= i < |ps| && ps[i].text ==> EvalOpt(ps[i].visible, s) <= v)
    && (v == NO || exists i :: 0 <= i < |ps| && ps[i].text && EvalOpt(ps[i].visible, s) == v)
  }

  lemma {:induction false} PromptVisibilityIs(ps: seq<Property>, s: State)
    ensures GreatestPrompt(ps, s, PromptVisibility(ps, s))
  {
    if ps != [] {
      var v, v1 := PromptVisibility(ps, s), PromptVisibility(ps[1..], s);
      PromptVisibilityIs(ps[1..], s);
      assert forall i :: 0 < i < |ps| ==> ps[i] == ps[1..][i - 1];
      if v != NO && v == v1 {
        var i :| 0 <= i < |ps[1..]| && ps[1..][i].text && EvalOpt(ps[1..][i].visible, s) == v;
        assert ps[i + 1].text && EvalOpt(ps[i + 1].visible, s) == v;
      } else if v != NO {
        assert ps[0].text && EvalOpt(ps[0].visible, s) == v;
      }
    }
  }

  /** w is v cut down to the visibility and lifted to the reverse dependency. */
  predicate CutAndLifted(w: Tristate, v: Tristate, visible: Tristate, rev: Tristate) {
    if rev >= visible || rev >= v then w == rev else if v <= visible then w == v else w == visible
  }

  /** r is w, except that m becomes y for booleans and without modules. */
  predicate Promoted(r: Tristate, w: Tristate, boolean: bool) { r == if boolean && w == MOD then YES else w }

  /** The bounds: the greatest prompt, and the reverse dependency, of which m may become y. */
  lemma StepBoundsAre(c: Context, x: Sym, s: State) returns (v: Tristate)
    requires x.Type() != Unknown
    ensures var r, info := Step(c, x, s), Info(c.table, x);
      && GreatestPrompt(info.props, s, v)
      && Promoted(r.visible, v, x.Type() != Tri || c.modules == NO)
      && Promoted(r.rev, if info.revDep.Some? then Eval(info.revDep.value, s) else NO,
                  x.Type() == Boolean || (x.Type() == Tri && c.modules == NO))
  {
    v := PromptVisibility(Info(c.table, x).props, s);
    PromptVisibilityIs(Info(c.table, x).props, s);
  }

  /** A boolean or tristate symbol that can be set and has been: its user value within the bounds. */
  lemma StepOfUser(c: Context, x: Sym, s: State) returns (w: Tristate)
    requires x.IsTristate() && HasValue(c, x)
    requires Step(c, x, s).visible != NO || Step(c, x, s).rev != NO
    ensures var r := Step(c, x, s);
      CutAndLifted(w, User(c, x).tri, r.visible, r.rev) && Promoted(r.tri, w, x.Type() == Boolean || c.modules == NO) && r.write
  {
    w := Bounded(User(c, x).tri, Step(c, x, s).visible, Step(c, x, s).rev);
  }

  /** Else the default in force: within the bounds, or as it is for a symbol that has neither. */
  lemma StepOfDefault(c: Context, x: Sym, s: State, i: nat) returns (w: Tristate)
    requires x.IsTristate() && DefaultInForce(Info(c.table, x).props, s, i)
    requires var r := Step(c, x, s); r.visible != NO || r.rev != NO ==> !HasValue(c, x)
    ensures var r, d := Step(c, x, s), EvalOpt(Info(c.table, x).props[i].expr, s);
      && (if r.visible != NO || r.rev != NO then CutAndLifted(w, d, r.visible, r.rev) else w == d)
      && Promoted(r.tri, w, x.Type() == Boolean || c.modules == NO) && r.write
  {
    DefaultPropAt(Info(c.table, x).props, s, i);
    var r, d := Step(c, x, s), EvalOpt(Info(c.table, x).props[i].expr, s);
    w := if r.visible != NO || r.rev != NO then Bounded(d, r.visible, r.rev) else d;
  }

  /** Without any, the reverse dependency, which may be n; it is written if there is a bound. */
  lemma StepOfNothing(c: Context, x: Sym, s: State)
    requires x.IsTristate() && NoDefaultInForce(Info(c.table, x).props, s)
    requires var r := Step(c, x, s); r.visible != NO || r.rev != NO ==> !HasValue(c, x)
    ensures var r := Step(c, x, s); r.tri == r.rev && (r.write <==> r.visible != NO || r.rev != NO)
  {
    NoDefaultProp(Info(c.table, x).props, s);
  }

  /** A string or number: what the user has set, while it is visible, or the default in force. */
  lemma StepOfString(c: Context, x: Sym, s: State)
    requires x.Type() in {Int, Hex, String}
    ensures var r, ps := Step(c, x, s), Info(c.table, x).props;
      && (r.visible != NO && HasValue(c, x) ==> r.str == User(c, x).str)
      && (r.visible == NO || !HasValue(c, x) ==>
            && (NoDefaultInForce(ps, s) ==> r.str == "")
            && (forall i: nat :: DefaultInForce(ps, s, i) ==>
                  if ps[i].expr.None? || !ps[i].expr.value.Leaf? then r.str == ""
                  else var d := ps[i].expr.value.sym; r.str == (if d.IsTristate() then "n" else StrOf(d, s)) && r.write))
      && (r.visible != NO ==> r.write)
  {
    var ps := Info(c.table, x).props;
    if NoDefaultInForce(ps, s) { NoDefaultProp(ps, s); }
    forall i: nat | DefaultInForce(ps, s, i)
      ensures DefaultProp(ps, s) == Some(ps[i])
    {
      DefaultPropAt(ps, s, i);
    }
  }

  // ----- bounds -----

  /**
   * With a visibility or reverse dependency the value lies between the reverse dependency and
   * the larger of the two; and it is never m for a symbol that is effectively boolean.
   */
  lemma StepBounds(c: Context, x: Sym, s: State)
    requires x.IsTristate()
    ensures var r := Step(c, x, s);
      && (Apply(Or, r.visible, r.rev) != NO ==> r.rev <= r.tri <= Apply(Or, r.visible, r.rev))
      && (EffectivelyBoolean(c, x) ==> r.tri != MOD && r.visible != MOD && r.rev != MOD)
  {}

  /** sym_tristate_within_range, on the recorded bounds of the symbol. */
  predicate WithinRange(c: Context, x: Sym, r: SymState, v: Tristate) {
    && r.visible != NO
    && x.IsTristate()
    && !(EffectivelyBoolean(c, x) && v == MOD)
    && r.visible > r.rev
    && r.rev <= v <= r.visible
  }

  function WithUser(c: Context, x: Sym, v: Tristate): Context {
    c.(user := c.user[x := UserValue(v, User(c, x).str)], unset := c.unset - {x})
  }

  /** A value within the range is what the next evaluation yields. */
  lemma SetIsReadBack(c: Context, x: Sym, s: State, v: Tristate)
    requires WithinRange(c, x, Step(c, x, s), v)
    ensures Step(WithUser(c, x, v), x, s).tri == v
  {}

  /** Out of range, with the bounds current, the value is rejected unless it is already held. */
  lemma OutOfRangeIsLost(c: Context, x: Sym, s: State, v: Tristate)
    requires x.IsTristate() && Step(c, x, s).visible > Step(c, x, s).rev
    ensures WithinRange(c, x, Step(c, x, s), v) <==> Step(WithUser(c, x, v), x, s).tri == v
  {}

  /** Setting the value that a symbol already has changes nothing about its evaluation. */
  lemma SetSameValue(c: Context, x: Sym, s: State)
    requires x.IsTristate()
    ensures Step(WithUser(c, x, Step(c, x, s).tri), x, s) == Step(c, x, s)
  {}

  /** The evaluation of other symbols does not look at the user value of x. */
  lemma SetIsLocal(c: Context, x: Sym, v: Tristate, y: Sym, s: State)
    requires y != x
    ensures Step(WithUser(c, x, v), y, s) == Step(c, y, s)
  {}
}
