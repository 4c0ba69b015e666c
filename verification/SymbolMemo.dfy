/** The memoising evaluator: SYMBOL_VALID flags, invalidation, and setting values. */
module SymbolMemo {
  import opened Tristates
  import opened Exprs
  import opened Symbols
  import opened Walks
  import opened DepGraph
  import opened SymbolValue

  // ----- the plain recursive definition -----

  /** The search for recursive dependencies accepts every symbol. */
  ghost predicate Acyclic(t: Table, all: set<Sym>) {
    Closed(t, all) && forall x :: x in all ==> Clean(t, all, {}, x, {})
  }

  lemma AcyclicIsCycleFree(t: Table, all: set<Sym>)
    requires Closed(t, all)
    ensures Acyclic(t, all) <==> forall x :: x in all ==> !ReachesCycle(DepsOf(t), x)
  {
    forall x | x in all
      ensures Clean(t, all, {}, x, {}) <==> !ReachesCycle(DepsOf(t), x)
    {
      CleanIsAcyclic(t, all, {}, x);
    }
  }

  const NOTHING := SymState(NO, "", NO, NO, false)

  /** Evaluation by recursion on the dependencies; `busy` are the symbols under evaluation. */
  ghost function PlainValue(c: Context, all: set<Sym>, x: Sym, busy: set<Sym>): SymState
    requires Closed(c.table, all) && x in all && Clean(c.table, all, {}, x, busy)
    decreases all - busy, 1
  {
    Step(c, x, StateBelow(c, all, x, busy))
  }

  ghost function StateBelow(c: Context, all: set<Sym>, x: Sym, busy: set<Sym>): State
    requires Closed(c.table, all) && x in all && Clean(c.table, all, {}, x, busy)
    decreases all - busy, 0
  {
    var value := (y: Sym) => if y in Deps(c.table, x) then PlainValue(c, all, y, busy + {x}) else NOTHING;
    State(y => value(y).tri, y => value(y).str)
  }

  // ----- coherence of the memo -----

  type Memo = map<Sym, SymState>

  /** `s` gives the remembered value to every finished symbol. */
  ghost predicate AgreesWith(s: State, m: Memo, fin: set<Sym>) {
    forall y :: y in fin ==> y in m && s.tri(y) == m[y].tri && s.str(y) == m[y].str
  }

  /** The remembered value follows from the finished symbols alone. */
  ghost predicate Determined(c: Context, m: Memo, fin: set<Sym>, x: Sym) {
    x in m && forall s :: AgreesWith(s, m, fin) ==> Step(c, x, s) == m[x]
  }

  ghost predicate Coherent(c: Context, m: Memo, fin: set<Sym>) {
    forall x :: x in fin ==> Determined(c, m, fin, x)
  }

  /** On an acyclic graph a coherent memo holds the values of the plain recursion. */
  lemma {:induction false} CoherentIsPlain(c: Context, all: set<Sym>, m: Memo, fin: set<Sym>, x: Sym, busy: set<Sym>)
    requires Closed(c.table, all) && ChoiceFree(c.table) && fin <= all && Coherent(c, m, fin)
    requires x in fin && Clean(c.table, all, {}, x, busy)
    ensures m[x] == PlainValue(c, all, x, busy)
    decreases all - busy
  {
    var below := StateBelow(c, all, x, busy);
    var s := State(y => if y in fin && y in m then m[y].tri else below.tri(y),
                   y => if y in fin && y in m then m[y].str else below.str(y));
    assert forall y :: y in fin ==> Determined(c, m, fin, y);
    assert AgreesWith(s, m, fin);
    forall y | y in Deps(c.table, x)
      ensures s.tri(y) == below.tri(y) && s.str(y) == below.str(y)
    {
      if y in fin { CoherentIsPlain(c, all, m, fin, y, busy + {x}); }
    }
    StepLocal(c, x, s, below);
    assert Determined(c, m, fin, x);
  }

  /** Later memos keep what earlier ones knew. */
  ghost predicate Grows(m: Memo, fin: set<Sym>, m': Memo, fin': set<Sym>) {
    fin <= fin' && forall y :: y in fin && y in m ==> y in m' && m'[y] == m[y]
  }

  lemma CmpRemembered(e: Expr, m: Memo, fin: set<Sym>, s: State)
    requires e.Cmp? && e.lhs in fin && e.rhs in fin && AgreesWith(s, m, fin)
    ensures Eval(e, s) == Eval(e, StateOf(m))
  {}

  class Evaluator {
    const table: Table
    ghost const all: set<Sym>
    const modulesSym: Option<Sym>
    var user: map<Sym, UserValue>
    var unset: set<Sym>
    var modules: Tristate
    var curr: Memo
    var valid: set<Sym>

    function Ctx(): Context
      reads this
    {
      Context(table, user, unset, modules)
    }

    /** The graph is acyclic and choice-free, and modules_val is what its symbol evaluates to. */
    ghost predicate Static()
      reads this
    {
      && Acyclic(table, all) && ChoiceFree(table)
      && (modulesSym.Some? ==> modulesSym.value in all && ModulesSettled(Ctx()))
    }

    ghost predicate ModulesSettled(c: Context)
      requires Acyclic(c.table, all) && modulesSym.Some? && modulesSym.value in all
    {
      PlainValue(c, all, modulesSym.value, {}).tri == c.modules
    }

    /** Finished symbols, those VALID and not under evaluation, are coherent. */
    ghost predicate Inv(busy: set<Sym>)
      reads this
    {
      && Static()
      && busy <= valid <= all
      && Coherent(Ctx(), curr, valid - busy)
    }

    /** Everything listed may be evaluated while the symbols of `busy` are. */
    ghost predicate Ready(xs: seq<Sym>, busy: set<Sym>)
      requires Closed(table, all)
    {
      forall y :: y in xs ==> y in all && Clean(table, all, {}, y, busy)
    }

    constructor (table: Table, ghost all: set<Sym>, modulesSym: Option<Sym>, modules: Tristate,
                 user: map<Sym, UserValue>, unset: set<Sym>)
      requires Acyclic(table, all) && ChoiceFree(table)
      requires modulesSym.Some? ==>
        (modulesSym.value in all &&
         PlainValue(Context(table, user, unset, modules), all, modulesSym.value, {}).tri == modules)
      ensures Inv({}) && valid == {} && curr == map[]
      ensures Ctx() == Context(table, user, unset, modules) && this.all == all && this.modulesSym == modulesSym
    {
      this.table, this.all, this.modulesSym, this.modules := table, all, modulesSym, modules;
      this.user, this.unset := user, unset;
      curr, valid := map[], {};
    }

    method CalcExpr(e: Expr, ghost busy: set<Sym>) returns (v: Tristate)
      requires Inv(busy) && Ready(ExprSyms(e), busy)
      modifies this`curr, this`valid, this`modules
      ensures Inv(busy) && modules == old(modules) && old(valid) <= valid
      ensures Grows(old(curr), old(valid - busy), curr, valid - busy)
      ensures forall s :: AgreesWith(s, curr, valid - busy) ==> Eval(e, s) == v
      decreases all - valid, 1, e, 1
    {
      match e
      case Leaf(x) =>
        CalcValue(x, busy);
        v := TriOf(x, StateOf(curr));
      case Not(a) =>
        var b := CalcExpr(a, busy);
        v := Negate(b);
      case Cmp(_, _, _) =>
        v := CalcCmp(e, busy);
      case Bin(_, _, _) =>
        v := CalcBin(e, busy);
    }

    method CalcCmp(e: Expr, ghost busy: set<Sym>) returns (v: Tristate)
      requires e.Cmp? && Inv(busy) && Ready(ExprSyms(e), busy)
      modifies this`curr, this`valid, this`modules
      ensures Inv(busy) && modules == old(modules) && old(valid) <= valid
      ensures Grows(old(curr), old(valid - busy), curr, valid - busy)
      ensures forall s :: AgreesWith(s, curr, valid - busy) ==> Eval(e, s) == v
      decreases all - valid, 1, e, 0
    {
      assert e.lhs in ExprSyms(e) && e.rhs in ExprSyms(e);
      CalcValue(e.lhs, busy);
      CalcValue(e.rhs, busy);
      var s := StateOf(curr);
      v := if (StrOf(e.lhs, s) == StrOf(e.rhs, s)) == e.equal then YES else NO;
      forall s' | AgreesWith(s', curr, valid - busy)
        ensures Eval(e, s') == v
      {
        CmpRemembered(e, curr, valid - busy, s');
      }
    }

    /** Both sides are evaluated, whatever the first one is. */
    method CalcBin(e: Expr, ghost busy: set<Sym>) returns (v: Tristate)
      requires e.Bin? && Inv(busy) && Ready(ExprSyms(e), busy)
      modifies this`curr, this`valid, this`modules
      ensures Inv(busy) && modules == old(modules) && old(valid) <= valid
      ensures Grows(old(curr), old(valid - busy), curr, valid - busy)
      ensures forall s :: AgreesWith(s, curr, valid - busy) ==> Eval(e, s) == v
      decreases all - valid, 1, e, 0
    {
      var v1 := CalcExpr(e.left, busy);
      ghost var m, fin := curr, valid - busy;
      var v2 := CalcExpr(e.right, busy);
      assert forall s :: AgreesWith(s, curr, valid - busy) ==> AgreesWith(s, m, fin);
      v := Apply(e.op, v1, v2);
    }

    method CalcValue(x: Sym, ghost busy: set<Sym>)
      requires Inv(busy) && x in all && Clean(table, all, {}, x, busy)
      modifies this`curr, this`valid, this`modules
      ensures Inv(busy) && modules == old(modules) && old(valid) <= valid
      ensures Grows(old(curr), old(valid - busy), curr, valid - busy)
      ensures x in valid - busy && x in curr && curr[x] == PlainValue(Ctx(), all, x, busy)
      decreases all - valid, 0
    {
      if x in valid {
        CoherentIsPlain(Ctx(), all, curr, valid - busy, x, busy);
        return;
      }
      ghost var fin0 := valid - busy;
      ghost var busy1 := busy + {x};
      valid := valid + {x};
      assert valid - busy1 == fin0;
      assert Ready(Deps(table, x), busy1);
      var r := NOTHING;
      if x.Type() == Unknown {
        r := SymState(TriOf(x, StateOf(curr)), x.name, NO, NO, false);
      } else {
        r := CalcTyped(x, busy1);
      }
      FinishValue(x, r, busy);
    }

    /** The value is recorded; it follows from the symbols finished before, as x is no longer busy. */
    method FinishValue(x: Sym, r: SymState, ghost busy: set<Sym>)
      requires x in all && x !in busy && Inv(busy + {x}) && Clean(table, all, {}, x, busy)
      requires forall s :: AgreesWith(s, curr, valid - busy - {x}) ==> Step(Ctx(), x, s) == r
      modifies this`curr, this`modules
      ensures Inv(busy) && modules == old(modules)
      ensures curr == old(curr)[x := r] && r == PlainValue(Ctx(), all, x, busy)
    {
      ghost var fin, m := valid - busy - {x}, curr;
      assert valid - (busy + {x}) == fin && valid - busy == fin + {x};
      curr := curr[x := r];
      Finish(Ctx(), m, fin, x, r);
      CoherentIsPlain(Ctx(), all, curr, valid - busy, x, busy);
      if modulesSym == Some(x) {
        PlainBusy(Ctx(), all, x, busy, {});
        modules := curr[x].tri;
      }
    }

    method CalcTyped(x: Sym, ghost busy: set<Sym>) returns (r: SymState)
      requires Inv(busy) && Ready(Deps(table, x), busy) && x in busy && x.Type() != Unknown
      modifies this`curr, this`valid, this`modules
      ensures Inv(busy) && modules == old(modules) && old(valid) <= valid
      ensures Grows(old(curr), old(valid - busy), curr, valid - busy)
      ensures forall s :: AgreesWith(s, curr, valid - busy) ==> Step(Ctx(), x, s) == r
      decreases all - valid, 6, 0
    {
      var visible, rev := CalcVisibility(x, busy);
      curr := curr[x := SymState(NO, if x.IsTristate() then "n" else "", visible, rev, false)];
      if x.IsTristate() {
        r := CalcTristate(x, visible, rev, busy);
      } else {
        r := CalcString(x, visible, rev, busy);
      }
    }

    /** Both bounds of a symbol: any visible prompt, and the reverse dependency. */
    method CalcVisibility(x: Sym, ghost busy: set<Sym>) returns (visible: Tristate, rev: Tristate)
      requires Inv(busy) && Ready(Deps(table, x), busy)
      modifies this`curr, this`valid, this`modules
      ensures Inv(busy) && modules == old(modules) && old(valid) <= valid
      ensures Grows(old(curr), old(valid - busy), curr, valid - busy)
      ensures forall s :: AgreesWith(s, curr, valid - busy) ==>
        Visibility(Ctx(), x, s) == visible && ReverseDep(Ctx(), x, s) == rev
      decreases all - valid, 5, 0
    {
      var info := Info(table, x);
      DepsParts(table, x);
      visible := CalcPrompts(info.props, busy);
      visible := Promote(visible, x.Type() != Tri || modules == NO);
      rev := NO;
      if info.revDep.Some? { rev := CalcExpr(info.revDep.value, busy); }
      rev := Promote(rev, EffectivelyBoolean(Ctx(), x));
    }

    method CalcTristate(x: Sym, visible: Tristate, rev: Tristate, ghost busy: set<Sym>) returns (r: SymState)
      requires Inv(busy) && Ready(Deps(table, x), busy) && x in busy && x.IsTristate()
      requires forall s :: AgreesWith(s, curr, valid - busy) ==>
        Visibility(Ctx(), x, s) == visible && ReverseDep(Ctx(), x, s) == rev
      modifies this`curr, this`valid, this`modules
      ensures Inv(busy) && modules == old(modules) && old(valid) <= valid
      ensures Grows(old(curr), old(valid - busy), curr, valid - busy)
      ensures forall s :: AgreesWith(s, curr, valid - busy) ==> Step(Ctx(), x, s) == r
      decreases all - valid, 5, 0
    {
      DepsParts(table, x);
      var ps := Info(table, x).props;
      var boolean := EffectivelyBoolean(Ctx(), x);
      if Apply(Or, visible, rev) != NO && HasValue(Ctx(), x) {
        r := SymState(Promote(Bounded(User(Ctx(), x).tri, visible, rev), boolean), "n", visible, rev, true);
      } else {
        var found, v := CalcDefaultTri(ps, busy);
        r := if Apply(Or, visible, rev) != NO
          then SymState(Promote(Bounded(v, visible, rev), boolean), "n", visible, rev, true)
          else SymState(Promote(v, boolean), "n", visible, rev, found);
      }
    }

    /** The default of a boolean or tristate symbol, and whether there is one. */
    method CalcDefaultTri(ps: seq<Property>, ghost busy: set<Sym>) returns (found: bool, v: Tristate)
      requires Inv(busy) && Plain(ps) && Ready(PropsSyms(ps, false), busy)
      modifies this`curr, this`valid, this`modules
      ensures Inv(busy) && modules == old(modules) && old(valid) <= valid
      ensures Grows(old(curr), old(valid - busy), curr, valid - busy)
      ensures forall s :: AgreesWith(s, curr, valid - busy) ==> DefaultTri(ps, s) == v && DefaultProp(ps, s).Some? == found
      decreases all - valid, 4, 1
    {
      var d := FindDefault(ps, busy);
      found, v := d.Some?, NO;
      if found {
        DefaultReady(ps, d.value);
        v := CalcOpt(d.value.expr, busy);
      }
    }

    method CalcString(x: Sym, visible: Tristate, rev: Tristate, ghost busy: set<Sym>) returns (r: SymState)
      requires Inv(busy) && Ready(Deps(table, x), busy) && x in busy && !x.IsTristate() && x.Type() != Unknown
      requires forall s :: AgreesWith(s, curr, valid - busy) ==>
        Visibility(Ctx(), x, s) == visible && ReverseDep(Ctx(), x, s) == rev
      modifies this`curr, this`valid, this`modules
      ensures Inv(busy) && modules == old(modules) && old(valid) <= valid
      ensures Grows(old(curr), old(valid - busy), curr, valid - busy)
      ensures forall s :: AgreesWith(s, curr, valid - busy) ==> Step(Ctx(), x, s) == r
      decreases all - valid, 5, 0
    {
      if visible != NO && HasValue(Ctx(), x) {
        return SymState(NO, User(Ctx(), x).str, visible, rev, true);
      }
      DepsParts(table, x);
      var d, v := CalcDefaultString(Info(table, x).props, busy);
      r := SymState(NO, v, visible, rev, visible != NO || d.Some?);
    }

    method CalcDefaultString(ps: seq<Property>, ghost busy: set<Sym>) returns (d: Option<Sym>, v: string)
      requires Inv(busy) && Plain(ps) && Ready(PropsSyms(ps, false), busy)
      modifies this`curr, this`valid, this`modules
      ensures Inv(busy) && modules == old(modules) && old(valid) <= valid
      ensures Grows(old(curr), old(valid - busy), curr, valid - busy)
      ensures forall s :: AgreesWith(s, curr, valid - busy) ==> DefaultSym(ps, s) == d
      ensures forall s :: AgreesWith(s, curr, valid - busy) ==> v == if d.Some? then HeldString(d.value, s) else ""
      decreases all - valid, 4, 1
    {
      d, v := None, "";
      var p := FindDefault(ps, busy);
      if p.Some? && p.value.expr.Some? && p.value.expr.value.Leaf? {
        d := Some(p.value.expr.value.sym);
        DefaultReady(ps, p.value);
        assert d.value in OptSyms(p.value.expr);
        CalcValue(d.value, busy);
        v := HeldString(d.value, StateOf(curr));
      }
    }

    /** The first default whose condition is not n; later ones are not evaluated. */
    method FindDefault(ps: seq<Property>, ghost busy: set<Sym>) returns (d: Option<Property>)
      requires Inv(busy) && Plain(ps) && Ready(PropsSyms(ps, false), busy)
      modifies this`curr, this`valid, this`modules
      ensures Inv(busy) && modules == old(modules) && old(valid) <= valid
      ensures Grows(old(curr), old(valid - busy), curr, valid - busy)
      ensures forall s :: AgreesWith(s, curr, valid - busy) ==> DefaultProp(ps, s) == d
      ensures d.Some? ==> d.value in ps && d.value.kind == Default
      decreases all - valid, 4, 0
    {
      var i := 0;
      while i < |ps|
        invariant i <= |ps|
        invariant Inv(busy) && modules == old(modules) && old(valid) <= valid
        invariant Grows(old(curr), old(valid - busy), curr, valid - busy)
        invariant forall s :: AgreesWith(s, curr, valid - busy) ==> DefaultProp(ps, s) == DefaultProp(ps[i..], s)
      {
        assert ps[i..][0] == ps[i] && ps[i..][1..] == ps[i + 1..];
        if ps[i].kind == Default {
          PropsSymsHas(ps, i);
          var v := CalcOpt(ps[i].visible, busy);
          if v != NO { return Some(ps[i]); }
        }
        i := i + 1;
      }
      d := None;
    }

    method CalcOpt(e: Option<Expr>, ghost busy: set<Sym>) returns (v: Tristate)
      requires Inv(busy) && Ready(OptSyms(e), busy)
      modifies this`curr, this`valid, this`modules
      ensures Inv(busy) && modules == old(modules) && old(valid) <= valid
      ensures Grows(old(curr), old(valid - busy), curr, valid - busy)
      ensures forall s :: AgreesWith(s, curr, valid - busy) ==> EvalOpt(e, s) == v
      decreases all - valid, 2, 0
    {
      v := YES;
      if e.Some? { v := CalcExpr(e.value, busy); }
    }

    method CalcPrompts(ps: seq<Property>, ghost busy: set<Sym>) returns (v: Tristate)
      requires Inv(busy) && Plain(ps) && Ready(PropsSyms(ps, false), busy)
      modifies this`curr, this`valid, this`modules
      ensures Inv(busy) && modules == old(modules) && old(valid) <= valid
      ensures Grows(old(curr), old(valid - busy), curr, valid - busy)
      ensures forall s :: AgreesWith(s, curr, valid - busy) ==> PromptVisibility(ps, s) == v
      decreases all - valid, 3, 0
    {
      v := NO;
      var i := 0;
      while i < |ps|
        invariant i <= |ps|
        invariant Inv(busy) && modules == old(modules) && old(valid) <= valid
        invariant Grows(old(curr), old(valid - busy), curr, valid - busy)
        invariant forall s :: AgreesWith(s, curr, valid - busy) ==>
          PromptVisibility(ps, s) == Apply(Or, v, PromptVisibility(ps[i..], s))
      {
        assert ps[i..][0] == ps[i] && ps[i..][1..] == ps[i + 1..];
        if ps[i].text {
          PropsSymsHas(ps, i);
          var t := CalcOpt(ps[i].visible, busy);
          v := Apply(Or, v, t);
        }
        i := i + 1;
      }
    }

    /** sym_clear_all_valid: forgets everything and evaluates the modules symbol again. */
    method ClearAllValid()
      requires Static()
      modifies this`curr, this`valid, this`modules
      ensures Inv({}) && modules == old(modules)
    {
      valid := {};
      if modulesSym.Some? { CalcValue(modulesSym.value, {}); }
    }

    function TristateValue(x: Sym): Tristate
      reads this
    {
      if x in curr then curr[x].tri else NO
    }

    function Bounds(x: Sym): SymState
      reads this
    {
      if x in curr then curr[x] else NOTHING
    }

    /**
     * sym_set_tristate_value: the memo stays coherent, both when it is cleared and when the
     * value is the one already held and nothing is cleared. A symbol whose bounds are current
     * reads back what was set.
     */
    method SetTristateValue(x: Sym, v: Tristate) returns (ok: bool)
      requires Inv({}) && x in all && x.IsTristate()
      requires modulesSym.Some? ==> ModulesSettled(WithUser(Ctx(), x, v))
      modifies this
      ensures Inv({}) && modules == old(modules)
      ensures ok <==> old(TristateValue(x) == v || WithinRange(Ctx(), x, Bounds(x), v))
      ensures !ok ==> unchanged(this)
      ensures ok ==> Ctx() == WithUser(old(Ctx()), x, v)
      ensures ok && old(TristateValue(x)) == v ==> valid == old(valid) && curr == old(curr)
      ensures ok && x in old(valid) ==> PlainValue(Ctx(), all, x, {}).tri == v
    {
      ghost var c := Ctx();
      assert valid - {} == valid;
      var oldval := TristateValue(x);
      if oldval != v && !WithinRange(Ctx(), x, Bounds(x), v) { return false; }
      if x in valid {
        CoherentIsPlain(c, all, curr, valid, x, {});
        SetPlain(c, all, x, v);
      }
      if oldval == v { SetKeepsCoherent(c, curr, valid, x, v); }
      user := user[x := UserValue(v, User(Ctx(), x).str)];
      unset := unset - {x};
      if oldval != v { ClearAllValid(); }
      ok := true;
    }
  }

  /** Without clearing the memo, a set of the value already held leaves it coherent. */
  lemma SetKeepsCoherent(c: Context, m: Memo, fin: set<Sym>, x: Sym, v: Tristate)
    requires Coherent(c, m, fin) && x.IsTristate()
    requires x in fin ==> x in m && m[x].tri == v
    ensures Coherent(WithUser(c, x, v), m, fin)
  {
    forall y | y in fin
      ensures Determined(WithUser(c, x, v), m, fin, y)
    {
      assert Determined(c, m, fin, y);
      forall s | AgreesWith(s, m, fin)
        ensures Step(WithUser(c, x, v), y, s) == m[y]
      {
        if y == x { SetSameValue(c, x, s); } else { SetIsLocal(c, x, v, y, s); }
      }
    }
  }

  /** What x depends on does not depend on x. */
  lemma {:induction false} SetBelow(c: Context, all: set<Sym>, x: Sym, v: Tristate, y: Sym, busy: set<Sym>)
    requires Closed(c.table, all) && ChoiceFree(c.table) && y in all && x in busy
    requires Clean(c.table, all, {}, y, busy)
    ensures PlainValue(WithUser(c, x, v), all, y, busy) == PlainValue(c, all, y, busy)
    decreases all - busy
  {
    var c' := WithUser(c, x, v);
    var s, s' := StateBelow(c, all, y, busy), StateBelow(c', all, y, busy);
    forall z | z in Deps(c.table, y)
      ensures s'.tri(z) == s.tri(z) && s'.str(z) == s.str(z)
    {
      SetBelow(c, all, x, v, z, busy + {y});
    }
    SetIsLocal(c, x, v, y, s');
    StepLocal(c, y, s', s);
  }

  /** On an acyclic graph an accepted value is read back, and so is the value already held. */
  lemma SetPlain(c: Context, all: set<Sym>, x: Sym, v: Tristate)
    requires Closed(c.table, all) && ChoiceFree(c.table) && x in all && x.IsTristate()
    requires Clean(c.table, all, {}, x, {})
    requires var r := PlainValue(c, all, x, {}); r.tri == v || WithinRange(c, x, r, v)
    ensures PlainValue(WithUser(c, x, v), all, x, {}).tri == v
  {
    var c' := WithUser(c, x, v);
    var s, s' := StateBelow(c, all, x, {}), StateBelow(c', all, x, {});
    forall y | y in Deps(c.table, x)
      ensures s'.tri(y) == s.tri(y) && s'.str(y) == s.str(y)
    {
      SetBelow(c, all, x, v, y, {} + {x});
    }
    StepLocal(c', x, s', s);
    var r := Step(c, x, s);
    if r.tri == v { SetSameValue(c, x, s); } else { SetIsReadBack(c, x, s, v); }
  }

  lemma {:induction false} PropsSymsHas(ps: seq<Property>, i: nat)
    requires i < |ps|
    ensures forall y :: y in PropSyms(ps[i], false) ==> y in PropsSyms(ps, false)
  {
    if i > 0 { PropsSymsHas(ps[1..], i - 1); }
  }

  lemma DefaultReady(ps: seq<Property>, d: Property)
    requires d in ps && d.kind == Default
    ensures forall y :: y in OptSyms(d.expr) ==> y in PropsSyms(ps, false)
  {
    var i :| 0 <= i < |ps| && ps[i] == d;
    PropsSymsHas(ps, i);
  }

  lemma DepsParts(t: Table, x: Sym)
    requires ChoiceFree(t)
    ensures var info := Info(t, x);
      && !info.isChoice && Plain(info.props)
      && (forall y :: y in OptSyms(info.revDep) ==> y in Deps(t, x))
      && (forall y :: y in PropsSyms(info.props, false) ==> y in Deps(t, x))
  {}

  /** The value just computed joins the memo. */
  lemma Finish(c: Context, m: Memo, fin: set<Sym>, x: Sym, r: SymState)
    requires Coherent(c, m, fin) && x !in fin
    requires forall s :: AgreesWith(s, m, fin) ==> Step(c, x, s) == r
    ensures Coherent(c, m[x := r], fin + {x})
  {
    var m', fin' := m[x := r], fin + {x};
    forall y | y in fin'
      ensures Determined(c, m', fin', y)
    {
      assert y in fin ==> Determined(c, m, fin, y);
      forall s | AgreesWith(s, m', fin')
        ensures Step(c, y, s) == m'[y]
      {
        assert forall z :: z in fin ==> z in m' && s.tri(z) == m'[z].tri && z in m by {
          assert forall z :: z in fin ==> Determined(c, m, fin, z);
        }
        assert AgreesWith(s, m, fin);
      }
    }
  }

  /** The plain value does not depend on which evaluation asked for it. */
  lemma {:induction false} PlainBusy(c: Context, all: set<Sym>, x: Sym, b1: set<Sym>, b2: set<Sym>)
    requires Closed(c.table, all) && ChoiceFree(c.table) && x in all
    requires Clean(c.table, all, {}, x, b1) && Clean(c.table, all, {}, x, b2)
    ensures PlainValue(c, all, x, b1) == PlainValue(c, all, x, b2)
    decreases all - b1
  {
    var s1, s2 := StateBelow(c, all, x, b1), StateBelow(c, all, x, b2);
    forall y | y in Deps(c.table, x)
      ensures s1.tri(y) == s2.tri(y) && s1.str(y) == s2.str(y)
    {
      PlainBusy(c, all, y, b1 + {x}, b2 + {x});
    }
    StepLocal(c, x, s1, s2);
  }

  /** The plain values are the solution of the equations: each is one step from those it consults. */
  lemma PlainIsStep(c: Context, all: set<Sym>, x: Sym, s: State)
    requires Acyclic(c.table, all) && ChoiceFree(c.table) && x in all
    requires forall y :: y in Deps(c.table, x) && y in all ==>
      s.tri(y) == PlainValue(c, all, y, {}).tri && s.str(y) == PlainValue(c, all, y, {}).str
    ensures PlainValue(c, all, x, {}) == Step(c, x, s)
  {
    var s0 := StateBelow(c, all, x, {});
    forall y | y in Deps(c.table, x)
      ensures s0.tri(y) == s.tri(y) && s0.str(y) == s.str(y)
    {
      assert y in all && Clean(c.table, all, {}, y, {} + {x});
      PlainBusy(c, all, y, {} + {x}, {});
    }
    StepLocal(c, x, s0, s);
  }

  function StateOf(m: Memo): State {
    State(y => if y in m then m[y].tri else NO, y => if y in m then m[y].str else "")
  }
}
