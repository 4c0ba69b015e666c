/** How menu entries combine dependencies, and when one entry is nested below another. */
module Dependencies {
  import opened Tristates
  import opened Exprs
  import opened Symbols
  import opened ExprEquality
  import opened ExprShapes
  import opened ExprTransform
  import opened ExprDups
  import opened ExprReduced

  // ----- the dependency pipeline -----

  function EliminateDupsOpt(e: Option<Expr>): Option<Expr> {
    if e.None? then None else Some(EliminateDups(e.value))
  }

  /** An entry's own condition, normalised and combined with the one it inherits. */
  function Inherit(inherited: Option<Expr>, own: Option<Expr>): Option<Expr> {
    EliminateDupsOpt(ExprAnd(inherited, TransformOpt(own)))
  }

  /** For a symbol that is not a tristate, `FOO != n` is relaxed to FOO. */
  function InheritFor(inherited: Option<Expr>, own: Option<Expr>, tristate: bool): Option<Expr> {
    var e := Inherit(inherited, own);
    if tristate || e.None? then e else Some(TransBool(e.value))
  }

  ghost predicate NormalOpt(e: Option<Expr>) { e.Some? ==> Normal(e.value) }

  /** The combined condition is the minimum of the two, except that an m may be rounded. */
  lemma InheritSound(inherited: Option<Expr>, own: Option<Expr>, s: State)
    requires NormalOpt(inherited) && Legal(s)
    ensures NormalOpt(Inherit(inherited, own))
    ensures Sharpens(Apply(And, EvalOpt(inherited, s), EvalOpt(own, s)), EvalOpt(Inherit(inherited, own), s))
  {
    if own.Some? {
      TransformSound(own.value, s);
      TransformNormal(own.value);
    }
    var both := ExprAnd(inherited, TransformOpt(own));
    if both.Some? {
      EliminateDupsSharpens(both.value, s);
      EliminateDupsNormal(both.value);
    }
  }

  ghost predicate IrredundantOpt(e: Option<Expr>) { e.Some? ==> Irredundant(e.value) }

  /** The combined condition says nothing twice. */
  lemma InheritIrredundant(inherited: Option<Expr>, own: Option<Expr>)
    ensures IrredundantOpt(Inherit(inherited, own))
    ensures IrredundantOpt(InheritFor(inherited, own, true))
  {
    var both := ExprAnd(inherited, TransformOpt(own));
    if both.Some? { EliminateDupsIrredundant(both.value); }
  }

  lemma {:induction false} TransBoolNormal(e: Expr)
    requires Normal(e)
    ensures Normal(TransBool(e))
  {
    match e
    case Bin(_, l, r) =>
      TransBoolNormal(l);
      TransBoolNormal(r);
    case _ =>
  }

  /** Relaxing `FOO != n` never changes whether the condition is n, and keeps the normal form. */
  lemma InheritForKeepsNotN(inherited: Option<Expr>, own: Option<Expr>, tristate: bool, s: State)
    requires NormalOpt(inherited) && Legal(s)
    ensures EvalOpt(InheritFor(inherited, own, tristate), s) != NO <==> EvalOpt(Inherit(inherited, own), s) != NO
    ensures NormalOpt(InheritFor(inherited, own, tristate))
  {
    InheritSound(inherited, own, s);
    var e := Inherit(inherited, own);
    if e.Some? {
      TransBoolKeepsNotN(e.value, s);
      TransBoolNormal(e.value);
    }
  }

  /** Then no test for other than n is left; a tristate keeps the tests, and with them every value that is n or y. */
  lemma InheritForRelaxes(inherited: Option<Expr>, own: Option<Expr>, s: State)
    requires NormalOpt(inherited) && Legal(s)
    ensures var e := InheritFor(inherited, own, false); e.Some? ==> !TestsNotN(e.value)
    ensures Sharpens(Apply(And, EvalOpt(inherited, s), EvalOpt(own, s)), EvalOpt(InheritFor(inherited, own, true), s))
  {
    InheritSound(inherited, own, s);
    var e := Inherit(inherited, own);
    if e.Some? { TransBoolComplete(e.value); }
  }

  // ----- does one condition depend on a symbol? -----

  predicate Contains(dep: Expr, sym: Sym) {
    match dep
    case Bin(_, l, r) => Contains(l, sym) || Contains(r, sym)
    case Leaf(x) => x == sym
    case Cmp(_, l, r) => l == sym || r == sym
    case Not(a) => Contains(a, sym)
  }

  predicate Depends(dep: Expr, sym: Sym) {
    match dep
    case Bin(op, l, r) => op == And && (Depends(l, sym) || Depends(r, sym))
    case Leaf(x) => x == sym
    case Cmp(equal, l, r) => l == sym && (if equal then r == SYM_YES || r == SYM_MOD else r == SYM_NO)
    case Not(_) => false
  }

  lemma {:induction false} ContainsSyms(dep: Expr, sym: Sym)
    ensures Contains(dep, sym) <==> sym in ExprSyms(dep)
  {
    match dep
    case Bin(_, l, r) =>
      ContainsSyms(l, sym);
      ContainsSyms(r, sym);
    case Not(a) => ContainsSyms(a, sym);
    case _ =>
  }

  /** c is one of the conditions that all have to hold for `dep`. */
  predicate IsConjunct(c: Expr, dep: Expr) {
    c == dep || (IsBin(And, dep) && (IsConjunct(c, dep.left) || IsConjunct(c, dep.right)))
  }

  /** The conditions that speak of a symbol being set. */
  predicate IsSetTest(c: Expr, sym: Sym) {
    c in {Leaf(sym), Cmp(true, sym, SYM_YES), Cmp(true, sym, SYM_MOD), Cmp(false, sym, SYM_NO)}
  }

  /** A condition depends on a symbol exactly if one of its conjuncts tests whether that is set. */
  lemma {:induction false} DependsConjunct(dep: Expr, sym: Sym)
    ensures Depends(dep, sym) <==> exists c :: IsConjunct(c, dep) && IsSetTest(c, sym)
    ensures Depends(dep, sym) ==> Contains(dep, sym)
  {
    match dep
    case Bin(op, l, r) =>
      DependsConjunct(l, sym);
      DependsConjunct(r, sym);
      if Depends(dep, sym) {
        var c :| (IsConjunct(c, l) || IsConjunct(c, r)) && IsSetTest(c, sym);
        assert IsConjunct(c, dep);
      }
      forall c | IsConjunct(c, dep) && IsSetTest(c, sym)
        ensures Depends(dep, sym)
      {
        assert c != dep;
      }
    case _ =>
      assert IsConjunct(dep, dep) && forall c :: IsConjunct(c, dep) ==> c == dep;
      assert Depends(dep, sym) <==> IsSetTest(dep, sym);
  }

  /** A symbol that an expression does not contain does not influence its value. */
  lemma {:induction false} ContainsExact(dep: Expr, sym: Sym, s: State, s': State)
    requires !Contains(dep, sym)
    requires forall x: Sym :: x != sym ==> s.tri(x) == s'.tri(x) && s.str(x) == s'.str(x)
    ensures Eval(dep, s) == Eval(dep, s')
  {
    match dep
    case Bin(_, l, r) =>
      ContainsExact(l, sym, s, s');
      ContainsExact(r, sym, s, s');
    case Not(a) => ContainsExact(a, sym, s, s');
    case _ =>
  }

  /** A condition that depends on a tristate or boolean symbol is n while the symbol is n. */
  lemma {:induction false} DependsSound(dep: Expr, sym: Sym, s: State)
    requires Depends(dep, sym) && sym.IsTristate()
    ensures Eval(dep, s) != NO ==> TriOf(sym, s) != NO
    ensures Contains(dep, sym)
  {
    match dep
    case Bin(_, l, r) =>
      if Depends(l, sym) { DependsSound(l, sym, s); } else { DependsSound(r, sym, s); }
    case Cmp(_, _, _) =>
      ConstantValues(s);
      TriNamesDiffer(s.tri(sym), NO);
    case _ =>
  }

  /** A symbol without a type whose name is n can only be compared true with itself. */
  lemma {:induction false} NamedN(dep: Expr, sym: Sym, s: State)
    requires Depends(dep, sym) && sym.Config? && sym.ty == Unknown && sym.name == "n"
    ensures Eval(dep, s) == NO
  {
    ConstantValues(s);
    match dep
    case Bin(_, l, r) =>
      if Depends(l, sym) { NamedN(l, sym, s); } else { NamedN(r, sym, s); }
    case Cmp(equal, l, r) =>
      assert StrOf(sym, s) == "n" && StrOf(r, s) == r.name;
      assert "y"[0] != "n"[0] && "m"[0] != "n"[0];
    case _ =>
  }

  /** If the condition depends on the symbol and is not n, then the symbol is not n. */
  ghost predicate Forces(dep: Expr, sym: Sym, s: State) {
    Depends(dep, sym) && Legal(s) && Eval(dep, s) != NO ==> TriOf(sym, s) != NO
  }

  /**
   * For symbols of other types it is not so: BAR = "y" makes `BAR = y` true while BAR itself
   * is n. Dependent conditions force a symbol to be other than n exactly if it is boolean or
   * tristate, or has no type and the name n.
   */
  lemma DependsExactly(sym: Sym)
    requires sym.Config?
    ensures (forall dep, s :: Forces(dep, sym, s)) <==> sym.IsTristate() || (sym.ty == Unknown && sym.name == "n")
  {
    if sym.IsTristate() {
      forall dep, s
        ensures Forces(dep, sym, s)
      {
        if Depends(dep, sym) { DependsSound(dep, sym, s); }
      }
    } else if sym.ty == Unknown && sym.name == "n" {
      forall dep, s
        ensures Forces(dep, sym, s)
      {
        if Depends(dep, sym) { NamedN(dep, sym, s); }
      }
    } else {
      var dep, s := Cmp(false, sym, SYM_NO), State(_ => NO, _ => "y");
      assert "y"[0] != "n"[0] && StrOf(sym, s) != StrOf(SYM_NO, s);
      assert Depends(dep, sym) && Legal(s);
      assert Eval(dep, s) == YES;
      assert TriOf(sym, s) == NO && !Forces(dep, sym, s);
    }
  }

  // ----- nesting of a sibling below the entry before it -----

  /** "e is not n" as an expression, simplified. */
  function NotN(e: Option<Expr>): Expr {
    EliminateDups(Transform(TransCompareOpt(e, false, SYM_NO).value))
  }

  lemma NotNReduced(e: Option<Expr>)
    ensures Normal(NotN(e)) && Irredundant(NotN(e))
  {
    var c := Transform(TransCompareOpt(e, false, SYM_NO).value);
    TransformNormal(TransCompareOpt(e, false, SYM_NO).value);
    EliminateDupsNormal(c);
    EliminateDupsIrredundant(c);
  }

  function IsYes(e: Expr): bool { e == EXPR_YES }

  /** A sibling with condition `dep` joins the entry of `sym`, which is shown under `visible`. */
  predicate Nests(visible: Option<Expr>, sym: Sym, dep: Option<Expr>) {
    dep.Some? && Contains(dep.value, sym) &&
    (Depends(dep.value, sym) || IsYes(EliminateEq(NotN(dep), NotN(visible)).e2))
  }

  /** An entry whose condition does not mention the symbol is not nested, one that depends on it is. */
  lemma NestsMentioned(visible: Option<Expr>, sym: Sym, dep: Option<Expr>)
    ensures sym !in OptSyms(dep) ==> !Nests(visible, sym, dep)
    ensures (exists c :: dep.Some? && IsConjunct(c, dep.value) && IsSetTest(c, sym)) ==> Nests(visible, sym, dep)
  {
    if dep.Some? {
      ContainsSyms(dep.value, sym);
      DependsConjunct(dep.value, sym);
    }
  }

  /** Below an entry that is always shown, every condition is nested that mentions its symbol. */
  lemma NestsUnconditional(sym: Sym, dep: Option<Expr>)
    ensures Nests(None, sym, dep) <==> sym in OptSyms(dep)
  {
    var v := NotN(None);
    assert TransformNot(Leaf(SYM_NO)) == EXPR_YES;
    assert DupsPass(EXPR_YES) == Walk(EXPR_YES, 0);
    assert v == EXPR_YES;
    if dep.Some? {
      ContainsSyms(dep.value, sym);
      var d := NotN(dep);
      if d.Bin? { FixedStays(d.op, d, v); }
      assert EliminateEq(d, v).e2 == EXPR_YES;
    }
  }

  /**
   * Otherwise, where no constants are left in the two conditions, it is nested exactly if it
   * depends on the symbol, or is an AND that has all conjuncts of the entry's own condition.
   */
  lemma NestsConjuncts(visible: Option<Expr>, sym: Sym, dep: Option<Expr>)
    requires ConstFree(NotN(dep)) && ConstFree(NotN(visible))
    ensures var d, v := NotN(dep), NotN(visible);
      Nests(visible, sym, dep) <==>
        && sym in OptSyms(dep)
        && ((exists c :: IsConjunct(c, dep.value) && IsSetTest(c, sym))
            || (IsBin(And, d) && Members(And, v) <= Members(And, d)))
  {
    if dep.Some? {
      ContainsSyms(dep.value, sym);
      DependsConjunct(dep.value, sym);
      SecondBecomesYes(NotN(dep), NotN(visible));
    }
  }

  ghost predicate Comparable(e: Option<Expr>, s: State) {
    e.Some? ==> TristateLeaves(e.value) && NotsDecided(e.value, s)
  }

  lemma NotNValue(e: Option<Expr>, s: State)
    requires Comparable(e, s) && Legal(s)
    ensures Eval(NotN(e), s) == Truth(EvalOpt(e, s) != NO)
  {
    ConstantValues(s);
    if e.Some? { TransCompareSound(e.value, false, SYM_NO, s); }
    var c := TransCompareOpt(e, false, SYM_NO).value;
    TransformSound(c, s);
    EliminateDupsSharpens(Transform(c), s);
  }

  /** On a normal form the comparison can err for m only: where the value is n, it says so. */
  lemma {:induction false} TransCompareOnN(e: Expr, equal: bool, s: State)
    requires Normal(e) && TristateLeaves(e) && Eval(e, s) == NO
    ensures Eval(TransCompare(e, equal, SYM_NO).value, s) == Truth(equal)
  {
    ConstantValues(s);
    match e
    case Leaf(x) => LeafCompare(x, equal, SYM_NO, s);
    case Cmp(_, _, _) =>
    case Not(a) => LeafCompare(a.sym, !equal, SYM_NO, s);
    case Bin(_, l, r) =>
      if Eval(l, s) == NO { TransCompareOnN(l, true, s); }
      if Eval(r, s) == NO { TransCompareOnN(r, true, s); }
  }

  /** An entry whose condition can be compared, or is in normal form. */
  ghost predicate Readable(e: Option<Expr>, s: State) {
    e.Some? ==> TristateLeaves(e.value) && (Normal(e.value) || NotsDecided(e.value, s))
  }

  lemma NotNOnN(e: Option<Expr>, s: State)
    requires Readable(e, s) && Legal(s) && EvalOpt(e, s) == NO
    ensures Eval(NotN(e), s) == NO
  {
    if NotsDecided(e.value, s) {
      NotNValue(e, s);
    } else {
      TransCompareOnN(e.value, false, s);
      var c := TransCompareOpt(e, false, SYM_NO).value;
      TransformSound(c, s);
      EliminateDupsSharpens(Transform(c), s);
    }
  }

  /**
   * Nesting is sound: while the sibling's condition is not n, either the symbol it is nested
   * below is not n, or that entry itself is shown.
   */
  lemma NestsSound(visible: Option<Expr>, sym: Sym, dep: Option<Expr>, s: State)
    requires Nests(visible, sym, dep) && Legal(s)
    requires if Depends(dep.value, sym) then sym.IsTristate() else Readable(visible, s) && Comparable(dep, s)
    ensures EvalOpt(dep, s) != NO ==> TriOf(sym, s) != NO || EvalOpt(visible, s) != NO
    ensures !Depends(dep.value, sym) ==> (EvalOpt(dep, s) != NO ==> EvalOpt(visible, s) != NO)
  {
    if Depends(dep.value, sym) {
      DependsSound(dep.value, sym, s);
    } else {
      NotNValue(dep, s);
      if EvalOpt(visible, s) == NO { NotNOnN(visible, s); }
      EliminateEqOrder(NotN(dep), NotN(visible), s);
      ConstantValues(s);
    }
  }

  /** Under a two-valued assignment no NOT can stand above an m. */
  lemma {:induction false} TwoValuedNotsDecided(e: Expr, s: State)
    requires TwoValued(s) && !MentionsMod(e)
    ensures NotsDecided(e, s)
  {
    match e
    case Not(a) =>
      TwoValuedNotMod(a, s);
      TwoValuedNotsDecided(a, s);
    case Bin(_, l, r) =>
      TwoValuedNotsDecided(l, s);
      TwoValuedNotsDecided(r, s);
    case _ =>
  }

  lemma NestsSoundTwoValued(visible: Option<Expr>, sym: Sym, dep: Option<Expr>, s: State)
    requires Nests(visible, sym, dep) && TwoValued(s)
    requires Depends(dep.value, sym) ==> sym.IsTristate()
    requires forall e :: e in {visible, dep} && e.Some? ==> TristateLeaves(e.value) && !MentionsMod(e.value)
    ensures !Depends(dep.value, sym) ==> (EvalOpt(dep, s) != NO ==> EvalOpt(visible, s) != NO)
    ensures EvalOpt(dep, s) != NO ==> TriOf(sym, s) != NO || EvalOpt(visible, s) != NO
  {
    assert visible in {visible, dep} && dep in {visible, dep};
    if visible.Some? { TwoValuedNotsDecided(visible.value, s); }
    if dep.Some? { TwoValuedNotsDecided(dep.value, s); }
    NestsSound(visible, sym, dep, s);
  }

  /** Two comparisons with n of different tristate symbols are already as simple as can be. */
  lemma PairIsSimple(foo: Sym, bar: Sym)
    requires foo.Type() == Tri && bar.Type() == Tri && foo != bar
    ensures var t := Bin(And, Cmp(true, foo, SYM_NO), Cmp(true, bar, SYM_NO));
      Transform(t) == t && EliminateDups(t) == t
  {
    var t := Bin(And, Cmp(true, foo, SYM_NO), Cmp(true, bar, SYM_NO));
    TransformFixpoint(t);
    PairFirstPass(And, t.left, t.right);
    PairSecondPass(And, t.left, t.right);
  }

  lemma NegatedCmp(equal: bool, x: Sym)
    requires x.Type() == Tri
    ensures var c := Cmp(equal, x, SYM_NO);
      Transform(c) == c && Transform(Not(c)) == Cmp(!equal, x, SYM_NO)
  {
    var c := Cmp(equal, x, SYM_NO);
    assert Transform(c) == c;
    assert TransformNot(c) == Cmp(!equal, x, SYM_NO);
  }

  /** `!FOO && !BAR`, tested against n and negated, becomes `FOO = n && BAR = n`. */
  lemma PairNotN(foo: Sym, bar: Sym)
    requires foo.Type() == Tri && bar.Type() == Tri && foo != bar
    ensures NotN(Some(Bin(And, Not(Leaf(foo)), Not(Leaf(bar))))) ==
      Bin(And, Cmp(true, foo, SYM_NO), Cmp(true, bar, SYM_NO))
    ensures NotN(Some(Cmp(true, foo, SYM_NO))) == Cmp(true, foo, SYM_NO)
  {
    var l, r := Cmp(false, foo, SYM_NO), Cmp(false, bar, SYM_NO);
    var dep := Bin(And, Not(Leaf(foo)), Not(Leaf(bar)));
    assert TransCompare(dep.left, true, SYM_NO) == Some(l);
    assert TransCompare(dep.right, true, SYM_NO) == Some(r);
    assert TransCompareOpt(Some(dep), false, SYM_NO) == Some(Not(Bin(Or, l, r)));
    NegatedCmp(false, foo);
    NegatedCmp(false, bar);
    assert Transform(Bin(Or, l, r)) == Bin(Or, l, r);
    assert TransformNot(Bin(Or, l, r)) == Transform(Bin(And, Not(l), Not(r)));
    assert Transform(Bin(And, Not(l), Not(r))) == Bin(And, Cmp(true, foo, SYM_NO), Cmp(true, bar, SYM_NO));
    assert Transform(Not(Bin(Or, l, r))) == Bin(And, Cmp(true, foo, SYM_NO), Cmp(true, bar, SYM_NO));
    PairIsSimple(foo, bar);
    var v := Cmp(true, foo, SYM_NO);
    assert TransCompareOpt(Some(v), false, SYM_NO) == Some(v);
    assert Transform(v) == v;
    assert DupsPass(v) == Walk(v, 0) && EliminateDups(v) == v;
  }

  /** Stripping the first of two operands against itself. */
  lemma PairStrips(c: Expr, d: Expr)
    requires c.Cmp? && d.Cmp?
    ensures EliminateEq(Bin(And, c, d), c).e2 == EXPR_YES
  {
    var t := Bin(And, c, d);
    assert StripEq(And, c, c) == Pass(EXPR_YES, EXPR_YES, 1);
    assert StripEq(And, d, EXPR_YES) == Pass(d, EXPR_YES, 0);
    assert StripEq(And, t, c) == Pass(Bin(And, EXPR_YES, d), EXPR_YES, 1);
    assert FirstStrip(t, c) == Pass(Bin(And, EXPR_YES, d), EXPR_YES, 1);
    assert SecondStrip(Bin(And, EXPR_YES, d), EXPR_YES) == Pass(Bin(And, EXPR_YES, d), EXPR_YES, 0);
    assert EliminateYn(EXPR_YES) == EXPR_YES;
  }

  lemma NotLeafValue(x: Sym, s: State)
    requires x.IsTristate()
    ensures Eval(Not(Leaf(x)), s) == Negate(s.tri(x))
  {
    assert Eval(Leaf(x), s) == s.tri(x);
  }

  /**
   * With an m below a NOT of the sibling's condition the reduction is not sound: `!FOO && !BAR`
   * is nested below BAR shown under `FOO = n`, and it implies that condition exactly if FOO is
   * not m or BAR is y.
   */
  lemma NestsExactly(foo: Sym, bar: Sym, s: State)
    requires foo.Type() == Tri && bar.Type() == Tri && foo != bar
    ensures var visible := Cmp(true, foo, SYM_NO);
      var dep := Bin(And, Not(Leaf(foo)), Not(Leaf(bar)));
      && Nests(Some(visible), bar, Some(dep)) && !Depends(dep, bar)
      && ((Eval(dep, s) != NO ==> Eval(visible, s) != NO) <==> s.tri(foo) != MOD || s.tri(bar) == YES)
  {
    var visible := Cmp(true, foo, SYM_NO);
    var dep := Bin(And, Not(Leaf(foo)), Not(Leaf(bar)));
    NotLeafValue(foo, s);
    NotLeafValue(bar, s);
    LeafCompare(foo, true, SYM_NO, s);
    ConstantValues(s);
    assert Contains(dep.right, bar) && Contains(dep, bar);
    assert !Depends(dep.left, bar) && !Depends(dep.right, bar) && !Depends(dep, bar);
    PairNotN(foo, bar);
    PairStrips(visible, Cmp(true, bar, SYM_NO));
  }
}
