/** Joining two operands of one connective into a single simpler one. */
module ExprJoin {
  import opened Tristates
  import opened Exprs
  import opened ExprEquality

  predicate IsCmp(e: Expr, equal: bool) { e.Cmp? && e.equal == equal }

  /** Both expressions are comparisons of the given kind, with `a` and `b` on the right in either order. */
  predicate CmpPair(e1: Expr, e2: Expr, equal: bool, a: Sym, b: Sym) {
    IsCmp(e1, equal) && IsCmp(e2, equal) && ((e1.rhs == a && e2.rhs == b) || (e1.rhs == b && e2.rhs == a))
  }

  /** One expression is the bare symbol and the other compares a symbol with `rhs`. */
  predicate LeafAndCmp(e1: Expr, e2: Expr, equal: bool, rhs: Sym) {
    || (e1.Leaf? && IsCmp(e2, equal) && e2.rhs == rhs)
    || (e2.Leaf? && IsCmp(e1, equal) && e1.rhs == rhs)
  }

  /**
   * The symbol on which both expressions turn, when they are simple enough to join. A first
   * operand may negate a comparison; a second one only a symbol.
   */
  function JoinSymbol(e1: Expr, e2: Expr): Option<Sym> {
    var sym1 := match e1
      case Leaf(x) => Some(x)
      case Cmp(_, l, _) => Some(l)
      case Not(Leaf(x)) => Some(x)
      case Not(Cmp(_, l, _)) => Some(l)
      case _ => None;
    var sym2 := match e2
      case Leaf(x) => Some(x)
      case Cmp(_, l, _) => Some(l)
      case Not(Leaf(x)) => Some(x)
      case _ => None;
    if sym1.Some? && sym1 == sym2 && sym1.value.IsTristate() then sym1 else None
  }

  predicate LeafAndNegation(e1: Expr, e2: Expr) {
    || (e1.Not? && e1.arg.Leaf? && e2.Leaf?)
    || (e2.Not? && e2.arg.Leaf? && e1.Leaf?)
  }

  function JoinOr(e1: Expr, e2: Expr): Option<Expr> {
    if ExprEq(e1, e2) then Some(e1)
    else
      var js := JoinSymbol(e1, e2);
      if js.None? then None
      else
        var x := js.value;
        if x.Type() == Tri && CmpPair(e1, e2, true, SYM_YES, SYM_MOD) then Some(Cmp(false, x, SYM_NO))
        else if x.Type() == Tri && CmpPair(e1, e2, true, SYM_YES, SYM_NO) then Some(Cmp(false, x, SYM_MOD))
        else if x.Type() == Tri && CmpPair(e1, e2, true, SYM_MOD, SYM_NO) then Some(Cmp(false, x, SYM_YES))
        else if x.Type() == Boolean && LeafAndNegation(e1, e2) then Some(EXPR_YES)
        else None
  }

  /** (a = 'b') && (a != 'c') for constants b and c. */
  function JoinEqualUnequal(x: Sym, b: Sym, c: Sym): Expr {
    if b != c then Cmp(true, x, b) else EXPR_NO
  }

  function JoinAnd(e1: Expr, e2: Expr): Option<Expr> {
    if ExprEq(e1, e2) then Some(e1)
    else
      var js := JoinSymbol(e1, e2);
      if js.None? then None
      else
        var x := js.value;
        if LeafAndCmp(e1, e2, true, SYM_YES) then Some(Cmp(true, x, SYM_YES))
        else if LeafAndCmp(e1, e2, false, SYM_NO) then Some(Leaf(x))
        else if LeafAndCmp(e1, e2, false, SYM_MOD) then Some(Cmp(true, x, SYM_YES))
        else if x.Type() == Tri then JoinAndTristate(x, e1, e2)
        else None
  }

  function JoinAndTristate(x: Sym, e1: Expr, e2: Expr): Option<Expr> {
    if IsCmp(e1, true) && IsCmp(e2, false) && e1.rhs.Const? && e2.rhs.Const? then
      Some(JoinEqualUnequal(x, e1.rhs, e2.rhs))
    else if IsCmp(e1, false) && IsCmp(e2, true) && e1.rhs.Const? && e2.rhs.Const? then
      Some(JoinEqualUnequal(x, e2.rhs, e1.rhs))
    else if CmpPair(e1, e2, false, SYM_YES, SYM_NO) then Some(Cmp(true, x, SYM_MOD))
    else if CmpPair(e1, e2, false, SYM_YES, SYM_MOD) then Some(Cmp(true, x, SYM_NO))
    else if CmpPair(e1, e2, false, SYM_MOD, SYM_NO) then Some(Cmp(true, x, SYM_YES))
    else None
  }

  function Join(op: Conn, e1: Expr, e2: Expr): Option<Expr> {
    if op.Or? then JoinOr(e1, e2) else JoinAnd(e1, e2)
  }

  lemma JoinSymbolMeaning(e1: Expr, e2: Expr, s: State)
    requires JoinSymbol(e1, e2).Some?
    ensures var x := JoinSymbol(e1, e2).value;
      && x.IsTristate() && StrOf(x, s) == TriName(s.tri(x)) && TriOf(x, s) == s.tri(x)
      && (e1.Leaf? ==> e1.sym == x) && (e1.Cmp? ==> e1.lhs == x) && (e1.Not? && e1.arg.Leaf? ==> e1.arg.sym == x)
      && (e2.Leaf? ==> e2.sym == x) && (e2.Cmp? ==> e2.lhs == x) && (e2.Not? && e2.arg.Leaf? ==> e2.arg.sym == x)
  {}

  lemma TriNamesAre(a: Tristate)
    ensures (TriName(a) == "y" <==> a == YES) && (TriName(a) == "m" <==> a == MOD) && (TriName(a) == "n" <==> a == NO)
  {
    TriNamesDiffer(a, YES);
    TriNamesDiffer(a, MOD);
    TriNamesDiffer(a, NO);
  }

  /** A comparison of x with y, m or n looks at the value of x only. */
  lemma CmpValues(x: Sym, s: State)
    requires x.IsTristate()
    ensures forall eq :: Eval(Cmp(eq, x, SYM_YES), s) == if (s.tri(x) == YES) == eq then YES else NO
    ensures forall eq :: Eval(Cmp(eq, x, SYM_MOD), s) == if (s.tri(x) == MOD) == eq then YES else NO
    ensures forall eq :: Eval(Cmp(eq, x, SYM_NO), s) == if (s.tri(x) == NO) == eq then YES else NO
  {
    TriNamesAre(s.tri(x));
  }

  lemma JoinOrSound(e1: Expr, e2: Expr, s: State)
    requires JoinOr(e1, e2).Some? && Legal(s)
    ensures Eval(JoinOr(e1, e2).value, s) == Apply(Or, Eval(e1, s), Eval(e2, s))
  {
    if ExprEq(e1, e2) {
      ExprEqSound(e1, e2, s);
    } else {
      JoinSymbolMeaning(e1, e2, s);
      CmpValues(JoinSymbol(e1, e2).value, s);
      ConstantValues(s);
    }
  }

  lemma JoinAndTristateSound(x: Sym, e1: Expr, e2: Expr, s: State)
    requires x.IsTristate() && e1.Cmp? && e2.Cmp? && e1.lhs == x && e2.lhs == x
    requires JoinAndTristate(x, e1, e2).Some?
    ensures Eval(JoinAndTristate(x, e1, e2).value, s) == Apply(And, Eval(e1, s), Eval(e2, s))
  {
    CmpValues(x, s);
    ConstantValues(s);
  }

  lemma JoinAndSound(e1: Expr, e2: Expr, s: State)
    requires JoinAnd(e1, e2).Some? && Legal(s)
    ensures Eval(JoinAnd(e1, e2).value, s) == Apply(And, Eval(e1, s), Eval(e2, s))
  {
    if ExprEq(e1, e2) {
      ExprEqSound(e1, e2, s);
    } else {
      JoinSymbolMeaning(e1, e2, s);
      var x := JoinSymbol(e1, e2).value;
      if e1.Cmp? && e2.Cmp? {
        JoinAndTristateSound(x, e1, e2, s);
      } else {
        CmpValues(x, s);
      }
    }
  }

  /** A join has the value of the connective under every three-valued assignment the types allow. */
  lemma JoinSound(op: Conn, e1: Expr, e2: Expr, s: State)
    requires Join(op, e1, e2).Some? && Legal(s)
    ensures Eval(Join(op, e1, e2).value, s) == Apply(op, Eval(e1, s), Eval(e2, s))
  {
    if op.Or? { JoinOrSound(e1, e2, s); } else { JoinAndSound(e1, e2, s); }
  }

  /** A join is never larger than the operand it replaces, counted with the constant left behind. */
  lemma JoinSize(op: Conn, e1: Expr, e2: Expr)
    requires Join(op, e1, e2).Some?
    ensures 1 + Size(Join(op, e1, e2).value) <= Size(e1) + Size(e2)
    ensures !IsBin(op, e1) ==> !IsBin(op, Join(op, e1, e2).value)
  {}

  // ----- which operands join -----

  predicate IsTestSym(x: Sym) { x in {SYM_YES, SYM_MOD, SYM_NO} }

  /** Two comparisons of one tristate symbol, with different ones of y, m and n. */
  predicate TestsOfOne(a: Expr, b: Expr, equal: bool) {
    && IsCmp(a, equal) && IsCmp(b, equal) && a.lhs == b.lhs && a.lhs.Type() == Tri
    && a.rhs != b.rhs && IsTestSym(a.rhs) && IsTestSym(b.rhs)
  }

  /**
   * `FOO || !FOO` for a boolean, two of `FOO = y`, `FOO = m`, `FOO = n` in an OR or of their
   * negations in an AND, `FOO = b && FOO != c` for constants; `FOO` beside `FOO = y`, `FOO != n`
   * or `FOO != m` in an AND.
   */
  predicate Overlaps(op: Conn, a: Expr, b: Expr) {
    match op
    case Or => (a.Leaf? && a.sym.Type() == Boolean && b == Not(a)) || TestsOfOne(a, b, true)
    case And =>
      || (a.Leaf? && a.sym.IsTristate() &&
          b in {Cmp(true, a.sym, SYM_YES), Cmp(false, a.sym, SYM_NO), Cmp(false, a.sym, SYM_MOD)})
      || (IsCmp(a, true) && IsCmp(b, false) && a.lhs == b.lhs && a.lhs.Type() == Tri && a.rhs.Const? && b.rhs.Const?)
      || TestsOfOne(a, b, false)
  }

  predicate Redundant(op: Conn, a: Expr, b: Expr) { Overlaps(op, a, b) || Overlaps(op, b, a) }

  /** Exactly these operands are joined, besides equal ones. */
  lemma JoinExactly(op: Conn, a: Expr, b: Expr)
    ensures Join(op, a, b).Some? <==> ExprEq(a, b) || Redundant(op, a, b)
  {
    assert SYM_YES != SYM_MOD && SYM_MOD != SYM_NO && SYM_YES != SYM_NO by {
      assert "y"[0] != "m"[0] && "m"[0] != "n"[0] && "y"[0] != "n"[0];
    }
    if !ExprEq(a, b) {
      if op.Or? { JoinOrExactly(a, b); } else { JoinAndExactly(a, b); }
    }
  }

  lemma JoinOrExactly(a: Expr, b: Expr)
    requires !ExprEq(a, b) && SYM_YES != SYM_MOD && SYM_MOD != SYM_NO && SYM_YES != SYM_NO
    ensures JoinOr(a, b).Some? <==> Redundant(Or, a, b)
  {}

  lemma JoinAndExactly(a: Expr, b: Expr)
    requires !ExprEq(a, b) && SYM_YES != SYM_MOD && SYM_MOD != SYM_NO && SYM_YES != SYM_NO
    ensures JoinAnd(a, b).Some? <==> Redundant(And, a, b)
  {}
}
