/** Constant folding, and the mutually recursive equality test and elimination pass. */
module ExprEquality {
  import opened Tristates
  import opened Exprs

  // ----- folding of y and n under AND and OR -----

  function FoldConn(op: Conn, l: Expr, r: Expr): (f: Expr)
    ensures Size(f) <= Size(Bin(op, l, r))
    ensures f != Bin(op, l, r) ==> Size(f) < Size(Bin(op, l, r))
  {
    if l == Absorbing(op) then Absorbing(op)
    else if l == Neutral(op) then r
    else if r == Absorbing(op) then Absorbing(op)
    else if r == Neutral(op) then l
    else Bin(op, l, r)
  }

  function EliminateYn(e: Expr): (r: Expr)
    ensures Size(r) <= Size(e)
  {
    match e
    case Bin(op, l, r) => FoldConn(op, EliminateYn(l), EliminateYn(r))
    case _ => e
  }

  /** An AND/OR skeleton node has the constant y or n as a direct operand. */
  predicate HasConstant(e: Expr) {
    e.Bin? &&
    (e.left in {EXPR_YES, EXPR_NO} || e.right in {EXPR_YES, EXPR_NO} || HasConstant(e.left) || HasConstant(e.right))
  }

  lemma {:induction false} EliminateYnSound(e: Expr, s: State)
    ensures Eval(EliminateYn(e), s) == Eval(e, s)
  {
    match e
    case Bin(op, l, r) =>
      EliminateYnSound(l, s);
      EliminateYnSound(r, s);
      ConstantValues(s);
    case _ =>
  }

  /** Folding leaves no constant operand, changes nothing that has none, and shrinks the rest. */
  lemma {:induction false} EliminateYnClean(e: Expr)
    ensures !HasConstant(EliminateYn(e))
    ensures EliminateYn(e) == e <==> !HasConstant(e)
    ensures HasConstant(e) ==> Size(EliminateYn(e)) < Size(e)
  {
    match e
    case Bin(op, l, r) =>
      EliminateYnClean(l);
      EliminateYnClean(r);
    case _ =>
  }

  // ----- expr_eq and expr_eliminate_eq -----

  /** The two expressions after a pass, and how often the pass counted a change. */
  datatype Pass = Pass(e1: Expr, e2: Expr, count: nat)

  /** Constants other than m are skipped when both sides hold the same one. */
  predicate SkippedConstant(e1: Expr, e2: Expr) {
    e1.Leaf? && e1 == e2 && e1.sym.Const? && e1.sym != SYM_MOD
  }

  function StripEq(op: Conn, e1: Expr, e2: Expr): (p: Pass)
    ensures Size(p.e1) <= Size(e1) && Size(p.e2) <= Size(e2)
    ensures IsBin(op, e1) ==> IsBin(op, p.e1)
    ensures IsBin(op, e2) ==> IsBin(op, p.e2)
    decreases Size(e1) + Size(e2), if IsBin(op, e1) || IsBin(op, e2) then 0 else 4
  {
    if IsBin(op, e1) then
      var p := StripEq(op, e1.left, e2);
      var q := StripEq(op, e1.right, p.e2);
      Pass(Bin(op, p.e1, q.e1), q.e2, p.count + q.count)
    else if IsBin(op, e2) then
      var p := StripEq(op, e1, e2.left);
      var q := StripEq(op, p.e1, e2.right);
      Pass(q.e1, Bin(op, p.e2, q.e2), p.count + q.count)
    else if SkippedConstant(e1, e2) || !ExprEq(e1, e2) then Pass(e1, e2, 0)
    else Pass(Neutral(op), Neutral(op), 1)
  }

  /** A pass for the type of e1. */
  function FirstStrip(e1: Expr, e2: Expr): (p: Pass)
    ensures Size(p.e1) <= Size(e1) && Size(p.e2) <= Size(e2)
    decreases Size(e1) + Size(e2), 1
  {
    if e1.Bin? then StripEq(e1.op, e1, e2) else Pass(e1, e2, 0)
  }

  /** A pass for the type of e2, if it is another one. */
  function SecondStrip(e1: Expr, e2: Expr): (p: Pass)
    ensures Size(p.e1) <= Size(e1) && Size(p.e2) <= Size(e2)
    decreases Size(e1) + Size(e2), 1
  {
    if e2.Bin? && !(e1.Bin? && e1.op == e2.op) then StripEq(e2.op, e1, e2) else Pass(e1, e2, 0)
  }

  function EliminateEq(e1: Expr, e2: Expr): (p: Pass)
    ensures Size(p.e1) <= Size(e1) && Size(p.e2) <= Size(e2)
    decreases Size(e1) + Size(e2), 2
  {
    var p := FirstStrip(e1, e2);
    var q := SecondStrip(p.e1, p.e2);
    Pass(EliminateYn(q.e1), EliminateYn(q.e2), p.count + q.count)
  }

  predicate ExprEq(e1: Expr, e2: Expr)
    decreases Size(e1) + Size(e2), 3
  {
    match e1
    case Cmp(_, _, _) => e1 == e2
    case Leaf(_) => e1 == e2
    case Not(a) => e2.Not? && ExprEq(a, e2.arg)
    case Bin(op, _, _) =>
      IsBin(op, e2) &&
      var p := EliminateEq(e1, e2);
      p.e1.Leaf? && p.e1 == p.e2
  }

  /** Both sides lose the same value `c`: v(e1) = v(e1') op c and v(e2) = v(e2') op c. */
  ghost predicate CommonOperand(op: Conn, e1: Expr, e2: Expr, p: Pass, c: Tristate, s: State) {
    && Eval(e1, s) == Apply(op, Eval(p.e1, s), c)
    && Eval(e2, s) == Apply(op, Eval(p.e2, s), c)
  }

  lemma Regroup(op: Conn, a: Tristate, b: Tristate, x: Tristate, c1: Tristate, c2: Tristate)
    ensures Apply(op, Apply(op, a, c1), Apply(op, b, c2)) == Apply(op, Apply(op, a, b), Apply(op, c1, c2))
    ensures Apply(op, Apply(op, x, c2), c1) == Apply(op, x, Apply(op, c1, c2))
  {}

  lemma {:induction false} StripEqCommon(op: Conn, e1: Expr, e2: Expr, s: State) returns (c: Tristate)
    ensures CommonOperand(op, e1, e2, StripEq(op, e1, e2), c, s)
    decreases Size(e1) + Size(e2), if IsBin(op, e1) || IsBin(op, e2) then 0 else 4
  {
    var r := StripEq(op, e1, e2);
    if IsBin(op, e1) {
      var p := StripEq(op, e1.left, e2);
      var q := StripEq(op, e1.right, p.e2);
      var c1 := StripEqCommon(op, e1.left, e2, s);
      var c2 := StripEqCommon(op, e1.right, p.e2, s);
      c := Apply(op, c1, c2);
      assert r == Pass(Bin(op, p.e1, q.e1), q.e2, p.count + q.count);
      Regroup(op, Eval(p.e1, s), Eval(q.e1, s), Eval(q.e2, s), c1, c2);
    } else if IsBin(op, e2) {
      var p := StripEq(op, e1, e2.left);
      var q := StripEq(op, p.e1, e2.right);
      var c1 := StripEqCommon(op, e1, e2.left, s);
      var c2 := StripEqCommon(op, p.e1, e2.right, s);
      c := Apply(op, c1, c2);
      assert r == Pass(q.e1, Bin(op, p.e2, q.e2), p.count + q.count);
      Regroup(op, Eval(p.e2, s), Eval(q.e2, s), Eval(q.e1, s), c1, c2);
    } else if SkippedConstant(e1, e2) || !ExprEq(e1, e2) {
      c := NeutralValue(op);
    } else {
      ExprEqSound(e1, e2, s);
      ConstantValues(s);
      c := Eval(e1, s);
    }
  }

  /**
   * What is stripped is a context f(x) = (x op2 c2) op1 c1 shared by both sides; it is
   * monotone, so any order between the remainders holds between the originals.
   */
  lemma EliminateEqContext(e1: Expr, e2: Expr, s: State)
    returns (op1: Conn, c1: Tristate, op2: Conn, c2: Tristate)
    ensures Eval(e1, s) == Apply(op1, Apply(op2, Eval(EliminateEq(e1, e2).e1, s), c2), c1)
    ensures Eval(e2, s) == Apply(op1, Apply(op2, Eval(EliminateEq(e1, e2).e2, s), c2), c1)
    decreases Size(e1) + Size(e2), 1
  {
    op1, c1, op2, c2 := Or, NO, Or, NO;
    if e1.Bin? {
      op1 := e1.op;
      c1 := StripEqCommon(e1.op, e1, e2, s);
    }
    var p := FirstStrip(e1, e2);
    if p.e2.Bin? && !(p.e1.Bin? && p.e1.op == p.e2.op) {
      op2 := p.e2.op;
      c2 := StripEqCommon(p.e2.op, p.e1, p.e2, s);
    }
    var q := SecondStrip(p.e1, p.e2);
    EliminateYnSound(q.e1, s);
    EliminateYnSound(q.e2, s);
  }

  lemma EliminateEqOrder(e1: Expr, e2: Expr, s: State)
    ensures var p := EliminateEq(e1, e2);
      && (Eval(p.e1, s) <= Eval(p.e2, s) ==> Eval(e1, s) <= Eval(e2, s))
      && (Eval(p.e2, s) <= Eval(p.e1, s) ==> Eval(e2, s) <= Eval(e1, s))
    decreases Size(e1) + Size(e2), 2
  {
    var op1, c1, op2, c2 := EliminateEqContext(e1, e2, s);
  }

  /** Expressions that compare equal have the same value under every three-valued assignment. */
  lemma {:induction false} ExprEqSound(e1: Expr, e2: Expr, s: State)
    requires ExprEq(e1, e2)
    ensures Eval(e1, s) == Eval(e2, s)
    decreases Size(e1) + Size(e2), 3
  {
    match e1
    case Not(a) => ExprEqSound(a, e2.arg, s);
    case Bin(_, _, _) => EliminateEqOrder(e1, e2, s);
    case _ =>
  }
}
