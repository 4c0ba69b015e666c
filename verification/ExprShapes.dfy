/**
 * What expr_eq finds: two expressions without constants compare equal exactly if they are the
 * same up to the order and bracketing of operands. With constants an expression may differ
 * from itself.
 */
module ExprShapes {
  import opened Tristates
  import opened Exprs
  import opened ExprEquality

  /** An expression up to the order and bracketing of the operands of a connective. */
  datatype Shape = Atom(e: Expr) | Negation(arg: Shape) | Group(op: Conn, members: multiset<Shape>)

  function ShapeOf(e: Expr): Shape
    decreases e, 0
  {
    match e
    case Bin(op, l, r) => Group(op, Members(op, l) + Members(op, r))
    case Not(a) => Negation(ShapeOf(a))
    case _ => Atom(e)
  }

  /** The operands of the flattened connective. */
  function Members(op: Conn, e: Expr): multiset<Shape>
    decreases e, 1
  {
    if IsBin(op, e) then Members(op, e.left) + Members(op, e.right) else multiset{ShapeOf(e)}
  }

  /** Constants other than m, which are never stripped. */
  predicate IsFixed(e: Expr) { e.Leaf? && e.sym.Const? && e.sym != SYM_MOD }

  predicate ConstFree(e: Expr) {
    match e
    case Leaf(_) => !IsFixed(e)
    case Cmp(_, _, _) => true
    case Not(a) => ConstFree(a)
    case Bin(_, l, r) => ConstFree(l) && ConstFree(r)
  }

  /** Operands without constants, some of which have been stripped. */
  predicate Stripped(op: Conn, e: Expr) {
    if IsBin(op, e) then Stripped(op, e.left) && Stripped(op, e.right) else e == Neutral(op) || ConstFree(e)
  }

  /** The operands that are left. */
  function Remaining(op: Conn, e: Expr): multiset<Shape> {
    if IsBin(op, e) then Remaining(op, e.left) + Remaining(op, e.right)
    else if e == Neutral(op) then multiset{}
    else multiset{ShapeOf(e)}
  }

  lemma {:induction false} RemainingAll(op: Conn, e: Expr)
    requires ConstFree(e)
    ensures Stripped(op, e) && Remaining(op, e) == Members(op, e)
  {
    if IsBin(op, e) {
      RemainingAll(op, e.left);
      RemainingAll(op, e.right);
    }
  }

  lemma {:induction false} ConstFreeFolds(e: Expr)
    requires ConstFree(e)
    ensures EliminateYn(e) == e && e !in {EXPR_YES, EXPR_NO}
  {
    if e.Bin? {
      ConstFreeFolds(e.left);
      ConstFreeFolds(e.right);
    }
  }

  /** Folding what is left gives the neutral constant exactly if nothing is. */
  lemma {:induction false} FoldRemaining(op: Conn, e: Expr)
    requires Stripped(op, e)
    ensures var f := EliminateYn(e);
      && f != Absorbing(op)
      && (f == Neutral(op) <==> Remaining(op, e) == multiset{})
      && (f.Leaf? && f != Neutral(op) ==> Remaining(op, e) == multiset{Atom(f)})
  {
    if IsBin(op, e) {
      FoldRemaining(op, e.left);
      FoldRemaining(op, e.right);
    } else if e != Neutral(op) {
      ConstFreeFolds(e);
    }
  }

  lemma Differences<T>(a: multiset<T>, b: multiset<T>, c: multiset<T>)
    ensures (a - c) + (b - (c - a)) == (a + b) - c
    ensures (c - a) - b == c - (a + b)
  {}

  /** The common operands have been taken out of both sides, as many of each as both have. */
  ghost predicate Cancelled(op: Conn, e1: Expr, e2: Expr, r1: Expr, r2: Expr) {
    && Stripped(op, r1) && Remaining(op, r1) == Remaining(op, e1) - Remaining(op, e2)
    && Stripped(op, r2) && Remaining(op, r2) == Remaining(op, e2) - Remaining(op, e1)
  }

  lemma RemainingBin(op: Conn, l: Expr, r: Expr)
    ensures Remaining(op, Bin(op, l, r)) == Remaining(op, l) + Remaining(op, r)
    ensures Stripped(op, Bin(op, l, r)) <==> Stripped(op, l) && Stripped(op, r)
  {}

  lemma CancelledLeft(op: Conn, l: Expr, r: Expr, e: Expr, l1: Expr, r1: Expr, e1: Expr, e2: Expr)
    requires Cancelled(op, l, e, l1, e1) && Cancelled(op, r, e1, r1, e2)
    ensures Cancelled(op, Bin(op, l, r), e, Bin(op, l1, r1), e2)
  {
    RemainingBin(op, l, r);
    RemainingBin(op, l1, r1);
    Differences(Remaining(op, l), Remaining(op, r), Remaining(op, e));
  }

  lemma CancelledRight(op: Conn, e: Expr, l: Expr, r: Expr, l1: Expr, r1: Expr, e1: Expr, e2: Expr)
    requires Cancelled(op, e, l, e1, l1) && Cancelled(op, e1, r, e2, r1)
    ensures Cancelled(op, e, Bin(op, l, r), e2, Bin(op, l1, r1))
  {
    RemainingBin(op, l, r);
    RemainingBin(op, l1, r1);
    Differences(Remaining(op, l), Remaining(op, r), Remaining(op, e));
  }

  lemma {:induction false} StripEqCancels(op: Conn, e1: Expr, e2: Expr)
    requires Stripped(op, e1) && Stripped(op, e2)
    ensures var p := StripEq(op, e1, e2); Cancelled(op, e1, e2, p.e1, p.e2)
    decreases Size(e1) + Size(e2), if IsBin(op, e1) || IsBin(op, e2) then 0 else 4
  {
    if IsBin(op, e1) {
      var p := StripEq(op, e1.left, e2);
      var q := StripEq(op, e1.right, p.e2);
      StripEqCancels(op, e1.left, e2);
      StripEqCancels(op, e1.right, p.e2);
      CancelledLeft(op, e1.left, e1.right, e2, p.e1, q.e1, p.e2, q.e2);
      assert e1 == Bin(op, e1.left, e1.right);
    } else if IsBin(op, e2) {
      var p := StripEq(op, e1, e2.left);
      var q := StripEq(op, p.e1, e2.right);
      StripEqCancels(op, e1, e2.left);
      StripEqCancels(op, p.e1, e2.right);
      CancelledRight(op, e1, e2.left, e2.right, p.e2, q.e2, p.e1, q.e1);
      assert e2 == Bin(op, e2.left, e2.right);
    } else {
      StripPair(op, e1, e2);
    }
  }

  /** Two operands cancel if they have the same shape. */
  lemma OperandsCancel(op: Conn, e1: Expr, e2: Expr)
    requires !IsBin(op, e1) && !IsBin(op, e2) && ConstFree(e1) && ConstFree(e2)
    ensures ShapeOf(e1) == ShapeOf(e2) ==> Cancelled(op, e1, e2, Neutral(op), Neutral(op))
    ensures ShapeOf(e1) != ShapeOf(e2) ==> Cancelled(op, e1, e2, e1, e2)
  {
    OperandRemains(op, e1);
    OperandRemains(op, e2);
    Singles(ShapeOf(e1), ShapeOf(e2));
  }

  lemma OperandRemains(op: Conn, e: Expr)
    requires !IsBin(op, e) && ConstFree(e)
    ensures Stripped(op, e) && Remaining(op, e) == multiset{ShapeOf(e)}
    ensures Stripped(op, Neutral(op)) && Remaining(op, Neutral(op)) == multiset{}
  {}

  lemma Singles<T>(a: T, b: T)
    ensures multiset{a} - multiset{b} == if a == b then multiset{} else multiset{a}
    ensures multiset{b} - multiset{a} == if a == b then multiset{} else multiset{b}
  {}

  lemma NeutralCancels(op: Conn, e1: Expr, e2: Expr)
    requires !IsBin(op, e1) && !IsBin(op, e2) && Stripped(op, e1) && Stripped(op, e2)
    requires e1 == Neutral(op) || e2 == Neutral(op)
    ensures Cancelled(op, e1, e2, e1, e2)
    ensures ExprEq(e1, e2) <==> e1 == e2
  {}

  lemma {:induction false} StripPair(op: Conn, e1: Expr, e2: Expr)
    requires !IsBin(op, e1) && !IsBin(op, e2) && Stripped(op, e1) && Stripped(op, e2)
    ensures var p := StripEq(op, e1, e2); Cancelled(op, e1, e2, p.e1, p.e2)
    decreases Size(e1) + Size(e2), 3, 1
  {
    var n := Neutral(op);
    if e1 != n && e2 != n {
      ExprEqExactly(e1, e2);
      assert !SkippedConstant(e1, e2);
      OperandsCancel(op, e1, e2);
      assert StripEq(op, e1, e2) == if ExprEq(e1, e2) then Pass(n, n, 1) else Pass(e1, e2, 0);
    } else {
      NeutralCancels(op, e1, e2);
      assert e1 == e2 ==> SkippedConstant(e1, e2);
      assert StripEq(op, e1, e2) == Pass(e1, e2, 0);
    }
  }

  /** Expressions without constants compare equal exactly if they have the same shape. */
  lemma {:induction false} ExprEqExactly(e1: Expr, e2: Expr)
    requires ConstFree(e1) && ConstFree(e2)
    ensures ExprEq(e1, e2) <==> ShapeOf(e1) == ShapeOf(e2)
    decreases Size(e1) + Size(e2), 3, 0
  {
    match e1
    case Not(a) => if e2.Not? { ExprEqExactly(a, e2.arg); }
    case Bin(op, _, _) => if IsBin(op, e2) { GroupsEqual(op, e1, e2); }
    case _ =>
  }

  lemma {:induction false} GroupsEqual(op: Conn, e1: Expr, e2: Expr)
    requires ConstFree(e1) && ConstFree(e2) && IsBin(op, e1) && IsBin(op, e2)
    ensures ExprEq(e1, e2) <==> Members(op, e1) == Members(op, e2)
    decreases Size(e1) + Size(e2), 2
  {
    RemainingAll(op, e1);
    RemainingAll(op, e2);
    StripEqCancels(op, e1, e2);
    var p := StripEq(op, e1, e2);
    assert EliminateEq(e1, e2) == Pass(EliminateYn(p.e1), EliminateYn(p.e2), p.count);
    FoldRemaining(op, p.e1);
    FoldRemaining(op, p.e2);
    NothingLeft(Members(op, e1), Members(op, e2));
    OneLeft(Members(op, e1), Members(op, e2));
  }

  lemma NothingLeft<T>(a: multiset<T>, b: multiset<T>)
    ensures a - b == multiset{} && b - a == multiset{} <==> a == b
  {}

  lemma OneLeft<T>(a: multiset<T>, b: multiset<T>)
    ensures forall x :: !(a - b == multiset{x} && b - a == multiset{x})
  {}

  // ----- what expr_eliminate_eq leaves -----

  /** f stands for the operands m: the neutral constant for none of them. */
  ghost predicate StandsFor(op: Conn, f: Expr, m: multiset<Shape>) {
    if m == multiset{} then f == Neutral(op) else f !in {EXPR_YES, EXPR_NO} && Members(op, f) == m
  }

  lemma {:induction false} FoldStandsFor(op: Conn, e: Expr)
    requires Stripped(op, e)
    ensures StandsFor(op, EliminateYn(e), Remaining(op, e))
  {
    if IsBin(op, e) {
      FoldStandsFor(op, e.left);
      FoldStandsFor(op, e.right);
    } else if e != Neutral(op) {
      ConstFreeFolds(e);
      RemainingAll(op, e);
    }
  }

  /** A pass on expressions without constants, folded. */
  lemma PassLeaves(op: Conn, e1: Expr, e2: Expr)
    requires ConstFree(e1) && ConstFree(e2)
    ensures var p := StripEq(op, e1, e2);
      && StandsFor(op, EliminateYn(p.e1), Members(op, e1) - Members(op, e2))
      && StandsFor(op, EliminateYn(p.e2), Members(op, e2) - Members(op, e1))
  {
    RemainingAll(op, e1);
    RemainingAll(op, e2);
    StripEqCancels(op, e1, e2);
    FoldStandsFor(op, StripEq(op, e1, e2).e1);
    FoldStandsFor(op, StripEq(op, e1, e2).e2);
  }

  /** One operand against the operands of a connective: it is stripped if it is among them. */
  lemma {:induction false} StripFromGroup(op: Conn, e1: Expr, e2: Expr)
    requires ConstFree(e1) && ConstFree(e2) && !IsBin(op, e2)
    ensures var p := StripEq(op, e1, e2);
      if ShapeOf(e2) in Members(op, e1) then p.e2 == Neutral(op) else p.e1 == e1 && p.e2 == e2
  {
    var p := StripEq(op, e1, e2);
    if IsBin(op, e1) {
      StripFromGroup(op, e1.left, e2);
      if StripEq(op, e1.left, e2).e2 == e2 {
        ConstFreeFolds(e2);
        StripFromGroup(op, e1.right, e2);
      } else {
        FixedStays(op, e1.right, Neutral(op));
      }
    } else {
      ExprEqExactly(e1, e2);
      ConstFreeFolds(e2);
    }
  }

  lemma {:induction false} StripByGroup(op: Conn, e1: Expr, e2: Expr)
    requires ConstFree(e1) && ConstFree(e2) && !IsBin(op, e1)
    ensures var p := StripEq(op, e1, e2);
      if ShapeOf(e1) in Members(op, e2) then p.e1 == Neutral(op) else p.e1 == e1 && p.e2 == e2
  {
    if IsBin(op, e2) {
      StripByGroup(op, e1, e2.left);
      if StripEq(op, e1, e2.left).e1 == e1 {
        ConstFreeFolds(e1);
        StripByGroup(op, e1, e2.right);
      } else {
        FixedStaysFirst(op, Neutral(op), e2.right);
      }
    } else {
      ExprEqExactly(e1, e2);
      ConstFreeFolds(e1);
    }
  }

  lemma {:induction false} FixedStays(op: Conn, e1: Expr, e2: Expr)
    requires IsFixed(e2)
    ensures StripEq(op, e1, e2).e2 == e2
  {
    if IsBin(op, e1) {
      FixedStays(op, e1.left, e2);
      FixedStays(op, e1.right, e2);
    }
  }

  lemma {:induction false} FixedStaysFirst(op: Conn, e1: Expr, e2: Expr)
    requires IsFixed(e1)
    ensures StripEq(op, e1, e2).e1 == e1
  {
    if IsBin(op, e2) {
      FixedStaysFirst(op, e1, e2.left);
      FixedStaysFirst(op, e1, e2.right);
    }
  }

  /** What the elimination takes out of two expressions: operands of which connective, if any. */
  function SharedUnder(e1: Expr, e2: Expr): Option<Conn> {
    if e1.Bin? && (IsBin(e1.op, e2) || ShapeOf(e2) in Members(e1.op, e1)) then Some(e1.op)
    else if e2.Bin? && ShapeOf(e1) in Members(e2.op, e2) then Some(e2.op)
    else None
  }

  /** The two sides after operands of `op` have been taken out. */
  ghost predicate Reduced(op: Conn, e1: Expr, e2: Expr, p: Pass) {
    && StandsFor(op, p.e1, Members(op, e1) - Members(op, e2))
    && StandsFor(op, p.e2, Members(op, e2) - Members(op, e1))
  }

  /** The first pass, for a group on the first side: the second one has nothing left to do then. */
  lemma FirstReduces(op: Conn, e1: Expr, e2: Expr)
    requires ConstFree(e1) && ConstFree(e2) && IsBin(op, e1)
    ensures if IsBin(op, e2) || ShapeOf(e2) in Members(op, e1) then Reduced(op, e1, e2, EliminateEq(e1, e2))
      else FirstStrip(e1, e2).e1 == e1 && FirstStrip(e1, e2).e2 == e2
  {
    var p := StripEq(op, e1, e2);
    assert FirstStrip(e1, e2) == p;
    if !IsBin(op, e2) { StripFromGroup(op, e1, e2); }
    if IsBin(op, e2) || ShapeOf(e2) in Members(op, e1) {
      PassLeaves(op, e1, e2);
      assert SecondStrip(p.e1, p.e2) == Pass(p.e1, p.e2, 0);
    }
  }

  lemma SecondReduces(op: Conn, e1: Expr, e2: Expr)
    requires ConstFree(e1) && ConstFree(e2) && IsBin(op, e2) && !IsBin(op, e1)
    requires FirstStrip(e1, e2).e1 == e1 && FirstStrip(e1, e2).e2 == e2
    ensures if ShapeOf(e1) in Members(op, e2) then Reduced(op, e1, e2, EliminateEq(e1, e2))
      else EliminateEq(e1, e2).e1 == e1 && EliminateEq(e1, e2).e2 == e2
  {
    var p := StripEq(op, e1, e2);
    assert SecondStrip(e1, e2) == p;
    StripByGroup(op, e1, e2);
    PassLeaves(op, e1, e2);
    ConstFreeFolds(e1);
    ConstFreeFolds(e2);
  }

  /**
   * Without constants, exactly the common operands are taken out, as often as both have them: of
   * two groups of one connective, or of a group and one of its operands. Else nothing changes.
   */
  lemma EliminateEqExactly(e1: Expr, e2: Expr)
    requires ConstFree(e1) && ConstFree(e2)
    ensures var p := EliminateEq(e1, e2);
      match SharedUnder(e1, e2)
      case Some(op) => Reduced(op, e1, e2, p)
      case None => p.e1 == e1 && p.e2 == e2
  {
    if e1.Bin? { FirstReduces(e1.op, e1, e2); }
    if !(e1.Bin? && SharedUnder(e1, e2) == Some(e1.op)) {
      if e2.Bin? {
        SecondReduces(e2.op, e1, e2);
      } else {
        ConstFreeFolds(e1);
        ConstFreeFolds(e2);
      }
    }
  }

  /** Two equal groups leave the neutral constant on both sides. */
  lemma EqualGroupsVanish(op: Conn, e1: Expr, e2: Expr)
    requires ConstFree(e1) && ConstFree(e2) && IsBin(op, e1) && IsBin(op, e2)
    requires Members(op, e1) == Members(op, e2)
    ensures EliminateEq(e1, e2).e1 == Neutral(op) && EliminateEq(e1, e2).e2 == Neutral(op)
  {
    EliminateEqExactly(e1, e2);
  }

  lemma {:induction false} MembersCount(op: Conn, e: Expr)
    ensures |Members(op, e)| >= 1
    ensures IsBin(op, e) ==> |Members(op, e)| >= 2
  {
    if IsBin(op, e) {
      MembersCount(op, e.left);
      MembersCount(op, e.right);
    }
  }

  /**
   * The second side becomes y exactly if the first is an AND that has all its operands, as
   * often as it has.
   */
  lemma SecondBecomesYes(e1: Expr, e2: Expr)
    requires ConstFree(e1) && ConstFree(e2)
    ensures EliminateEq(e1, e2).e2 == EXPR_YES <==> IsBin(And, e1) && Members(And, e2) <= Members(And, e1)
  {
    EliminateEqExactly(e1, e2);
    ConstFreeFolds(e2);
    Contained(Members(And, e2), Members(And, e1));
    match SharedUnder(e1, e2)
    case Some(And) => if !IsBin(And, e1) { GroupNotInOne(And, e2, e1); }
    case Some(Or) => OrIsNotYes(EliminateEq(e1, e2).e2, Members(Or, e2) - Members(Or, e1));
    case None => if IsBin(And, e1) { OneNotIn(And, e1, e2); }
  }

  /** A group is not contained in a single operand. */
  lemma GroupNotInOne(op: Conn, g: Expr, e: Expr)
    requires IsBin(op, g) && !IsBin(op, e)
    ensures !(Members(op, g) <= Members(op, e))
  {
    MembersCount(op, g);
    assert |Members(op, e)| == 1;
  }

  lemma OrIsNotYes(f: Expr, m: multiset<Shape>)
    requires StandsFor(Or, f, m)
    ensures f != EXPR_YES
  {}

  lemma OneNotIn(op: Conn, g: Expr, e: Expr)
    requires !IsBin(op, e) && ShapeOf(e) !in Members(op, g)
    ensures !(Members(op, e) <= Members(op, g))
  {
    assert Members(op, e)[ShapeOf(e)] == 1;
  }

  lemma Contained<T>(a: multiset<T>, b: multiset<T>)
    ensures a <= b <==> a - b == multiset{}
  {
    if a - b == multiset{} {
      forall x
        ensures a[x] <= b[x]
      {
        assert (a - b)[x] == 0;
      }
    }
  }
}
