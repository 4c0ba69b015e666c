/** What duplicate elimination leaves: an expression without redundant or contradictory operands. */
module ExprReduced {
  import opened Tristates
  import opened Exprs
  import opened ExprEquality
  import opened ExprShapes
  import opened ExprTransform
  import opened ExprJoin
  import opened SkeletonPaths
  import opened ExprDups

  // ----- no two operands say the same -----

  /** Two operands of which neither repeats the other nor makes it simpler. */
  ghost predicate Apart(op: Conn, a: Expr, b: Expr) {
    && !Redundant(op, a, b)
    && !ExprEq(a, b)
    && (ConstFree(a) && ConstFree(b) ==> ShapeOf(a) != ShapeOf(b))
  }

  ghost predicate AllApart(op: Conn, t: Expr) {
    forall p, q :: p != q && IsOperand(op, t, p) && IsOperand(op, t, q) ==> Apart(op, At(op, t, p), At(op, t, q))
  }

  /** So it is at every depth. */
  ghost predicate Irredundant(e: Expr)
    decreases e, 1
  {
    e.Bin? ==> AllApart(e.op, e) && IrredundantIn(e.op, e)
  }

  ghost predicate IrredundantIn(op: Conn, t: Expr)
    decreases t, if IsBin(op, t) then 0 else 2
  {
    if IsBin(op, t) then IrredundantIn(op, t.left) && IrredundantIn(op, t.right) else Irredundant(t)
  }

  lemma {:induction false} FirstOperand(op: Conn, t: Expr) returns (p: Path)
    ensures IsOperand(op, t, p)
  {
    p := [];
    if IsBin(op, t) {
      p := FirstOperand(op, t.left);
      p := [false] + p;
    }
  }

  /** Beside every operand of a connective there is another one. */
  lemma AnotherOperand(op: Conn, t: Expr, p: Path) returns (q: Path)
    requires IsBin(op, t) && IsOperand(op, t, p)
    ensures q != p && IsOperand(op, t, q)
  {
    assert p != [];
    q := FirstOperand(op, Child(t, !p[0]));
    q := [!p[0]] + q;
  }

  lemma {:induction false} InEveryOperand(op: Conn, t: Expr)
    requires forall p :: IsOperand(op, t, p) ==> Irredundant(At(op, t, p))
    ensures IrredundantIn(op, t)
  {
    if IsBin(op, t) {
      forall d, p | IsOperand(op, Child(t, d), p)
        ensures Irredundant(At(op, Child(t, d), p))
      {
        assert ([d] + p)[1..] == p && IsOperand(op, t, [d] + p);
        assert At(op, t, [d] + p) == At(op, Child(t, d), p);
      }
      assert Child(t, false) == t.left && Child(t, true) == t.right;
      InEveryOperand(op, t.left);
      InEveryOperand(op, t.right);
    } else {
      assert IsOperand(op, t, []);
    }
  }

  lemma ApartIfUnjoined(op: Conn, a: Expr, b: Expr)
    requires Join(op, a, b).None?
    ensures Apart(op, a, b)
  {
    JoinExactly(op, a, b);
    if ConstFree(a) && ConstFree(b) { ExprEqExactly(a, b); }
  }

  /** A first pass that counts nothing has found nothing at any depth. */
  lemma {:induction false} UncountedIrredundant(op: Conn, t: Expr)
    requires IsBin(op, t) && Dups1(op, t, [], []).count == 0
    ensures Irredundant(t)
    decreases Size(t)
  {
    forall p, q | p != q && IsOperand(op, t, p) && IsOperand(op, t, q)
      ensures Apart(op, At(op, t, p), At(op, t, q))
    {
      Dups1Complete(op, t, [], [], p, q);
      ApartIfUnjoined(op, At(op, t, p), At(op, t, q));
    }
    forall p | IsOperand(op, t, p)
      ensures Irredundant(At(op, t, p))
    {
      var q := AnotherOperand(op, t, p);
      Dups1Complete(op, t, [], [], p, q);
      PathLength(op, t, p);
      var a := At(op, t, p);
      if a.Bin? { UncountedIrredundant(a.op, a); }
    }
    InEveryOperand(op, t);
  }

  lemma EliminateDupsIrredundant(e: Expr)
    ensures Irredundant(EliminateDups(e))
  {
    EliminateDupsFixpoint(e);
    var r := EliminateDups(e);
    if r.Bin? { UncountedIrredundant(r.op, r); }
  }

  // ----- no operand is contradicted by the others -----

  /** A second pass without a change has tried to decide every operand below p by every position below q. */
  lemma {:induction false} Dups2Complete(op: Conn, t: Expr, p: Path, q: Path, p': Path)
    requires IsBin(op, t) && InSkeleton(op, t, p) && InSkeleton(op, t, q)
    requires Dups2(op, t, p, q).count == 0
    requires p <= p' && q != p' && IsOperand(op, t, p')
    ensures DecideAt(op, t, p', q).count == 0
    decreases Size(t), Size(t) - |p|, Size(t) - |q|
  {
    PathLength(op, t, p);
    PathLength(op, t, q);
    if IsBin(op, At(op, t, p)) {
      Extend(op, t, p, false);
      Extend(op, t, p, true);
      var w1 := Dups2(op, t, p + [false], q);
      var w2 := Dups2(op, w1.tree, p + [true], q);
      assert w1.count == 0 && w2.count == 0;
      PrefixGrows(p, p');
      if p'[|p|] {
        Dups2Complete(op, t, p + [true], q, p');
      } else {
        Dups2Complete(op, t, p + [false], q, p');
      }
    } else {
      OperandEnds(op, t, p, p');
    }
  }

  /** The negation of a normal form, written as one. */
  function Dual(e: Expr): Expr {
    match e
    case Leaf(x) => if x == SYM_MOD then e else Not(e)
    case Not(a) => a
    case Cmp(equal, l, r) => Cmp(!equal, l, r)
    case Bin(op, l, r) => Bin(Flip(op), Dual(l), Dual(r))
  }

  lemma {:induction false} TransformNotDual(e: Expr)
    requires Normal(e) && ConstFree(e)
    ensures Transform(Not(e)) == Dual(e) && ConstFree(Dual(e)) && Normal(Dual(e))
  {
    TransformFixpoint(e);
    match e
    case Bin(op, l, r) =>
      TransformNotDual(l);
      TransformNotDual(r);
      assert Transform(Bin(Flip(op), Not(l), Not(r))) == Dual(e);
    case _ =>
  }

  /** Nothing is extracted exactly if nothing changes. */
  lemma {:induction false} ExtractNothing(op: Conn, common: Option<Expr>, e1: Expr, e2: Expr)
    ensures var x := ExtractEq(op, common, e1, e2);
      (common.Some? ==> x.common.Some?) && (x.common.None? ==> x == Extraction(None, e1, e2))
    decreases Size(e1) + Size(e2)
  {
    if IsBin(op, e1) {
      var x := ExtractEq(op, common, e1.left, e2);
      ExtractNothing(op, common, e1.left, e2);
      ExtractNothing(op, x.common, e1.right, x.e2);
    } else if IsBin(op, e2) {
      var x := ExtractEq(op, common, e1, e2.left);
      ExtractNothing(op, common, e1, e2.left);
      ExtractNothing(op, x.common, x.e1, e2.right);
    }
  }

  lemma {:induction false} ExtractEqCancels(op: Conn, common: Option<Expr>, e1: Expr, e2: Expr)
    requires Stripped(op, e1) && Stripped(op, e2)
    ensures var x := ExtractEq(op, common, e1, e2); Cancelled(op, e1, e2, x.e1, x.e2)
    decreases Size(e1) + Size(e2)
  {
    if IsBin(op, e1) {
      var x := ExtractEq(op, common, e1.left, e2);
      var y := ExtractEq(op, x.common, e1.right, x.e2);
      ExtractEqCancels(op, common, e1.left, e2);
      ExtractEqCancels(op, x.common, e1.right, x.e2);
      CancelledLeft(op, e1.left, e1.right, e2, x.e1, y.e1, x.e2, y.e2);
      assert ExtractEq(op, common, e1, e2) == Extraction(y.common, Bin(op, x.e1, y.e1), y.e2);
      assert e1 == Bin(op, e1.left, e1.right);
    } else if IsBin(op, e2) {
      var x := ExtractEq(op, common, e1, e2.left);
      var y := ExtractEq(op, x.common, x.e1, e2.right);
      ExtractEqCancels(op, common, e1, e2.left);
      ExtractEqCancels(op, x.common, x.e1, e2.right);
      CancelledRight(op, e1, e2.left, e2.right, x.e2, y.e2, x.e1, y.e1);
      assert ExtractEq(op, common, e1, e2) == Extraction(y.common, y.e1, Bin(op, x.e2, y.e2));
      assert e2 == Bin(op, e2.left, e2.right);
    } else {
      ExtractPairCancels(op, common, e1, e2);
    }
  }

  lemma ExtractPairCancels(op: Conn, common: Option<Expr>, e1: Expr, e2: Expr)
    requires !IsBin(op, e1) && !IsBin(op, e2) && Stripped(op, e1) && Stripped(op, e2)
    ensures var x := ExtractEq(op, common, e1, e2); Cancelled(op, e1, e2, x.e1, x.e2)
  {
    if e1 != Neutral(op) && e2 != Neutral(op) {
      ExprEqExactly(e1, e2);
      OperandsCancel(op, e1, e2);
    } else {
      NeutralCancels(op, e1, e2);
    }
  }

  /** The first side is used up exactly if the second has all its operands. */
  lemma ExtractCommonExactly(op: Conn, e1: Expr, e2: Expr)
    requires ConstFree(e1) && ConstFree(e2)
    ensures ExtractCommon(op, e1, e2).e1 == Neutral(op) <==> Members(op, e1) <= Members(op, e2)
  {
    var x := ExtractEq(op, None, e1, e2);
    RemainingAll(op, e1);
    RemainingAll(op, e2);
    ExtractEqCancels(op, None, e1, e2);
    ExtractNothing(op, None, e1, e2);
    FoldRemaining(op, x.e1);
    ConstFreeFolds(e1);
    assert Members(op, e1) <= Members(op, e2) <==> Members(op, e1) - Members(op, e2) == multiset{};
  }

  /**
   * In the final tree no operand is an OR (in an AND) or an AND (in an OR) the parts of whose
   * negation are all among the operands.
   */
  lemma EliminateDupsConsistent(e: Expr, p: Path)
    requires Normal(e) && ConstFree(EliminateDups(e))
    requires var r := EliminateDups(e); r.Bin? && IsOperand(r.op, r, p) && At(r.op, r, p).Bin?
    ensures var r := EliminateDups(e); !(Members(r.op, Dual(At(r.op, r, p))) <= Members(r.op, r))
  {
    var r := EliminateDups(e);
    var op, a := r.op, At(r.op, r, p);
    EliminateDupsFixpoint(e);
    EliminateDupsNormal(e);
    Dups2Complete(op, r, [], [], p);
    NormalParts(op, r, p, a);
    ConstFreeAt(op, r, p);
    TransformNotDual(a);
    PutAt(op, r, p);
    assert Dups2(a.op, a, [], []).tree == a;
    ExtractCommonExactly(op, Dual(a), r);
  }

  lemma {:induction false} ConstFreeAt(op: Conn, t: Expr, p: Path)
    requires InSkeleton(op, t, p) && ConstFree(t)
    ensures ConstFree(At(op, t, p))
  {
    if p != [] { ConstFreeAt(op, Child(t, p[0]), p[1..]); }
  }
}
