/**
 * Positions inside one tree. The duplicate passes walk a tree against itself through two
 * pointers; a pointer is the path of left/right steps from the root, all through nodes of the
 * connective being flattened, and two pointers are equal exactly when the paths are.
 */
module SkeletonPaths {
  import opened Tristates
  import opened Exprs
  import opened ExprEquality
  import opened ExprTransform

  /** false steps to the left operand, true to the right one. */
  type Path = seq<bool>

  function Child(t: Expr, d: bool): Expr
    requires t.Bin?
  {
    if d then t.right else t.left
  }

  function WithChild(t: Expr, d: bool, c: Expr): Expr
    requires t.Bin?
  {
    if d then Bin(t.op, t.left, c) else Bin(t.op, c, t.right)
  }

  predicate InSkeleton(op: Conn, t: Expr, p: Path) {
    p == [] || (IsBin(op, t) && InSkeleton(op, Child(t, p[0]), p[1..]))
  }

  function At(op: Conn, t: Expr, p: Path): Expr
    requires InSkeleton(op, t, p)
  {
    if p == [] then t else At(op, Child(t, p[0]), p[1..])
  }

  function Put(op: Conn, t: Expr, p: Path, x: Expr): Expr
    requires InSkeleton(op, t, p)
  {
    if p == [] then x else WithChild(t, p[0], Put(op, Child(t, p[0]), p[1..], x))
  }

  /** An operand of the flattened connective: a position that holds some other kind of node. */
  predicate IsOperand(op: Conn, t: Expr, p: Path) {
    InSkeleton(op, t, p) && !IsBin(op, At(op, t, p))
  }

  /** Every position of `t` is still a position of `u`. */
  ghost predicate KeepsSkeleton(op: Conn, t: Expr, u: Expr) {
    forall q :: InSkeleton(op, t, q) ==> InSkeleton(op, u, q)
  }

  /** Every operand position of `t` still holds an operand in `u`. */
  ghost predicate KeepsOperands(op: Conn, t: Expr, u: Expr) {
    forall q :: IsOperand(op, t, q) ==> IsOperand(op, u, q)
  }

  lemma PrefixGrows(p: Path, p': Path)
    requires p <= p' && p != p'
    ensures |p| < |p'|
  {
    assert p' == p + p'[|p|..];
  }

  lemma {:induction false} PathLength(op: Conn, t: Expr, p: Path)
    requires InSkeleton(op, t, p)
    ensures |p| + Size(At(op, t, p)) <= Size(t)
  {
    if p != [] { PathLength(op, Child(t, p[0]), p[1..]); }
  }

  lemma {:induction false} Extend(op: Conn, t: Expr, p: Path, d: bool)
    requires InSkeleton(op, t, p) && IsBin(op, At(op, t, p))
    ensures InSkeleton(op, t, p + [d]) && At(op, t, p + [d]) == Child(At(op, t, p), d)
  {
    if p == [] {
      assert (p + [d])[1..] == [];
    } else {
      Extend(op, Child(t, p[0]), p[1..], d);
      assert (p + [d])[1..] == p[1..] + [d];
    }
  }

  lemma {:induction false} OperandEnds(op: Conn, t: Expr, p: Path, p': Path)
    requires IsOperand(op, t, p) && InSkeleton(op, t, p') && p <= p'
    ensures p == p'
  {
    if p != [] {
      assert p == [p[0]] + p[1..] && p' == [p'[0]] + p'[1..] && p[1..] <= p'[1..];
      OperandEnds(op, Child(t, p[0]), p[1..], p'[1..]);
    }
  }

  lemma {:induction false} PutAt(op: Conn, t: Expr, p: Path)
    requires InSkeleton(op, t, p)
    ensures Put(op, t, p, At(op, t, p)) == t
  {
    if p != [] { PutAt(op, Child(t, p[0]), p[1..]); }
  }

  lemma {:induction false} PutSize(op: Conn, t: Expr, p: Path, x: Expr)
    requires InSkeleton(op, t, p)
    ensures Size(Put(op, t, p, x)) == Size(t) - Size(At(op, t, p)) + Size(x)
    ensures p != [] && x in {EXPR_YES, EXPR_NO} ==> HasConstant(Put(op, t, p, x))
    ensures HasConstant(x) ==> HasConstant(Put(op, t, p, x))
  {
    if p != [] { PutSize(op, Child(t, p[0]), p[1..], x); }
  }

  lemma {:induction false} PutKeeps(op: Conn, t: Expr, p: Path, x: Expr, q: Path)
    requires IsOperand(op, t, p) && InSkeleton(op, t, q)
    ensures InSkeleton(op, Put(op, t, p, x), q)
    ensures q == p ==> At(op, Put(op, t, p, x), q) == x
    ensures q != p && IsOperand(op, t, q) ==> At(op, Put(op, t, p, x), q) == At(op, t, q)
  {
    if p != [] && q != [] && p[0] == q[0] {
      assert p == [p[0]] + p[1..] && q == [q[0]] + q[1..];
      PutKeeps(op, Child(t, p[0]), p[1..], x, q[1..]);
    }
  }

  lemma {:induction false} PutCommutes(op: Conn, t: Expr, p: Path, x: Expr, q: Path, y: Expr)
    requires IsOperand(op, t, p) && IsOperand(op, t, q) && p != q
    ensures InSkeleton(op, Put(op, t, p, x), q) && InSkeleton(op, Put(op, t, q, y), p)
    ensures Put(op, Put(op, t, p, x), q, y) == Put(op, Put(op, t, q, y), p, x)
  {
    PutKeeps(op, t, p, x, q);
    PutKeeps(op, t, q, y, p);
    if p[0] == q[0] {
      assert p == [p[0]] + p[1..] && q == [q[0]] + q[1..];
      PutCommutes(op, Child(t, p[0]), p[1..], x, q[1..], y);
    }
  }

  lemma {:induction false} PutKeepsOperand(op: Conn, t: Expr, p: Path, x: Expr, q: Path)
    requires IsOperand(op, t, p) && IsOperand(op, t, q) && !IsBin(op, x)
    ensures IsOperand(op, Put(op, t, p, x), q)
  {
    PutKeeps(op, t, p, x, q);
  }

  lemma PutKeepsAll(op: Conn, t: Expr, p: Path, x: Expr)
    requires IsOperand(op, t, p)
    ensures KeepsSkeleton(op, t, Put(op, t, p, x))
    ensures !IsBin(op, x) ==> KeepsOperands(op, t, Put(op, t, p, x))
  {
    forall q | InSkeleton(op, t, q)
      ensures InSkeleton(op, Put(op, t, p, x), q)
    {
      PutKeeps(op, t, p, x, q);
    }
    if !IsBin(op, x) {
      forall q | IsOperand(op, t, q)
        ensures IsOperand(op, Put(op, t, p, x), q)
      {
        PutKeepsOperand(op, t, p, x, q);
      }
    }
  }

  /** A position contributes through the connective alone. */
  lemma {:induction false} PutValue(op: Conn, t: Expr, p: Path, x: Expr, s: State)
    requires InSkeleton(op, t, p)
    ensures Eval(Put(op, t, p, x), s) == Apply(op, Eval(x, s), Eval(Put(op, t, p, Neutral(op)), s))
  {
    ConstantValues(s);
    if p != [] { PutValue(op, Child(t, p[0]), p[1..], x, s); }
  }

  /** The whole is at least as decided as any of its positions. */
  lemma {:induction false} AtDecides(op: Conn, t: Expr, p: Path, s: State)
    requires InSkeleton(op, t, p)
    ensures Apply(op, Eval(t, s), Eval(At(op, t, p), s)) == Eval(t, s)
  {
    PutAt(op, t, p);
    PutValue(op, t, p, At(op, t, p), s);
  }

  /** Emptying one operand and putting the join of two into the other keeps the value. */
  lemma {:induction false} JoinInPlace(op: Conn, t: Expr, p: Path, q: Path, x: Expr, s: State)
    requires IsOperand(op, t, p) && IsOperand(op, t, q) && p != q
    requires Eval(x, s) == Apply(op, Eval(At(op, t, p), s), Eval(At(op, t, q), s))
    ensures InSkeleton(op, Put(op, t, p, Neutral(op)), q)
    ensures Eval(Put(op, Put(op, t, p, Neutral(op)), q, x), s) == Eval(t, s)
  {
    var u := Put(op, t, p, Neutral(op));
    PutKeeps(op, t, p, Neutral(op), q);
    PutAt(op, t, p);
    PutValue(op, t, p, At(op, t, p), s);
    PutAt(op, u, q);
    PutValue(op, u, q, At(op, t, q), s);
    PutValue(op, u, q, x, s);
  }

  lemma {:induction false} NormalParts(op: Conn, t: Expr, p: Path, x: Expr)
    requires InSkeleton(op, t, p) && Normal(t)
    ensures Normal(At(op, t, p))
    ensures Normal(x) ==> Normal(Put(op, t, p, x))
  {
    if p != [] { NormalParts(op, Child(t, p[0]), p[1..], x); }
  }
}
