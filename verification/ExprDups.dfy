/** Duplicate elimination: the pairwise passes over one tree, and the loop that repeats them. */
module ExprDups {
  import opened Tristates
  import opened Exprs
  import opened ExprEquality
  import opened ExprTransform
  import opened ExprJoin
  import opened SkeletonPaths

  /** A tree after a pass, and how often the pass counted a change. */
  datatype Walk = Walk(tree: Expr, count: nat)

  /**
   * What every walk guarantees: pointers into the tree stay valid, the tree does not grow, and
   * a counted change has left a constant operand behind.
   */
  ghost predicate WalkOk(op: Conn, t: Expr, w: Walk) {
    && IsBin(op, w.tree)
    && KeepsSkeleton(op, t, w.tree)
    && KeepsOperands(op, t, w.tree)
    && Size(w.tree) <= Size(t)
    && (w.count == 0 ==> w.tree == t)
    && (w.count > 0 ==> HasConstant(w.tree))
  }

  // ----- first pass: join every two distinct operands -----

  /** e1 and e2 are the operands of `t` at p and q; e1 is cleaned up first when it is a connective. */
  function Dups1(op: Conn, t: Expr, p: Path, q: Path): (w: Walk)
    requires IsBin(op, t) && InSkeleton(op, t, p) && InSkeleton(op, t, q)
    ensures WalkOk(op, t, w)
    decreases Size(t), Size(t) - |p|, Size(t) - |q|
  {
    PathLength(op, t, p);
    PathLength(op, t, q);
    var e1 := At(op, t, p);
    var e2 := At(op, t, q);
    if IsBin(op, e1) then
      Extend(op, t, p, false);
      Extend(op, t, p, true);
      var w1 := Dups1(op, t, p + [false], q);
      var w2 := Dups1(op, w1.tree, p + [true], q);
      Walk(w2.tree, w1.count + w2.count)
    else if IsBin(op, e2) then
      Extend(op, t, q, false);
      Extend(op, t, q, true);
      var w1 := Dups1(op, t, p, q + [false]);
      var w2 := Dups1(op, w1.tree, p, q + [true]);
      Walk(w2.tree, w1.count + w2.count)
    else if p == q then Walk(t, 0)
    else
      var inner := if e1.Bin? then Dups1(e1.op, e1, [], []) else Walk(e1, 0);
      var t1 := Put(op, t, p, inner.tree);
      PutAt(op, t, p);
      PutSize(op, t, p, inner.tree);
      PutKeepsAll(op, t, p, inner.tree);
      PutKeeps(op, t, p, inner.tree, p);
      PutKeeps(op, t, p, inner.tree, q);
      var j := JoinAt(op, t1, p, q);
      Walk(j.tree, inner.count + j.count)
  }

  /** Two operands that join leave the ignored constant at p and the join at q. */
  function JoinAt(op: Conn, t: Expr, p: Path, q: Path): (w: Walk)
    requires IsBin(op, t) && IsOperand(op, t, p) && IsOperand(op, t, q) && p != q
    ensures WalkOk(op, t, w)
  {
    var e1 := At(op, t, p);
    var e2 := At(op, t, q);
    var join := Join(op, e1, e2);
    if join.None? then Walk(t, 0)
    else
      JoinAtOk(op, t, p, q, join.value);
      Walk(Put(op, Put(op, t, p, Neutral(op)), q, join.value), 1)
  }

  lemma JoinAtOk(op: Conn, t: Expr, p: Path, q: Path, x: Expr)
    requires IsBin(op, t) && IsOperand(op, t, p) && IsOperand(op, t, q) && p != q
    requires Join(op, At(op, t, p), At(op, t, q)) == Some(x)
    ensures InSkeleton(op, Put(op, t, p, Neutral(op)), q)
    ensures WalkOk(op, t, Walk(Put(op, Put(op, t, p, Neutral(op)), q, x), 1))
  {
    var u := Put(op, t, p, Neutral(op));
    PutKeeps(op, t, p, Neutral(op), q);
    PutKeepsAll(op, t, p, Neutral(op));
    PutKeepsAll(op, u, q, x);
    PutCommutes(op, t, p, Neutral(op), q, x);
    PutKeeps(op, t, q, x, p);
    PutSize(op, t, p, Neutral(op));
    PutSize(op, u, q, x);
    PutSize(op, Put(op, t, q, x), p, Neutral(op));
    JoinSize(op, At(op, t, p), At(op, t, q));
  }

  /** The first pass keeps the value under every three-valued assignment the types allow. */
  lemma {:induction false} Dups1Sound(op: Conn, t: Expr, p: Path, q: Path, s: State)
    requires IsBin(op, t) && InSkeleton(op, t, p) && InSkeleton(op, t, q) && Legal(s)
    ensures Eval(Dups1(op, t, p, q).tree, s) == Eval(t, s)
    decreases Size(t), Size(t) - |p|, Size(t) - |q|
  {
    PathLength(op, t, p);
    PathLength(op, t, q);
    var e1 := At(op, t, p);
    var e2 := At(op, t, q);
    if IsBin(op, e1) {
      Extend(op, t, p, false);
      Extend(op, t, p, true);
      var w1 := Dups1(op, t, p + [false], q);
      Dups1Sound(op, t, p + [false], q, s);
      Dups1Sound(op, w1.tree, p + [true], q, s);
    } else if IsBin(op, e2) {
      Extend(op, t, q, false);
      Extend(op, t, q, true);
      var w1 := Dups1(op, t, p, q + [false]);
      Dups1Sound(op, t, p, q + [false], s);
      Dups1Sound(op, w1.tree, p, q + [true], s);
    } else if p != q {
      var inner := if e1.Bin? then Dups1(e1.op, e1, [], []) else Walk(e1, 0);
      if e1.Bin? { Dups1Sound(e1.op, e1, [], [], s); }
      var t1 := Put(op, t, p, inner.tree);
      PutAt(op, t, p);
      PutValue(op, t, p, e1, s);
      PutValue(op, t, p, inner.tree, s);
      PutKeeps(op, t, p, inner.tree, p);
      PutKeeps(op, t, p, inner.tree, q);
      JoinAtSound(op, t1, p, q, s);
    }
  }

  lemma JoinAtSound(op: Conn, t: Expr, p: Path, q: Path, s: State)
    requires IsBin(op, t) && IsOperand(op, t, p) && IsOperand(op, t, q) && p != q && Legal(s)
    ensures Eval(JoinAt(op, t, p, q).tree, s) == Eval(t, s)
  {
    var join := Join(op, At(op, t, p), At(op, t, q));
    if join.Some? {
      JoinSound(op, At(op, t, p), At(op, t, q), s);
      JoinInPlace(op, t, p, q, join.value, s);
    }
  }

  // ----- extraction of common operands -----

  /** The operands found on both sides, and what remains of the two sides. */
  datatype Extraction = Extraction(common: Option<Expr>, e1: Expr, e2: Expr)

  function ExtractEq(op: Conn, common: Option<Expr>, e1: Expr, e2: Expr): (x: Extraction)
    ensures Size(x.e1) <= Size(e1) && Size(x.e2) <= Size(e2)
    decreases Size(e1) + Size(e2)
  {
    if IsBin(op, e1) then
      var x := ExtractEq(op, common, e1.left, e2);
      var y := ExtractEq(op, x.common, e1.right, x.e2);
      Extraction(y.common, Bin(op, x.e1, y.e1), y.e2)
    else if IsBin(op, e2) then
      var x := ExtractEq(op, common, e1, e2.left);
      var y := ExtractEq(op, x.common, x.e1, e2.right);
      Extraction(y.common, y.e1, Bin(op, x.e2, y.e2))
    else if ExprEq(e1, e2) then
      Extraction(Some(if common.Some? then Bin(op, common.value, e1) else e1), Neutral(op), Neutral(op))
    else Extraction(common, e1, e2)
  }

  function ExtractCommon(op: Conn, e1: Expr, e2: Expr): Extraction {
    var x := ExtractEq(op, None, e1, e2);
    if x.common.None? then x else Extraction(x.common, EliminateYn(x.e1), EliminateYn(x.e2))
  }

  function CommonValue(op: Conn, common: Option<Expr>, s: State): Tristate {
    if common.None? then NeutralValue(op) else Eval(common.value, s)
  }

  /** Extraction moves value out of both sides: each side is its remainder joined with what was added to `common`. */
  lemma {:induction false} ExtractEqSplits(op: Conn, common: Option<Expr>, e1: Expr, e2: Expr, s: State)
    returns (c: Tristate)
    ensures var x := ExtractEq(op, common, e1, e2);
      && CommonOperand(op, e1, e2, Pass(x.e1, x.e2, 0), c, s)
      && CommonValue(op, x.common, s) == Apply(op, CommonValue(op, common, s), c)
    decreases Size(e1) + Size(e2)
  {
    if IsBin(op, e1) {
      var x := ExtractEq(op, common, e1.left, e2);
      var y := ExtractEq(op, x.common, e1.right, x.e2);
      var c1 := ExtractEqSplits(op, common, e1.left, e2, s);
      var c2 := ExtractEqSplits(op, x.common, e1.right, x.e2, s);
      c := Apply(op, c1, c2);
      assert ExtractEq(op, common, e1, e2) == Extraction(y.common, Bin(op, x.e1, y.e1), y.e2);
      Regroup(op, Eval(x.e1, s), Eval(y.e1, s), Eval(y.e2, s), c1, c2);
      Regroup(op, NO, NO, CommonValue(op, common, s), c2, c1);
    } else if IsBin(op, e2) {
      var x := ExtractEq(op, common, e1, e2.left);
      var y := ExtractEq(op, x.common, x.e1, e2.right);
      var c1 := ExtractEqSplits(op, common, e1, e2.left, s);
      var c2 := ExtractEqSplits(op, x.common, x.e1, e2.right, s);
      c := Apply(op, c1, c2);
      assert ExtractEq(op, common, e1, e2) == Extraction(y.common, y.e1, Bin(op, x.e2, y.e2));
      Regroup(op, Eval(x.e2, s), Eval(y.e2, s), Eval(y.e1, s), c1, c2);
      Regroup(op, NO, NO, CommonValue(op, common, s), c2, c1);
    } else {
      c := ExtractPair(op, common, e1, e2, s);
    }
  }

  /** Two operands, which are extracted if they are equal. */
  lemma ExtractPair(op: Conn, common: Option<Expr>, e1: Expr, e2: Expr, s: State) returns (c: Tristate)
    requires !IsBin(op, e1) && !IsBin(op, e2)
    ensures var x := ExtractEq(op, common, e1, e2);
      && CommonOperand(op, e1, e2, Pass(x.e1, x.e2, 0), c, s)
      && CommonValue(op, x.common, s) == Apply(op, CommonValue(op, common, s), c)
  {
    c := NeutralValue(op);
    if ExprEq(e1, e2) {
      ExprEqSound(e1, e2, s);
      ConstantValues(s);
      c := Eval(e1, s);
    }
  }

  /** Both sides are rebuilt from the extracted part and the remainders. */
  lemma ExtractCommonRebuilds(op: Conn, e1: Expr, e2: Expr, s: State)
    ensures var x := ExtractCommon(op, e1, e2);
      && Eval(e1, s) == Apply(op, Eval(x.e1, s), CommonValue(op, x.common, s))
      && Eval(e2, s) == Apply(op, Eval(x.e2, s), CommonValue(op, x.common, s))
  {
    var x := ExtractEq(op, None, e1, e2);
    var c := ExtractEqSplits(op, None, e1, e2, s);
    EliminateYnSound(x.e1, s);
    EliminateYnSound(x.e2, s);
  }

  // ----- second pass: decide an operand whose negation follows from another position -----

  /** After the two operands of a connective at q have been visited, q itself is tried as well. */
  function Dups2(op: Conn, t: Expr, p: Path, q: Path): (w: Walk)
    requires IsBin(op, t) && InSkeleton(op, t, p) && InSkeleton(op, t, q)
    ensures WalkOk(op, t, w)
    decreases Size(t), Size(t) - |p|, Size(t) - |q|
  {
    PathLength(op, t, p);
    PathLength(op, t, q);
    if IsBin(op, At(op, t, p)) then
      Extend(op, t, p, false);
      Extend(op, t, p, true);
      var w1 := Dups2(op, t, p + [false], q);
      var w2 := Dups2(op, w1.tree, p + [true], q);
      Walk(w2.tree, w1.count + w2.count)
    else if IsBin(op, At(op, t, q)) then
      Extend(op, t, q, false);
      Extend(op, t, q, true);
      var w1 := Dups2(op, t, p, q + [false]);
      var w2 := Dups2(op, w1.tree, p, q + [true]);
      assert IsOperand(op, w2.tree, p);
      var w3 := DecideAt(op, w2.tree, p, q);
      Walk(w3.tree, w1.count + w2.count + w3.count)
    else if p == q then Walk(t, 0)
    else DecideAt(op, t, p, q)
  }

  /** The negation of e1 is stripped against e2; when nothing of it is left, e1 is decided. */
  function DecideAt(op: Conn, t: Expr, p: Path, q: Path): (w: Walk)
    requires IsBin(op, t) && IsOperand(op, t, p) && InSkeleton(op, t, q) && p != q
    ensures WalkOk(op, t, w)
    decreases Size(t), Size(t) - |p|, 0
  {
    var e1 := At(op, t, p);
    if !e1.Bin? then Walk(t, 0)
    else
      PathLength(op, t, p);
      var inner := Dups2(e1.op, e1, [], []);
      var t1 := Put(op, t, p, inner.tree);
      PutAt(op, t, p);
      PutSize(op, t, p, inner.tree);
      PutKeepsAll(op, t, p, inner.tree);
      PutKeeps(op, t, p, inner.tree, p);
      PutKeeps(op, t, p, inner.tree, q);
      var x := ExtractCommon(op, Transform(Not(inner.tree)), At(op, t1, q));
      if x.e1 == Neutral(op) then
        PutSize(op, t1, p, Absorbing(op));
        PutKeepsAll(op, t1, p, Absorbing(op));
        Walk(Put(op, t1, p, Absorbing(op)), inner.count + 1)
      else Walk(t1, inner.count)
  }

  lemma {:induction false} Dups2Sharpens(op: Conn, t: Expr, p: Path, q: Path, s: State)
    requires IsBin(op, t) && InSkeleton(op, t, p) && InSkeleton(op, t, q) && Legal(s)
    ensures Sharpens(Eval(t, s), Eval(Dups2(op, t, p, q).tree, s))
    decreases Size(t), Size(t) - |p|, Size(t) - |q|
  {
    PathLength(op, t, p);
    PathLength(op, t, q);
    if IsBin(op, At(op, t, p)) {
      Extend(op, t, p, false);
      Extend(op, t, p, true);
      var w1 := Dups2(op, t, p + [false], q);
      Dups2Sharpens(op, t, p + [false], q, s);
      Dups2Sharpens(op, w1.tree, p + [true], q, s);
    } else if IsBin(op, At(op, t, q)) {
      Extend(op, t, q, false);
      Extend(op, t, q, true);
      var w1 := Dups2(op, t, p, q + [false]);
      var w2 := Dups2(op, w1.tree, p, q + [true]);
      Dups2Sharpens(op, t, p, q + [false], s);
      Dups2Sharpens(op, w1.tree, p, q + [true], s);
      assert IsOperand(op, w2.tree, p);
      DecideAtSharpens(op, w2.tree, p, q, s);
    } else if p != q {
      DecideAtSharpens(op, t, p, q, s);
    }
  }

  lemma {:induction false} DecideAtSharpens(op: Conn, t: Expr, p: Path, q: Path, s: State)
    requires IsBin(op, t) && IsOperand(op, t, p) && InSkeleton(op, t, q) && p != q && Legal(s)
    ensures Sharpens(Eval(t, s), Eval(DecideAt(op, t, p, q).tree, s))
    decreases Size(t), Size(t) - |p|, 0
  {
    var e1 := At(op, t, p);
    if e1.Bin? {
      PathLength(op, t, p);
      var inner := Dups2(e1.op, e1, [], []);
      Dups2Sharpens(e1.op, e1, [], [], s);
      var t1 := Put(op, t, p, inner.tree);
      PutAt(op, t, p);
      PutValue(op, t, p, e1, s);
      PutValue(op, t, p, inner.tree, s);
      PutKeepsAll(op, t, p, inner.tree);
      PutKeeps(op, t, p, inner.tree, p);
      PutKeeps(op, t, p, inner.tree, q);
      var x := ExtractCommon(op, Transform(Not(inner.tree)), At(op, t1, q));
      if x.e1 == Neutral(op) {
        DecidedOnlyWhenUnclear(op, t1, p, q, s);
      }
    }
  }

  /** Where the rule fires, the tree is already m or decided, and the new constant decides it. */
  lemma DecidedOnlyWhenUnclear(op: Conn, t: Expr, p: Path, q: Path, s: State)
    requires IsOperand(op, t, p) && InSkeleton(op, t, q) && Legal(s)
    requires ExtractCommon(op, Transform(Not(At(op, t, p))), At(op, t, q)).e1 == Neutral(op)
    ensures Eval(t, s) in {MOD, AbsorbingValue(op)}
    ensures Eval(Put(op, t, p, Absorbing(op)), s) == AbsorbingValue(op)
    ensures Eval(Put(op, t, p, Absorbing(op)), s) == Eval(t, s) <==> Eval(t, s) != MOD
  {
    var e1 := At(op, t, p);
    TransformSound(Not(e1), s);
    ExtractCommonRebuilds(op, Transform(Not(e1)), At(op, t, q), s);
    ConstantValues(s);
    AtDecides(op, t, p, s);
    AtDecides(op, t, q, s);
    PutValue(op, t, p, Absorbing(op), s);
  }

  // ----- the loop -----

  /** Both passes over an AND or OR; anything else is left alone. */
  function DupsPass(e: Expr): (w: Walk)
    ensures Size(w.tree) <= Size(e)
    ensures w.count == 0 ==> w.tree == e
    ensures w.count > 0 ==> HasConstant(w.tree)
  {
    if !e.Bin? then Walk(e, 0)
    else
      var w1 := Dups1(e.op, e, [], []);
      var w2 := Dups2(e.op, w1.tree, [], []);
      Walk(w2.tree, w1.count + w2.count)
  }

  /** A counted change makes the folded tree strictly smaller, so the loop ends. */
  lemma PassShrinks(e: Expr)
    requires DupsPass(e).count > 0
    ensures Size(EliminateYn(DupsPass(e).tree)) < Size(e)
  {
    EliminateYnClean(DupsPass(e).tree);
  }

  function EliminateDups(e: Expr): (r: Expr)
    ensures Size(r) <= Size(e)
    decreases Size(e)
  {
    var w := DupsPass(e);
    if w.count == 0 then w.tree
    else
      PassShrinks(e);
      EliminateDups(EliminateYn(w.tree))
  }

  lemma DupsPassSharpens(e: Expr, s: State)
    requires Legal(s)
    ensures Sharpens(Eval(e, s), Eval(DupsPass(e).tree, s))
  {
    if e.Bin? {
      Dups1Sound(e.op, e, [], [], s);
      Dups2Sharpens(e.op, Dups1(e.op, e, [], []).tree, [], [], s);
    }
  }

  /**
   * Duplicate elimination never changes a value that is n or y; only an m may be rounded.
   * Under a two-valued assignment it therefore keeps every value that is not m itself.
   */
  lemma {:induction false} EliminateDupsSharpens(e: Expr, s: State)
    requires Legal(s)
    ensures Sharpens(Eval(e, s), Eval(EliminateDups(e), s))
    decreases Size(e)
  {
    var w := DupsPass(e);
    DupsPassSharpens(e, s);
    if w.count > 0 {
      PassShrinks(e);
      EliminateYnSound(w.tree, s);
      EliminateDupsSharpens(EliminateYn(w.tree), s);
    }
  }

  /** The loop stops at a tree on which a further pass counts nothing. */
  lemma {:induction false} EliminateDupsFixpoint(e: Expr)
    ensures DupsPass(EliminateDups(e)) == Walk(EliminateDups(e), 0)
    ensures EliminateDups(EliminateDups(e)) == EliminateDups(e)
    decreases Size(e)
  {
    var w := DupsPass(e);
    if w.count > 0 {
      PassShrinks(e);
      EliminateDupsFixpoint(EliminateYn(w.tree));
    }
  }

  // ----- normal forms are kept -----

  lemma JoinNormal(op: Conn, e1: Expr, e2: Expr)
    requires Join(op, e1, e2).Some? && Normal(e1) && Normal(e2)
    ensures Normal(Join(op, e1, e2).value)
  {}

  lemma {:induction false} EliminateYnNormal(e: Expr)
    requires Normal(e)
    ensures Normal(EliminateYn(e))
  {
    match e
    case Bin(_, l, r) =>
      EliminateYnNormal(l);
      EliminateYnNormal(r);
    case _ =>
  }

  lemma {:induction false} Dups1Normal(op: Conn, t: Expr, p: Path, q: Path)
    requires IsBin(op, t) && InSkeleton(op, t, p) && InSkeleton(op, t, q) && Normal(t)
    ensures Normal(Dups1(op, t, p, q).tree)
    decreases Size(t), Size(t) - |p|, Size(t) - |q|
  {
    PathLength(op, t, p);
    PathLength(op, t, q);
    var e1 := At(op, t, p);
    if IsBin(op, e1) {
      Extend(op, t, p, false);
      Extend(op, t, p, true);
      Dups1Normal(op, t, p + [false], q);
      Dups1Normal(op, Dups1(op, t, p + [false], q).tree, p + [true], q);
    } else if IsBin(op, At(op, t, q)) {
      Extend(op, t, q, false);
      Extend(op, t, q, true);
      Dups1Normal(op, t, p, q + [false]);
      Dups1Normal(op, Dups1(op, t, p, q + [false]).tree, p, q + [true]);
    } else if p != q {
      NormalParts(op, t, p, e1);
      if e1.Bin? { Dups1Normal(e1.op, e1, [], []); }
      var inner := if e1.Bin? then Dups1(e1.op, e1, [], []) else Walk(e1, 0);
      var t1 := Put(op, t, p, inner.tree);
      NormalParts(op, t, p, inner.tree);
      PutKeeps(op, t, p, inner.tree, p);
      PutKeeps(op, t, p, inner.tree, q);
      JoinAtNormal(op, t1, p, q);
    }
  }

  lemma JoinAtNormal(op: Conn, t: Expr, p: Path, q: Path)
    requires IsBin(op, t) && IsOperand(op, t, p) && IsOperand(op, t, q) && p != q && Normal(t)
    ensures Normal(JoinAt(op, t, p, q).tree)
  {
    var join := Join(op, At(op, t, p), At(op, t, q));
    if join.Some? {
      NormalParts(op, t, p, Neutral(op));
      NormalParts(op, t, q, Neutral(op));
      JoinNormal(op, At(op, t, p), At(op, t, q));
      PutKeeps(op, t, p, Neutral(op), q);
      NormalParts(op, Put(op, t, p, Neutral(op)), q, join.value);
    }
  }

  lemma {:induction false} Dups2Normal(op: Conn, t: Expr, p: Path, q: Path)
    requires IsBin(op, t) && InSkeleton(op, t, p) && InSkeleton(op, t, q) && Normal(t)
    ensures Normal(Dups2(op, t, p, q).tree)
    decreases Size(t), Size(t) - |p|, Size(t) - |q|
  {
    PathLength(op, t, p);
    PathLength(op, t, q);
    if IsBin(op, At(op, t, p)) {
      Extend(op, t, p, false);
      Extend(op, t, p, true);
      Dups2Normal(op, t, p + [false], q);
      Dups2Normal(op, Dups2(op, t, p + [false], q).tree, p + [true], q);
    } else if IsBin(op, At(op, t, q)) {
      Extend(op, t, q, false);
      Extend(op, t, q, true);
      var w1 := Dups2(op, t, p, q + [false]);
      var w2 := Dups2(op, w1.tree, p, q + [true]);
      Dups2Normal(op, t, p, q + [false]);
      Dups2Normal(op, w1.tree, p, q + [true]);
      assert IsOperand(op, w2.tree, p);
      DecideAtNormal(op, w2.tree, p, q);
    } else if p != q {
      DecideAtNormal(op, t, p, q);
    }
  }

  lemma {:induction false} DecideAtNormal(op: Conn, t: Expr, p: Path, q: Path)
    requires IsBin(op, t) && IsOperand(op, t, p) && InSkeleton(op, t, q) && p != q && Normal(t)
    ensures Normal(DecideAt(op, t, p, q).tree)
    decreases Size(t), Size(t) - |p|, 0
  {
    var e1 := At(op, t, p);
    if e1.Bin? {
      PathLength(op, t, p);
      NormalParts(op, t, p, e1);
      Dups2Normal(e1.op, e1, [], []);
      var inner := Dups2(e1.op, e1, [], []);
      NormalParts(op, t, p, inner.tree);
      PutKeeps(op, t, p, inner.tree, p);
      NormalParts(op, Put(op, t, p, inner.tree), p, Absorbing(op));
    }
  }

  lemma {:induction false} EliminateDupsNormal(e: Expr)
    requires Normal(e)
    ensures Normal(EliminateDups(e))
    decreases Size(e)
  {
    if e.Bin? {
      Dups1Normal(e.op, e, [], []);
      Dups2Normal(e.op, Dups1(e.op, e, [], []).tree, [], []);
    }
    var w := DupsPass(e);
    if w.count > 0 {
      PassShrinks(e);
      EliminateYnNormal(w.tree);
      EliminateDupsNormal(EliminateYn(w.tree));
    }
  }

  /** Neither a constant m nor, with a two-valued assignment, anything else in `e` is m. */
  predicate MentionsMod(e: Expr) {
    match e
    case Leaf(x) => x == SYM_MOD
    case Cmp(_, _, _) => false
    case Not(a) => MentionsMod(a)
    case Bin(_, l, r) => MentionsMod(l) || MentionsMod(r)
  }

  lemma {:induction false} TwoValuedNotMod(e: Expr, s: State)
    requires TwoValued(s) && !MentionsMod(e)
    ensures Eval(e, s) != MOD
  {
    match e
    case Leaf(_) =>
    case Cmp(_, _, _) =>
    case Not(a) => TwoValuedNotMod(a, s);
    case Bin(_, l, r) =>
      TwoValuedNotMod(l, s);
      TwoValuedNotMod(r, s);
  }

  lemma EliminateDupsTwoValued(e: Expr, s: State)
    requires TwoValued(s) && !MentionsMod(e)
    ensures Eval(EliminateDups(e), s) == Eval(e, s)
  {
    TwoValuedNotMod(e, s);
    EliminateDupsSharpens(e, s);
  }

  /** A first pass without a change has tried every pair of operands below p and q. */
  lemma {:induction false} Dups1Complete(op: Conn, t: Expr, p: Path, q: Path, p': Path, q': Path)
    requires IsBin(op, t) && InSkeleton(op, t, p) && InSkeleton(op, t, q)
    requires Dups1(op, t, p, q).count == 0
    requires p <= p' && q <= q' && p' != q' && IsOperand(op, t, p') && IsOperand(op, t, q')
    ensures Join(op, At(op, t, p'), At(op, t, q')).None?
    ensures At(op, t, p').Bin? ==> Dups1(At(op, t, p').op, At(op, t, p'), [], []).count == 0
    decreases Size(t), Size(t) - |p|, Size(t) - |q|
  {
    PathLength(op, t, p);
    PathLength(op, t, q);
    if IsBin(op, At(op, t, p)) {
      Extend(op, t, p, false);
      Extend(op, t, p, true);
      var w1 := Dups1(op, t, p + [false], q);
      var w2 := Dups1(op, w1.tree, p + [true], q);
      assert w1.count == 0 && w2.count == 0;
      PrefixGrows(p, p');
      if p'[|p|] {
        Dups1Complete(op, t, p + [true], q, p', q');
      } else {
        Dups1Complete(op, t, p + [false], q, p', q');
      }
    } else if IsBin(op, At(op, t, q)) {
      OperandEnds(op, t, p, p');
      Extend(op, t, q, false);
      Extend(op, t, q, true);
      var w1 := Dups1(op, t, p, q + [false]);
      var w2 := Dups1(op, w1.tree, p, q + [true]);
      assert w1.count == 0 && w2.count == 0;
      PrefixGrows(q, q');
      if q'[|q|] {
        Dups1Complete(op, t, p, q + [true], p', q');
      } else {
        Dups1Complete(op, t, p, q + [false], p', q');
      }
    } else {
      OperandEnds(op, t, p, p');
      OperandEnds(op, t, q, q');
      PutAt(op, t, p);
    }
  }

  /** In some round the second pass decides an operand. */
  predicate Decides(e: Expr)
    decreases Size(e)
  {
    var w := DupsPass(e);
    || (e.Bin? && Dups2(e.op, Dups1(e.op, e, [], []).tree, [], []).count > 0)
    || (w.count > 0 && (PassShrinks(e); Decides(EliminateYn(w.tree))))
  }

  /** As long as nothing is decided, the value is kept under every three-valued assignment. */
  lemma {:induction false} UndecidedExact(e: Expr, s: State)
    requires Legal(s) && !Decides(e)
    ensures Eval(EliminateDups(e), s) == Eval(e, s)
    decreases Size(e)
  {
    var w := DupsPass(e);
    if e.Bin? { Dups1Sound(e.op, e, [], [], s); }
    if w.count > 0 {
      PassShrinks(e);
      EliminateYnSound(w.tree, s);
      UndecidedExact(EliminateYn(w.tree), s);
    }
  }

  /** (FOO || BAR) && (!FOO && !BAR): with FOO = m and BAR = n the value m becomes n. */
  function ContradictionExample(foo: Sym, bar: Sym): Expr {
    Bin(And, Bin(Or, Leaf(foo), Leaf(bar)), Bin(And, Not(Leaf(foo)), Not(Leaf(bar))))
  }

  lemma PairFirstPass(op: Conn, a: Expr, b: Expr)
    requires !a.Bin? && !b.Bin? && Join(op, a, b).None? && Join(op, b, a).None?
    ensures var t := Bin(op, a, b); Dups1(op, t, [], []) == Walk(t, 0)
  {
    var t := Bin(op, a, b);
    assert []+[false] == [false] && []+[true] == [true];
    Extend(op, t, [], false);
    Extend(op, t, [], true);
    PutAt(op, t, [false]);
    PutAt(op, t, [true]);
    assert Dups1(op, t, [false], [false]) == Walk(t, 0);
    assert Dups1(op, t, [true], [true]) == Walk(t, 0);
    assert Dups1(op, t, [false], [true]) == Walk(t, 0);
    assert Dups1(op, t, [true], [false]) == Walk(t, 0);
    assert Dups1(op, t, [false], []) == Walk(t, 0);
    assert Dups1(op, t, [true], []) == Walk(t, 0);
  }

  lemma ExampleFirstPass(foo: Sym, bar: Sym)
    requires foo != bar
    ensures var e := ContradictionExample(foo, bar); Dups1(And, e, [], []) == Walk(e, 0)
  {
    var e := ContradictionExample(foo, bar);
    PairFirstPass(Or, Leaf(foo), Leaf(bar));
    ExamplePaths(e);
    var L, R, RL, RR := [false], [true], [true, false], [true, true];
    forall p, q | p in {L, RL, RR} && q in {L, RL, RR}
      ensures Dups1(And, e, p, q) == Walk(e, 0)
    {
      PutAt(And, e, p);
    }
    ExampleRow(e, L);
    ExampleRow(e, RL);
    ExampleRow(e, RR);
    assert Dups1(And, e, R, []) == Walk(e, 0);
  }

  /** One operand against all. */
  lemma ExampleRow(e: Expr, p: Path)
    requires IsBin(And, e) && IsBin(And, e.right) && !IsBin(And, e.left)
    requires !IsBin(And, e.right.left) && !IsBin(And, e.right.right)
    requires IsOperand(And, e, p)
    requires InSkeleton(And, e, [false]) && InSkeleton(And, e, [true, false]) && InSkeleton(And, e, [true, true])
    requires forall q :: q in {[false], [true, false], [true, true]} ==> Dups1(And, e, p, q) == Walk(e, 0)
    ensures Dups1(And, e, p, []) == Walk(e, 0)
  {
    Extend(And, e, [], false);
    Extend(And, e, [], true);
    Extend(And, e, [true], false);
    Extend(And, e, [true], true);
    assert [] + [false] == [false] && [] + [true] == [true] && [true] + [false] == [true, false] && [true] + [true] == [true, true];
    assert Dups1(And, e, p, [true]) == Walk(e, 0);
  }

  lemma ExamplePaths(e: Expr)
    requires IsBin(And, e) && IsBin(And, e.right)
    ensures [false] == [] + [false] && [true] == [] + [true]
    ensures [true, false] == [true] + [false] && [true, true] == [true] + [true]
    ensures InSkeleton(And, e, [false]) && At(And, e, [false]) == e.left
    ensures InSkeleton(And, e, [true]) && At(And, e, [true]) == e.right
    ensures InSkeleton(And, e, [true, false]) && At(And, e, [true, false]) == e.right.left
    ensures InSkeleton(And, e, [true, true]) && At(And, e, [true, true]) == e.right.right
  {
    assert [false] == [] + [false] && [true] == [] + [true];
    assert [true, false] == [true] + [false] && [true, true] == [true] + [true];
    Extend(And, e, [], false);
    Extend(And, e, [], true);
    Extend(And, e, [true], false);
    Extend(And, e, [true], true);
  }

  /** Two operands that are no connectives have nothing for the second pass. */
  lemma PairSecondPass(op: Conn, a: Expr, b: Expr)
    requires !a.Bin? && !b.Bin?
    ensures var t := Bin(op, a, b); Dups2(op, t, [], []) == Walk(t, 0)
  {
    var t := Bin(op, a, b);
    assert [] + [false] == [false] && [] + [true] == [true];
    Extend(op, t, [], false);
    Extend(op, t, [], true);
    forall p | p in {[false], [true]}
      ensures Dups2(op, t, p, []) == Walk(t, 0)
    {
      assert Dups2(op, t, p, [false]) == Walk(t, 0);
      assert Dups2(op, t, p, [true]) == Walk(t, 0);
    }
  }

  /** The negation of FOO || BAR is consumed by !FOO && !BAR. */
  lemma ExampleExtraction(foo: Sym, bar: Sym)
    requires foo.Config? && bar.Config? && foo != bar
    ensures var e := ContradictionExample(foo, bar);
      ExtractCommon(And, Transform(Not(e.left)), e.right).e1 == EXPR_YES
  {
    var e := ContradictionExample(foo, bar);
    var a, b := e.right.left, e.right.right;
    TransformFixpoint(e.left);
    TransformFixpoint(e.right);
    assert Transform(Not(e.left)) == e.right;
    assert ExprEq(a, a) && ExprEq(b, b) && !ExprEq(b, EXPR_YES) && !ExprEq(EXPR_YES, b);
    assert ExtractEq(And, None, a, a) == Extraction(Some(a), EXPR_YES, EXPR_YES);
    assert ExtractEq(And, Some(a), EXPR_YES, b) == Extraction(Some(a), EXPR_YES, b);
    var x := ExtractEq(And, None, a, e.right);
    assert x == Extraction(Some(a), EXPR_YES, Bin(And, EXPR_YES, b));
    assert ExtractEq(And, Some(a), b, EXPR_YES) == Extraction(Some(a), b, EXPR_YES);
    assert ExtractEq(And, Some(a), b, b) == Extraction(Some(Bin(And, a, b)), EXPR_YES, EXPR_YES);
    var y := ExtractEq(And, x.common, b, x.e2);
    assert y == Extraction(Some(Bin(And, a, b)), EXPR_YES, Bin(And, EXPR_YES, EXPR_YES));
  }

  /** Deciding FOO || BAR against any position either leaves the tree or makes it n. */
  lemma ExampleStep(foo: Sym, bar: Sym, q: Path, s: State)
    requires foo.Config? && bar.Config? && foo != bar && q in {[true], [true, false], [true, true]}
    ensures var e := ContradictionExample(foo, bar);
      && IsOperand(And, e, [false]) && InSkeleton(And, e, q)
      && var w := DecideAt(And, e, [false], q).tree;
        (w == e || Eval(w, s) == NO) && (q == [true] ==> Eval(w, s) == NO)
  {
    var e := ContradictionExample(foo, bar);
    ExamplePaths(e);
    PairSecondPass(Or, e.left.left, e.left.right);
    ExampleExtraction(foo, bar);
    PutAt(And, e, [false]);
    PutValue(And, e, [false], EXPR_NO, s);
    ConstantValues(s);
  }

  lemma ExampleSecondPass(foo: Sym, bar: Sym, s: State)
    requires foo.Config? && bar.Config? && foo != bar && Legal(s)
    ensures Eval(Dups2(And, ContradictionExample(foo, bar), [], []).tree, s) == NO
  {
    var e := ContradictionExample(foo, bar);
    var L, R, RL, RR := [false], [true], [true, false], [true, true];
    ExamplePaths(e);
    var v1 := Dups2(And, e, L, RL);
    assert v1 == DecideAt(And, e, L, RL);
    ExampleStep(foo, bar, RL, s);
    var v2 := Dups2(And, v1.tree, L, RR);
    if v1.tree == e {
      assert v2 == DecideAt(And, e, L, RR);
      ExampleStep(foo, bar, RR, s);
      ExampleStep(foo, bar, R, s);
    } else {
      Dups2Sharpens(And, v1.tree, L, RR, s);
      DecideAtSharpens(And, v2.tree, L, R, s);
    }
    if v2.tree != e { DecideAtSharpens(And, v2.tree, L, R, s); }
    var v3 := DecideAt(And, v2.tree, L, R);
    assert Eval(v3.tree, s) == NO;
    assert Dups2(And, e, L, R).tree == v3.tree;
    assert Dups2(And, e, L, L) == Walk(e, 0);
    var w1 := Dups2(And, e, L, []);
    DecideAtSharpens(And, v3.tree, L, [], s);
    assert w1.tree == DecideAt(And, v3.tree, L, []).tree;
    Dups2Sharpens(And, w1.tree, R, [], s);
  }

  lemma EliminateDupsLosesMod(foo: Sym, bar: Sym, s: State)
    requires foo.IsTristate() && bar.IsTristate() && foo != bar && Legal(s)
    requires s.tri(foo) == MOD && s.tri(bar) == NO
    ensures var e := ContradictionExample(foo, bar);
      Eval(e, s) == MOD && Eval(EliminateDups(e), s) == NO
  {
    var e := ContradictionExample(foo, bar);
    assert Eval(e.left, s) == MOD && Eval(e.right, s) == MOD;
    ExampleFirstPass(foo, bar);
    ExampleSecondPass(foo, bar, s);
    var w := DupsPass(e);
    assert w.tree == Dups2(And, e, [], []).tree;
    EliminateYnSound(w.tree, s);
    EliminateDupsSharpens(EliminateYn(w.tree), s);
  }
}
