/** Elimination with its counter: comparing and stripping nodes, and the loops over duplicates. */
module ExprEngine {
  import opened Tristates
  import opened Exprs
  import opened ExprEquality
  import opened ExprTransform
  import opened ExprJoin
  import opened SkeletonPaths
  import opened ExprDups
  import opened ExprHeap
  import opened ExprSlots

  /** expr_copy. */
  method Copy(e: Node, ghost t: Tree) returns (c: Node, ghost t': Tree)
    requires t.n == e && Held(t)
    ensures Holds(c, t', ValueOf(t)) && fresh(t'.nodes)
    decreases t
  {
    match e.data
    case SLeaf(x) =>
      c := new Node(SLeaf(x));
      t' := LeafAt(c, x);
    case SCmp(equal, l, r) =>
      c := new Node(SCmp(equal, l, r));
      t' := CmpAt(c, equal, l, r);
    case SNot(arg) =>
      var a, ta := Copy(arg, t.arg);
      c := new Node(SNot(a));
      t' := NotAt(c, ta);
    case SBin(op, left, right) =>
      var l, tl := Copy(left, t.left);
      var r, tr := Copy(right, t.right);
      c, t' := NewBin(op, l, r, tl, tr);
  }

  /** A new connective above two separate trees. */
  method NewBin(op: Conn, l: Node, r: Node, ghost tl: Tree, ghost tr: Tree) returns (c: Node, ghost t: Tree)
    requires tl.n == l && tr.n == r && Held(tl) && Held(tr) && tl.nodes !! tr.nodes
    ensures Holds(c, t, Bin(op, ValueOf(tl), ValueOf(tr))) && fresh(t.nodes - tl.nodes - tr.nodes)
  {
    c := new Node(SBin(op, l, r));
    t := BinAt(c, op, tl, tr);
  }

  /** What a connective above a kept and a changed operand has gained is what the changed one has. */
  lemma Gained<T>(e: T, kept: set<T>, before: set<T>, after: set<T>)
    ensures {e} + kept + after - kept - before - {e} <= after - before
  {}

  /** The functions that share the counter of changes. */
  class Engine {
    var transCount: nat

    constructor ()
      ensures transCount == 0
    {
      transCount := 0;
    }

    // ----- expr_eliminate_eq and expr_eq -----

    /** Both sides of an equal pair become the constant that the connective ignores. */
    method Strip(op: Conn) returns (r1: Node, r2: Node, ghost t1': Tree, ghost t2': Tree)
      modifies this
      ensures Holds(r1, t1', Neutral(op)) && Holds(r2, t2', Neutral(op)) && transCount == old(transCount) + 1
      ensures fresh(t1'.nodes) && fresh(t2'.nodes) && t1'.nodes !! t2'.nodes
    {
      var x := Neutral(op).sym;
      transCount := transCount + 1;
      r1 := new Node(SLeaf(x));
      r2 := new Node(SLeaf(x));
      t1', t2' := LeafAt(r1, x), LeafAt(r2, x);
    }

    method StripEqAt(op: Conn, e1: Node, ghost t1: Tree, e2: Node, ghost t2: Tree)
      returns (r1: Node, r2: Node, ghost t1': Tree, ghost t2': Tree)
      requires t1.n == e1 && Held(t1) && t2.n == e2 && Held(t2) && t1.nodes !! t2.nodes
      modifies this, t1.nodes, t2.nodes
      ensures var p := StripEq(op, ValueOf(t1), ValueOf(t2));
        Holds(r1, t1', p.e1) && Holds(r2, t2', p.e2) && transCount == old(transCount) + p.count
      ensures fresh(t1'.nodes - t1.nodes) && fresh(t2'.nodes - t2.nodes) && t1'.nodes !! t2'.nodes
      decreases Size(ValueOf(t1)) + Size(ValueOf(t2)),
        if IsBin(op, ValueOf(t1)) || IsBin(op, ValueOf(t2)) then 1 else 5
    {
      if e1.data.SBin? && e1.data.op == op {
        r1, r2, t1', t2' := StripLeft(op, e1, t1, e2, t2);
      } else if e2.data.SBin? && e2.data.op == op {
        r1, r2, t1', t2' := StripRight(op, e1, t1, e2, t2);
      } else {
        r1, r2, t1', t2' := e1, e2, t1, t2;
        if e1.data.SLeaf? && e2.data == e1.data && e1.data.sym.Const? && e1.data.sym != SYM_MOD { return; }
        var same := ExprEqAt(e1, t1, e2, t2);
        if same {
          r1, r2, t1', t2' := Strip(op);
        }
      }
    }

    /** The two operands of e1 against e2, one after the other. */
    method StripLeft(op: Conn, e1: Node, ghost t1: Tree, e2: Node, ghost t2: Tree)
      returns (r1: Node, r2: Node, ghost t1': Tree, ghost t2': Tree)
      requires t1.n == e1 && Held(t1) && t2.n == e2 && Held(t2) && t1.nodes !! t2.nodes
      requires t1.TBin? && t1.op == op
      modifies this, t1.nodes, t2.nodes
      ensures var p := StripEq(op, ValueOf(t1.left), ValueOf(t2));
        var q := StripEq(op, ValueOf(t1.right), p.e2);
        && Holds(r1, t1', Bin(op, p.e1, q.e1)) && Holds(r2, t2', q.e2)
        && transCount == old(transCount) + p.count + q.count
      ensures fresh(t1'.nodes - t1.nodes) && fresh(t2'.nodes - t2.nodes) && t1'.nodes !! t2'.nodes
      decreases Size(ValueOf(t1)) + Size(ValueOf(t2)), 0
    {
      var right := e1.data.right;
      var l, x, tl, tx := StripEqAt(op, e1.data.left, t1.left, e2, t2);
      r1, r2, t1', t2' := StripRest(op, e1, l, tl, right, t1.right, x, tx);
    }

    /** The second operand of e1, after the first has become l. */
    method StripRest(op: Conn, e1: Node, l: Node, ghost tl: Tree, right: Node, ghost t: Tree, e2: Node, ghost t2: Tree)
      returns (r1: Node, r2: Node, ghost t1': Tree, ghost t2': Tree)
      requires tl.n == l && Held(tl) && t.n == right && Held(t) && t2.n == e2 && Held(t2)
      requires tl.nodes !! t.nodes && tl.nodes !! t2.nodes && t.nodes !! t2.nodes
      requires e1 !in tl.nodes && e1 !in t.nodes && e1 !in t2.nodes
      modifies this, t.nodes, t2.nodes, e1
      ensures var q := StripEq(op, ValueOf(t), ValueOf(t2));
        && Holds(r1, t1', Bin(op, ValueOf(tl), q.e1)) && Holds(r2, t2', q.e2)
        && transCount == old(transCount) + q.count
      ensures fresh(t1'.nodes - tl.nodes - t.nodes - {e1}) && fresh(t2'.nodes - t2.nodes) && t1'.nodes !! t2'.nodes
      decreases Size(ValueOf(t)) + Size(ValueOf(t2)), 7
    {
      var r, y, tr, ty := StripBeside(op, right, t, e2, t2, e1, tl);
      SetBin(e1, op, l, r, tl, tr, ty);
      r1, r2, t1', t2' := e1, y, BinAt(e1, op, tl, tr), ty;
      Gained(e1, tl.nodes, t.nodes, tr.nodes);
    }

    /** StripEqAt beside a tree and a node that it does not touch. */
    method StripBeside(op: Conn, e1: Node, ghost t1: Tree, e2: Node, ghost t2: Tree, n: Node, ghost kept: Tree)
      returns (r1: Node, r2: Node, ghost t1': Tree, ghost t2': Tree)
      requires t1.n == e1 && Held(t1) && t2.n == e2 && Held(t2) && t1.nodes !! t2.nodes
      requires Held(kept) && kept.nodes !! t1.nodes && kept.nodes !! t2.nodes && n !in t1.nodes && n !in t2.nodes
      modifies this, t1.nodes, t2.nodes
      ensures var p := StripEq(op, ValueOf(t1), ValueOf(t2));
        Holds(r1, t1', p.e1) && Holds(r2, t2', p.e2) && transCount == old(transCount) + p.count
      ensures fresh(t1'.nodes - t1.nodes) && fresh(t2'.nodes - t2.nodes) && t1'.nodes !! t2'.nodes
      ensures Held(kept) && kept.nodes !! t1'.nodes && kept.nodes !! t2'.nodes && n !in t1'.nodes && n !in t2'.nodes
      decreases Size(ValueOf(t1)) + Size(ValueOf(t2)), 6
    {
      r1, r2, t1', t2' := StripEqAt(op, e1, t1, e2, t2);
    }

    method StripRight(op: Conn, e1: Node, ghost t1: Tree, e2: Node, ghost t2: Tree)
      returns (r1: Node, r2: Node, ghost t1': Tree, ghost t2': Tree)
      requires t1.n == e1 && Held(t1) && t2.n == e2 && Held(t2) && t1.nodes !! t2.nodes
      requires t2.TBin? && t2.op == op
      modifies this, t1.nodes, t2.nodes
      ensures var p := StripEq(op, ValueOf(t1), ValueOf(t2.left));
        var q := StripEq(op, p.e1, ValueOf(t2.right));
        && Holds(r1, t1', q.e1) && Holds(r2, t2', Bin(op, p.e2, q.e2))
        && transCount == old(transCount) + p.count + q.count
      ensures fresh(t1'.nodes - t1.nodes) && fresh(t2'.nodes - t2.nodes) && t1'.nodes !! t2'.nodes
      decreases Size(ValueOf(t1)) + Size(ValueOf(t2)), 0
    {
      var right := e2.data.right;
      var x, l, tx, tl := StripEqAt(op, e1, t1, e2.data.left, t2.left);
      r1, r2, t1', t2' := StripOther(op, x, tx, e2, l, tl, right, t2.right);
    }

    /** The second operand of e2, after the first has become l. */
    method StripOther(op: Conn, e1: Node, ghost t1: Tree, e2: Node, l: Node, ghost tl: Tree, right: Node, ghost t: Tree)
      returns (r1: Node, r2: Node, ghost t1': Tree, ghost t2': Tree)
      requires tl.n == l && Held(tl) && t.n == right && Held(t) && t1.n == e1 && Held(t1)
      requires tl.nodes !! t.nodes && tl.nodes !! t1.nodes && t.nodes !! t1.nodes
      requires e2 !in tl.nodes && e2 !in t.nodes && e2 !in t1.nodes
      modifies this, t.nodes, t1.nodes, e2
      ensures var q := StripEq(op, ValueOf(t1), ValueOf(t));
        && Holds(r1, t1', q.e1) && Holds(r2, t2', Bin(op, ValueOf(tl), q.e2))
        && transCount == old(transCount) + q.count
      ensures fresh(t2'.nodes - tl.nodes - t.nodes - {e2}) && fresh(t1'.nodes - t1.nodes) && t1'.nodes !! t2'.nodes
      decreases Size(ValueOf(t1)) + Size(ValueOf(t)), 7
    {
      var y, r, ty, tr := StripBeside(op, e1, t1, right, t, e2, tl);
      SetBin(e2, op, l, r, tl, tr, ty);
      r1, r2, t1', t2' := y, e2, ty, BinAt(e2, op, tl, tr);
      Gained(e2, tl.nodes, t.nodes, tr.nodes);
    }

    /** The pass for the type of e1, if that is a connective. */
    method StripFirst(e1: Node, ghost t1: Tree, e2: Node, ghost t2: Tree)
      returns (r1: Node, r2: Node, ghost t1': Tree, ghost t2': Tree)
      requires t1.n == e1 && Held(t1) && t2.n == e2 && Held(t2) && t1.nodes !! t2.nodes
      modifies this, t1.nodes, t2.nodes
      ensures var p := FirstStrip(ValueOf(t1), ValueOf(t2));
        Holds(r1, t1', p.e1) && Holds(r2, t2', p.e2) && transCount == old(transCount) + p.count
      ensures fresh(t1'.nodes - t1.nodes) && fresh(t2'.nodes - t2.nodes) && t1'.nodes !! t2'.nodes
      decreases Size(ValueOf(t1)) + Size(ValueOf(t2)), 2
    {
      r1, r2, t1', t2' := e1, e2, t1, t2;
      if e1.data.SBin? {
        r1, r2, t1', t2' := StripEqAt(e1.data.op, e1, t1, e2, t2);
      }
    }

    /** The pass for the type of e2, if that is another one. */
    method StripSecond(e1: Node, ghost t1: Tree, e2: Node, ghost t2: Tree)
      returns (r1: Node, r2: Node, ghost t1': Tree, ghost t2': Tree)
      requires t1.n == e1 && Held(t1) && t2.n == e2 && Held(t2) && t1.nodes !! t2.nodes
      modifies this, t1.nodes, t2.nodes
      ensures var p := SecondStrip(ValueOf(t1), ValueOf(t2));
        Holds(r1, t1', p.e1) && Holds(r2, t2', p.e2) && transCount == old(transCount) + p.count
      ensures fresh(t1'.nodes - t1.nodes) && fresh(t2'.nodes - t2.nodes) && t1'.nodes !! t2'.nodes
      decreases Size(ValueOf(t1)) + Size(ValueOf(t2)), 2
    {
      r1, r2, t1', t2' := e1, e2, t1, t2;
      if e2.data.SBin? && !(e1.data.SBin? && e1.data.op == e2.data.op) {
        r1, r2, t1', t2' := StripEqAt(e2.data.op, e1, t1, e2, t2);
      }
    }

    method EliminateYnBoth(e1: Node, ghost t1: Tree, e2: Node, ghost t2: Tree) returns (ghost t1': Tree, ghost t2': Tree)
      requires t1.n == e1 && Held(t1) && t2.n == e2 && Held(t2) && t1.nodes !! t2.nodes
      modifies t1.nodes, t2.nodes
      ensures Holds(e1, t1', EliminateYn(ValueOf(t1))) && Holds(e2, t2', EliminateYn(ValueOf(t2)))
      ensures t1'.nodes <= t1.nodes && t2'.nodes <= t2.nodes
    {
      t1' := EliminateYnAt(e1, t1);
      t2' := EliminateYnAt(e2, t2);
    }

    method EliminateEqAt(e1: Node, ghost t1: Tree, e2: Node, ghost t2: Tree)
      returns (r1: Node, r2: Node, ghost t1': Tree, ghost t2': Tree)
      requires t1.n == e1 && Held(t1) && t2.n == e2 && Held(t2) && t1.nodes !! t2.nodes
      modifies this, t1.nodes, t2.nodes
      ensures var p := EliminateEq(ValueOf(t1), ValueOf(t2));
        Holds(r1, t1', p.e1) && Holds(r2, t2', p.e2) && transCount == old(transCount) + p.count
      decreases Size(ValueOf(t1)) + Size(ValueOf(t2)), 3
    {
      r1, r2, t1', t2' := StripFirst(e1, t1, e2, t2);
      r1, r2, t1', t2' := StripSecond(r1, t1', r2, t2');
      t1', t2' := EliminateYnBoth(r1, t1', r2, t2');
    }

    /** Works on copies and restores the counter: the two expressions and the counter are as before. */
    method ExprEqAt(e1: Node, ghost t1: Tree, e2: Node, ghost t2: Tree) returns (same: bool)
      requires t1.n == e1 && Held(t1) && t2.n == e2 && Held(t2)
      modifies this
      ensures same == ExprEq(ValueOf(t1), ValueOf(t2)) && transCount == old(transCount)
      decreases Size(ValueOf(t1)) + Size(ValueOf(t2)), 4
    {
      match e1.data
      case SLeaf(x) => same := e2.data == SLeaf(x);
      case SCmp(equal, l, r) => same := e2.data == SCmp(equal, l, r);
      case SNot(a) =>
        if !e2.data.SNot? { return false; }
        same := ExprEqAt(a, t1.arg, e2.data.arg, t2.arg);
      case SBin(op, _, _) =>
        if !e2.data.SBin? || e2.data.op != op { return false; }
        var c1, tc1 := Copy(e1, t1);
        var c2, tc2 := Copy(e2, t2);
        same := EqualCopies(c1, tc1, c2, tc2);
    }

    /** What is left of two copies is the same symbol. */
    method EqualCopies(c1: Node, ghost tc1: Tree, c2: Node, ghost tc2: Tree) returns (same: bool)
      requires tc1.n == c1 && Held(tc1) && tc2.n == c2 && Held(tc2) && tc1.nodes !! tc2.nodes
      modifies this, tc1.nodes, tc2.nodes
      ensures var p := EliminateEq(ValueOf(tc1), ValueOf(tc2)); same == (p.e1.Leaf? && p.e1 == p.e2)
      ensures transCount == old(transCount)
      decreases Size(ValueOf(tc1)) + Size(ValueOf(tc2)), 4, 0
    {
      var oldCount := transCount;
      var r1, r2, tr1, tr2 := EliminateEqAt(c1, tc1, c2, tc2);
      same := r1.data.SLeaf? && r2.data.SLeaf? && r1.data.sym == r2.data.sym;
      transCount := oldCount;
    }

    // ----- expr_eliminate_dups1 -----

    /** The pair of pointers s1, s2 into one tree, which stand at p and q. */
    method Dups1At(op: Conn, ghost t: Tree, s1: Slot, ghost p: Path, s2: Slot, ghost q: Path) returns (ghost t': Tree)
      requires Pointers(op, t, s1, p, s2, q)
      modifies this, t.nodes
      ensures Rewritten(op, t, t', Dups1(op, ValueOf(t), p, q).tree) && fresh(t'.nodes - t.nodes)
      ensures transCount == old(transCount) + Dups1(op, ValueOf(t), p, q).count
      decreases Size(ValueOf(t)), Size(ValueOf(t)) - |p|, Size(ValueOf(t)) - |q|, 1
    {
      PathLength(op, ValueOf(t), p);
      PathLength(op, ValueOf(t), q);
      var n1, n2 := PointedAt(op, t, s1, p, s2, q);
      if n1.data.SBin? && n1.data.op == op {
        ParentOfChild(op, t, p, false);
        ParentOfChild(op, t, p, true);
        t' := Dups1First(op, t, n1, p, s2, q);
      } else if n2.data.SBin? && n2.data.op == op {
        ParentOfChild(op, t, q, false);
        ParentOfChild(op, t, q, true);
        t' := Dups1Second(op, t, s1, p, n2, q);
      } else if n1 == n2 {
        SameNode(op, t, p, q);
        Unchanged(op, t);
        t' := t;
      } else {
        t' := Dups1Pair(op, t, s1, n1, p, s2, q);
      }
    }

    method Dups1First(op: Conn, ghost t: Tree, n1: Node, ghost p: Path, s2: Slot, ghost q: Path) returns (ghost t': Tree)
      requires Held(t) && IsBin(op, ValueOf(t)) && InnerAt(op, t, p, n1) && SlotIs(op, t, s2, q)
      requires InSkeleton(op, ValueOf(t), p + [false]) && InSkeleton(op, ValueOf(t), p + [true])
      modifies this, t.nodes
      ensures var w1 := Dups1(op, ValueOf(t), p + [false], q);
        var w2 := Dups1(op, w1.tree, p + [true], q);
        Rewritten(op, t, t', w2.tree) && transCount == old(transCount) + w1.count + w2.count
      ensures fresh(t'.nodes - t.nodes)
      decreases Size(ValueOf(t)), Size(ValueOf(t)) - |p|, Size(ValueOf(t)) - |q|, 0
    {
      PathLength(op, ValueOf(t), p + [false]);
      ParentOfChild(op, t, p, false);
      ghost var t1 := Dups1At(op, t, Field(n1, false), p + [false], s2, q);
      PointersKept(op, t, t1, n1, p, s2, q);
      PathLength(op, ValueOf(t1), p + [true]);
      t' := Dups1At(op, t1, Field(n1, true), p + [true], s2, q);
      SameInnerTrans(op, t, t1, t');
    }

    method Dups1Second(op: Conn, ghost t: Tree, s1: Slot, ghost p: Path, n2: Node, ghost q: Path) returns (ghost t': Tree)
      requires Held(t) && IsBin(op, ValueOf(t)) && SlotIs(op, t, s1, p) && InnerAt(op, t, q, n2)
      requires InSkeleton(op, ValueOf(t), q + [false]) && InSkeleton(op, ValueOf(t), q + [true])
      modifies this, t.nodes
      ensures var w1 := Dups1(op, ValueOf(t), p, q + [false]);
        var w2 := Dups1(op, w1.tree, p, q + [true]);
        Rewritten(op, t, t', w2.tree) && transCount == old(transCount) + w1.count + w2.count
      ensures fresh(t'.nodes - t.nodes)
      decreases Size(ValueOf(t)), Size(ValueOf(t)) - |p|, Size(ValueOf(t)) - |q|, 0
    {
      PathLength(op, ValueOf(t), q + [false]);
      ParentOfChild(op, t, q, false);
      ghost var t1 := Dups1At(op, t, s1, p, Field(n2, false), q + [false]);
      PointersKept(op, t, t1, n2, q, s1, p);
      PathLength(op, ValueOf(t1), q + [true]);
      t' := Dups1At(op, t1, s1, p, Field(n2, true), q + [true]);
      SameInnerTrans(op, t, t1, t');
    }

    /** Two operands: the first is cleaned up by itself, and then they are joined. */
    method Dups1Pair(op: Conn, ghost t: Tree, s1: Slot, n1: Node, ghost p: Path, s2: Slot, ghost q: Path) returns (ghost t': Tree)
      requires Pointers(op, t, s1, p, s2, q) && SubTree(op, t, p).n == n1
      requires IsOperand(op, ValueOf(t), p) && IsOperand(op, ValueOf(t), q) && p != q
      modifies this, t.nodes
      ensures Rewritten(op, t, t', Dups1(op, ValueOf(t), p, q).tree) && fresh(t'.nodes - t.nodes)
      ensures transCount == old(transCount) + Dups1(op, ValueOf(t), p, q).count
      decreases Size(ValueOf(t)), Size(ValueOf(t)) - |p|, Size(ValueOf(t)) - |q|, 0
    {
      ghost var e1 := At(op, ValueOf(t), p);
      ghost var inner := if e1.Bin? then Dups1(e1.op, e1, [], []) else Walk(e1, 0);
      PathLength(op, ValueOf(t), p);
      ghost var t1 := CleanUp1(op, t, n1, p);
      StillPointers(op, t, t1, s1, p, s2, q, inner.tree);
      t' := JoinPair(op, t1, s1, p, s2, q);
      SameInnerTrans(op, t, t1, t');
    }

    /** The nested call, with both pointers at the operand. */
    method CleanUp1(op: Conn, ghost t: Tree, n1: Node, ghost p: Path) returns (ghost t': Tree)
      requires Held(t) && IsBin(op, ValueOf(t)) && IsOperand(op, ValueOf(t), p) && SubTree(op, t, p).n == n1
      modifies this, t.nodes
      ensures var e1 := At(op, ValueOf(t), p);
        var inner := if e1.Bin? then Dups1(e1.op, e1, [], []) else Walk(e1, 0);
        Rewritten(op, t, t', Put(op, ValueOf(t), p, inner.tree)) && transCount == old(transCount) + inner.count
      ensures fresh(t'.nodes - t.nodes)
      decreases Size(ValueOf(t)), 0
    {
      PathLength(op, ValueOf(t), p);
      SubValue(op, t, p);
      SubHeld(op, t, p);
      if n1.data.SBin? {
        ghost var m := Remember(t);
        ghost var u := Dups1At(n1.data.op, SubTree(op, t, p), Root(n1), [], Root(n1), []);
        t' := PutTree(op, t, p, u);
        FinishInPlace(op, t, p, u, m);
      } else {
        PutAt(op, ValueOf(t), p);
        Unchanged(op, t);
        t' := t;
      }
    }

    /** Two operands that join leave the ignored constant at p and the join at q. */
    method JoinPair(op: Conn, ghost t: Tree, s1: Slot, ghost p: Path, s2: Slot, ghost q: Path) returns (ghost t': Tree)
      requires Pointers(op, t, s1, p, s2, q)
      requires IsOperand(op, ValueOf(t), p) && IsOperand(op, ValueOf(t), q) && p != q
      modifies this, t.nodes
      ensures var w := JoinAt(op, ValueOf(t), p, q);
        Rewritten(op, t, t', w.tree) && transCount == old(transCount) + w.count
      ensures fresh(t'.nodes - t.nodes)
    {
      var e1 := LoadAt(op, t, s1, p);
      var e2 := LoadAt(op, t, s2, q);
      var tmp := Join(op, e1, e2);
      if tmp.None? {
        Unchanged(op, t);
        return t;
      }
      JoinAtOk(op, ValueOf(t), p, q, tmp.value);
      ghost var t1 := Replace(op, t, s1, p, Neutral(op));
      PutKeeps(op, ValueOf(t), p, Neutral(op), q);
      SlotKept(op, t, t1, s2, q);
      t' := Replace(op, t1, s2, q, tmp.value);
      SameInnerTrans(op, t, t1, t');
      transCount := transCount + 1;
    }

    // ----- expr_eliminate_dups2 -----

    /** Likewise; after the operands of a connective at q, q itself is tried. */
    method Dups2At(op: Conn, ghost t: Tree, s1: Slot, ghost p: Path, s2: Slot, ghost q: Path) returns (ghost t': Tree)
      requires Pointers(op, t, s1, p, s2, q)
      modifies this, t.nodes
      ensures Rewritten(op, t, t', Dups2(op, ValueOf(t), p, q).tree) && fresh(t'.nodes - t.nodes)
      ensures transCount == old(transCount) + Dups2(op, ValueOf(t), p, q).count
      decreases Size(ValueOf(t)), Size(ValueOf(t)) - |p|, Size(ValueOf(t)) - |q|, 2
    {
      PathLength(op, ValueOf(t), p);
      PathLength(op, ValueOf(t), q);
      var n1, n2 := PointedAt(op, t, s1, p, s2, q);
      if n1.data.SBin? && n1.data.op == op {
        ParentOfChild(op, t, p, false);
        ParentOfChild(op, t, p, true);
        t' := Dups2First(op, t, n1, p, s2, q);
      } else if n2.data.SBin? && n2.data.op == op {
        ParentOfChild(op, t, q, false);
        ParentOfChild(op, t, q, true);
        t' := Dups2Below(op, t, s1, p, s2, n2, q);
      } else if n1 == n2 {
        SameNode(op, t, p, q);
        Unchanged(op, t);
        t' := t;
      } else {
        t' := DecidePair(op, t, s1, p, s2, q);
      }
    }

    /** Both operands of the connective at q, and then the connective itself. */
    method Dups2Below(op: Conn, ghost t: Tree, s1: Slot, ghost p: Path, s2: Slot, n2: Node, ghost q: Path) returns (ghost t': Tree)
      requires Pointers(op, t, s1, p, s2, q) && IsOperand(op, ValueOf(t), p) && InnerAt(op, t, q, n2)
      requires InSkeleton(op, ValueOf(t), q + [false]) && InSkeleton(op, ValueOf(t), q + [true])
      modifies this, t.nodes
      ensures var w1 := Dups2(op, ValueOf(t), p, q + [false]);
        var w2 := Dups2(op, w1.tree, p, q + [true]);
        IsOperand(op, w2.tree, p) && p != q &&
        var w3 := DecideAt(op, w2.tree, p, q);
        Rewritten(op, t, t', w3.tree) && transCount == old(transCount) + w1.count + w2.count + w3.count
      ensures fresh(t'.nodes - t.nodes)
      decreases Size(ValueOf(t)), Size(ValueOf(t)) - |p|, Size(ValueOf(t)) - |q|, 1
    {
      ghost var t1 := Dups2Second(op, t, s1, p, n2, q);
      SlotKept(op, t, t1, s1, p);
      SlotKept(op, t, t1, s2, q);
      PathLength(op, ValueOf(t1), q);
      t' := DecidePair(op, t1, s1, p, s2, q);
      SameInnerTrans(op, t, t1, t');
    }

    method Dups2First(op: Conn, ghost t: Tree, n1: Node, ghost p: Path, s2: Slot, ghost q: Path) returns (ghost t': Tree)
      requires Held(t) && IsBin(op, ValueOf(t)) && InnerAt(op, t, p, n1) && SlotIs(op, t, s2, q)
      requires InSkeleton(op, ValueOf(t), p + [false]) && InSkeleton(op, ValueOf(t), p + [true])
      modifies this, t.nodes
      ensures var w1 := Dups2(op, ValueOf(t), p + [false], q);
        var w2 := Dups2(op, w1.tree, p + [true], q);
        Rewritten(op, t, t', w2.tree) && transCount == old(transCount) + w1.count + w2.count
      ensures fresh(t'.nodes - t.nodes)
      decreases Size(ValueOf(t)), Size(ValueOf(t)) - |p|, Size(ValueOf(t)) - |q|, 0
    {
      PathLength(op, ValueOf(t), p + [false]);
      ParentOfChild(op, t, p, false);
      ghost var t1 := Dups2At(op, t, Field(n1, false), p + [false], s2, q);
      PointersKept(op, t, t1, n1, p, s2, q);
      PathLength(op, ValueOf(t1), p + [true]);
      t' := Dups2At(op, t1, Field(n1, true), p + [true], s2, q);
      SameInnerTrans(op, t, t1, t');
    }

    method Dups2Second(op: Conn, ghost t: Tree, s1: Slot, ghost p: Path, n2: Node, ghost q: Path) returns (ghost t': Tree)
      requires Held(t) && IsBin(op, ValueOf(t)) && SlotIs(op, t, s1, p) && InnerAt(op, t, q, n2)
      requires InSkeleton(op, ValueOf(t), q + [false]) && InSkeleton(op, ValueOf(t), q + [true])
      modifies this, t.nodes
      ensures var w1 := Dups2(op, ValueOf(t), p, q + [false]);
        var w2 := Dups2(op, w1.tree, p, q + [true]);
        Rewritten(op, t, t', w2.tree) && transCount == old(transCount) + w1.count + w2.count
      ensures fresh(t'.nodes - t.nodes)
      decreases Size(ValueOf(t)), Size(ValueOf(t)) - |p|, Size(ValueOf(t)) - |q|, 0
    {
      PathLength(op, ValueOf(t), q + [false]);
      ParentOfChild(op, t, q, false);
      ghost var t1 := Dups2At(op, t, s1, p, Field(n2, false), q + [false]);
      PointersKept(op, t, t1, n2, q, s1, p);
      PathLength(op, ValueOf(t1), q + [true]);
      t' := Dups2At(op, t1, s1, p, Field(n2, true), q + [true]);
      SameInnerTrans(op, t, t1, t');
    }

    /** e1 is cleaned up; if nothing is left of its negation, stripped against e2, it is decided. */
    method DecidePair(op: Conn, ghost t: Tree, s1: Slot, ghost p: Path, s2: Slot, ghost q: Path) returns (ghost t': Tree)
      requires Pointers(op, t, s1, p, s2, q) && IsOperand(op, ValueOf(t), p) && p != q
      modifies this, t.nodes
      ensures var w := DecideAt(op, ValueOf(t), p, q);
        Rewritten(op, t, t', w.tree) && transCount == old(transCount) + w.count
      ensures fresh(t'.nodes - t.nodes)
      decreases Size(ValueOf(t)), Size(ValueOf(t)) - |p|, 0
    {
      var n1, _ := PointedAt(op, t, s1, p, s2, q);
      if !n1.data.SBin? {
        Unchanged(op, t);
        return t;
      }
      ghost var e1 := At(op, ValueOf(t), p);
      PathLength(op, ValueOf(t), p);
      ghost var t1 := CleanUp2(op, t, n1, p);
      StillPointers(op, t, t1, s1, p, s2, q, Dups2(e1.op, e1, [], []).tree);
      t' := DecideOne(op, t1, s1, p, s2, q);
      SameInnerTrans(op, t, t1, t');
    }

    method CleanUp2(op: Conn, ghost t: Tree, n1: Node, ghost p: Path) returns (ghost t': Tree)
      requires Held(t) && IsBin(op, ValueOf(t)) && IsOperand(op, ValueOf(t), p) && SubTree(op, t, p).n == n1
      requires At(op, ValueOf(t), p).Bin?
      modifies this, t.nodes
      ensures var e1 := At(op, ValueOf(t), p);
        var inner := Dups2(e1.op, e1, [], []);
        Rewritten(op, t, t', Put(op, ValueOf(t), p, inner.tree)) && transCount == old(transCount) + inner.count
      ensures fresh(t'.nodes - t.nodes)
      decreases Size(ValueOf(t)), 0
    {
      PathLength(op, ValueOf(t), p);
      SubValue(op, t, p);
      SubHeld(op, t, p);
      ghost var m := Remember(t);
      ghost var u := Dups2At(n1.data.op, SubTree(op, t, p), Root(n1), [], Root(n1), []);
      t' := PutTree(op, t, p, u);
      FinishInPlace(op, t, p, u, m);
    }

    /** The test works on copies, which are thrown away. */
    method DecideOne(op: Conn, ghost t: Tree, s1: Slot, ghost p: Path, s2: Slot, ghost q: Path) returns (ghost t': Tree)
      requires Pointers(op, t, s1, p, s2, q) && IsOperand(op, ValueOf(t), p)
      modifies this, t.nodes
      ensures var x := ExtractCommon(op, Transform(Not(At(op, ValueOf(t), p))), At(op, ValueOf(t), q));
        if x.e1 == Neutral(op)
        then Rewritten(op, t, t', Put(op, ValueOf(t), p, Absorbing(op))) && transCount == old(transCount) + 1
        else t' == t && Held(t) && transCount == old(transCount)
      ensures fresh(t'.nodes - t.nodes)
    {
      var e1 := LoadAt(op, t, s1, p);
      var e2 := LoadAt(op, t, s2, q);
      var negated, tn := Build(Not(e1));
      var tmp, tt := TransformAt(negated, tn);
      var tmp1 := Load(tmp, tt);
      var x := ExtractCommon(op, tmp1, e2);
      t' := t;
      if x.e1 == Neutral(op) {
        t' := Replace(op, t, s1, p, Absorbing(op));
        transCount := transCount + 1;
      }
    }

    // ----- expr_eliminate_dups -----

    /** The loop: both passes until neither counts a change; the caller's count is put back. */
    method EliminateDupsAt(e: Node, ghost t: Tree) returns (ghost t': Tree)
      requires t.n == e && Held(t)
      modifies this, t.nodes
      ensures Holds(e, t', EliminateDups(ValueOf(t))) && transCount == old(transCount)
    {
      var oldCount := transCount;
      t' := t;
      while true
        invariant Held(t') && t'.n == e && fresh(t'.nodes - t.nodes)
        invariant EliminateDups(ValueOf(t')) == EliminateDups(ValueOf(t))
        decreases Size(ValueOf(t'))
      {
        ghost var before := ValueOf(t');
        t' := PassAt(e, t');
        if transCount == 0 { break; }
        PassShrinks(before);
        t' := EliminateYnAt(e, t');
      }
      transCount := oldCount;
    }

    /** Both passes, with the counter started at 0. */
    method PassAt(e: Node, ghost t: Tree) returns (ghost t': Tree)
      requires t.n == e && Held(t)
      modifies this, t.nodes
      ensures Holds(e, t', DupsPass(ValueOf(t)).tree) && transCount == DupsPass(ValueOf(t)).count
      ensures fresh(t'.nodes - t.nodes)
    {
      transCount := 0;
      t' := t;
      if e.data.SBin? {
        var op := e.data.op;
        t' := Dups1At(op, t, Root(e), [], Root(e), []);
        assert IsBin(op, ValueOf(t'));
        t' := Dups2At(op, t', Root(e), [], Root(e), []);
      }
    }
  }

  // ----- pointers and what they point at -----

  /** s1 and s2 stand at p and q of a stored tree. */
  ghost predicate Pointers(op: Conn, t: Tree, s1: Slot, p: Path, s2: Slot, q: Path)
    reads t.nodes
  {
    Held(t) && IsBin(op, ValueOf(t)) && SlotIs(op, t, s1, p) && SlotIs(op, t, s2, q)
  }

  /** The tree t has become t', which holds e, with the root and the skeleton where they were. */
  ghost predicate Rewritten(op: Conn, t: Tree, t': Tree, e: Expr)
    reads t'.nodes
  {
    Held(t') && t'.n == t.n && ValueOf(t') == e && SameInner(op, t, t')
  }

  /** The nodes pointed at, with what they hold. */
  method PointedAt(op: Conn, ghost t: Tree, s1: Slot, ghost p: Path, s2: Slot, ghost q: Path) returns (n1: Node, n2: Node)
    requires Pointers(op, t, s1, p, s2, q)
    ensures n1 == SubTree(op, t, p).n && n2 == SubTree(op, t, q).n
    ensures n1.data.SBin? <==> At(op, ValueOf(t), p).Bin?
    ensures n1.data.SBin? && n1.data.op == op <==> IsBin(op, At(op, ValueOf(t), p))
    ensures n2.data.SBin? && n2.data.op == op <==> IsBin(op, At(op, ValueOf(t), q))
  {
    n1 := Deref(s1, op, t, p);
    n2 := Deref(s2, op, t, q);
    SubValue(op, t, p);
    SubHeld(op, t, p);
    SubValue(op, t, q);
    SubHeld(op, t, q);
  }

  method LoadAt(op: Conn, ghost t: Tree, s: Slot, ghost p: Path) returns (e: Expr)
    requires Held(t) && SlotIs(op, t, s, p)
    ensures e == At(op, ValueOf(t), p)
  {
    SubValue(op, t, p);
    SubHeld(op, t, p);
    var n := Deref(s, op, t, p);
    e := Load(n, SubTree(op, t, p));
  }

  /** A new expression takes the place of an operand. */
  method Replace(op: Conn, ghost t: Tree, s: Slot, ghost p: Path, x: Expr) returns (ghost t': Tree)
    requires Held(t) && IsBin(op, ValueOf(t)) && SlotIs(op, t, s, p) && IsOperand(op, ValueOf(t), p)
    modifies t.nodes
    ensures Rewritten(op, t, t', Put(op, ValueOf(t), p, x)) && fresh(t'.nodes - t.nodes)
  {
    var n, u := Build(x);
    t' := Assign(s, n, op, t, p, u);
    PutTreeValue(op, t, p, u);
    PutSameInner(op, t, p, u);
  }

  /** The pointers are equal exactly at equal positions of operands. */
  lemma SameNode(op: Conn, t: Tree, p: Path, q: Path)
    requires Held(t) && IsOperand(op, ValueOf(t), p) && IsOperand(op, ValueOf(t), q)
    requires SubTree(op, t, p).n == SubTree(op, t, q).n
    ensures p == q
  {
    HeldShaped(t);
    SubShaped(op, t, p);
    SubShaped(op, t, q);
    if p != q { OperandsApart(op, t, p, q); }
  }

  lemma Unchanged(op: Conn, t: Tree)
    ensures SameInner(op, t, t)
  {}

  /** After the first operand of n1 the second one and the other pointer are still there. */
  lemma PointersKept(op: Conn, t: Tree, t1: Tree, n1: Node, p: Path, s2: Slot, q: Path)
    requires IsBin(op, ValueOf(t)) && InnerAt(op, t, p, n1) && SlotIs(op, t, s2, q) && SameInner(op, t, t1)
    requires KeepsSkeleton(op, ValueOf(t), ValueOf(t1))
    ensures InSkeleton(op, ValueOf(t1), p + [true]) && SlotIs(op, t1, Field(n1, true), p + [true])
    ensures SlotIs(op, t1, s2, q)
  {
    assert InnerAt(op, t1, p, SubTree(op, t, p).n);
    ParentOfChild(op, t1, p, true);
    SlotKept(op, t, t1, s2, q);
  }

  /** An operand has been changed by itself; the pointers are where they were. */
  lemma StillPointers(op: Conn, t: Tree, t1: Tree, s1: Slot, p: Path, s2: Slot, q: Path, x: Expr)
    requires IsBin(op, ValueOf(t)) && SlotIs(op, t, s1, p) && SlotIs(op, t, s2, q) && SameInner(op, t, t1)
    requires IsOperand(op, ValueOf(t), p) && ValueOf(t1) == Put(op, ValueOf(t), p, x)
    ensures SlotIs(op, t1, s1, p) && SlotIs(op, t1, s2, q)
    ensures At(op, ValueOf(t1), p) == x
    ensures q != p && IsOperand(op, ValueOf(t), q) ==> IsOperand(op, ValueOf(t1), q)
    ensures !IsBin(op, x) ==> IsOperand(op, ValueOf(t1), p)
    ensures IsBin(op, ValueOf(t1))
  {
    PutKeeps(op, ValueOf(t), p, x, p);
    PutKeeps(op, ValueOf(t), p, x, q);
    SlotKept(op, t, t1, s1, p);
    SlotKept(op, t, t1, s2, q);
  }

  lemma Remember(t: Tree) returns (m: Store)
    requires Held(t)
    ensures m == Contents(t.nodes) && HeldIn(m, t)
  {
    m := Contents(t.nodes);
    HeldSnapshot(t, t.nodes);
  }

  /** The operand at p has been rewritten in place, keeping its node. */
  lemma FinishInPlace(op: Conn, t: Tree, p: Path, u: Tree, m: Store)
    requires IsBin(op, ValueOf(t)) && IsOperand(op, ValueOf(t), p) && HeldIn(m, t) && m.Keys == t.nodes && Held(u)
    requires u.n == SubTree(op, t, p).n && u.nodes !! t.nodes - SubTree(op, t, p).nodes
    requires forall x :: x in t.nodes && x !in SubTree(op, t, p).nodes ==> x.data == m[x]
    ensures Rewritten(op, t, PutTree(op, t, p, u), Put(op, ValueOf(t), p, ValueOf(u)))
    ensures PutTree(op, t, p, u).nodes <= t.nodes + u.nodes
  {
    var all := t.nodes + u.nodes;
    HeldSnapshot(u, all);
    PutInPlace(op, t, p, u, m, Contents(all));
    HeldInShaped(m, t);
    PutTreeNodes(op, t, p, u);
    PutTreeValue(op, t, p, u);
    PutSameInner(op, t, p, u);
    HeldSnapshot(PutTree(op, t, p, u), all);
  }
}
