/** The rewriting functions as they run: on expression nodes, changed and relinked in place. */
module ExprHeap {
  import opened Tristates
  import opened Exprs
  import opened ExprEquality
  import opened ExprTransform

  /** The contents of a node: its type and two operands, symbols or nodes. */
  datatype Shape =
    | SLeaf(sym: Sym)
    | SNot(arg: Node)
    | SCmp(equal: bool, lhs: Sym, rhs: Sym)
    | SBin(op: Conn, left: Node, right: Node)

  class Node {
    var data: Shape

    constructor (data: Shape)
      ensures this.data == data
    {
      this.data := data;
    }
  }

  /** An expression with the node at which each part of it is stored, and all nodes it uses. */
  datatype Tree =
    | TLeaf(n: Node, nodes: set<Node>, sym: Sym)
    | TNot(n: Node, nodes: set<Node>, arg: Tree)
    | TCmp(n: Node, nodes: set<Node>, equal: bool, lhs: Sym, rhs: Sym)
    | TBin(n: Node, nodes: set<Node>, op: Conn, left: Tree, right: Tree)

  function LeafAt(n: Node, x: Sym): Tree { TLeaf(n, {n}, x) }
  function NotAt(n: Node, a: Tree): Tree { TNot(n, {n} + a.nodes, a) }
  function CmpAt(n: Node, equal: bool, l: Sym, r: Sym): Tree { TCmp(n, {n}, equal, l, r) }
  function BinAt(n: Node, op: Conn, l: Tree, r: Tree): Tree { TBin(n, {n} + l.nodes + r.nodes, op, l, r) }

  function ValueOf(t: Tree): Expr {
    match t
    case TLeaf(_, _, x) => Leaf(x)
    case TNot(_, _, a) => Not(ValueOf(a))
    case TCmp(_, _, eq, l, r) => Cmp(eq, l, r)
    case TBin(_, _, op, l, r) => Bin(op, ValueOf(l), ValueOf(r))
  }

  /** The nodes hold the tree, and none is used twice. */
  ghost predicate Held(t: Tree)
    reads t.nodes
  {
    t.n in t.nodes &&
    match t
    case TLeaf(n, ns, x) => n.data == SLeaf(x)
    case TCmp(n, ns, eq, l, r) => n.data == SCmp(eq, l, r)
    case TNot(n, ns, a) => a.nodes <= ns && n !in a.nodes && n.data == SNot(a.n) && Held(a)
    case TBin(n, ns, op, l, r) =>
      && l.nodes <= ns && r.nodes <= ns && n !in l.nodes && n !in r.nodes && l.nodes !! r.nodes
      && n.data == SBin(op, l.n, r.n) && Held(l) && Held(r)
  }

  /** The node n holds the expression e. */
  ghost predicate Holds(n: Node, t: Tree, e: Expr)
    reads t.nodes
  {
    t.n == n && Held(t) && ValueOf(t) == e
  }

  /** A connective above two separate trees; another tree stays as it is. */
  method SetBin(n: Node, op: Conn, l: Node, r: Node, ghost tl: Tree, ghost tr: Tree, ghost kept: Tree)
    requires tl.n == l && tr.n == r && Held(tl) && Held(tr) && Held(kept)
    requires tl.nodes !! tr.nodes && n !in tl.nodes && n !in tr.nodes && n !in kept.nodes
    modifies n
    ensures Holds(n, BinAt(n, op, tl, tr), Bin(op, ValueOf(tl), ValueOf(tr))) && Held(kept)
  {
    n.data := SBin(op, l, r);
  }

  /** The same tree with its root copied into another node. */
  function CopiedTo(t: Tree, n: Node): Tree { t.(n := n, nodes := t.nodes - {t.n} + {n}) }

  lemma CopyHeld(t: Tree, n: Node)
    requires Held(t) && n !in t.nodes && n.data == t.n.data
    ensures Holds(n, CopiedTo(t, n), ValueOf(t)) && CopiedTo(t, n).nodes <= t.nodes + {n}
  {}

  // ----- expr_eliminate_yn -----

  /** One folding step at a node whose operands are folded already. */
  method Fold(e: Node, ghost t: Tree) returns (ghost t': Tree)
    requires t.TBin? && t.n == e && Held(t)
    modifies e
    ensures Holds(e, t', FoldConn(t.op, ValueOf(t.left), ValueOf(t.right))) && t'.nodes <= t.nodes
  {
    var op, l, r := e.data.op, e.data.left, e.data.right;
    var absorbing, neutral := Absorbing(op).sym, Neutral(op).sym;
    t' := t;
    if l.data.SLeaf? && l.data.sym == absorbing {
      e.data := SLeaf(absorbing);
      t' := LeafAt(e, absorbing);
    } else if l.data.SLeaf? && l.data.sym == neutral {
      e.data := r.data;
      CopyHeld(t.right, e);
      t' := CopiedTo(t.right, e);
    } else if r.data.SLeaf? && r.data.sym == absorbing {
      e.data := SLeaf(absorbing);
      t' := LeafAt(e, absorbing);
    } else if r.data.SLeaf? && r.data.sym == neutral {
      e.data := l.data;
      CopyHeld(t.left, e);
      t' := CopiedTo(t.left, e);
    }
  }

  method EliminateYnAt(e: Node, ghost t: Tree) returns (ghost t': Tree)
    requires t.n == e && Held(t)
    modifies t.nodes
    ensures Holds(e, t', EliminateYn(ValueOf(t))) && t'.nodes <= t.nodes
    decreases t
  {
    t' := t;
    if e.data.SBin? {
      ghost var l := EliminateYnAt(e.data.left, t.left);
      ghost var r := EliminateYnAt(e.data.right, t.right);
      t' := Fold(e, BinAt(e, t.op, l, r));
    }
  }

  // ----- expr_trans_bool -----

  method TransBoolAt(e: Node, ghost t: Tree) returns (ghost t': Tree)
    requires t.n == e && Held(t)
    modifies t.nodes
    ensures Holds(e, t', TransBool(ValueOf(t))) && t'.nodes <= t.nodes
    decreases t
  {
    t' := t;
    match e.data
    case SBin(_, left, right) =>
      ghost var l := TransBoolAt(left, t.left);
      ghost var r := TransBoolAt(right, t.right);
      t' := BinAt(e, t.op, l, r);
    case SNot(arg) =>
      ghost var a := TransBoolAt(arg, t.arg);
      t' := NotAt(e, a);
    case SCmp(equal, lhs, rhs) =>
      if !equal && lhs.Type() == Tri && rhs == SYM_NO {
        e.data := SLeaf(lhs);
        t' := LeafAt(e, lhs);
      }
    case SLeaf(_) =>
  }

  // ----- expr_transform -----

  method TransformCmpAt(e: Node, ghost t: Tree) returns (ghost t': Tree)
    requires t.TCmp? && t.n == e && Held(t)
    modifies e
    ensures Holds(e, t', TransformCmp(t.equal, t.lhs, t.rhs)) && fresh(t'.nodes - t.nodes)
  {
    var SCmp(equal, l, r) := e.data;
    t' := t;
    if l.Type() == Boolean {
      if r == SYM_MOD {
        var x := if equal then SYM_NO else SYM_YES;
        e.data := SLeaf(x);
        t' := LeafAt(e, x);
      } else if r == SYM_NO || r == SYM_YES {
        if equal == (r == SYM_YES) {
          e.data := SLeaf(l);
          t' := LeafAt(e, l);
        } else {
          var n := new Node(SLeaf(l));
          e.data := SNot(n);
          t' := NotAt(e, LeafAt(n, l));
        }
      }
    }
  }

  /** !(a op b): the operand node becomes !a, a new one !b, and the node itself joins them. */
  method SplitNot(e: Node, ghost t: Tree) returns (ghost t': Tree)
    requires t.TNot? && t.arg.TBin? && t.n == e && Held(t)
    modifies e, t.arg.n
    ensures Holds(e, t', Bin(Flip(t.arg.op), Not(ValueOf(t.arg.left)), Not(ValueOf(t.arg.right))))
    ensures fresh(t'.nodes - t.nodes)
  {
    var tmp := e.data.arg;
    assert Held(t.arg);
    var SBin(op, l, r) := tmp.data;
    var n := new Node(SNot(r));
    e.data := SBin(Flip(op), tmp, n);
    tmp.data := SNot(l);
    t' := BinAt(e, Flip(op), NotAt(tmp, t.arg.left), NotAt(n, t.arg.right));
  }

  method TransformAt(e: Node, ghost t: Tree) returns (r: Node, ghost t': Tree)
    requires t.n == e && Held(t)
    modifies t.nodes
    ensures Holds(r, t', Transform(ValueOf(t))) && fresh(t'.nodes - t.nodes)
    decreases Weight(ValueOf(t)), 1
  {
    match e.data
    case SLeaf(_) =>
      r, t' := e, t;
    case SCmp(_, _, _) =>
      t' := TransformCmpAt(e, t);
      r := e;
    case SBin(_, _, _) =>
      t' := TransformBothAt(e, t);
      r := e;
    case SNot(arg) =>
      var a, ta := TransformAt(arg, t.arg);
      e.data := SNot(a);
      r, t' := TransformNotAt(e, NotAt(e, ta));
  }

  method TransformBothAt(e: Node, ghost t: Tree) returns (ghost t': Tree)
    requires t.TBin? && t.n == e && Held(t)
    modifies t.nodes
    ensures Holds(e, t', Bin(t.op, Transform(ValueOf(t.left)), Transform(ValueOf(t.right))))
    ensures fresh(t'.nodes - t.nodes)
    decreases Weight(ValueOf(t)), 0
  {
    var SBin(op, left, right) := e.data;
    var l, tl := TransformAt(left, t.left);
    var r, tr := TransformAt(right, t.right);
    e.data := SBin(op, l, r);
    t' := BinAt(e, op, tl, tr);
  }

  /** A NOT whose operand is transformed already. */
  method TransformNotAt(e: Node, ghost t: Tree) returns (r: Node, ghost t': Tree)
    requires t.TNot? && t.n == e && Held(t)
    modifies t.nodes
    ensures Holds(r, t', TransformNot(ValueOf(t.arg))) && fresh(t'.nodes - t.nodes)
    decreases Weight(ValueOf(t)), 0
  {
    var tmp := e.data.arg;
    ghost var a := t.arg;
    assert Held(a) && tmp == a.n;
    match tmp.data
    case SNot(b) =>
      assert ValueOf(t) == Not(Not(ValueOf(a.arg)));
      r, t' := TransformAt(b, a.arg);
    case SCmp(equal, lhs, rhs) =>
      tmp.data := SCmp(!equal, lhs, rhs);
      r, t' := tmp, CmpAt(tmp, !equal, lhs, rhs);
    case SBin(_, _, _) =>
      ghost var l, r0 := ValueOf(a.left), ValueOf(a.right);
      assert ValueOf(t) == Not(Bin(a.op, l, r0));
      assert Weight(Bin(Flip(a.op), Not(l), Not(r0))) < Weight(ValueOf(t));
      ghost var split := SplitNot(e, t);
      r, t' := TransformAt(e, split);
    case SLeaf(x) =>
      if x == SYM_YES {
        tmp.data := SLeaf(SYM_NO);
        r, t' := tmp, LeafAt(tmp, SYM_NO);
      } else if x == SYM_MOD {
        tmp.data := SLeaf(SYM_MOD);
        r, t' := tmp, LeafAt(tmp, SYM_MOD);
      } else if x == SYM_NO {
        tmp.data := SLeaf(SYM_YES);
        r, t' := tmp, LeafAt(tmp, SYM_YES);
      } else {
        r, t' := e, t;
      }
  }
}
