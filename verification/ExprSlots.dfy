/** Pointers into one stored expression: the places in which operands of a connective hang. */
module ExprSlots {
  import opened Tristates
  import opened Exprs
  import opened SkeletonPaths
  import opened ExprHeap

  /** A `struct expr **`: the variable that holds the root, or an operand field of a node. */
  datatype Slot = Root(n: Node) | Field(parent: Node, side: bool)

  function ChildTree(t: Tree, d: bool): Tree
    requires t.TBin?
  {
    if d then t.right else t.left
  }

  ghost function SubTree(op: Conn, t: Tree, p: Path): Tree
    requires InSkeleton(op, ValueOf(t), p)
  {
    if p == [] then t else SubTree(op, ChildTree(t, p[0]), p[1..])
  }

  /** The tree with another one at p. */
  ghost function PutTree(op: Conn, t: Tree, p: Path, u: Tree): Tree
    requires InSkeleton(op, ValueOf(t), p)
  {
    if p == [] then u
    else if p[0] then BinAt(t.n, op, t.left, PutTree(op, t.right, p[1..], u))
    else BinAt(t.n, op, PutTree(op, t.left, p[1..], u), t.right)
  }

  /** The node of which p is an operand. */
  ghost function ParentNode(op: Conn, t: Tree, p: Path): Node
    requires p != [] && InSkeleton(op, ValueOf(t), p)
  {
    if |p| == 1 then t.n else ParentNode(op, ChildTree(t, p[0]), p[1..])
  }

  ghost predicate SlotIs(op: Conn, t: Tree, s: Slot, p: Path) {
    InSkeleton(op, ValueOf(t), p) &&
    if p == [] then s == Root(t.n) else s == Field(ParentNode(op, t, p), p[|p| - 1])
  }

  /** The nodes of the parts of a tree are separate. */
  ghost predicate Shaped(t: Tree) {
    t.n in t.nodes &&
    match t
    case TNot(n, ns, a) => a.nodes <= ns && n !in a.nodes && Shaped(a)
    case TBin(n, ns, _, l, r) =>
      && l.nodes <= ns && r.nodes <= ns && n !in l.nodes && n !in r.nodes && l.nodes !! r.nodes
      && Shaped(l) && Shaped(r)
    case _ => true
  }

  lemma {:induction false} HeldShaped(t: Tree)
    requires Held(t)
    ensures Shaped(t)
  {
    match t
    case TNot(_, _, a) => HeldShaped(a);
    case TBin(_, _, _, l, r) =>
      HeldShaped(l);
      HeldShaped(r);
    case _ =>
  }

  lemma {:induction false} SubShaped(op: Conn, t: Tree, p: Path)
    requires InSkeleton(op, ValueOf(t), p) && Shaped(t)
    ensures Shaped(SubTree(op, t, p)) && SubTree(op, t, p).nodes <= t.nodes
    ensures p != [] ==> ParentNode(op, t, p) in t.nodes && t.n !in SubTree(op, t, p).nodes
  {
    if p != [] { SubShaped(op, ChildTree(t, p[0]), p[1..]); }
  }

  lemma {:induction false} SubValue(op: Conn, t: Tree, p: Path)
    requires InSkeleton(op, ValueOf(t), p)
    ensures ValueOf(SubTree(op, t, p)) == At(op, ValueOf(t), p)
  {
    if p != [] { SubValue(op, ChildTree(t, p[0]), p[1..]); }
  }

  lemma {:induction false} SubHeld(op: Conn, t: Tree, p: Path)
    requires InSkeleton(op, ValueOf(t), p) && Held(t)
    ensures Held(SubTree(op, t, p)) && SubTree(op, t, p).nodes <= t.nodes
  {
    if p != [] { SubHeld(op, ChildTree(t, p[0]), p[1..]); }
  }

  lemma {:induction false} PutTreeValue(op: Conn, t: Tree, p: Path, u: Tree)
    requires InSkeleton(op, ValueOf(t), p)
    ensures ValueOf(PutTree(op, t, p, u)) == Put(op, ValueOf(t), p, ValueOf(u))
    ensures p != [] ==> PutTree(op, t, p, u).n == t.n
  {
    if p != [] { PutTreeValue(op, ChildTree(t, p[0]), p[1..], u); }
  }

  lemma {:induction false} PutTreeNodes(op: Conn, t: Tree, p: Path, u: Tree)
    requires InSkeleton(op, ValueOf(t), p) && Shaped(t)
    ensures PutTree(op, t, p, u).nodes <= t.nodes + u.nodes
  {
    if p != [] { PutTreeNodes(op, ChildTree(t, p[0]), p[1..], u); }
  }

  /** The parent of a position holds the node found there. */
  lemma {:induction false} ParentHolds(op: Conn, t: Tree, p: Path)
    requires p != [] && InSkeleton(op, ValueOf(t), p) && Held(t)
    ensures var m := ParentNode(op, t, p);
      && m in t.nodes && m.data.SBin? && m.data.op == op
      && SubTree(op, t, p).n == if p[|p| - 1] then m.data.right else m.data.left
  {
    if |p| > 1 {
      ParentHolds(op, ChildTree(t, p[0]), p[1..]);
    } else {
      assert p[1..] == [];
    }
  }

  lemma {:induction false} ParentOfChild(op: Conn, t: Tree, p: Path, d: bool)
    requires InSkeleton(op, ValueOf(t), p) && IsBin(op, At(op, ValueOf(t), p))
    ensures InSkeleton(op, ValueOf(t), p + [d]) && ParentNode(op, t, p + [d]) == SubTree(op, t, p).n
  {
    Extend(op, ValueOf(t), p, d);
    if p != [] {
      ParentOfChild(op, ChildTree(t, p[0]), p[1..], d);
      assert (p + [d])[1..] == p[1..] + [d];
    }
  }

  /** A connective in the skeleton is never below one of its operands. */
  lemma {:induction false} InnerApart(op: Conn, t: Tree, p: Path, r: Path)
    requires Shaped(t) && IsOperand(op, ValueOf(t), p)
    requires InSkeleton(op, ValueOf(t), r) && IsBin(op, At(op, ValueOf(t), r))
    ensures SubTree(op, t, r).n !in SubTree(op, t, p).nodes
  {
    if p != [] {
      var c := ChildTree(t, p[0]);
      SubShaped(op, c, p[1..]);
      if r != [] {
        SubShaped(op, ChildTree(t, r[0]), r[1..]);
        if r[0] == p[0] { InnerApart(op, c, p[1..], r[1..]); }
      }
    }
  }

  lemma {:induction false} OperandsApart(op: Conn, t: Tree, p: Path, q: Path)
    requires Shaped(t) && IsOperand(op, ValueOf(t), p) && IsOperand(op, ValueOf(t), q) && p != q
    ensures SubTree(op, t, p).nodes !! SubTree(op, t, q).nodes
  {
    SubShaped(op, ChildTree(t, p[0]), p[1..]);
    SubShaped(op, ChildTree(t, q[0]), q[1..]);
    if p[0] == q[0] {
      assert p == [p[0]] + p[1..] && q == [q[0]] + q[1..];
      OperandsApart(op, ChildTree(t, p[0]), p[1..], q[1..]);
    }
  }

  // ----- what stays where it is -----

  /** Every connective of the skeleton is still there, in the same node. */
  ghost predicate SameInner(op: Conn, t: Tree, t': Tree) {
    forall r :: InSkeleton(op, ValueOf(t), r) && IsBin(op, At(op, ValueOf(t), r)) ==> InnerAt(op, t', r, SubTree(op, t, r).n)
  }

  ghost predicate InnerAt(op: Conn, t: Tree, r: Path, n: Node) {
    InSkeleton(op, ValueOf(t), r) && IsBin(op, At(op, ValueOf(t), r)) && SubTree(op, t, r).n == n
  }

  lemma SameInnerTrans(op: Conn, t: Tree, t1: Tree, t2: Tree)
    requires SameInner(op, t, t1) && SameInner(op, t1, t2)
    ensures SameInner(op, t, t2)
  {
    forall r | InSkeleton(op, ValueOf(t), r) && IsBin(op, At(op, ValueOf(t), r))
      ensures InnerAt(op, t2, r, SubTree(op, t, r).n)
    {
      assert InnerAt(op, t1, r, SubTree(op, t, r).n);
    }
  }

  lemma {:induction false} ParentIsInner(op: Conn, t: Tree, p: Path)
    requires p != [] && InSkeleton(op, ValueOf(t), p)
    ensures InnerAt(op, t, p[..|p| - 1], ParentNode(op, t, p))
  {
    if |p| > 1 {
      ParentIsInner(op, ChildTree(t, p[0]), p[1..]);
      assert p[..|p| - 1][1..] == p[1..][..|p| - 2];
    }
  }

  /** A pointer stays a pointer to the same position. */
  lemma SlotKept(op: Conn, t: Tree, t': Tree, s: Slot, p: Path)
    requires SlotIs(op, t, s, p) && SameInner(op, t, t') && IsBin(op, ValueOf(t))
    requires InSkeleton(op, ValueOf(t'), p)
    ensures SlotIs(op, t', s, p)
  {
    if p == [] {
      assert InnerAt(op, t', [], SubTree(op, t, []).n);
    } else {
      var r := p[..|p| - 1];
      ParentIsInner(op, t, p);
      ParentIsInner(op, t', p);
      assert InnerAt(op, t', r, SubTree(op, t, r).n);
    }
  }

  lemma {:induction false} PutInner(op: Conn, t: Tree, p: Path, u: Tree, r: Path)
    requires IsOperand(op, ValueOf(t), p) && InSkeleton(op, ValueOf(t), r) && IsBin(op, At(op, ValueOf(t), r))
    ensures InnerAt(op, PutTree(op, t, p, u), r, SubTree(op, t, r).n)
  {
    if r != [] && p[0] == r[0] { PutInner(op, ChildTree(t, p[0]), p[1..], u, r[1..]); }
  }

  lemma PutSameInner(op: Conn, t: Tree, p: Path, u: Tree)
    requires IsOperand(op, ValueOf(t), p)
    ensures SameInner(op, t, PutTree(op, t, p, u))
  {
    forall r | InSkeleton(op, ValueOf(t), r) && IsBin(op, At(op, ValueOf(t), r))
      ensures InnerAt(op, PutTree(op, t, p, u), r, SubTree(op, t, r).n)
    {
      PutInner(op, t, p, u, r);
    }
  }

  // ----- changing an operand -----

  /** What nodes hold. */
  type Store = map<Node, Shape>

  ghost function Contents(ns: set<Node>): Store
    reads ns
  {
    map n | n in ns :: n.data
  }

  /** Held, by a remembered store. */
  ghost predicate HeldIn(m: Store, t: Tree) {
    t.n in t.nodes && t.n in m && m[t.n] == ShapeOf(t) &&
    match t
    case TNot(n, ns, a) => a.nodes <= ns && n !in a.nodes && HeldIn(m, a)
    case TBin(n, ns, op, l, r) =>
      && l.nodes <= ns && r.nodes <= ns && n !in l.nodes && n !in r.nodes && l.nodes !! r.nodes
      && HeldIn(m, l) && HeldIn(m, r)
    case _ => true
  }

  function ShapeOf(t: Tree): Shape {
    match t
    case TLeaf(_, _, x) => SLeaf(x)
    case TNot(_, _, a) => SNot(a.n)
    case TCmp(_, _, eq, l, r) => SCmp(eq, l, r)
    case TBin(_, _, op, l, r) => SBin(op, l.n, r.n)
  }

  lemma {:induction false} HeldSnapshot(t: Tree, ns: set<Node>)
    requires t.nodes <= ns
    ensures Held(t) <==> HeldIn(Contents(ns), t)
  {
    match t
    case TNot(_, _, a) => if a.nodes <= t.nodes { HeldSnapshot(a, ns); }
    case TBin(_, _, _, l, r) =>
      if l.nodes <= t.nodes && r.nodes <= t.nodes {
        HeldSnapshot(l, ns);
        HeldSnapshot(r, ns);
      }
    case _ =>
  }

  lemma {:induction false} HeldInKept(m: Store, m': Store, t: Tree)
    requires HeldIn(m, t) && forall n :: n in t.nodes && n in m ==> n in m' && m'[n] == m[n]
    ensures HeldIn(m', t)
  {
    match t
    case TNot(_, _, a) => HeldInKept(m, m', a);
    case TBin(_, _, _, l, r) =>
      HeldInKept(m, m', l);
      HeldInKept(m, m', r);
    case _ =>
  }

  lemma {:induction false} HeldInShaped(m: Store, t: Tree)
    requires HeldIn(m, t)
    ensures Shaped(t)
  {
    match t
    case TNot(_, _, a) => HeldInShaped(m, a);
    case TBin(_, _, _, l, r) =>
      HeldInShaped(m, l);
      HeldInShaped(m, r);
    case _ =>
  }

  function Linked(s: Shape, side: bool, n: Node): Shape {
    if !s.SBin? then s else if side then s.(right := n) else s.(left := n)
  }

  /** The store is as it was, except below p and for the link to it. */
  ghost predicate OnlyAt(op: Conn, t: Tree, p: Path, n: Node, m: Store, m': Store)
    requires p != [] && InSkeleton(op, ValueOf(t), p)
  {
    forall x :: x in t.nodes && x in m && x !in SubTree(op, t, p).nodes ==>
      x in m' && m'[x] == if x == ParentNode(op, t, p) then Linked(m[x], p[|p| - 1], n) else m[x]
  }

  /** A tree is stored with another operand once that is linked. */
  lemma {:induction false} PutHeld(op: Conn, t: Tree, p: Path, u: Tree, m: Store, m': Store)
    requires p != [] && InSkeleton(op, ValueOf(t), p) && HeldIn(m, t) && HeldIn(m', u)
    requires u.nodes !! t.nodes - SubTree(op, t, p).nodes
    requires OnlyAt(op, t, p, u.n, m, m')
    ensures HeldIn(m', PutTree(op, t, p, u))
    decreases |p|
  {
    var c, other := ChildTree(t, p[0]), ChildTree(t, !p[0]);
    HeldInShaped(m, t);
    SubShaped(op, c, p[1..]);
    HeldInKept(m, m', other);
    if |p| > 1 {
      assert OnlyAt(op, c, p[1..], u.n, m, m');
      PutHeld(op, c, p[1..], u, m, m');
      PutTreeValue(op, c, p[1..], u);
      PutTreeNodes(op, c, p[1..], u);
    } else {
      assert p[1..] == [];
    }
  }

  // ----- reading and writing through pointers -----

  method Deref(s: Slot, ghost op: Conn, ghost t: Tree, ghost p: Path) returns (n: Node)
    requires Held(t) && SlotIs(op, t, s, p)
    ensures n == SubTree(op, t, p).n
  {
    match s
    case Root(root) => n := root;
    case Field(parent, side) =>
      ParentHolds(op, t, p);
      n := if side then parent.data.right else parent.data.left;
  }

  /** The expression at a node, as a value. */
  method Load(n: Node, ghost t: Tree) returns (e: Expr)
    requires t.n == n && Held(t)
    ensures e == ValueOf(t)
    decreases t
  {
    match n.data
    case SLeaf(x) => e := Leaf(x);
    case SCmp(equal, l, r) => e := Cmp(equal, l, r);
    case SNot(arg) =>
      var a := Load(arg, t.arg);
      e := Not(a);
    case SBin(op, left, right) =>
      var l := Load(left, t.left);
      var r := Load(right, t.right);
      e := Bin(op, l, r);
  }

  /** A value as an expression in new nodes. */
  method Build(e: Expr) returns (n: Node, ghost t: Tree)
    ensures Holds(n, t, e) && fresh(t.nodes)
    decreases e
  {
    match e
    case Leaf(x) =>
      n := new Node(SLeaf(x));
      t := LeafAt(n, x);
    case Cmp(equal, l, r) =>
      n := new Node(SCmp(equal, l, r));
      t := CmpAt(n, equal, l, r);
    case Not(a) =>
      var na, ta := Build(a);
      n := new Node(SNot(na));
      t := NotAt(n, ta);
    case Bin(op, l, r) =>
      var nl, tl := Build(l);
      var nr, tr := Build(r);
      n := new Node(SBin(op, nl, nr));
      t := BinAt(n, op, tl, tr);
  }

  /** `*s = n`: another expression, in nodes of its own, takes the place of the operand at p. */
  method Assign(s: Slot, n: Node, ghost op: Conn, ghost t: Tree, ghost p: Path, ghost u: Tree) returns (ghost t': Tree)
    requires p != [] && Held(t) && SlotIs(op, t, s, p) && u.n == n && Held(u) && u.nodes !! t.nodes
    modifies t.nodes
    ensures t' == PutTree(op, t, p, u) && Held(t') && t'.nodes <= t.nodes + u.nodes
  {
    ghost var all := t.nodes + u.nodes;
    ghost var m := Contents(all);
    HeldSnapshot(t, all);
    HeldSnapshot(u, all);
    ParentHolds(op, t, p);
    s.parent.data := Linked(s.parent.data, s.side, n);
    ghost var m' := Contents(all);
    HeldInKept(m, m', u);
    PutHeld(op, t, p, u, m, m');
    t' := PutTree(op, t, p, u);
    HeldInShaped(m, t);
    PutTreeNodes(op, t, p, u);
    HeldSnapshot(t', all);
  }

  /** The operand at p has been rewritten in place, keeping its root. */
  lemma PutInPlace(op: Conn, t: Tree, p: Path, u: Tree, m: Store, m': Store)
    requires p != [] && InSkeleton(op, ValueOf(t), p) && HeldIn(m, t) && HeldIn(m', u)
    requires u.n == SubTree(op, t, p).n && u.nodes !! t.nodes - SubTree(op, t, p).nodes
    requires forall x :: x in t.nodes && x in m && x !in SubTree(op, t, p).nodes ==> x in m' && m'[x] == m[x]
    ensures HeldIn(m', PutTree(op, t, p, u))
  {
    ParentLinks(m, op, t, p);
    PutHeld(op, t, p, u, m, m');
  }

  lemma {:induction false} ParentLinks(m: Store, op: Conn, t: Tree, p: Path)
    requires p != [] && InSkeleton(op, ValueOf(t), p) && HeldIn(m, t)
    ensures var x := ParentNode(op, t, p); x in m && Linked(m[x], p[|p| - 1], SubTree(op, t, p).n) == m[x]
  {
    if |p| > 1 {
      ParentLinks(m, op, ChildTree(t, p[0]), p[1..]);
    } else {
      assert p[1..] == [];
    }
  }
}
