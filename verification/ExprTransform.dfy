/** De Morgan normalisation, boolean promotion, and rewriting into comparisons. */
module ExprTransform {
  import opened Tristates
  import opened Exprs

  /** Weight that every re-transformation step lowers: a NOT doubles what stands below it. */
  function Weight(e: Expr): (n: nat)
    ensures n > 0
  {
    match e
    case Leaf(_) => 1
    case Cmp(_, _, _) => 2
    case Not(a) => 2 * Weight(a)
    case Bin(_, l, r) => 1 + Weight(l) + Weight(r)
  }

  /** A boolean symbol compared with y, m or n becomes the symbol, its negation or a constant. */
  function TransformCmp(equal: bool, l: Sym, r: Sym): (t: Expr)
    ensures Weight(t) <= 2
  {
    if l.Type() != Boolean then Cmp(equal, l, r)
    else if r == SYM_NO then (if equal then Not(Leaf(l)) else Leaf(l))
    else if r == SYM_MOD then Leaf(if equal then SYM_NO else SYM_YES)
    else if r == SYM_YES then (if equal then Leaf(l) else Not(Leaf(l)))
    else Cmp(equal, l, r)
  }

  function Transform(e: Expr): (t: Expr)
    ensures Weight(t) <= Weight(e)
    decreases Weight(e), 1
  {
    match e
    case Leaf(_) => e
    case Cmp(equal, l, r) => TransformCmp(equal, l, r)
    case Bin(op, l, r) => Bin(op, Transform(l), Transform(r))
    case Not(a) => TransformNot(Transform(a))
  }

  /** A NOT above a transformed operand. */
  function TransformNot(a: Expr): (t: Expr)
    ensures Weight(t) <= Weight(Not(a))
    decreases Weight(Not(a)), 0
  {
    match a
    case Not(b) =>
      assert Weight(b) < Weight(Not(a));
      Transform(b)
    case Cmp(equal, l, r) => Cmp(!equal, l, r)
    case Bin(op, l, r) =>
      assert Weight(Bin(Flip(op), Not(l), Not(r))) < Weight(Not(a));
      Transform(Bin(Flip(op), Not(l), Not(r)))
    case Leaf(x) =>
      if x == SYM_YES then EXPR_NO
      else if x == SYM_MOD then Leaf(SYM_MOD)
      else if x == SYM_NO then EXPR_YES
      else Not(Leaf(x))
  }

  function TransformOpt(e: Option<Expr>): Option<Expr> {
    if e.None? then None else Some(Transform(e.value))
  }

  /** A comparison that TransformCmp has nothing to do with. */
  predicate NormalCmp(l: Sym, r: Sym) {
    l.Type() == Boolean ==> r !in {SYM_YES, SYM_MOD, SYM_NO}
  }

  /** NOT stands only above symbols other than y, m and n, and no boolean is compared with them. */
  predicate Normal(e: Expr) {
    match e
    case Leaf(_) => true
    case Cmp(_, l, r) => NormalCmp(l, r)
    case Bin(_, l, r) => Normal(l) && Normal(r)
    case Not(a) => a.Leaf? && a.sym !in {SYM_YES, SYM_MOD, SYM_NO}
  }

  lemma DeMorgan(op: Conn, l: Expr, r: Expr, s: State)
    ensures Eval(Bin(Flip(op), Not(l), Not(r)), s) == Eval(Not(Bin(op, l, r)), s)
  {}

  lemma TransformCmpSound(equal: bool, l: Sym, r: Sym, s: State)
    requires Legal(s)
    ensures Eval(TransformCmp(equal, l, r), s) == Eval(Cmp(equal, l, r), s)
  {
    ConstantValues(s);
    if l.Type() == Boolean && r in {SYM_YES, SYM_MOD, SYM_NO} {
      TriNamesDiffer(s.tri(l), NO);
      TriNamesDiffer(s.tri(l), MOD);
      TriNamesDiffer(s.tri(l), YES);
    }
  }

  /** Transforming keeps the value under every three-valued assignment the types allow. */
  lemma {:induction false} TransformSound(e: Expr, s: State)
    requires Legal(s)
    ensures Eval(Transform(e), s) == Eval(e, s)
    decreases Weight(e)
  {
    match e
    case Leaf(_) =>
    case Cmp(equal, l, r) => TransformCmpSound(equal, l, r, s);
    case Bin(op, l, r) =>
      TransformSound(l, s);
      TransformSound(r, s);
    case Not(a) =>
      TransformSound(a, s);
      match Transform(a)
      case Not(b) => TransformSound(b, s);
      case Cmp(_, _, _) =>
      case Bin(op, l, r) =>
        assert Weight(Bin(Flip(op), Not(l), Not(r))) < Weight(e);
        TransformSound(Bin(Flip(op), Not(l), Not(r)), s);
        DeMorgan(op, l, r, s);
      case Leaf(x) => ConstantValues(s);
  }

  lemma {:induction false} TransformNormal(e: Expr)
    ensures Normal(Transform(e))
    decreases Weight(e)
  {
    match e
    case Leaf(_) =>
    case Cmp(_, _, _) =>
    case Bin(op, l, r) =>
      TransformNormal(l);
      TransformNormal(r);
    case Not(a) =>
      TransformNormal(a);
      match Transform(a)
      case Not(b) => TransformNormal(b);
      case Bin(op, l, r) =>
        assert Weight(Bin(Flip(op), Not(l), Not(r))) < Weight(e);
        TransformNormal(Bin(Flip(op), Not(l), Not(r)));
      case Cmp(_, _, _) =>
      case Leaf(_) =>
  }

  /** The normal forms are exactly the expressions a further transformation leaves alone. */
  lemma {:induction false} TransformFixpoint(e: Expr)
    ensures Transform(e) == e <==> Normal(e)
  {
    TransformNormal(e);
    match e
    case Bin(op, l, r) =>
      TransformFixpoint(l);
      TransformFixpoint(r);
    case _ =>
  }

  // ----- expr_trans_bool -----

  /** FOO != n becomes FOO for a tristate symbol. */
  function TransBool(e: Expr): Expr {
    match e
    case Bin(op, l, r) => Bin(op, TransBool(l), TransBool(r))
    case Not(a) => Not(TransBool(a))
    case Cmp(equal, l, r) => if !equal && l.Type() == Tri && r == SYM_NO then Leaf(l) else e
    case Leaf(_) => e
  }

  /** On a normal form the value may drop from y to m, but "not n" is kept both ways. */
  lemma {:induction false} TransBoolKeepsNotN(e: Expr, s: State)
    requires Normal(e)
    ensures Eval(TransBool(e), s) != NO <==> Eval(e, s) != NO
    ensures Eval(TransBool(e), s) <= Eval(e, s)
  {
    match e
    case Bin(op, l, r) =>
      TransBoolKeepsNotN(l, s);
      TransBoolKeepsNotN(r, s);
    case Cmp(_, l, r) =>
      if l.Type() == Tri { TriNamesDiffer(s.tri(l), NO); }
    case _ =>
  }

  /** There is a test FOO != n of a tristate symbol. */
  predicate TestsNotN(e: Expr) {
    match e
    case Bin(_, l, r) => TestsNotN(l) || TestsNotN(r)
    case Not(a) => TestsNotN(a)
    case Cmp(equal, l, r) => !equal && l.Type() == Tri && r == SYM_NO
    case Leaf(_) => false
  }

  /** None is left, and without any nothing changes. */
  lemma {:induction false} TransBoolComplete(e: Expr)
    ensures !TestsNotN(TransBool(e))
    ensures TransBool(e) == e <==> !TestsNotN(e)
  {
    match e
    case Bin(_, l, r) =>
      TransBoolComplete(l);
      TransBoolComplete(r);
    case Not(a) => TransBoolComplete(a);
    case _ =>
  }

  /** Under a NOT it fails, exactly for m: !(FOO != n) goes from n to m. */
  lemma TransBoolUnderNot(x: Sym, s: State)
    requires x.Type() == Tri
    ensures var e := Not(Cmp(false, x, SYM_NO));
      && !Normal(e)
      && ((Eval(TransBool(e), s) != NO <==> Eval(e, s) != NO) <==> s.tri(x) != MOD)
      && (s.tri(x) == MOD ==> Eval(e, s) == NO && Eval(TransBool(e), s) == MOD)
  {
    TriNamesDiffer(s.tri(x), NO);
  }

  // ----- expr_trans_compare -----

  function Negated(e: Expr, negate: bool): Expr { if negate then Not(e) else e }

  /**
   * Rewrites `e = sym` (equal) or `e != sym`. Only y and n are distributed over AND and OR;
   * for any other symbol the connective itself comes back.
   */
  function TransCompare(e: Expr, equal: bool, sym: Sym): (r: Option<Expr>)
    ensures sym in {SYM_YES, SYM_MOD, SYM_NO} ==> r.Some?
  {
    match e
    case Bin(op, l, r) =>
      if sym == SYM_YES || sym == SYM_NO then
        var a := TransCompare(l, true, sym).value;
        var b := TransCompare(r, true, sym).value;
        Some(Negated(Bin(if sym == SYM_YES then op else Flip(op), a, b), !equal))
      else Some(Negated(e, !equal))
    case Not(a) => TransCompare(a, !equal, sym)
    case Cmp(_, _, _) =>
      if sym == SYM_YES then Some(Negated(e, !equal))
      else if sym == SYM_MOD then Some(if equal then EXPR_NO else EXPR_YES)
      else if sym == SYM_NO then Some(Negated(e, equal))
      else None
    case Leaf(x) => Some(Cmp(equal, x, sym))
  }

  function TransCompareOpt(e: Option<Expr>, equal: bool, sym: Sym): Option<Expr> {
    if e.None? then Some(Negated(Leaf(sym), !equal)) else TransCompare(e.value, equal, sym)
  }

  /** Every symbol used as a value is a tristate, a boolean, or one of y, m and n. */
  predicate TristateLeaves(e: Expr) {
    match e
    case Leaf(x) => x.IsTristate() || x in {SYM_YES, SYM_MOD, SYM_NO}
    case Cmp(_, _, _) => true
    case Not(a) => TristateLeaves(a)
    case Bin(_, l, r) => TristateLeaves(l) && TristateLeaves(r)
  }

  /** No NOT stands above something that is m. */
  predicate NotsDecided(e: Expr, s: State) {
    match e
    case Leaf(_) => true
    case Cmp(_, _, _) => true
    case Not(a) => Eval(a, s) != MOD && NotsDecided(a, s)
    case Bin(_, l, r) => NotsDecided(l, s) && NotsDecided(r, s)
  }

  function Truth(b: bool): Tristate { if b then YES else NO }

  /** Comparing with y or n is right wherever no NOT is applied to m. */
  lemma {:induction false} TransCompareSound(e: Expr, equal: bool, sym: Sym, s: State)
    requires sym in {SYM_YES, SYM_NO}
    requires TristateLeaves(e) && NotsDecided(e, s)
    ensures Eval(TransCompare(e, equal, sym).value, s) == Truth((Eval(e, s) == TriOf(sym, s)) == equal)
  {
    ConstantValues(s);
    match e
    case Leaf(x) => LeafCompare(x, equal, sym, s);
    case Cmp(_, _, _) =>
    case Not(a) => TransCompareSound(a, !equal, sym, s);
    case Bin(op, l, r) =>
      TransCompareSound(l, true, sym, s);
      TransCompareSound(r, true, sym, s);
  }

  lemma LeafCompare(x: Sym, equal: bool, sym: Sym, s: State)
    requires sym in {SYM_YES, SYM_NO}
    requires TristateLeaves(Leaf(x))
    ensures Eval(Cmp(equal, x, sym), s) == Truth((TriOf(x, s) == TriOf(sym, s)) == equal)
  {
    ConstantValues(s);
    assert StrOf(x, s) == TriName(TriOf(x, s)) && StrOf(sym, s) == TriName(TriOf(sym, s));
    TriNamesDiffer(TriOf(x, s), TriOf(sym, s));
  }

  /** The NOT case swaps = and !=, which is right exactly when the operand is not m. */
  lemma TransCompareNotExact(a: Expr, equal: bool, sym: Sym, s: State)
    requires sym in {SYM_YES, SYM_NO}
    requires TristateLeaves(a) && NotsDecided(a, s)
    ensures Eval(TransCompare(Not(a), equal, sym).value, s) == Truth((Eval(Not(a), s) == TriOf(sym, s)) == equal)
       <==> Eval(a, s) != MOD
  {
    TransCompareSound(a, !equal, sym, s);
    ConstantValues(s);
  }

  /**
   * A symbol that is no tristate counts as n, yet the comparison looks at its string: it is
   * right for n exactly if that is "n", and for y exactly if it is not "y".
   */
  lemma TransCompareUntypedExact(x: Sym, equal: bool, sym: Sym, s: State)
    requires x.Config? && !x.IsTristate() && sym in {SYM_YES, SYM_NO}
    ensures Eval(TransCompare(Leaf(x), equal, sym).value, s) == Truth((Eval(Leaf(x), s) == TriOf(sym, s)) == equal)
      <==> if sym == SYM_NO then StrOf(x, s) == "n" else StrOf(x, s) != "y"
  {
    ConstantValues(s);
  }
}
