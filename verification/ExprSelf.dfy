/** When expr_eq finds an expression equal to itself: constants in it may prevent that. */
module ExprSelf {
  import opened Tristates
  import opened Exprs
  import opened ExprEquality
  import opened ExprShapes

  /** A constant other than y, m and n, such as a quoted word. */
  predicate IsFreeWord(e: Expr) { IsFixed(e) && e !in {EXPR_YES, EXPR_NO} }

  function Words(op: Conn, e: Expr): nat {
    if IsBin(op, e) then Words(op, e.left) + Words(op, e.right) else if IsFreeWord(e) then 1 else 0
  }

  /** No connective has two such constants among its operands. */
  predicate FewWords(e: Expr)
    decreases e, 0
  {
    match e
    case Bin(op, l, r) => Words(op, e) <= 1 && FewWordsIn(op, l) && FewWordsIn(op, r)
    case Not(a) => FewWords(a)
    case _ => true
  }

  predicate FewWordsIn(op: Conn, e: Expr)
    decreases e, 1
  {
    if IsBin(op, e) then FewWordsIn(op, e.left) && FewWordsIn(op, e.right) else FewWords(e)
  }

  // ----- stripping as an operation on the sequences of operands -----

  function Operands(op: Conn, e: Expr): seq<Expr> {
    if IsBin(op, e) then Operands(op, e.left) + Operands(op, e.right) else [e]
  }

  /** Whether a pair of operands is stripped. */
  predicate Matches(a: Expr, b: Expr) { !SkippedConstant(a, b) && ExprEq(a, b) }

  /** One operand against many: what becomes of it, and of them. */
  function StripOne(op: Conn, a: Expr, bs: seq<Expr>): (Expr, seq<Expr>)
    decreases bs
  {
    if bs == [] then (a, [])
    else
      var (a1, b1) := if Matches(a, bs[0]) then (Neutral(op), Neutral(op)) else (a, bs[0]);
      var (a2, rest) := StripOne(op, a1, bs[1..]);
      (a2, [b1] + rest)
  }

  function StripMany(op: Conn, xs: seq<Expr>, bs: seq<Expr>): (seq<Expr>, seq<Expr>) {
    if xs == [] then ([], bs)
    else
      var (a, bs1) := StripOne(op, xs[0], bs);
      var (rest, bs2) := StripMany(op, xs[1..], bs1);
      ([a] + rest, bs2)
  }

  lemma Attach(a: Expr, b: seq<Expr>, c: seq<Expr>)
    ensures [a] + (b + c) == [a] + b + c
  {}

  lemma {:induction false} StripOneConcat(op: Conn, a: Expr, bs: seq<Expr>, cs: seq<Expr>)
    ensures var (a1, bs1) := StripOne(op, a, bs);
      var (a2, cs1) := StripOne(op, a1, cs);
      StripOne(op, a, bs + cs) == (a2, bs1 + cs1)
    decreases bs
  {
    if bs == [] {
      assert bs + cs == cs;
      assert [] + StripOne(op, a, cs).1 == StripOne(op, a, cs).1;
    } else {
      assert (bs + cs)[0] == bs[0] && (bs + cs)[1..] == bs[1..] + cs;
      var a1 := if Matches(a, bs[0]) then Neutral(op) else a;
      StripOneConcat(op, a1, bs[1..], cs);
      var b1 := if Matches(a, bs[0]) then Neutral(op) else bs[0];
      var (a2, bs1) := StripOne(op, a1, bs[1..]);
      Attach(b1, bs1, StripOne(op, a2, cs).1);
    }
  }

  lemma {:induction false} StripManyConcat(op: Conn, xs: seq<Expr>, ys: seq<Expr>, bs: seq<Expr>)
    ensures var (xs1, bs1) := StripMany(op, xs, bs);
      var (ys1, bs2) := StripMany(op, ys, bs1);
      StripMany(op, xs + ys, bs) == (xs1 + ys1, bs2)
  {
    if xs == [] {
      assert xs + ys == ys;
      assert [] + StripMany(op, ys, bs).0 == StripMany(op, ys, bs).0;
    } else {
      assert (xs + ys)[0] == xs[0] && (xs + ys)[1..] == xs[1..] + ys;
      var (a, bs1) := StripOne(op, xs[0], bs);
      StripManyConcat(op, xs[1..], ys, bs1);
      var (xs1, bs2) := StripMany(op, xs[1..], bs1);
      Attach(a, xs1, StripMany(op, ys, bs2).0);
    }
  }

  lemma {:induction false} StripEqOperands(op: Conn, e1: Expr, e2: Expr)
    ensures var p := StripEq(op, e1, e2);
      StripMany(op, Operands(op, e1), Operands(op, e2)) == (Operands(op, p.e1), Operands(op, p.e2))
    decreases Size(e1) + Size(e2)
  {
    var p := StripEq(op, e1, e2);
    if IsBin(op, e1) {
      StripEqOperands(op, e1.left, e2);
      StripEqOperands(op, e1.right, StripEq(op, e1.left, e2).e2);
      StripManyConcat(op, Operands(op, e1.left), Operands(op, e1.right), Operands(op, e2));
    } else if IsBin(op, e2) {
      var p1 := StripEq(op, e1, e2.left);
      StripEqOperands(op, e1, e2.left);
      StripEqOperands(op, p1.e1, e2.right);
      StripOneConcat(op, e1, Operands(op, e2.left), Operands(op, e2.right));
      ManyIsOne(op, e1, Operands(op, e2));
      ManyIsOne(op, e1, Operands(op, e2.left));
      StillOperand(op, e1, e2.left);
      ManyIsOne(op, p1.e1, Operands(op, e2.right));
      StillOperand(op, p1.e1, e2.right);
    } else {
      ManyIsOne(op, e1, [e2]);
      StillOperand(op, e1, e2);
      assert [e2][1..] == [] && [p.e2] + [] == [p.e2];
      assert StripOne(op, e1, [e2]) == (p.e1, [p.e2]);
    }
  }

  lemma ManyIsOne(op: Conn, a: Expr, bs: seq<Expr>)
    ensures var (a1, bs1) := StripOne(op, a, bs); StripMany(op, [a], bs) == ([a1], bs1)
  {
    var (a1, bs1) := StripOne(op, a, bs);
    assert [a][1..] == [] && [a1] + [] == [a1];
    assert StripMany(op, [], bs1) == ([], bs1);
  }

  lemma {:induction false} StillOperand(op: Conn, e1: Expr, e2: Expr)
    requires !IsBin(op, e1)
    ensures !IsBin(op, StripEq(op, e1, e2).e1)
    decreases Size(e1) + Size(e2)
  {
    if IsBin(op, e2) {
      StillOperand(op, e1, e2.left);
      StillOperand(op, StripEq(op, e1, e2.left).e1, e2.right);
    }
  }

  // ----- an expression against itself -----

  predicate AllFixed(xs: seq<Expr>) { forall i :: 0 <= i < |xs| ==> IsFixed(xs[i]) }

  /** What remains of operands that all equal themselves. */
  function Kept(op: Conn, xs: seq<Expr>): seq<Expr> {
    if xs == [] then [] else [if IsFixed(xs[0]) then xs[0] else Neutral(op)] + Kept(op, xs[1..])
  }

  lemma {:induction false} FixedMatchNothing(op: Conn, a: Expr, bs: seq<Expr>)
    requires IsFixed(a)
    ensures StripOne(op, a, bs) == (a, bs)
  {
    if bs != [] {
      assert !Matches(a, bs[0]) && [bs[0]] + bs[1..] == bs;
      FixedMatchNothing(op, a, bs[1..]);
    }
  }

  lemma {:induction false} NothingMatchesFixed(op: Conn, a: Expr, bs: seq<Expr>)
    requires AllFixed(bs)
    ensures StripOne(op, a, bs) == (a, bs)
  {
    if bs != [] {
      assert !Matches(a, bs[0]) && [bs[0]] + bs[1..] == bs;
      NothingMatchesFixed(op, a, bs[1..]);
    }
  }

  /** Behind operands that have been dealt with, every operand meets itself first. */
  lemma {:induction false} MeetsItself(op: Conn, done: seq<Expr>, xs: seq<Expr>)
    requires AllFixed(done) && forall i :: 0 <= i < |xs| ==> ExprEq(xs[i], xs[i])
    ensures StripMany(op, xs, done + xs) == (Kept(op, xs), done + Kept(op, xs))
    decreases |xs|
  {
    if xs == [] {
      assert done + xs == done;
    } else {
      var a, rest := xs[0], xs[1..];
      var b := if IsFixed(a) then a else Neutral(op);
      MeetsNext(op, done, a, rest);
      assert AllFixed(done + [b]);
      MeetsItself(op, done + [b], rest);
      assert [a] + rest == xs;
      Shift(done, b, rest);
      Shift(done, b, Kept(op, rest));
    }
  }

  lemma Shift(done: seq<Expr>, b: Expr, rest: seq<Expr>)
    ensures done + ([b] + rest) == (done + [b]) + rest
  {}

  lemma MeetsNext(op: Conn, done: seq<Expr>, a: Expr, rest: seq<Expr>)
    requires AllFixed(done) && ExprEq(a, a)
    ensures var b := if IsFixed(a) then a else Neutral(op);
      StripOne(op, a, done + ([a] + rest)) == (b, done + ([b] + rest))
  {
    StripOneConcat(op, a, done, [a] + rest);
    NothingMatchesFixed(op, a, done);
    MeetsFirst(op, a, rest);
  }

  lemma MeetsFirst(op: Conn, a: Expr, rest: seq<Expr>)
    requires ExprEq(a, a)
    ensures var b := if IsFixed(a) then a else Neutral(op); StripOne(op, a, [a] + rest) == (b, [b] + rest)
  {
    assert ([a] + rest)[0] == a && ([a] + rest)[1..] == rest;
    if IsFixed(a) {
      FixedMatchNothing(op, a, [a] + rest);
    } else {
      FixedMatchNothing(op, Neutral(op), rest);
    }
  }

  function WordsOf(xs: seq<Expr>): nat {
    if xs == [] then 0 else (if IsFreeWord(xs[0]) then 1 else 0) + WordsOf(xs[1..])
  }

  /** What constants fold to, if there is at most one word among them. */
  function FoldOf(op: Conn, xs: seq<Expr>): Expr {
    if xs == [] then Neutral(op) else FoldConn(op, xs[0], FoldOf(op, xs[1..]))
  }

  lemma {:induction false} FoldOfFixed(op: Conn, xs: seq<Expr>)
    requires AllFixed(xs) && WordsOf(xs) <= 1
    ensures IsFixed(FoldOf(op, xs)) && (IsFreeWord(FoldOf(op, xs)) ==> WordsOf(xs) == 1)
  {
    if xs != [] { FoldOfFixed(op, xs[1..]); }
  }

  /** Folding constants with at most one word among them is associative. */
  lemma FoldAssociative(op: Conn, a: Expr, b: Expr, c: Expr)
    requires IsFixed(a) && IsFixed(b) && IsFixed(c)
    requires !(IsFreeWord(a) && IsFreeWord(b)) && !(IsFreeWord(a) && IsFreeWord(c)) && !(IsFreeWord(b) && IsFreeWord(c))
    ensures FoldConn(op, a, FoldConn(op, b, c)) == FoldConn(op, FoldConn(op, a, b), c)
  {}

  lemma {:induction false} FoldOfConcat(op: Conn, xs: seq<Expr>, ys: seq<Expr>)
    requires AllFixed(xs) && AllFixed(ys) && WordsOf(xs) + WordsOf(ys) <= 1
    ensures FoldOf(op, xs + ys) == FoldConn(op, FoldOf(op, xs), FoldOf(op, ys))
    decreases |xs|
  {
    FoldOfFixed(op, ys);
    if xs == [] {
      assert xs + ys == ys;
    } else {
      assert (xs + ys)[0] == xs[0] && (xs + ys)[1..] == xs[1..] + ys;
      FoldOfConcat(op, xs[1..], ys);
      FoldOfFixed(op, xs[1..]);
      FoldAssociative(op, xs[0], FoldOf(op, xs[1..]), FoldOf(op, ys));
    }
  }

  lemma {:induction false} FoldOfOperands(op: Conn, e: Expr)
    requires AllFixed(Operands(op, e)) && WordsOf(Operands(op, e)) <= 1
    ensures EliminateYn(e) == FoldOf(op, Operands(op, e)) && EliminateYn(e).Leaf?
  {
    var xs := Operands(op, e);
    if IsBin(op, e) {
      WordsConcat(Operands(op, e.left), Operands(op, e.right));
      FixedConcat(Operands(op, e.left), Operands(op, e.right));
      FoldOfOperands(op, e.left);
      FoldOfOperands(op, e.right);
      FoldOfConcat(op, Operands(op, e.left), Operands(op, e.right));
      FoldOfFixed(op, xs);
    } else {
      assert xs == [e] && IsFixed(xs[0]) && xs[1..] == [];
      assert FoldOf(op, xs) == FoldConn(op, e, Neutral(op));
    }
  }

  lemma FixedConcat(xs: seq<Expr>, ys: seq<Expr>)
    requires AllFixed(xs + ys)
    ensures AllFixed(xs) && AllFixed(ys)
  {
    assert forall i :: 0 <= i < |xs| ==> xs[i] == (xs + ys)[i];
    assert forall i :: 0 <= i < |ys| ==> ys[i] == (xs + ys)[|xs| + i];
  }

  lemma {:induction false} WordsConcat(xs: seq<Expr>, ys: seq<Expr>)
    ensures WordsOf(xs + ys) == WordsOf(xs) + WordsOf(ys)
  {
    if xs == [] {
      assert xs + ys == ys;
    } else {
      assert (xs + ys)[0] == xs[0] && (xs + ys)[1..] == xs[1..] + ys;
      WordsConcat(xs[1..], ys);
    }
  }

  lemma {:induction false} KeptFixed(op: Conn, xs: seq<Expr>)
    ensures AllFixed(Kept(op, xs)) && WordsOf(Kept(op, xs)) == WordsOf(xs)
  {
    if xs != [] { KeptFixed(op, xs[1..]); }
  }

  lemma {:induction false} WordsOfOperands(op: Conn, e: Expr)
    ensures WordsOf(Operands(op, e)) == Words(op, e)
  {
    if IsBin(op, e) {
      WordsConcat(Operands(op, e.left), Operands(op, e.right));
      WordsOfOperands(op, e.left);
      WordsOfOperands(op, e.right);
    } else {
      assert [e][1..] == [];
    }
  }

  /** With few words every expression equals itself. */
  lemma {:induction false} ExprEqReflexive(e: Expr)
    requires FewWords(e)
    ensures ExprEq(e, e)
    decreases Size(e), 1
  {
    match e
    case Not(a) => ExprEqReflexive(a);
    case Bin(op, _, _) =>
      OperandsReflexive(op, e);
      var xs := Operands(op, e);
      assert [] + xs == xs && [] + Kept(op, xs) == Kept(op, xs);
      MeetsItself(op, [], xs);
      StripEqOperands(op, e, e);
      KeptFixed(op, xs);
      WordsOfOperands(op, e);
      var p := StripEq(op, e, e);
      FoldOfOperands(op, p.e1);
      FoldOfOperands(op, p.e2);
      assert EliminateEq(e, e) == Pass(EliminateYn(p.e1), EliminateYn(p.e2), p.count);
    case _ =>
  }

  lemma {:induction false} OperandsReflexive(op: Conn, e: Expr)
    requires if IsBin(op, e) then FewWordsIn(op, e.left) && FewWordsIn(op, e.right) else FewWords(e)
    ensures forall i :: 0 <= i < |Operands(op, e)| ==> ExprEq(Operands(op, e)[i], Operands(op, e)[i])
    decreases Size(e), if IsBin(op, e) then 0 else 2
  {
    if IsBin(op, e) {
      OperandsReflexive(op, e.left);
      OperandsReflexive(op, e.right);
    } else {
      ExprEqReflexive(e);
    }
  }

  // ----- too many words -----

  /** No connective has y or n as an operand. */
  predicate Folded(e: Expr) {
    match e
    case Bin(_, l, r) => l !in {EXPR_YES, EXPR_NO} && r !in {EXPR_YES, EXPR_NO} && Folded(l) && Folded(r)
    case Not(a) => Folded(a)
    case _ => true
  }

  predicate FoldedIn(op: Conn, e: Expr) {
    if IsBin(op, e) then FoldedIn(op, e.left) && FoldedIn(op, e.right)
    else e == Neutral(op) || (Folded(e) && e !in {EXPR_YES, EXPR_NO})
  }

  lemma {:induction false} FoldedParts(op: Conn, e: Expr)
    requires Folded(e) && e !in {EXPR_YES, EXPR_NO}
    ensures FoldedIn(op, e) && !HasConstant(e)
  {
    if e.Bin? {
      FoldedParts(op, e.left);
      FoldedParts(op, e.right);
    }
  }

  /** A folded remainder that is a single symbol had at most one word in it. */
  lemma {:induction false} FoldWords(op: Conn, e: Expr)
    requires FoldedIn(op, e)
    ensures var f := EliminateYn(e);
      && f != Absorbing(op)
      && (f == Neutral(op) ==> Words(op, e) == 0)
      && (f.Leaf? ==> Words(op, e) <= 1 && FewWordsIn(op, e))
  {
    if IsBin(op, e) {
      FoldWords(op, e.left);
      FoldWords(op, e.right);
    } else if e != Neutral(op) {
      FoldedParts(op, e);
      EliminateYnClean(e);
    }
  }

  /** Words, and operands with too many of them, are never stripped. */
  lemma {:induction false} StripKeepsWords(op: Conn, e1: Expr, e2: Expr)
    requires FoldedIn(op, e1) && FoldedIn(op, e2)
    ensures var p := StripEq(op, e1, e2);
      && FoldedIn(op, p.e1) && Words(op, p.e1) == Words(op, e1) && (FewWordsIn(op, p.e1) <==> FewWordsIn(op, e1))
      && FoldedIn(op, p.e2) && Words(op, p.e2) == Words(op, e2) && (FewWordsIn(op, p.e2) <==> FewWordsIn(op, e2))
    decreases Size(e1) + Size(e2), if IsBin(op, e1) || IsBin(op, e2) then 0 else 4
  {
    if IsBin(op, e1) {
      StripKeepsWords(op, e1.left, e2);
      StripKeepsWords(op, e1.right, StripEq(op, e1.left, e2).e2);
    } else if IsBin(op, e2) {
      StripKeepsWords(op, e1, e2.left);
      StripKeepsWords(op, StripEq(op, e1, e2.left).e1, e2.right);
    } else {
      PairKeepsWords(op, e1, e2);
    }
  }

  lemma {:induction false} PairKeepsWords(op: Conn, e1: Expr, e2: Expr)
    requires !IsBin(op, e1) && !IsBin(op, e2) && FoldedIn(op, e1) && FoldedIn(op, e2)
    ensures var p := StripEq(op, e1, e2);
      && FoldedIn(op, p.e1) && Words(op, p.e1) == Words(op, e1) && (FewWordsIn(op, p.e1) <==> FewWordsIn(op, e1))
      && FoldedIn(op, p.e2) && Words(op, p.e2) == Words(op, e2) && (FewWordsIn(op, p.e2) <==> FewWordsIn(op, e2))
    decreases Size(e1) + Size(e2), 3, 1
  {
    if Matches(e1, e2) {
      assert StripEq(op, e1, e2) == Pass(Neutral(op), Neutral(op), 1);
      assert !IsFreeWord(e1) && !IsFreeWord(e2);
      if !(FewWords(e1) && FewWords(e2)) { ManyWordsDiffer(e1, e2); }
    } else {
      assert StripEq(op, e1, e2) == Pass(e1, e2, 0);
    }
  }

  lemma {:induction false} ManyWordsDiffer(e1: Expr, e2: Expr)
    requires Folded(e1) && Folded(e2) && !(FewWords(e1) && FewWords(e2))
    ensures !ExprEq(e1, e2)
    decreases Size(e1) + Size(e2), 3, 0
  {
    match e1
    case Not(a) => if e2.Not? { ManyWordsDiffer(a, e2.arg); }
    case Bin(op, _, _) =>
      if IsBin(op, e2) {
        FoldedParts(op, e1);
        FoldedParts(op, e2);
        StripKeepsWords(op, e1, e2);
        var p := StripEq(op, e1, e2);
        FoldWords(op, p.e1);
        FoldWords(op, p.e2);
        assert EliminateEq(e1, e2) == Pass(EliminateYn(p.e1), EliminateYn(p.e2), p.count);
      }
    case _ =>
  }

  /** Where no operand is y or n, an expression equals itself exactly if it has few words. */
  lemma ExprEqSelf(e: Expr)
    ensures FewWords(e) ==> ExprEq(e, e)
    ensures Folded(e) ==> (ExprEq(e, e) <==> FewWords(e))
  {
    if FewWords(e) { ExprEqReflexive(e); } else if Folded(e) { ManyWordsDiffer(e, e); }
  }

  /** `"foo" && "bar"` is not found equal to itself. */
  lemma WordsDiffer(foo: string, bar: string)
    requires foo !in {"y", "m", "n"} && bar !in {"y", "m", "n"}
    ensures var e := Bin(And, Leaf(Const(foo)), Leaf(Const(bar))); !ExprEq(e, e)
  {
    var e := Bin(And, Leaf(Const(foo)), Leaf(Const(bar)));
    assert forall w :: w !in {"y", "m", "n"} ==> Const(w) !in {SYM_YES, SYM_MOD, SYM_NO};
    assert IsFreeWord(e.left) && IsFreeWord(e.right);
    assert Words(And, e.left) == 1 && Words(And, e.right) == 1 && Words(And, e) == 2;
    assert !FewWords(e) && Folded(e.left) && Folded(e.right) && Folded(e);
    ExprEqSelf(e);
  }
}
