/** The three-valued logic of Kconfig and the dependency expressions built on it. */
module Tristates {

  /** n < m < y, as the enumeration orders them. */
  type Tristate = t: int | 0 <= t <= 2

  const NO: Tristate := 0
  const MOD: Tristate := 1
  const YES: Tristate := 2

  /** E_AND and E_OR: one connective type keeps the two dual cases together. */
  datatype Conn = Or | And

  function Flip(op: Conn): Conn { if op.Or? then And else Or }

  function Apply(op: Conn, a: Tristate, b: Tristate): Tristate {
    match op
    case Or => if a > b then a else b
    case And => if a < b then a else b
  }

  function Negate(a: Tristate): Tristate { 2 - a }

  /** The value that `op` ignores, and the one that decides it. */
  function NeutralValue(op: Conn): Tristate { if op.Or? then NO else YES }
  function AbsorbingValue(op: Conn): Tristate { if op.Or? then YES else NO }

  /** `to` agrees with `from` wherever `from` is already decided. */
  predicate Sharpens(from: Tristate, to: Tristate) { from == MOD || to == from }
}

module Exprs {
  import opened Tristates

  datatype Option<+T> = None | Some(value: T)

  datatype SymType = Unknown | Boolean | Tri | Int | Hex | String

  /**
   * A symbol stands for the pointer the program compares. A constant is its name: the symbol
   * table hands out one pointer per constant name (SymLookup.ConstantsAreInterned).
   */
  datatype Sym = Const(name: string) | Config(id: nat, name: string, ty: SymType)
  {
    function Type(): SymType { if Const? then Unknown else ty }
    predicate IsTristate() { Config? && (ty == Boolean || ty == Tri) }
  }

  const SYM_YES: Sym := Const("y")
  const SYM_MOD: Sym := Const("m")
  const SYM_NO: Sym := Const("n")

  datatype Expr =
    | Leaf(sym: Sym)
    | Not(arg: Expr)
    | Cmp(equal: bool, lhs: Sym, rhs: Sym)
    | Bin(op: Conn, left: Expr, right: Expr)

  const EXPR_YES: Expr := Leaf(SYM_YES)
  const EXPR_NO: Expr := Leaf(SYM_NO)

  /** The constant that a connective ignores, and the one that decides it. */
  function Neutral(op: Conn): Expr { if op.Or? then EXPR_NO else EXPR_YES }
  function Absorbing(op: Conn): Expr { if op.Or? then EXPR_YES else EXPR_NO }

  predicate IsBin(op: Conn, e: Expr) { e.Bin? && e.op == op }

  function Size(e: Expr): (n: nat)
    ensures n > 0
  {
    match e
    case Leaf(_) => 1
    case Cmp(_, _, _) => 1
    case Not(a) => 1 + Size(a)
    case Bin(_, l, r) => 1 + Size(l) + Size(r)
  }

  /** The current value of every config symbol: a tristate, and a string for the other types. */
  datatype State = State(tri: Sym -> Tristate, str: Sym -> string)

  /** Boolean symbols are never m. */
  ghost predicate Legal(s: State) {
    forall x: Sym :: x.Type() == Boolean ==> s.tri(x) != MOD
  }

  /** No symbol at all is m. */
  ghost predicate TwoValued(s: State) {
    forall x: Sym :: s.tri(x) != MOD
  }

  function TriName(t: Tristate): string {
    if t == NO then "n" else if t == MOD then "m" else "y"
  }

  function TriOf(x: Sym, s: State): Tristate {
    match x
    case Const(_) => if x == SYM_YES then YES else if x == SYM_MOD then MOD else NO
    case Config(_, _, ty) => if x.IsTristate() then s.tri(x) else NO
  }

  function StrOf(x: Sym, s: State): string {
    match x
    case Const(name) => name
    case Config(_, name, ty) =>
      if x.IsTristate() then TriName(s.tri(x))
      else if ty == Unknown then name
      else s.str(x)
  }

  function Eval(e: Expr, s: State): Tristate {
    match e
    case Leaf(x) => TriOf(x, s)
    case Not(a) => Negate(Eval(a, s))
    case Cmp(eq, l, r) => if (StrOf(l, s) == StrOf(r, s)) == eq then YES else NO
    case Bin(op, l, r) => Apply(op, Eval(l, s), Eval(r, s))
  }

  /** A missing expression counts as y. */
  function EvalOpt(e: Option<Expr>, s: State): Tristate {
    if e.None? then YES else Eval(e.value, s)
  }

  lemma ConstantValues(s: State)
    ensures Eval(EXPR_YES, s) == YES && Eval(EXPR_NO, s) == NO && Eval(Leaf(SYM_MOD), s) == MOD
    ensures forall op :: Eval(Neutral(op), s) == NeutralValue(op)
    ensures forall op :: Eval(Absorbing(op), s) == AbsorbingValue(op)
  {
    assert "y"[0] != "m"[0] && "n"[0] != "m"[0] && "y"[0] != "n"[0];
  }

  lemma TriNamesDiffer(a: Tristate, b: Tristate)
    ensures TriName(a) == TriName(b) <==> a == b
  {
    assert TriName(a)[0] == TriName(b)[0] <==> a == b;
  }

  function ExprAnd(a: Option<Expr>, b: Option<Expr>): (r: Option<Expr>) {
    if a.None? then b else if b.None? then a else Some(Bin(And, a.value, b.value))
  }

}
