/** The depth-first search for recursive dependencies. */
module DepGraph {
  import opened Exprs
  import opened Symbols
  import opened Walks

  /** The symbols that evaluating a symbol may consult. */
  function DepsOf(t: Table): Graph { x => Deps(t, x) }

  // ----- what the search decides -----

  /** With the symbols of `busy` on the stack, visiting x finds no recursion. */
  ghost predicate Clean(t: Table, all: set<Sym>, done: set<Sym>, x: Sym, busy: set<Sym>)
    requires Closed(t, all) && x in all
    decreases all - busy
  {
    x in done || (x !in busy && forall y :: y in Deps(t, x) ==> Clean(t, all, done, y, busy + {x}))
  }

  ghost predicate CleanAll(t: Table, all: set<Sym>, done: set<Sym>, xs: seq<Sym>, busy: set<Sym>)
    requires Closed(t, all) && (forall y :: y in xs ==> y in all)
  {
    forall y :: y in xs ==> Clean(t, all, done, y, busy)
  }

  lemma CleanAllConcat(t: Table, all: set<Sym>, done: set<Sym>, xs: seq<Sym>, ys: seq<Sym>, busy: set<Sym>)
    requires Closed(t, all) && forall y :: y in xs + ys ==> y in all
    ensures (forall y :: y in xs ==> y in all) && (forall y :: y in ys ==> y in all)
    ensures CleanAll(t, all, done, xs + ys, busy) <==>
      CleanAll(t, all, done, xs, busy) && CleanAll(t, all, done, ys, busy)
  {
    assert forall y :: y in xs + ys <==> y in xs || y in ys;
  }

  lemma Regrouped(a: seq<Sym>, b: seq<Sym>, c: seq<Sym>)
    ensures a + (b + c) == a + b + c
  {}

  /** A visit that is not clean comes from a walk that repeats a symbol or returns to the stack. */
  lemma {:induction false} NotCleanHasWalk(t: Table, all: set<Sym>, done: set<Sym>, x: Sym, busy: set<Sym>)
    returns (p: seq<Sym>)
    requires Closed(t, all) && x in all && !Clean(t, all, done, x, busy)
    ensures IsPathFrom(DepsOf(t), p, x) && (HasRepeat(p) || p[|p| - 1] in busy)
    decreases all - busy
  {
    if x in busy {
      p := [x];
    } else {
      var y :| y in Deps(t, x) && !Clean(t, all, done, y, busy + {x});
      var q := NotCleanHasWalk(t, all, done, y, busy + {x});
      p := [x] + q;
      Prepend(DepsOf(t), x, q);
      assert p[|p| - 1] == q[|q| - 1];
      if q[|q| - 1] == x { assert p[0] == p[|p| - 1]; }
    }
  }

  /** From a clean symbol, a walk that avoids finished symbols stays off the stack and never repeats. */
  lemma {:induction false} CleanWalk(t: Table, all: set<Sym>, done: set<Sym>, x: Sym, busy: set<Sym>, p: seq<Sym>)
    requires Closed(t, all) && x in all && Clean(t, all, done, x, busy)
    requires IsPathFrom(DepsOf(t), p, x) && forall y :: y in p ==> y !in done
    ensures forall y :: y in p ==> y !in busy
    ensures !HasRepeat(p)
    decreases |p|
  {
    assert p[0] == x;
    if |p| > 1 {
      var q := p[1..];
      CleanWalk(t, all, done, q[0], busy + {x}, q);
      forall i, j | 0 <= i < j < |p|
        ensures p[i] != p[j]
      {
        assert p[j] == q[j - 1];
        if i > 0 { assert p[i] == q[i - 1]; }
      }
    }
  }

  /** Provided finished symbols reach no cycle, a visit is clean exactly when x reaches none. */
  lemma CleanIsAcyclic(t: Table, all: set<Sym>, done: set<Sym>, x: Sym)
    requires Closed(t, all) && x in all
    requires forall d :: d in done ==> !ReachesCycle(DepsOf(t), d)
    ensures Clean(t, all, done, x, {}) <==> !ReachesCycle(DepsOf(t), x)
  {
    if !Clean(t, all, done, x, {}) {
      var p := NotCleanHasWalk(t, all, done, x, {});
    } else {
      forall p | IsPathFrom(DepsOf(t), p, x)
        ensures !HasRepeat(p)
      {
        forall i, j | 0 <= i < j < |p|
          ensures p[i] != p[j]
        {
          CleanHasNoRepeat(t, all, done, x, p, i, j);
        }
      }
    }
  }

  lemma CleanHasNoRepeat(t: Table, all: set<Sym>, done: set<Sym>, x: Sym, p: seq<Sym>, i: nat, j: nat)
    requires Closed(t, all) && x in all && Clean(t, all, done, x, {})
    requires forall d :: d in done ==> !ReachesCycle(DepsOf(t), d)
    requires IsPathFrom(DepsOf(t), p, x) && i < j < |p|
    ensures p[i] != p[j]
  {
    if p[i] == p[j] {
      var q := FrontWalk(DepsOf(t), p, i, j);
      if k :| 0 <= k < |q| && q[k] in done {
        RepeatAround(DepsOf(t), q, k, i, j);
      } else {
        CleanWalk(t, all, done, x, {}, q);
      }
    }
  }

  // ----- the search -----

  /** What is marked between `before` and `after` is reachable from one of `xs`. */
  ghost predicate Marks(t: Table, before: set<Sym>, after: set<Sym>, xs: seq<Sym>) {
    && before <= after
    && forall y :: y in after && y !in before ==> exists x :: x in xs && Reaches(DepsOf(t), x, y)
  }

  /** What is reported is reachable from one of `xs`; it is on the stack, or on a cycle. */
  ghost predicate Culprit(t: Table, r: Option<Sym>, xs: seq<Sym>, stack: set<Sym>) {
    r.Some? ==>
      && (exists x :: x in xs && Reaches(DepsOf(t), x, r.value))
      && (r.value in stack || OnCycle(DepsOf(t), r.value))
  }

  lemma CulpritWiden(t: Table, r: Option<Sym>, xs: seq<Sym>, ys: seq<Sym>, stack: set<Sym>)
    requires Culprit(t, r, xs, stack) && forall x :: x in xs ==> x in ys
    ensures Culprit(t, r, ys, stack)
  {}

  /** What is reported below x is also reported from x, where x itself closes a cycle. */
  lemma CulpritFrom(t: Table, r: Option<Sym>, xs: seq<Sym>, stack: set<Sym>, x: Sym)
    requires Culprit(t, r, xs, stack + {x}) && forall y :: y in xs ==> y in Deps(t, x)
    ensures Culprit(t, r, [x], stack)
  {
    if r.Some? {
      var y :| y in xs && Reaches(DepsOf(t), y, r.value);
      ReachesStep(DepsOf(t), x, y, r.value);
      assert x in [x];
    }
  }

  lemma MarksTrans(t: Table, a: set<Sym>, b: set<Sym>, c: set<Sym>, xs: seq<Sym>, ys: seq<Sym>)
    requires Marks(t, a, b, xs) && Marks(t, b, c, ys)
    ensures Marks(t, a, c, xs + ys)
  {
    forall y | y in c && y !in a
      ensures exists x :: x in xs + ys && Reaches(DepsOf(t), x, y)
    {
      if y in b {
        var x :| x in xs && Reaches(DepsOf(t), x, y);
        assert x in xs + ys;
      } else {
        var x :| x in ys && Reaches(DepsOf(t), x, y);
        assert x in xs + ys;
      }
    }
  }

  lemma MarksWiden(t: Table, a: set<Sym>, b: set<Sym>, xs: seq<Sym>, ys: seq<Sym>)
    requires Marks(t, a, b, xs) && forall x :: x in xs ==> x in ys
    ensures Marks(t, a, b, ys)
  {}

  lemma MarksFrom(t: Table, before: set<Sym>, after: set<Sym>, x: Sym)
    requires exists xs :: (forall y :: y in xs ==> y in Deps(t, x)) && Marks(t, before + {x}, after, xs)
    ensures Marks(t, before, after, [x])
  {
    var xs :| (forall y :: y in xs ==> y in Deps(t, x)) && Marks(t, before + {x}, after, xs);
    assert x in [x];
    ReachesItself(DepsOf(t), x);
    forall z | z in after && z !in before && z != x
      ensures Reaches(DepsOf(t), x, z)
    {
      var y :| y in xs && Reaches(DepsOf(t), y, z);
      ReachesStep(DepsOf(t), x, y, z);
    }
  }

  class Checker {
    const table: Table
    ghost const all: set<Sym>
    /** The SYMBOL_CHECK, SYMBOL_CHECKED and SYMBOL_CHECK_DONE flags. */
    var check: set<Sym>
    var checked: set<Sym>
    var done: set<Sym>

    constructor (table: Table, ghost all: set<Sym>)
      requires Closed(table, all)
      ensures Valid() && this.table == table && this.all == all
      ensures check == {} && checked == {} && done == {}
    {
      this.table, this.all := table, all;
      check, checked, done := {}, {}, {};
    }

    ghost predicate Valid()
      reads this
    {
      Closed(table, all)
    }

    method CheckDeps(x: Sym) returns (r: Option<Sym>)
      requires Valid() && x in all
      modifies this`check, this`checked
      ensures check == old(check)
      ensures Marks(table, old(checked), checked, [x])
      ensures r.None? <==> Clean(table, all, done, x, old(check))
      ensures old(check) == {} && (forall d :: d in done ==> !ReachesCycle(DepsOf(table), d)) ==>
        (r.None? <==> !ReachesCycle(DepsOf(table), x))
      ensures Culprit(table, r, [x], check)
      ensures check == {} && r.Some? ==> Reaches(DepsOf(table), x, r.value) && OnCycle(DepsOf(table), r.value)
      decreases all - check, 1, 0
    {
      if check == {} && forall d :: d in done ==> !ReachesCycle(DepsOf(table), d) {
        CleanIsAcyclic(table, all, done, x);
      }
      if x in done { return None; }
      ReachesItself(DepsOf(table), x);
      assert x in [x];
      if x in check { return Some(x); }
      ghost var before, stack := checked, check;
      check, checked := check + {x}, checked + {x};
      r := CheckBelow(x);
      MarksFrom(table, before, checked, x);
      CulpritFrom(table, r, Deps(table, x), stack, x);
      check := check - {x};
      assert check == stack;
    }

    /** The symbols that x depends on, while x is on the stack. */
    method CheckBelow(x: Sym) returns (r: Option<Sym>)
      requires Valid() && x in all
      modifies this`check, this`checked
      ensures check == old(check)
      ensures Marks(table, old(checked), checked, Deps(table, x))
      ensures r.None? <==> CleanAll(table, all, done, Deps(table, x), check)
      ensures Culprit(table, r, Deps(table, x), check)
      decreases all - check, 6, 0
    {
      ghost var before := checked;
      var info := Info(table, x);
      ghost var xs, ys := OptSyms(info.revDep), PropsSyms(info.props, info.isChoice);
      assert Deps(table, x) == xs + ys;
      CleanAllConcat(table, all, done, xs, ys, check);
      r := CheckOptDeps(info.revDep);
      if r.Some? {
        MarksWiden(table, before, checked, xs, xs + ys);
        CulpritWiden(table, r, xs, xs + ys, check);
        return;
      }
      ghost var between := checked;
      r := CheckProps(info.props, info.isChoice);
      MarksTrans(table, before, between, checked, xs, ys);
      CulpritWiden(table, r, ys, xs + ys, check);
    }

    method CheckProps(ps: seq<Property>, isChoice: bool) returns (r: Option<Sym>)
      requires Valid() && forall y :: y in PropsSyms(ps, isChoice) ==> y in all
      modifies this`check, this`checked
      ensures check == old(check)
      ensures Marks(table, old(checked), checked, PropsSyms(ps, isChoice))
      ensures r.None? <==> CleanAll(table, all, done, PropsSyms(ps, isChoice), check)
      ensures Culprit(table, r, PropsSyms(ps, isChoice), check)
      decreases all - check, 5, 0
    {
      r := None;
      ghost var before := checked;
      ghost var seen: seq<Sym> := [];
      var rest := ps;
      while rest != []
        invariant check == old(check) && done == old(done)
        invariant r.None? && PropsSyms(ps, isChoice) == seen + PropsSyms(rest, isChoice)
        invariant Marks(table, before, checked, seen)
        invariant CleanAll(table, all, done, PropsSyms(ps, isChoice), check) <==>
                  CleanAll(table, all, done, PropsSyms(rest, isChoice), check)
      {
        ghost var between := checked;
        ghost var now, later := PropSyms(rest[0], isChoice), PropsSyms(rest[1..], isChoice);
        assert PropsSyms(rest, isChoice) == now + later;
        Regrouped(seen, now, later);
        CleanAllConcat(table, all, done, now, later, check);
        r := CheckProp(rest[0], isChoice);
        MarksTrans(table, before, between, checked, seen, now);
        if r.Some? {
          MarksWiden(table, before, checked, seen + now, PropsSyms(ps, isChoice));
          CulpritWiden(table, r, now, PropsSyms(ps, isChoice), check);
          return;
        }
        seen := seen + now;
        rest := rest[1..];
      }
      assert seen == PropsSyms(ps, isChoice);
    }

    method CheckProp(p: Property, isChoice: bool) returns (r: Option<Sym>)
      requires Valid() && forall y :: y in PropSyms(p, isChoice) ==> y in all
      modifies this`check, this`checked
      ensures check == old(check)
      ensures Marks(table, old(checked), checked, PropSyms(p, isChoice))
      ensures r.None? <==> CleanAll(table, all, done, PropSyms(p, isChoice), check)
      ensures Culprit(table, r, PropSyms(p, isChoice), check)
      decreases all - check, 4, 0
    {
      if p.kind == ChoiceProp || p.kind == Select { return None; }
      ghost var before := checked;
      r := CheckOptDeps(p.visible);
      CulpritWiden(table, r, OptSyms(p.visible), PropSyms(p, isChoice), check);
      if r.Some? || p.kind != Default || isChoice { return; }
      ghost var between := checked;
      r := CheckOptDeps(p.expr);
      MarksTrans(table, before, between, checked, OptSyms(p.visible), OptSyms(p.expr));
      CulpritWiden(table, r, OptSyms(p.expr), PropSyms(p, isChoice), check);
    }

    method CheckOptDeps(e: Option<Expr>) returns (r: Option<Sym>)
      requires Valid() && forall y :: y in OptSyms(e) ==> y in all
      modifies this`check, this`checked
      ensures check == old(check)
      ensures Marks(table, old(checked), checked, OptSyms(e))
      ensures r.None? <==> CleanAll(table, all, done, OptSyms(e), check)
      ensures Culprit(table, r, OptSyms(e), check)
      decreases all - check, 3, 0
    {
      r := None;
      if e.Some? { r := CheckExprDeps(e.value); }
    }

    method CheckExprDeps(e: Expr) returns (r: Option<Sym>)
      requires Valid() && forall y :: y in ExprSyms(e) ==> y in all
      modifies this`check, this`checked
      ensures check == old(check)
      ensures Marks(table, old(checked), checked, ExprSyms(e))
      ensures r.None? <==> CleanAll(table, all, done, ExprSyms(e), check)
      ensures Culprit(table, r, ExprSyms(e), check)
      decreases all - check, 2, e
    {
      ghost var before := checked;
      match e
      case Leaf(x) => r := CheckDeps(x);
      case Not(a) => r := CheckExprDeps(a);
      case Cmp(_, x, y) =>
        r := CheckDeps(x);
        CulpritWiden(table, r, [x], [x, y], check);
        if r.None? {
          ghost var between := checked;
          r := CheckDeps(y);
          MarksTrans(table, before, between, checked, [x], [y]);
          CulpritWiden(table, r, [y], [x, y], check);
        }
      case Bin(_, a, b) =>
        r := CheckExprDeps(a);
        CulpritWiden(table, r, ExprSyms(a), ExprSyms(e), check);
        if r.None? {
          ghost var between := checked;
          r := CheckExprDeps(b);
          MarksTrans(table, before, between, checked, ExprSyms(a), ExprSyms(b));
          CulpritWiden(table, r, ExprSyms(b), ExprSyms(e), check);
        }
    }

    /**
     * The loop after parsing: every symbol not yet visited is searched; the others are marked
     * DONE without a search. A recursion is reported exactly when some symbol reaches a cycle,
     * and until one is reported, DONE marks only symbols that reach none.
     */
    method CheckEverything(order: seq<Sym>) returns (reported: bool)
      requires Valid() && forall x :: x in order ==> x in all
      requires check == {} && checked == {} && done == {}
      modifies this
      ensures check == {}
      ensures reported <==> exists x :: x in order && ReachesCycle(DepsOf(table), x)
      ensures !reported ==> forall x :: x in done ==> !ReachesCycle(DepsOf(table), x)
    {
      reported := false;
      var i := 0;
      while i < |order|
        invariant i <= |order| && check == {} && Valid()
        invariant reported ==> exists x :: x in order && ReachesCycle(DepsOf(table), x)
        invariant !reported ==> forall x :: x in checked + done ==> !ReachesCycle(DepsOf(table), x)
        invariant !reported ==> forall j :: 0 <= j < i ==> !ReachesCycle(DepsOf(table), order[j])
      {
        var x := order[i];
        if x !in checked {
          ghost var before := checked;
          var r := CheckDeps(x);
          if !reported { NewlyChecked(table, all, done, before, checked, x); }
          if r.Some? {
            reported := true;
          } else {
            done := done + {x};
          }
        } else {
          done := done + {x};
        }
        i := i + 1;
      }
    }
  }

  /** After a visit that found nothing, everything it marked reaches no cycle. */
  lemma NewlyChecked(t: Table, all: set<Sym>, done: set<Sym>, before: set<Sym>, after: set<Sym>, x: Sym)
    requires Closed(t, all) && x in all && Marks(t, before, after, [x])
    requires forall y :: y in before + done ==> !ReachesCycle(DepsOf(t), y)
    ensures Clean(t, all, done, x, {}) <==> !ReachesCycle(DepsOf(t), x)
    ensures Clean(t, all, done, x, {}) ==> forall y :: y in after ==> !ReachesCycle(DepsOf(t), y)
  {
    CleanIsAcyclic(t, all, done, x);
    if Clean(t, all, done, x, {}) {
      forall y | y in after && y !in before
        ensures !ReachesCycle(DepsOf(t), y)
      {
        assert Reaches(DepsOf(t), x, y);
        if ReachesCycle(DepsOf(t), y) { ReachesCycleBack(DepsOf(t), x, y); }
      }
    }
  }
}
