/** Walks in a directed graph, and the cycles they run into. */
module Walks {
  import opened Exprs

  /** The successors of every node. */
  type Graph = Sym -> seq<Sym>

  /** A walk along dependencies. */
  ghost predicate IsPath(g: Graph, p: seq<Sym>) {
    |p| > 0 && (|p| > 1 ==> p[1] in g(p[0]) && IsPath(g, p[1..]))
  }

  ghost predicate IsPathFrom(g: Graph, p: seq<Sym>, x: Sym) { IsPath(g, p) && p[0] == x }

  ghost predicate HasRepeat(p: seq<Sym>) { exists i, j :: 0 <= i < j < |p| && p[i] == p[j] }

  /** Some walk from x comes back to a symbol it has visited. */
  ghost predicate ReachesCycle(g: Graph, x: Sym) {
    exists p :: IsPathFrom(g, p, x) && HasRepeat(p)
  }

  ghost predicate Reaches(g: Graph, x: Sym, y: Sym) {
    exists p :: IsPathFrom(g, p, x) && p[|p| - 1] == y
  }

  ghost predicate OnCycle(g: Graph, x: Sym) { exists y :: y in g(x) && Reaches(g, y, x) }

  lemma Prepend(g: Graph, x: Sym, p: seq<Sym>)
    requires IsPath(g, p) && p[0] in g(x)
    ensures IsPathFrom(g, [x] + p, x) && (HasRepeat(p) ==> HasRepeat([x] + p))
  {
    assert ([x] + p)[1..] == p;
    if HasRepeat(p) {
      var i, j :| 0 <= i < j < |p| && p[i] == p[j];
      assert ([x] + p)[i + 1] == ([x] + p)[j + 1];
    }
  }

  lemma {:induction false} SubPath(g: Graph, p: seq<Sym>, i: nat, j: nat)
    requires IsPath(g, p) && i < j <= |p|
    ensures IsPath(g, p[i..j])
  {
    if i > 0 {
      SubPath(g, p[1..], i - 1, j - 1);
      assert p[1..][i - 1..j - 1] == p[i..j];
    } else if j > 1 {
      SubPath(g, p[1..], 0, j - 1);
      assert p[1..][0..j - 1] == p[0..j][1..];
    }
  }

  lemma SubWalk(g: Graph, p: seq<Sym>, i: nat, j: nat) returns (q: seq<Sym>)
    requires IsPath(g, p) && i < j <= |p|
    ensures IsPath(g, q) && q[0] == p[i] && q[|q| - 1] == p[j - 1]
  {
    q := p[i..j];
    SubPath(g, p, i, j);
  }

  lemma FrontWalk(g: Graph, p: seq<Sym>, i: nat, j: nat) returns (q: seq<Sym>)
    requires IsPath(g, p) && i <= j < |p|
    ensures IsPathFrom(g, q, p[0]) && |q| == j + 1 && q[i] == p[i] && q[j] == p[j]
  {
    q := p[0..j + 1];
    SubPath(g, p, 0, j + 1);
  }

  lemma {:induction false} JoinPaths(g: Graph, p: seq<Sym>, q: seq<Sym>)
    requires IsPath(g, p) && IsPath(g, q) && q[0] in g(p[|p| - 1])
    ensures IsPath(g, p + q) && (p + q)[0] == p[0] && (p + q)[|p + q| - 1] == q[|q| - 1]
  {
    assert (p + q)[1..] == p[1..] + q;
    if |p| > 1 { JoinPaths(g, p[1..], q); }
  }

  lemma {:induction false} PathStep(g: Graph, p: seq<Sym>, i: nat)
    requires IsPath(g, p) && i + 1 < |p|
    ensures p[i + 1] in g(p[i])
  {
    if i > 0 { PathStep(g, p[1..], i - 1); }
  }

  /** A walk through a symbol from which no cycle is reachable does not repeat after it, nor around it. */
  lemma RepeatAround(g: Graph, p: seq<Sym>, k: nat, i: nat, j: nat)
    requires IsPath(g, p) && k < |p| && i < j < |p| && p[i] == p[j] && k <= j
    ensures ReachesCycle(g, p[k])
  {
    if k <= i {
      var q := p[k..|p|];
      SubPath(g, p, k, |p|);
      assert q[i - k] == q[j - k];
      assert IsPathFrom(g, q, p[k]) && HasRepeat(q);
    } else {
      TurnAround(g, p, k, i, j);
    }
  }

  /** p[i], ..., p[k], ..., p[j] = p[i] leads from p[k] back to p[k]. */
  lemma TurnAround(g: Graph, p: seq<Sym>, k: nat, i: nat, j: nat)
    requires IsPath(g, p) && i < k <= j < |p| && p[i] == p[j]
    ensures ReachesCycle(g, p[k])
  {
    var a := SubWalk(g, p, k, j + 1);
    var b := SubWalk(g, p, i + 1, k + 1);
    PathStep(g, p, i);
    CloseWalk(g, a, b);
  }

  lemma CloseWalk(g: Graph, p: seq<Sym>, q: seq<Sym>)
    requires IsPath(g, p) && IsPath(g, q) && q[0] in g(p[|p| - 1]) && q[|q| - 1] == p[0]
    ensures ReachesCycle(g, p[0])
  {
    JoinPaths(g, p, q);
    RoundTrip(g, p + q, p[0]);
  }

  lemma RoundTrip(g: Graph, q: seq<Sym>, x: Sym)
    requires IsPath(g, q) && |q| > 1 && q[0] == x && q[|q| - 1] == x
    ensures ReachesCycle(g, x)
  {
    assert IsPathFrom(g, q, x) && HasRepeat(q);
  }

  lemma ReachesStep(g: Graph, x: Sym, y: Sym, z: Sym)
    requires y in g(x) && Reaches(g, y, z)
    ensures Reaches(g, x, z)
  {
    var p :| IsPathFrom(g, p, y) && p[|p| - 1] == z;
    Prepend(g, x, p);
    assert ([x] + p)[|[x] + p| - 1] == z;
  }

  lemma ReachesItself(g: Graph, x: Sym)
    ensures Reaches(g, x, x)
  {
    assert IsPathFrom(g, [x], x);
  }

  lemma ReachesCycleBack(g: Graph, x: Sym, y: Sym)
    requires Reaches(g, x, y) && ReachesCycle(g, y)
    ensures ReachesCycle(g, x)
  {
    var p :| IsPathFrom(g, p, x) && p[|p| - 1] == y;
    var q :| IsPathFrom(g, q, y) && HasRepeat(q);
    WalkOnRepeats(g, p, q);
  }

  /** A walk ending where another one starts that repeats. */
  lemma {:induction false} WalkOnRepeats(g: Graph, p: seq<Sym>, q: seq<Sym>)
    requires IsPath(g, p) && IsPath(g, q) && p[|p| - 1] == q[0] && HasRepeat(q)
    ensures ReachesCycle(g, p[0])
  {
    if |p| == 1 {
      assert IsPathFrom(g, q, p[0]);
    } else {
      WalkOnRepeats(g, p[1..], q);
      var r :| IsPathFrom(g, r, p[1]) && HasRepeat(r);
      Prepend(g, p[0], r);
    }
  }
}
