/** Sequences of elements under a comparison function, and the stable insertion sort on them. */
module Ordering {

  newtype byte = b: int | 0 <= b < 256

  /** An element is the block of bytes that the comparison function is handed. */
  type Elem = seq<byte>
  type Compar = (Elem, Elem) -> int

  /** Names a triple to which transitivity is applied; see Transitive. */
  predicate Triple(x: Elem, y: Elem, z: Elem) { true }

  /** What a caller promises of the comparison: its sign is antisymmetric, and <= is transitive. */
  ghost predicate TotalPreorder(cmp: Compar) {
    && (forall x, y :: cmp(x, y) < 0 <==> cmp(y, x) > 0)
    && (forall x, y, z {:trigger Triple(x, y, z)} ::
          Triple(x, y, z) && cmp(x, y) <= 0 && cmp(y, z) <= 0 ==> cmp(x, z) <= 0)
  }

  lemma Transitive(cmp: Compar, x: Elem, y: Elem, z: Elem)
    requires TotalPreorder(cmp) && cmp(x, y) <= 0 && cmp(y, z) <= 0
    ensures cmp(x, z) <= 0
  {
    assert Triple(x, y, z);
  }

  ghost predicate Sorted(cmp: Compar, s: seq<Elem>) {
    forall i, j :: 0 <= i < j < |s| ==> cmp(s[i], s[j]) <= 0
  }

  /** `lo` is entirely at or below `x`, `hi` at or above it. */
  ghost predicate AllAtMost(cmp: Compar, s: seq<Elem>, x: Elem) { forall y :: y in s ==> cmp(y, x) <= 0 }
  ghost predicate AllAtLeast(cmp: Compar, s: seq<Elem>, x: Elem) { forall y :: y in s ==> cmp(x, y) <= 0 }

  ghost predicate Permutation(s: seq<Elem>, t: seq<Elem>) { multiset(s) == multiset(t) }

  /** Where the scan from the right stops: behind the last element that is not above `x`. */
  function InsertionPoint(cmp: Compar, s: seq<Elem>, x: Elem): (k: nat)
    ensures k <= |s|
    ensures k > 0 ==> cmp(x, s[k - 1]) >= 0
    ensures forall i :: k <= i < |s| ==> cmp(x, s[i]) < 0
  {
    if |s| > 0 && cmp(x, s[|s| - 1]) < 0 then InsertionPoint(cmp, s[..|s| - 1], x) else |s|
  }

  function Insert(cmp: Compar, s: seq<Elem>, x: Elem): seq<Elem> {
    var k := InsertionPoint(cmp, s, x);
    s[..k] + [x] + s[k..]
  }

  function InsertionSorted(cmp: Compar, s: seq<Elem>): (r: seq<Elem>)
    ensures |r| == |s|
  {
    if s == [] then [] else Insert(cmp, InsertionSorted(cmp, s[..|s| - 1]), s[|s| - 1])
  }

  /** Concatenating sorted parts around a pivot. */
  lemma SortedAround(cmp: Compar, lo: seq<Elem>, x: Elem, hi: seq<Elem>)
    requires TotalPreorder(cmp)
    requires Sorted(cmp, lo) && Sorted(cmp, hi) && AllAtMost(cmp, lo, x) && AllAtLeast(cmp, hi, x)
    ensures Sorted(cmp, lo + [x] + hi)
  {
    var s := lo + [x] + hi;
    forall i, j | 0 <= i < j < |s|
      ensures cmp(s[i], s[j]) <= 0
    {
      if i < |lo| && j > |lo| {
        Transitive(cmp, lo[i], x, hi[j - |lo| - 1]);
      }
    }
  }

  lemma InsertSorted(cmp: Compar, s: seq<Elem>, x: Elem)
    requires TotalPreorder(cmp) && Sorted(cmp, s)
    ensures Sorted(cmp, Insert(cmp, s, x))
  {
    var k := InsertionPoint(cmp, s, x);
    forall y | y in s[..k]
      ensures cmp(y, x) <= 0
    {
      assert cmp(s[k - 1], x) <= 0;
      var i :| 0 <= i < k && y == s[i];
      if i < k - 1 { Transitive(cmp, y, s[k - 1], x); }
    }
    SortedAround(cmp, s[..k], x, s[k..]);
  }

  lemma {:induction false} InsertionSortedIsSorted(cmp: Compar, s: seq<Elem>)
    requires TotalPreorder(cmp)
    ensures Sorted(cmp, InsertionSorted(cmp, s))
  {
    if s != [] {
      InsertionSortedIsSorted(cmp, s[..|s| - 1]);
      InsertSorted(cmp, InsertionSorted(cmp, s[..|s| - 1]), s[|s| - 1]);
    }
  }

  lemma InsertPermutes(cmp: Compar, s: seq<Elem>, x: Elem)
    ensures Permutation(Insert(cmp, s, x), s + [x])
  {
    var k := InsertionPoint(cmp, s, x);
    assert s == s[..k] + s[k..];
  }

  lemma {:induction false} InsertionSortedPermutes(cmp: Compar, s: seq<Elem>)
    ensures Permutation(InsertionSorted(cmp, s), s)
  {
    if s != [] {
      var t, x := s[..|s| - 1], s[|s| - 1];
      InsertionSortedPermutes(cmp, t);
      var u := InsertionSorted(cmp, t);
      InsertPermutes(cmp, u, x);
      assert s == t + [x];
    }
  }

  /** The elements of `s` that compare equal to `x`, in order. */
  function Class(cmp: Compar, s: seq<Elem>, x: Elem): seq<Elem> {
    if s == [] then []
    else Class(cmp, s[..|s| - 1], x) + (if cmp(s[|s| - 1], x) == 0 then [s[|s| - 1]] else [])
  }

  lemma {:induction false} ClassConcat(cmp: Compar, s: seq<Elem>, t: seq<Elem>, x: Elem)
    ensures Class(cmp, s + t, x) == Class(cmp, s, x) + Class(cmp, t, x)
  {
    if t == [] {
      assert s + t == s;
    } else {
      assert (s + t)[..|s + t| - 1] == s + t[..|t| - 1];
      ClassConcat(cmp, s, t[..|t| - 1], x);
    }
  }

  lemma {:induction false} ClassAbove(cmp: Compar, s: seq<Elem>, y: Elem, x: Elem)
    requires TotalPreorder(cmp) && cmp(y, x) == 0
    requires forall i :: 0 <= i < |s| ==> cmp(y, s[i]) < 0
    ensures Class(cmp, s, x) == []
  {
    if s != [] {
      ClassAbove(cmp, s[..|s| - 1], y, x);
      var z := s[|s| - 1];
      if cmp(z, x) <= 0 { Transitive(cmp, z, x, y); }
    }
  }

  lemma InsertStable(cmp: Compar, s: seq<Elem>, y: Elem, x: Elem)
    requires TotalPreorder(cmp)
    ensures Class(cmp, Insert(cmp, s, y), x) == Class(cmp, s + [y], x)
  {
    var k := InsertionPoint(cmp, s, y);
    var lo, hi := s[..k], s[k..];
    assert s == lo + hi;
    ClassExchanged(cmp, lo, y, hi, x);
  }

  /** Passing elements above it, y keeps its place in every class. */
  lemma ClassExchanged(cmp: Compar, lo: seq<Elem>, y: Elem, hi: seq<Elem>, x: Elem)
    requires TotalPreorder(cmp) && forall i :: 0 <= i < |hi| ==> cmp(y, hi[i]) < 0
    ensures Class(cmp, lo + [y] + hi, x) == Class(cmp, lo + hi + [y], x)
  {
    ClassBetween(cmp, lo, [y], hi, x);
    ClassBetween(cmp, lo, hi, [y], x);
    if cmp(y, x) == 0 { ClassAbove(cmp, hi, y, x); } else { ClassOther(cmp, y, x); }
    Exchanged(Class(cmp, lo, x), Class(cmp, [y], x), Class(cmp, hi, x));
  }

  lemma Exchanged(a: seq<Elem>, b: seq<Elem>, c: seq<Elem>)
    requires b == [] || c == []
    ensures a + b + c == a + c + b
  {}

  lemma ClassOther(cmp: Compar, y: Elem, x: Elem)
    requires cmp(y, x) != 0
    ensures Class(cmp, [y], x) == []
  {
    assert [y][..0] == [];
  }

  lemma ClassBetween(cmp: Compar, a: seq<Elem>, b: seq<Elem>, c: seq<Elem>, x: Elem)
    ensures Class(cmp, a + b + c, x) == Class(cmp, a, x) + Class(cmp, b, x) + Class(cmp, c, x)
  {
    ClassConcat(cmp, a + b, c, x);
    ClassConcat(cmp, a, b, x);
  }

  /** Insertion sort is stable: elements that compare equal keep their order. */
  lemma {:induction false} InsertionSortedStable(cmp: Compar, s: seq<Elem>, x: Elem)
    requires TotalPreorder(cmp)
    ensures Class(cmp, InsertionSorted(cmp, s), x) == Class(cmp, s, x)
  {
    if s != [] {
      var t, y := s[..|s| - 1], s[|s| - 1];
      assert s == t + [y];
      InsertionSortedStable(cmp, t, x);
      StableStep(cmp, t, y, x);
    }
  }

  lemma StableStep(cmp: Compar, t: seq<Elem>, y: Elem, x: Elem)
    requires TotalPreorder(cmp) && Class(cmp, InsertionSorted(cmp, t), x) == Class(cmp, t, x)
    ensures Class(cmp, InsertionSorted(cmp, t + [y]), x) == Class(cmp, t + [y], x)
  {
    SortedSnoc(cmp, t, y);
    InsertedClass(cmp, InsertionSorted(cmp, t), t, y, x);
  }

  lemma SortedSnoc(cmp: Compar, t: seq<Elem>, y: Elem)
    ensures InsertionSorted(cmp, t + [y]) == Insert(cmp, InsertionSorted(cmp, t), y)
  {
    var s := t + [y];
    assert s[..|s| - 1] == t && s[|s| - 1] == y;
  }

  lemma InsertedClass(cmp: Compar, u: seq<Elem>, t: seq<Elem>, y: Elem, x: Elem)
    requires TotalPreorder(cmp) && Class(cmp, u, x) == Class(cmp, t, x)
    ensures Class(cmp, Insert(cmp, u, y), x) == Class(cmp, t + [y], x)
  {
    InsertStable(cmp, u, y, x);
    ClassConcat(cmp, u, [y], x);
    ClassConcat(cmp, t, [y], x);
  }

  lemma PermutationMembers(s: seq<Elem>, t: seq<Elem>, x: Elem)
    requires Permutation(s, t)
    ensures x in s <==> x in t
  {
    assert x in s <==> x in multiset(s);
    assert x in t <==> x in multiset(t);
  }

  lemma PermutationKeepsBounds(cmp: Compar, s: seq<Elem>, t: seq<Elem>, x: Elem)
    requires Permutation(s, t)
    ensures AllAtMost(cmp, s, x) ==> AllAtMost(cmp, t, x)
    ensures AllAtLeast(cmp, s, x) ==> AllAtLeast(cmp, t, x)
  {
    forall y | y in t
      ensures y in s
    {
      PermutationMembers(s, t, y);
    }
  }
}
