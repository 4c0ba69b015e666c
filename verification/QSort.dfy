/** qsort: quicksort with a moving pivot, insertion sort for small or already ordered parts. */
module QSort {
  import opened Ordering
  import opened ByteBuffer

  const MTHRESH := 6
  const THRESH := 4

  /** Only elements lo..hi have moved, and only among themselves. */
  ghost predicate Rearranged(v: seq<Elem>, w: seq<Elem>, lo: nat, hi: nat) {
    && lo <= hi <= |v| && |w| == |v|
    && w[..lo] == v[..lo] && w[hi..] == v[hi..]
    && Permutation(w[lo..hi], v[lo..hi])
  }

  lemma RearrangedTrans(u: seq<Elem>, v: seq<Elem>, w: seq<Elem>, lo: nat, hi: nat)
    requires Rearranged(u, v, lo, hi) && Rearranged(v, w, lo, hi)
    ensures Rearranged(u, w, lo, hi)
  {}

  lemma RearrangedWiden(v: seq<Elem>, w: seq<Elem>, lo: nat, hi: nat, lo': nat, hi': nat)
    requires Rearranged(v, w, lo, hi) && lo' <= lo && hi <= hi' <= |v|
    ensures Rearranged(v, w, lo', hi')
  {
    assert v[lo'..hi'] == v[lo'..lo] + v[lo..hi] + v[hi..hi'];
    assert w[lo'..hi'] == w[lo'..lo] + w[lo..hi] + w[hi..hi'];
    assert w[lo'..lo] == w[..lo][lo'..] && v[lo'..lo] == v[..lo][lo'..];
    assert w[hi..hi'] == w[hi..][..hi' - hi] && v[hi..hi'] == v[hi..][..hi' - hi];
    assert w[..lo'] == w[..lo][..lo'] && w[hi'..] == w[hi..][hi' - hi..];
  }

  lemma SwapRearranges(v: seq<Elem>, i: nat, j: nat, lo: nat, hi: nat)
    requires lo <= i < hi <= |v| && lo <= j < hi
    ensures Rearranged(v, Swapped(v, i, j), lo, hi)
  {
    var w := Swapped(v, i, j);
    assert w[lo..hi] == v[lo..hi][i - lo := v[j]][j - lo := v[i]];
  }

  /** What a sort of the elements lo..hi leaves behind. */
  ghost predicate SortedPart(cmp: Compar, v: seq<Elem>, w: seq<Elem>, lo: nat, hi: nat) {
    Rearranged(v, w, lo, hi) && Sorted(cmp, w[lo..hi])
  }

  // ----- insertion sort -----

  lemma InsertionPointIs(cmp: Compar, s: seq<Elem>, x: Elem, k: nat)
    requires k <= |s| && (k > 0 ==> cmp(x, s[k - 1]) >= 0)
    requires forall i :: k <= i < |s| ==> cmp(x, s[i]) < 0
    ensures InsertionPoint(cmp, s, x) == k
  {}

  /** Where the element at t belongs among the elements lo..t. */
  function InsertionIndex(cmp: Compar, w: seq<Elem>, lo: nat, t: nat): (k: nat)
    requires lo <= t < |w|
    ensures lo <= k <= t
  {
    lo + InsertionPoint(cmp, w[lo..t], w[t])
  }

  /** Scans down from t while the element there is above the one at t. */
  method FindInsertion(a: array<byte>, size: nat, n: nat, cmp: Compar, lo: nat, t: nat) returns (k: nat)
    requires Sized(a[..], size, n) && lo <= t < n
    ensures lo <= k <= t
    ensures k == InsertionIndex(cmp, View(a[..], size, n), lo, t)
  {
    k := t;
    while k > lo && CompareAt(a[..], size, n, cmp, t, k - 1) < 0
      invariant lo <= k <= t
      invariant forall i :: k <= i < t ==> cmp(View(a[..], size, n)[t], View(a[..], size, n)[i]) < 0
    {
      k := k - 1;
    }
    ghost var w := View(a[..], size, n);
    InsertionPointIs(cmp, w[lo..t], w[t], k - lo);
  }

  /** `w` is `v` with the part `lo..t` replaced by `r`. */
  ghost predicate Replaced(v: seq<Elem>, w: seq<Elem>, lo: nat, t: nat, r: seq<Elem>) {
    lo <= t <= |v| && |r| == t - lo && w == v[..lo] + r + v[t..]
  }

  lemma SortedExtends(cmp: Compar, v: seq<Elem>, lo: nat, t: nat)
    requires lo <= t < |v|
    ensures InsertionSorted(cmp, v[lo..t + 1]) == Insert(cmp, InsertionSorted(cmp, v[lo..t]), v[t])
  {
    var s := v[lo..t + 1];
    assert s[..|s| - 1] == v[lo..t] && s[|s| - 1] == v[t];
  }

  lemma MovedParts(v: seq<Elem>, w: seq<Elem>, lo: nat, t: nat, r: seq<Elem>, k: nat)
    requires Replaced(v, w, lo, t, r) && t < |v| && k <= |r|
    ensures |w| == |v| && w[lo..t] == r && w[t] == v[t]
    ensures Replaced(v, MovedDown(w, lo + k, t), lo, t + 1, r[..k] + [v[t]] + r[k..])
    ensures lo + k == t ==> MovedDown(w, lo + k, t) == w
  {
    assert v[t..] == [v[t]] + v[t + 1..];
    assert w[..lo + k] == v[..lo] + r[..k] && w[lo + k..t] == r[k..];
    assert w[t + 1..] == v[t + 1..];
  }

  lemma MovedNowhere(w: seq<Elem>, t: nat)
    requires t < |w|
    ensures MovedDown(w, t, t) == w
  {}

  /** One outer step: element t is inserted among the elements lo..t. */
  method InsertOne(a: array<byte>, size: nat, n: nat, cmp: Compar, lo: nat, t: nat)
    requires Sized(a[..], size, n) && lo <= t < n
    modifies a
    ensures Sized(a[..], size, n)
    ensures var w := old(View(a[..], size, n)); View(a[..], size, n) == MovedDown(w, InsertionIndex(cmp, w, lo, t), t)
  {
    var k := FindInsertion(a, size, n, cmp, lo, t);
    if t != k {
      MoveElementDown(a, size, n, k, t);
    } else {
      MovedNowhere(View(a[..], size, n), t);
    }
  }

  lemma ReplacedStep(cmp: Compar, v: seq<Elem>, w: seq<Elem>, lo: nat, t: nat)
    requires lo <= t < |v| && Replaced(v, w, lo, t, InsertionSorted(cmp, v[lo..t]))
    ensures |w| == |v|
    ensures Replaced(v, MovedDown(w, InsertionIndex(cmp, w, lo, t), t), lo, t + 1, InsertionSorted(cmp, v[lo..t + 1]))
  {
    SortedExtends(cmp, v, lo, t);
    var r := InsertionSorted(cmp, v[lo..t]);
    var k := InsertionPoint(cmp, r, v[t]);
    MovedParts(v, w, lo, t, r, k);
    assert InsertionIndex(cmp, w, lo, t) == lo + k;
    assert Insert(cmp, r, v[t]) == r[..k] + [v[t]] + r[k..];
  }

  method InsertionSort(a: array<byte>, size: nat, n: nat, cmp: Compar, lo: nat, hi: nat)
    requires Sized(a[..], size, n) && lo <= hi <= n
    modifies a
    ensures Sized(a[..], size, n)
    ensures var v := old(View(a[..], size, n));
      Replaced(v, View(a[..], size, n), lo, hi, InsertionSorted(cmp, v[lo..hi]))
  {
    ghost var v := View(a[..], size, n);
    if lo == hi {
      assert v == v[..lo] + [] + v[lo..] && v[lo..lo] == [];
      return;
    }
    ReplacedStart(cmp, v, lo);
    var t := lo + 1;
    while t < hi
      invariant lo <= t <= hi
      invariant Sized(a[..], size, n)
      invariant Replaced(v, View(a[..], size, n), lo, t, InsertionSorted(cmp, v[lo..t]))
    {
      ReplacedStep(cmp, v, View(a[..], size, n), lo, t);
      InsertOne(a, size, n, cmp, lo, t);
      t := t + 1;
    }
  }

  lemma ReplacedStart(cmp: Compar, v: seq<Elem>, lo: nat)
    requires lo < |v|
    ensures Replaced(v, v, lo, lo + 1, InsertionSorted(cmp, v[lo..lo + 1]))
  {
    assert v[lo..lo] == [] && v == v[..lo] + [] + v[lo..];
    ReplacedStep(cmp, v, v, lo, lo);
    MovedNowhere(v, lo);
  }

  function CompareAt(s: seq<byte>, size: nat, n: nat, cmp: Compar, i: nat, j: nat): (r: int)
    requires Sized(s, size, n) && i < n && j < n
    ensures r == cmp(View(s, size, n)[i], View(s, size, n)[j])
  {
    cmp(Element(s, size, n, i), Element(s, size, n, j))
  }

  lemma InsertionSortSorts(cmp: Compar, v: seq<Elem>, lo: nat, hi: nat, w: seq<Elem>)
    requires TotalPreorder(cmp) && lo <= hi <= |v|
    requires Replaced(v, w, lo, hi, InsertionSorted(cmp, v[lo..hi]))
    ensures SortedPart(cmp, v, w, lo, hi)
  {
    InsertionSortedIsSorted(cmp, v[lo..hi]);
    InsertionSortedPermutes(cmp, v[lo..hi]);
    assert w[lo..hi] == InsertionSorted(cmp, v[lo..hi]);
  }

  // ----- partitioning -----

  /** x is the median of the three: it is not the only one on its side. */
  ghost predicate IsMedian(cmp: Compar, x: Elem, a: Elem, b: Elem) {
    (cmp(a, x) <= 0 && cmp(x, b) <= 0) || (cmp(b, x) <= 0 && cmp(x, a) <= 0)
  }

  /** Which of the three positions holds the median: a test order that gets equalities right. */
  function MedianOf(cmp: Compar, x: Elem, y: Elem, z: Elem, bot: nat, mid: nat, top: nat): nat {
    var n1, n2 := cmp(x, y), cmp(y, z);
    if n1 < 0 && n2 > 0 then (if cmp(x, z) < 0 then top else bot)
    else if n1 > 0 && n2 < 0 then (if cmp(x, z) > 0 then top else bot)
    else mid
  }

  lemma MedianOfCorrect(cmp: Compar, x: Elem, y: Elem, z: Elem, bot: nat, mid: nat, top: nat)
    requires TotalPreorder(cmp) && bot < mid < top
    ensures var t := MedianOf(cmp, x, y, z, bot, mid, top);
      && t in {bot, mid, top}
      && (t == bot ==> IsMedian(cmp, x, y, z)) && (t == mid ==> IsMedian(cmp, y, x, z))
      && (t == top ==> IsMedian(cmp, z, x, y))
  {}

  /** Swaps the median of the first, middle and last element into the middle. */
  method MedianToMiddle(a: array<byte>, size: nat, n: nat, cmp: Compar, bot: nat, mid: nat, top: nat)
    requires Sized(a[..], size, n) && bot < mid < top < n && TotalPreorder(cmp)
    modifies a
    ensures Sized(a[..], size, n)
    ensures Rearranged(old(View(a[..], size, n)), View(a[..], size, n), bot, top + 1)
    ensures var v := View(a[..], size, n); IsMedian(cmp, v[mid], v[bot], v[top])
  {
    ghost var v := View(a[..], size, n);
    var t1 := MedianOf(cmp, Element(a[..], size, n, bot), Element(a[..], size, n, mid),
                       Element(a[..], size, n, top), bot, mid, top);
    MedianSwapped(cmp, v, bot, mid, top);
    if t1 != mid {
      SwapElements(a, size, n, t1, mid);
    }
  }

  lemma MedianSwapped(cmp: Compar, v: seq<Elem>, bot: nat, mid: nat, top: nat)
    requires bot < mid < top < |v| && TotalPreorder(cmp)
    ensures var t := MedianOf(cmp, v[bot], v[mid], v[top], bot, mid, top);
      && t < |v|
      && var w := if t == mid then v else Swapped(v, t, mid);
      Rearranged(v, w, bot, top + 1) && IsMedian(cmp, w[mid], w[bot], w[top])
  {
    var t := MedianOf(cmp, v[bot], v[mid], v[top], bot, mid, top);
    MedianOfCorrect(cmp, v[bot], v[mid], v[top], bot, mid, top);
    SwapRearranges(v, t, mid, bot, top + 1);
  }

  /** Everything before `bot` is at most the pivot, everything after `top` at least the pivot. */
  ghost predicate Split(cmp: Compar, w: seq<Elem>, lo: nat, bot: nat, mid: nat, top: nat, hi: nat) {
    && lo <= bot <= mid <= top < hi <= |w|
    && AllAtMost(cmp, w[lo..bot], w[mid])
    && AllAtLeast(cmp, w[top + 1..hi], w[mid])
  }

  lemma SplitGrowLow(cmp: Compar, w: seq<Elem>, lo: nat, bot: nat, mid: nat, top: nat, hi: nat)
    requires Split(cmp, w, lo, bot, mid, top, hi) && bot < mid && cmp(w[bot], w[mid]) <= 0
    ensures Split(cmp, w, lo, bot + 1, mid, top, hi)
  {
    assert w[lo..bot + 1] == w[lo..bot] + [w[bot]];
  }

  lemma SplitGrowHigh(cmp: Compar, w: seq<Elem>, lo: nat, bot: nat, mid: nat, top: nat, hi: nat)
    requires Split(cmp, w, lo, bot, mid, top, hi) && mid < top && cmp(w[mid], w[top]) <= 0
    ensures Split(cmp, w, lo, bot, mid, top - 1, hi)
  {
    assert w[top..hi] == [w[top]] + w[top + 1..hi];
  }

  /** bot <-> top, with the pivot in between. */
  lemma SplitSwapEnds(cmp: Compar, w: seq<Elem>, lo: nat, bot: nat, mid: nat, top: nat, hi: nat)
    requires Split(cmp, w, lo, bot, mid, top, hi) && bot < mid < top && TotalPreorder(cmp)
    requires cmp(w[bot], w[mid]) > 0 && cmp(w[mid], w[top]) > 0
    ensures Split(cmp, Swapped(w, bot, top), lo, bot + 1, mid, top - 1, hi)
  {
    var u := Swapped(w, bot, top);
    assert u[lo..bot + 1] == w[lo..bot] + [w[top]];
    assert u[top..hi] == [w[bot]] + w[top + 1..hi];
  }

  /** The pivot is the lowest one left: it changes places with top. */
  lemma SplitMoveUp(cmp: Compar, w: seq<Elem>, lo: nat, mid: nat, top: nat, hi: nat)
    requires Split(cmp, w, lo, mid, mid, top, hi) && mid < top && TotalPreorder(cmp)
    requires cmp(w[mid], w[top]) > 0
    ensures Split(cmp, Swapped(w, mid, top), lo, mid + 1, top, top, hi)
  {
    var u := Swapped(w, mid, top);
    assert u[lo..mid + 1] == w[lo..mid] + [w[top]];
    assert u[top + 1..hi] == w[top + 1..hi];
  }

  /** The pivot is the highest one left: it changes places with bot. */
  lemma SplitMoveDown(cmp: Compar, w: seq<Elem>, lo: nat, bot: nat, mid: nat, hi: nat)
    requires Split(cmp, w, lo, bot, mid, mid, hi) && bot < mid && TotalPreorder(cmp)
    requires cmp(w[bot], w[mid]) > 0
    ensures Split(cmp, Swapped(w, bot, mid), lo, bot, bot, mid - 1, hi)
  {
    var u := Swapped(w, bot, mid);
    assert u[lo..bot] == w[lo..bot];
    assert u[mid..hi] == [w[bot]] + w[mid + 1..hi];
  }

  method ScanUp(a: array<byte>, size: nat, n: nat, cmp: Compar, ghost lo: nat, bot: nat, mid: nat,
                ghost top: nat, ghost hi: nat) returns (r: nat)
    requires Sized(a[..], size, n) && Split(cmp, View(a[..], size, n), lo, bot, mid, top, hi)
    ensures Split(cmp, View(a[..], size, n), lo, r, mid, top, hi) && bot <= r
    ensures r < mid ==> var w := View(a[..], size, n); cmp(w[r], w[mid]) > 0
  {
    r := bot;
    while r < mid && CompareAt(a[..], size, n, cmp, r, mid) <= 0
      invariant bot <= r && Split(cmp, View(a[..], size, n), lo, r, mid, top, hi)
    {
      SplitGrowLow(cmp, View(a[..], size, n), lo, r, mid, top, hi);
      r := r + 1;
    }
  }

  method ScanDown(a: array<byte>, size: nat, n: nat, cmp: Compar, ghost lo: nat, ghost bot: nat, mid: nat,
                  top: nat, ghost hi: nat) returns (r: nat)
    requires Sized(a[..], size, n) && Split(cmp, View(a[..], size, n), lo, bot, mid, top, hi)
    ensures Split(cmp, View(a[..], size, n), lo, bot, mid, r, hi) && r <= top
    ensures mid < r ==> var w := View(a[..], size, n); cmp(w[mid], w[r]) > 0
  {
    r := top;
    while r > mid && CompareAt(a[..], size, n, cmp, mid, r) <= 0
      invariant r <= top && Split(cmp, View(a[..], size, n), lo, bot, mid, r, hi)
    {
      SplitGrowHigh(cmp, View(a[..], size, n), lo, bot, mid, r, hi);
      r := r - 1;
    }
  }

  /** The swap that the two scans ask for: where bot goes, and the new bot, mid and top. */
  datatype Exchange = Exchange(replace: nat, bot: nat, mid: nat, top: nat)

  function NextExchange(bot: nat, mid: nat, top: nat): Exchange
    requires bot <= mid <= top && bot < top
  {
    if top > mid then
      if bot == mid then Exchange(top, bot + 1, top, top) else Exchange(top, bot + 1, mid, top - 1)
    else Exchange(mid, bot, bot, top - 1)
  }

  lemma ExchangeSplits(cmp: Compar, w: seq<Elem>, lo: nat, bot: nat, mid: nat, top: nat, hi: nat)
    requires Split(cmp, w, lo, bot, mid, top, hi) && bot < top && TotalPreorder(cmp)
    requires bot < mid ==> cmp(w[bot], w[mid]) > 0
    requires mid < top ==> cmp(w[mid], w[top]) > 0
    ensures var x := NextExchange(bot, mid, top);
      && lo <= x.replace < hi && x.replace != bot && x.top - x.bot < top - bot
      && Split(cmp, Swapped(w, bot, x.replace), lo, x.bot, x.mid, x.top, hi)
      && Rearranged(w, Swapped(w, bot, x.replace), lo, hi)
  {
    SwapRearranges(w, bot, NextExchange(bot, mid, top).replace, lo, hi);
    if top > mid && bot == mid { SplitMoveUp(cmp, w, lo, mid, top, hi); }
    else if top > mid { SplitSwapEnds(cmp, w, lo, bot, mid, top, hi); }
    else { SplitMoveDown(cmp, w, lo, bot, mid, hi); }
  }

  /**
   * Algorithm Q with a pivot that moves. At the end the pivot stands at `mid`, between the
   * elements at most and at least as large; if nothing was swapped, nothing has changed.
   */
  method Partition(a: array<byte>, size: nat, n: nat, cmp: Compar, lo: nat, start: nat, hi: nat)
    returns (mid: nat, didswap: bool)
    requires Sized(a[..], size, n) && lo <= start < hi <= n && TotalPreorder(cmp)
    modifies a
    ensures Sized(a[..], size, n)
    ensures Rearranged(old(View(a[..], size, n)), View(a[..], size, n), lo, hi)
    ensures Split(cmp, View(a[..], size, n), lo, mid, mid, mid, hi)
    ensures !didswap ==> View(a[..], size, n) == old(View(a[..], size, n))
  {
    ghost var v := View(a[..], size, n);
    var bot: nat, top: nat := lo, hi - 1;
    mid, didswap := start, false;
    while true
      invariant Sized(a[..], size, n)
      invariant Rearranged(v, View(a[..], size, n), lo, hi)
      invariant Split(cmp, View(a[..], size, n), lo, bot, mid, top, hi)
      invariant !didswap ==> View(a[..], size, n) == v
      decreases top - bot
    {
      bot := ScanUp(a, size, n, cmp, lo, bot, mid, top, hi);
      top := ScanDown(a, size, n, cmp, lo, bot, mid, top, hi);
      if top == mid && bot == mid { return; }
      ghost var w := View(a[..], size, n);
      ExchangeSplits(cmp, w, lo, bot, mid, top, hi);
      var x := NextExchange(bot, mid, top);
      SwapElements(a, size, n, bot, x.replace);
      RearrangedTrans(v, w, View(a[..], size, n), lo, hi);
      bot, mid, top := x.bot, x.mid, x.top;
      didswap := true;
    }
  }

  // ----- the recursion -----

  /** 2 to the power d. */
  function Pow2(d: nat): (r: nat)
    ensures r > 0
  {
    if d == 0 then 1 else 2 * Pow2(d - 1)
  }

  lemma SameBehind(v: seq<Elem>, w: seq<Elem>, k: nat, lo: nat, hi: nat)
    requires |v| == |w| && k <= lo <= hi <= |w| && w[k..] == v[k..]
    ensures w[lo..hi] == v[lo..hi]
  {
    assert forall j :: lo <= j < hi ==> w[j] == w[k..][j - k] && v[j] == v[k..][j - k];
  }

  lemma SameBefore(v: seq<Elem>, w: seq<Elem>, k: nat, lo: nat, hi: nat)
    requires |v| == |w| && lo <= hi <= k <= |w| && w[..k] == v[..k]
    ensures w[lo..hi] == v[lo..hi]
  {
    assert forall j :: lo <= j < hi ==> w[j] == w[..k][j] && v[j] == v[..k][j];
  }

  /** A part that has been sorted by itself is still on its side of the pivot. */
  lemma SortLower(cmp: Compar, v: seq<Elem>, w: seq<Elem>, lo: nat, mid: nat, hi: nat)
    requires Split(cmp, v, lo, mid, mid, mid, hi) && SortedPart(cmp, v, w, lo, mid)
    ensures Split(cmp, w, lo, mid, mid, mid, hi) && Rearranged(v, w, lo, hi)
    ensures w[mid..] == v[mid..]
  {
    RearrangedWiden(v, w, lo, mid, lo, hi);
    PermutationKeepsBounds(cmp, v[lo..mid], w[lo..mid], v[mid]);
    assert w[mid] == w[mid..][0] == v[mid..][0];
    SameBehind(v, w, mid, mid + 1, hi);
  }

  lemma SortUpper(cmp: Compar, v: seq<Elem>, w: seq<Elem>, lo: nat, mid: nat, hi: nat)
    requires Split(cmp, v, lo, mid, mid, mid, hi) && SortedPart(cmp, v, w, mid + 1, hi)
    ensures Split(cmp, w, lo, mid, mid, mid, hi) && Rearranged(v, w, lo, hi)
    ensures w[..mid + 1] == v[..mid + 1]
  {
    RearrangedWiden(v, w, mid + 1, hi, lo, hi);
    PermutationKeepsBounds(cmp, v[mid + 1..hi], w[mid + 1..hi], v[mid]);
    assert w[mid] == w[..mid + 1][mid] == v[..mid + 1][mid];
    SameBefore(v, w, mid + 1, lo, mid);
  }

  /** Every pair of positions that does not lie inside lo..hi is in order. */
  ghost predicate Outer(cmp: Compar, w: seq<Elem>, lo0: nat, lo: nat, hi: nat, hi0: nat) {
    && lo0 <= lo <= hi <= hi0 <= |w|
    && forall i, j :: lo0 <= i < j < hi0 && (i < lo || hi <= j) ==> cmp(w[i], w[j]) <= 0
  }

  lemma RearrangedHas(v: seq<Elem>, w: seq<Elem>, lo: nat, hi: nat, j: nat) returns (j': nat)
    requires Rearranged(v, w, lo, hi) && j < |w|
    ensures j' < |v| && v[j'] == w[j]
    ensures if lo <= j < hi then lo <= j' < hi else j' == j
  {
    j' := j;
    if j < lo {
      assert w[j] == w[..lo][j];
    } else if j < hi {
      assert w[lo..hi][j - lo] in w[lo..hi];
      PermutationMembers(w[lo..hi], v[lo..hi], w[j]);
      var k :| 0 <= k < hi - lo && v[lo..hi][k] == w[j];
      j' := lo + k;
    } else {
      assert w[j] == w[hi..][j - hi];
    }
  }

  lemma OuterKept(cmp: Compar, v: seq<Elem>, w: seq<Elem>, lo0: nat, lo: nat, hi: nat, hi0: nat)
    requires Outer(cmp, v, lo0, lo, hi, hi0) && Rearranged(v, w, lo, hi)
    ensures Outer(cmp, w, lo0, lo, hi, hi0)
  {
    forall i, j | lo0 <= i < j < hi0 && (i < lo || hi <= j)
      ensures cmp(w[i], w[j]) <= 0
    {
      var i' := RearrangedHas(v, w, lo, hi, i);
      var j' := RearrangedHas(v, w, lo, hi, j);
    }
  }

  lemma OuterLower(cmp: Compar, w: seq<Elem>, lo0: nat, lo: nat, mid: nat, hi: nat, hi0: nat)
    requires Outer(cmp, w, lo0, lo, hi, hi0) && Split(cmp, w, lo, mid, mid, mid, hi)
    requires TotalPreorder(cmp) && Sorted(cmp, w[mid + 1..hi])
    ensures Outer(cmp, w, lo0, lo, mid, hi0)
  {
    forall i, j | lo0 <= i < j < hi0 && (i < lo || mid <= j)
      ensures cmp(w[i], w[j]) <= 0
    {
      if lo <= i && j < hi { SplitOrders(cmp, w, lo, mid, hi, i, j); }
    }
  }

  lemma OuterUpper(cmp: Compar, w: seq<Elem>, lo0: nat, lo: nat, mid: nat, hi: nat, hi0: nat)
    requires Outer(cmp, w, lo0, lo, hi, hi0) && Split(cmp, w, lo, mid, mid, mid, hi)
    requires TotalPreorder(cmp) && Sorted(cmp, w[lo..mid])
    ensures Outer(cmp, w, lo0, mid + 1, hi, hi0)
  {
    forall i, j | lo0 <= i < j < hi0 && (i < mid + 1 || hi <= j)
      ensures cmp(w[i], w[j]) <= 0
    {
      if lo <= i && j < hi { SplitOrders(cmp, w, lo, mid, hi, i, j); }
    }
  }

  /** Two positions of a split part, not both on an unsorted side, are in order. */
  lemma SplitOrders(cmp: Compar, w: seq<Elem>, lo: nat, mid: nat, hi: nat, i: nat, j: nat)
    requires Split(cmp, w, lo, mid, mid, mid, hi) && TotalPreorder(cmp) && lo <= i < j < hi
    requires j < mid ==> Sorted(cmp, w[lo..mid])
    requires i > mid ==> Sorted(cmp, w[mid + 1..hi])
    ensures cmp(w[i], w[j]) <= 0
  {
    if j < mid {
      assert w[lo..mid][i - lo] == w[i] && w[lo..mid][j - lo] == w[j];
    } else if i > mid {
      assert w[mid + 1..hi][i - mid - 1] == w[i] && w[mid + 1..hi][j - mid - 1] == w[j];
    } else {
      if i < mid { assert w[i] in w[lo..mid] by { assert w[lo..mid][i - lo] == w[i]; } }
      if j > mid { assert w[j] in w[mid + 1..hi] by { assert w[mid + 1..hi][j - mid - 1] == w[j]; } }
      if i < mid < j { Transitive(cmp, w[i], w[mid], w[j]); }
    }
  }

  lemma OuterDone(cmp: Compar, w: seq<Elem>, lo0: nat, lo: nat, hi: nat, hi0: nat)
    requires Outer(cmp, w, lo0, lo, hi, hi0) && Sorted(cmp, w[lo..hi])
    ensures Sorted(cmp, w[lo0..hi0])
  {
    forall i, j | lo0 <= i < j < hi0
      ensures cmp(w[i], w[j]) <= 0
    {
      if lo <= i && j < hi { assert w[lo..hi][i - lo] == w[i] && w[lo..hi][j - lo] == w[j]; }
    }
  }

  /** SORT: two elements are compared and swapped, more are insertion sorted. */
  method SmallSort(a: array<byte>, size: nat, n: nat, cmp: Compar, lo: nat, hi: nat)
    requires Sized(a[..], size, n) && lo <= hi <= n && TotalPreorder(cmp)
    modifies a
    ensures Sized(a[..], size, n)
    ensures SortedPart(cmp, old(View(a[..], size, n)), View(a[..], size, n), lo, hi)
  {
    if hi - lo > 1 {
      if hi - lo == 2 {
        SortTwo(a, size, n, cmp, lo);
      } else {
        SortByInsertion(a, size, n, cmp, lo, hi);
      }
    }
  }

  method SortTwo(a: array<byte>, size: nat, n: nat, cmp: Compar, lo: nat)
    requires Sized(a[..], size, n) && lo + 2 <= n && TotalPreorder(cmp)
    modifies a
    ensures Sized(a[..], size, n)
    ensures SortedPart(cmp, old(View(a[..], size, n)), View(a[..], size, n), lo, lo + 2)
  {
    ghost var v := View(a[..], size, n);
    SwapRearranges(v, lo + 1, lo, lo, lo + 2);
    if CompareAt(a[..], size, n, cmp, lo + 1, lo) < 0 {
      SwapElements(a, size, n, lo + 1, lo);
    }
  }

  /** Outer pairs of a part, with the pairs inside it narrowed further. */
  lemma OuterNested(cmp: Compar, v: seq<Elem>, w: seq<Elem>, lo0: nat, lo: nat, nlo: nat, nhi: nat, hi: nat, hi0: nat)
    requires Outer(cmp, v, lo0, lo, hi, hi0) && Rearranged(v, w, lo, hi) && Outer(cmp, w, lo, nlo, nhi, hi)
    ensures Outer(cmp, w, lo0, nlo, nhi, hi0)
  {
    OuterKept(cmp, v, w, lo0, lo, hi, hi0);
  }

  lemma OuterFromSorted(cmp: Compar, w: seq<Elem>, lo: nat, hi: nat)
    requires lo <= hi <= |w| && Sorted(cmp, w[lo..hi])
    ensures Outer(cmp, w, lo, lo, lo, hi)
  {
    forall i, j | lo <= i < j < hi
      ensures cmp(w[i], w[j]) <= 0
    {
      assert w[lo..hi][i - lo] == w[i] && w[lo..hi][j - lo] == w[j];
    }
  }

  lemma OuterEverything(cmp: Compar, w: seq<Elem>, lo: nat, hi: nat)
    requires lo <= hi <= |w|
    ensures Outer(cmp, w, lo, lo, hi, hi)
  {}

  lemma OuterNothing(cmp: Compar, w: seq<Elem>, lo0: nat, lo: nat, hi0: nat)
    requires Outer(cmp, w, lo0, lo, lo, hi0)
    ensures Sorted(cmp, w[lo0..hi0])
  {
    assert w[lo..lo] == [];
    OuterDone(cmp, w, lo0, lo, lo, hi0);
  }

  /** How deep the recursion nests below `m` elements. */
  ghost predicate DepthWithin(depth: nat, m: nat) { depth == 0 || Pow2(depth) <= m }

  /** Sorts one side of the pivot, by recursion when it has THRESH elements or more. */
  method SortSide(a: array<byte>, size: nat, n: nat, cmp: Compar, lo: nat, hi: nat) returns (ghost depth: nat)
    requires Sized(a[..], size, n) && lo <= hi <= n && TotalPreorder(cmp)
    modifies a
    ensures Sized(a[..], size, n)
    ensures SortedPart(cmp, old(View(a[..], size, n)), View(a[..], size, n), lo, hi)
    ensures DepthWithin(depth, 2 * (hi - lo))
    decreases hi - lo, 2
  {
    depth := 0;
    if hi - lo >= THRESH {
      depth := QuickSort(a, size, n, cmp, lo, hi);
      depth := depth + 1;
    } else {
      SmallSort(a, size, n, cmp, lo, hi);
    }
  }

  /** The part around a pivot, after its smaller side (the upper one) has been sorted. */
  method SortUpperSide(a: array<byte>, size: nat, n: nat, cmp: Compar, lo: nat, mid: nat, hi: nat) returns (ghost depth: nat)
    requires Sized(a[..], size, n) && hi <= n && TotalPreorder(cmp)
    requires Split(cmp, View(a[..], size, n), lo, mid, mid, mid, hi)
    modifies a
    ensures Sized(a[..], size, n)
    ensures Rearranged(old(View(a[..], size, n)), View(a[..], size, n), lo, hi)
    ensures Outer(cmp, View(a[..], size, n), lo, lo, mid, hi)
    ensures DepthWithin(depth, 2 * (hi - mid - 1))
    decreases hi - mid - 1, 3
  {
    ghost var v := View(a[..], size, n);
    depth := SortSide(a, size, n, cmp, mid + 1, hi);
    ghost var w := View(a[..], size, n);
    SortUpper(cmp, v, w, lo, mid, hi);
    OuterEverything(cmp, w, lo, hi);
    OuterLower(cmp, w, lo, lo, mid, hi, hi);
  }

  method SortLowerSide(a: array<byte>, size: nat, n: nat, cmp: Compar, lo: nat, mid: nat, hi: nat) returns (ghost depth: nat)
    requires Sized(a[..], size, n) && hi <= n && TotalPreorder(cmp)
    requires Split(cmp, View(a[..], size, n), lo, mid, mid, mid, hi)
    modifies a
    ensures Sized(a[..], size, n)
    ensures Rearranged(old(View(a[..], size, n)), View(a[..], size, n), lo, hi)
    ensures Outer(cmp, View(a[..], size, n), lo, mid + 1, hi, hi)
    ensures DepthWithin(depth, 2 * (mid - lo))
    decreases mid - lo, 3
  {
    ghost var v := View(a[..], size, n);
    depth := SortSide(a, size, n, cmp, lo, mid);
    ghost var w := View(a[..], size, n);
    SortLower(cmp, v, w, lo, mid, hi);
    OuterEverything(cmp, w, lo, hi);
    OuterUpper(cmp, w, lo, lo, mid, hi, hi);
  }

  /** The pivot is the middle element, for a large part after a median has been moved there. */
  method ChoosePivot(a: array<byte>, size: nat, n: nat, cmp: Compar, lo: nat, hi: nat) returns (mid: nat, didswap: bool)
    requires Sized(a[..], size, n) && lo + THRESH <= hi <= n && TotalPreorder(cmp)
    modifies a
    ensures Sized(a[..], size, n)
    ensures Rearranged(old(View(a[..], size, n)), View(a[..], size, n), lo, hi)
    ensures Split(cmp, View(a[..], size, n), lo, mid, mid, mid, hi)
  {
    ghost var v := View(a[..], size, n);
    var start := lo + (hi - lo) / 2;
    if hi - lo >= MTHRESH {
      MedianToMiddle(a, size, n, cmp, lo, start, hi - 1);
    }
    ghost var u := View(a[..], size, n);
    assert Rearranged(v, u, lo, hi);
    mid, didswap := Partition(a, size, n, cmp, lo, start, hi);
    RearrangedTrans(v, u, View(a[..], size, n), lo, hi);
  }

  /** Chooses a pivot and partitions; without any swap the part is insertion sorted instead. */
  method SplitPart(a: array<byte>, size: nat, n: nat, cmp: Compar, lo: nat, hi: nat) returns (mid: nat, sorted: bool)
    requires Sized(a[..], size, n) && lo + THRESH <= hi <= n && TotalPreorder(cmp)
    modifies a
    ensures Sized(a[..], size, n)
    ensures Rearranged(old(View(a[..], size, n)), View(a[..], size, n), lo, hi)
    ensures sorted ==> Sorted(cmp, View(a[..], size, n)[lo..hi])
    ensures !sorted ==> Split(cmp, View(a[..], size, n), lo, mid, mid, mid, hi)
  {
    ghost var v := View(a[..], size, n);
    var didswap;
    mid, didswap := ChoosePivot(a, size, n, cmp, lo, hi);
    sorted := !didswap;
    if sorted {
      ghost var w := View(a[..], size, n);
      SortByInsertion(a, size, n, cmp, lo, hi);
      RearrangedTrans(v, w, View(a[..], size, n), lo, hi);
    }
  }

  /** Insertion sort of a part, also of one in which partitioning has swapped nothing. */
  method SortByInsertion(a: array<byte>, size: nat, n: nat, cmp: Compar, lo: nat, hi: nat)
    requires Sized(a[..], size, n) && lo <= hi <= n && TotalPreorder(cmp)
    modifies a
    ensures Sized(a[..], size, n)
    ensures SortedPart(cmp, old(View(a[..], size, n)), View(a[..], size, n), lo, hi)
  {
    ghost var w := View(a[..], size, n);
    InsertionSort(a, size, n, cmp, lo, hi);
    InsertionSortSorts(cmp, w, lo, hi, View(a[..], size, n));
  }

  /** One round: the smaller side is finished; what is returned is the part still to sort. */
  method Round(a: array<byte>, size: nat, n: nat, cmp: Compar, lo: nat, hi: nat)
    returns (nlo: nat, nhi: nat, ghost depth: nat)
    requires Sized(a[..], size, n) && lo + THRESH <= hi <= n && TotalPreorder(cmp)
    modifies a
    ensures Sized(a[..], size, n)
    ensures Rearranged(old(View(a[..], size, n)), View(a[..], size, n), lo, hi)
    ensures Outer(cmp, View(a[..], size, n), lo, nlo, nhi, hi)
    ensures nhi - nlo < hi - lo && (nlo == nhi || nlo + THRESH <= nhi)
    ensures DepthWithin(depth, hi - lo)
    decreases hi - lo, 0
  {
    ghost var v := View(a[..], size, n);
    depth := 0;
    var mid, sorted := SplitPart(a, size, n, cmp, lo, hi);
    ghost var w := View(a[..], size, n);
    if sorted {
      OuterFromSorted(cmp, w, lo, hi);
      return lo, lo, 0;
    }
    if mid - lo > hi - mid - 1 {
      depth := SortUpperSide(a, size, n, cmp, lo, mid, hi);
      nlo, nhi := lo, mid;
    } else {
      depth := SortLowerSide(a, size, n, cmp, lo, mid, hi);
      nlo, nhi := mid + 1, hi;
    }
    RearrangedTrans(v, w, View(a[..], size, n), lo, hi);
    if nhi - nlo < THRESH {
      ghost var u := View(a[..], size, n);
      SmallSort(a, size, n, cmp, nlo, nhi);
      FinishRound(cmp, v, u, View(a[..], size, n), lo, nlo, nhi, hi);
      nlo, nhi := lo, lo;
    }
  }

  lemma FinishRound(cmp: Compar, v: seq<Elem>, u: seq<Elem>, w: seq<Elem>, lo: nat, nlo: nat, nhi: nat, hi: nat)
    requires Rearranged(v, u, lo, hi) && Outer(cmp, u, lo, nlo, nhi, hi) && SortedPart(cmp, u, w, nlo, nhi)
    ensures Rearranged(v, w, lo, hi) && Outer(cmp, w, lo, lo, lo, hi)
  {
    RearrangedWiden(u, w, nlo, nhi, lo, hi);
    RearrangedTrans(v, u, w, lo, hi);
    OuterKept(cmp, u, w, lo, nlo, nhi, hi);
    OuterDone(cmp, w, lo, nlo, nhi, hi);
    OuterFromSorted(cmp, w, lo, hi);
  }

  lemma RoundStep(cmp: Compar, v: seq<Elem>, u: seq<Elem>, w: seq<Elem>, lo0: nat, lo: nat, nlo: nat, nhi: nat, hi: nat, hi0: nat)
    requires Rearranged(v, u, lo0, hi0) && Outer(cmp, u, lo0, lo, hi, hi0)
    requires Rearranged(u, w, lo, hi) && Outer(cmp, w, lo, nlo, nhi, hi)
    ensures Rearranged(v, w, lo0, hi0) && Outer(cmp, w, lo0, nlo, nhi, hi0)
  {
    RearrangedWiden(u, w, lo, hi, lo0, hi0);
    RearrangedTrans(v, u, w, lo0, hi0);
    OuterNested(cmp, u, w, lo0, lo, nlo, nhi, hi, hi0);
  }

  /**
   * Sorts the elements lo0..hi0. `depth` is how many calls nest: the recursion goes to the
   * smaller side only, so 2^depth never exceeds the number of elements.
   */
  method QuickSort(a: array<byte>, size: nat, n: nat, cmp: Compar, lo0: nat, hi0: nat) returns (ghost depth: nat)
    requires Sized(a[..], size, n) && lo0 + THRESH <= hi0 <= n && TotalPreorder(cmp)
    modifies a
    ensures Sized(a[..], size, n)
    ensures SortedPart(cmp, old(View(a[..], size, n)), View(a[..], size, n), lo0, hi0)
    ensures Pow2(depth) <= hi0 - lo0
    decreases hi0 - lo0, 1
  {
    ghost var v := View(a[..], size, n);
    var lo, hi := lo0, hi0;
    depth := 0;
    OuterEverything(cmp, v, lo, hi);
    while lo < hi
      invariant lo0 <= lo <= hi <= hi0 && (lo == hi || lo + THRESH <= hi)
      invariant Sized(a[..], size, n)
      invariant Rearranged(v, View(a[..], size, n), lo0, hi0)
      invariant Outer(cmp, View(a[..], size, n), lo0, lo, hi, hi0)
      invariant DepthWithin(depth, hi0 - lo0)
      decreases hi - lo
    {
      ghost var u := View(a[..], size, n);
      ghost var d;
      var nlo, nhi;
      nlo, nhi, d := Round(a, size, n, cmp, lo, hi);
      RoundStep(cmp, v, u, View(a[..], size, n), lo0, lo, nlo, nhi, hi, hi0);
      depth := if d > depth then d else depth;
      lo, hi := nlo, nhi;
    }
    OuterNothing(cmp, View(a[..], size, n), lo0, lo, hi0);
  }

  /** qsort: the buffer ends with a sorted permutation of its elements. */
  method QSort(a: array<byte>, size: nat, n: nat, cmp: Compar)
    requires Sized(a[..], size, n) && TotalPreorder(cmp)
    modifies a
    ensures Sized(a[..], size, n)
    ensures Sorted(cmp, View(a[..], size, n))
    ensures Permutation(View(a[..], size, n), old(View(a[..], size, n)))
  {
    ghost var v := View(a[..], size, n);
    assert v[0..n] == v;
    if n <= 1 { return; }
    if n >= THRESH {
      ghost var depth := QuickSort(a, size, n, cmp, 0, n);
    } else {
      InsertionSort(a, size, n, cmp, 0, n);
      InsertionSortSorts(cmp, v, 0, n, View(a[..], size, n));
    }
    assert View(a[..], size, n)[0..n] == View(a[..], size, n);
  }
}
