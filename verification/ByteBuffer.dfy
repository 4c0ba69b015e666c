/** A byte buffer that holds n elements of `size` bytes each, and the two ways elements move in it. */
module ByteBuffer {
  import opened Ordering

  /** Position of byte d of element k. */
  function Idx(size: nat, k: nat, d: nat): nat { k * size + d }

  predicate Sized(s: seq<byte>, size: nat, n: nat) { size > 0 && |s| == n * size }

  lemma IdxBelow(size: nat, k: nat, k': nat)
    requires k < k'
    ensures Idx(size, k, 0) + size <= Idx(size, k', 0)
  {
    assert (k + 1) * size <= k' * size;
  }

  lemma IdxInRange(size: nat, n: nat, k: nat, d: nat)
    requires k < n && d < size
    ensures Idx(size, k, d) < n * size
  {
    IdxBelow(size, k, n);
  }

  /** Different bytes have different positions. */
  lemma IdxDistinct(size: nat, k: nat, d: nat, k': nat, d': nat)
    requires d < size && d' < size && Idx(size, k, d) == Idx(size, k', d')
    ensures k == k' && d == d'
  {
    if k < k' { IdxBelow(size, k, k'); }
    if k' < k { IdxBelow(size, k', k); }
  }

  function Element(s: seq<byte>, size: nat, n: nat, k: nat): (e: Elem)
    requires Sized(s, size, n) && k < n
    ensures |e| == size
  {
    IdxBelow(size, k, n);
    s[Idx(size, k, 0)..Idx(size, k, 0) + size]
  }

  lemma ElementByte(s: seq<byte>, size: nat, n: nat, k: nat, d: nat)
    requires Sized(s, size, n) && k < n && d < size
    ensures Idx(size, k, d) < |s| && Element(s, size, n, k)[d] == s[Idx(size, k, d)]
  {
    IdxBelow(size, k, n);
    var b := Idx(size, k, 0);
    assert s[b..b + size][d] == s[b + d];
  }

  /** The elements that the buffer holds. */
  function View(s: seq<byte>, size: nat, n: nat): (v: seq<Elem>)
    requires Sized(s, size, n)
    ensures |v| == n
    ensures forall k :: 0 <= k < n ==> |v[k]| == size
  {
    seq(n, k requires 0 <= k < n => Element(s, size, n, k))
  }

  /** A byte written into the buffer is a byte written into one element. */
  lemma WriteChangesOneByte(s: seq<byte>, size: nat, n: nat, k: nat, d: nat, b: byte)
    requires Sized(s, size, n) && k < n && d < size
    ensures Idx(size, k, d) < |s|
    ensures var v := View(s, size, n); View(s[Idx(size, k, d) := b], size, n) == v[k := v[k][d := b]]
  {
    IdxInRange(size, n, k, d);
    var v, t := View(s, size, n), s[Idx(size, k, d) := b];
    forall k': nat | k' < n
      ensures View(t, size, n)[k'] == v[k := v[k][d := b]][k']
    {
      forall d': nat | d' < size
        ensures Element(t, size, n, k')[d'] == v[k := v[k][d := b]][k'][d']
      {
        ElementByte(t, size, n, k', d');
        ElementByte(s, size, n, k', d');
        if Idx(size, k', d') == Idx(size, k, d) { IdxDistinct(size, k', d', k, d); }
      }
    }
  }

  method ReadByte(a: array<byte>, size: nat, n: nat, k: nat, d: nat) returns (b: byte)
    requires Sized(a[..], size, n) && k < n && d < size
    ensures b == View(a[..], size, n)[k][d]
  {
    ElementByte(a[..], size, n, k, d);
    b := a[k * size + d];
  }

  method WriteByte(a: array<byte>, size: nat, n: nat, k: nat, d: nat, b: byte)
    requires Sized(a[..], size, n) && k < n && d < size
    modifies a
    ensures Sized(a[..], size, n)
    ensures var v := old(View(a[..], size, n)); View(a[..], size, n) == v[k := v[k][d := b]]
  {
    WriteChangesOneByte(a[..], size, n, k, d, b);
    ghost var s := a[..];
    a[k * size + d] := b;
    assert a[..] == s[Idx(size, k, d) := b];
  }

  function Swapped(v: seq<Elem>, i: nat, j: nat): seq<Elem>
    requires i < |v| && j < |v|
  {
    v[i := v[j]][j := v[i]]
  }

  /** Element j moved down to position i, the ones between moved up by one. */
  function MovedDown(v: seq<Elem>, i: nat, j: nat): (r: seq<Elem>)
    requires i <= j < |v|
    ensures |r| == |v|
  {
    v[..i] + [v[j]] + v[i..j] + v[j + 1..]
  }

  /** An element whose first c bytes have already been replaced by those of `x`. */
  function Mixed(x: Elem, y: Elem, c: nat): (m: Elem)
    requires |x| == |y| && c <= |x|
    ensures |m| == |x|
    ensures c == 0 ==> m == y
    ensures c == |x| ==> m == x
  {
    x[..c] + y[c..]
  }

  lemma MixedStep(x: Elem, y: Elem, c: nat)
    requires |x| == |y| && c < |x|
    ensures Mixed(x, y, c)[c := x[c]] == Mixed(x, y, c + 1)
    ensures Mixed(x, y, c)[c] == y[c]
  {}

  function SwapState(v: seq<Elem>, i: nat, j: nat, c: nat): seq<Elem>
    requires i < |v| && j < |v| && i != j && |v[i]| == |v[j]| && c <= |v[i]|
  {
    v[i := Mixed(v[j], v[i], c)][j := Mixed(v[i], v[j], c)]
  }

  lemma SwapStep(v: seq<Elem>, i: nat, j: nat, c: nat)
    requires i < |v| && j < |v| && i != j && |v[i]| == |v[j]| && c < |v[i]|
    ensures var w := SwapState(v, i, j, c);
      && w[i][c] == v[i][c] && w[j][c] == v[j][c]
      && (var w1 := w[i := w[i][c := v[j][c]]];
          w1[j] == w[j] && w1[j := w1[j][c := v[i][c]]] == SwapState(v, i, j, c + 1))
  {
    MixedStep(v[i], v[j], c);
    MixedStep(v[j], v[i], c);
  }

  /** SWAP: exchanges two elements byte by byte. */
  method SwapElements(a: array<byte>, size: nat, n: nat, i: nat, j: nat)
    requires Sized(a[..], size, n) && i < n && j < n && i != j
    modifies a
    ensures Sized(a[..], size, n)
    ensures View(a[..], size, n) == Swapped(old(View(a[..], size, n)), i, j)
  {
    ghost var v := View(a[..], size, n);
    var c := 0;
    while c < size
      invariant c <= size
      invariant Sized(a[..], size, n) && View(a[..], size, n) == SwapState(v, i, j, c)
    {
      SwapStep(v, i, j, c);
      var ch := ReadByte(a, size, n, i, c);
      var other := ReadByte(a, size, n, j, c);
      WriteByte(a, size, n, i, c, other);
      WriteByte(a, size, n, j, c, ch);
      c := c + 1;
    }
  }

  /** Column c while the bytes of the elements above m have moved up. */
  function ColumnState(v: seq<Elem>, j: nat, m: nat, c: nat): (w: seq<Elem>)
    requires m <= j < |v|
    requires forall k :: 0 <= k < |v| ==> c < |v[k]|
    ensures |w| == |v|
    ensures forall k :: 0 <= k < |v| ==> w[k] == if m < k <= j then v[k][c := v[k - 1][c]] else v[k]
  {
    seq(|v|, k requires 0 <= k < |v| => if m < k <= j then v[k][c := v[k - 1][c]] else v[k])
  }

  lemma ColumnStep(v: seq<Elem>, j: nat, m: nat, c: nat)
    requires 0 < m <= j < |v|
    requires forall k :: 0 <= k < |v| ==> c < |v[k]|
    ensures var w := ColumnState(v, j, m, c);
      w[m] == v[m] && w[m - 1] == v[m - 1] && w[m := w[m][c := w[m - 1][c]]] == ColumnState(v, j, m - 1, c)
  {}

  function Rotated(v: seq<Elem>, i: nat, j: nat, c: nat): seq<Elem>
    requires i <= j < |v|
    requires forall k :: 0 <= k < |v| ==> c < |v[k]|
  {
    ColumnState(v, j, i, c)[i := v[i][c := v[j][c]]]
  }

  /** Moves byte c of the elements from i up to the next element, from above. */
  method ShiftColumn(a: array<byte>, size: nat, n: nat, i: nat, j: nat, c: nat)
    requires Sized(a[..], size, n) && i < j < n && c < size
    modifies a
    ensures Sized(a[..], size, n)
    ensures View(a[..], size, n) == ColumnState(old(View(a[..], size, n)), j, i, c)
  {
    ghost var v := View(a[..], size, n);
    var m := j;
    assert ColumnState(v, j, m, c) == v;
    while m > i
      invariant i <= m <= j
      invariant Sized(a[..], size, n) && View(a[..], size, n) == ColumnState(v, j, m, c)
    {
      ColumnStep(v, j, m, c);
      var b := ReadByte(a, size, n, m - 1, c);
      WriteByte(a, size, n, m, c, b);
      m := m - 1;
    }
  }

  /** Rotates one column: byte c of element j ends in element i, the bytes between move up. */
  method RotateColumn(a: array<byte>, size: nat, n: nat, i: nat, j: nat, c: nat)
    requires Sized(a[..], size, n) && i < j < n && c < size
    modifies a
    ensures Sized(a[..], size, n)
    ensures View(a[..], size, n) == Rotated(old(View(a[..], size, n)), i, j, c)
  {
    ghost var v := View(a[..], size, n);
    var ch := ReadByte(a, size, n, j, c);
    ShiftColumn(a, size, n, i, j, c);
    assert View(a[..], size, n)[i] == v[i];
    WriteByte(a, size, n, i, c, ch);
  }

  /** The element that ends up at position k when j is moved down to i. */
  function Source(v: seq<Elem>, i: nat, j: nat, k: nat): Elem
    requires i <= j < |v| && k < |v|
  {
    if k == i then v[j] else if i < k <= j then v[k - 1] else v[k]
  }

  lemma MovedDownAt(v: seq<Elem>, i: nat, j: nat, k: nat)
    requires i <= j < |v| && k < |v|
    ensures MovedDown(v, i, j)[k] == Source(v, i, j, k)
  {}

  ghost predicate Rows(v: seq<Elem>, size: nat) { forall k :: 0 <= k < |v| ==> |v[k]| == size }

  /** `w` holds the elements once the columns before c have been rotated. */
  ghost predicate MoveState(v: seq<Elem>, i: nat, j: nat, c: nat, size: nat, w: seq<Elem>)
    requires i <= j < |v| && Rows(v, size) && c <= size
  {
    |w| == |v| && forall k :: 0 <= k < |v| ==> w[k] == Mixed(Source(v, i, j, k), v[k], c)
  }

  lemma RotatedAt(w: seq<Elem>, i: nat, j: nat, c: nat, size: nat, k: nat)
    requires i <= j < |w| && k < |w| && Rows(w, size) && c < size
    ensures |Rotated(w, i, j, c)| == |w|
    ensures Rotated(w, i, j, c)[k] == w[k][c := Source(w, i, j, k)[c]]
  {}

  lemma MoveStep(v: seq<Elem>, i: nat, j: nat, c: nat, size: nat, w: seq<Elem>)
    requires i < j < |v| && Rows(v, size) && c < size && Rows(w, size)
    requires MoveState(v, i, j, c, size, w)
    ensures MoveState(v, i, j, c + 1, size, Rotated(w, i, j, c))
  {
    var r := Rotated(w, i, j, c);
    forall k: nat | k < |v|
      ensures r[k] == Mixed(Source(v, i, j, k), v[k], c + 1)
    {
      RotatedAt(w, i, j, c, size, k);
      MixedStep(Source(v, i, j, k), v[k], c);
      var k' := if k == i then j else if i < k <= j then k - 1 else k;
      MixedStep(Source(v, i, j, k'), v[k'], c);
      assert Source(w, i, j, k) == w[k'] && Source(v, i, j, k) == v[k'];
    }
  }

  lemma MoveStarts(v: seq<Elem>, i: nat, j: nat, size: nat)
    requires i < j < |v| && Rows(v, size)
    ensures MoveState(v, i, j, 0, size, v)
  {}

  lemma MoveEnds(v: seq<Elem>, i: nat, j: nat, size: nat, w: seq<Elem>)
    requires i < j < |v| && Rows(v, size)
    requires MoveState(v, i, j, size, size, w)
    ensures w == MovedDown(v, i, j)
  {
    forall k: nat | k < |v|
      ensures w[k] == MovedDown(v, i, j)[k]
    {
      MovedDownAt(v, i, j, k);
    }
  }

  /** The insertion step: bytes are bubbled up through the elements, one column after another. */
  method MoveElementDown(a: array<byte>, size: nat, n: nat, i: nat, j: nat)
    requires Sized(a[..], size, n) && i < j < n
    modifies a
    ensures Sized(a[..], size, n)
    ensures View(a[..], size, n) == MovedDown(old(View(a[..], size, n)), i, j)
  {
    ghost var v := View(a[..], size, n);
    ghost var w := v;
    var c := 0;
    MoveStarts(v, i, j, size);
    while c < size
      invariant c <= size
      invariant Sized(a[..], size, n) && w == View(a[..], size, n)
      invariant MoveState(v, i, j, c, size, w)
    {
      MoveStep(v, i, j, c, size, w);
      RotateColumn(a, size, n, i, j, c);
      w := View(a[..], size, n);
      c := c + 1;
    }
    MoveEnds(v, i, j, size, w);
  }
}
