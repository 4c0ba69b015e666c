/** The rings of free transfer descriptors: queues linked through the descriptors themselves. */
module EhciRing {
  import opened Exprs
  import opened Sequences

  /** free_qh_size and its like are bytes. */
  const BYTE_RANGE := 256

  /** How many descriptors each Init function puts into its ring. */
  const POOL_SIZE := 5

  /** A queue head or an iTD: one link word, and the rest of the structure. */
  class Descriptor {
    var link: Descriptor?
    var words: seq<int>

    constructor (n: nat)
      ensures link == null && words == Zeros(n)
    {
      link, words := null, Zeros(n);
    }

    /** memset(this, 0, size). */
    method Clear()
      modifies this
      ensures link == null && words == Zeros(old(|words|))
    {
      link, words := null, Zeros(|words|);
    }
  }

  function Zeros(n: nat): (z: seq<int>)
    ensures |z| == n
  {
    seq(n, _ => 0)
  }

  predicate Blank(words: seq<int>) { words == Zeros(|words|) }

  ghost function Elements<T>(s: seq<T>): set<T> { set x | x in s }

  // ----- the accounts of a pool over a whole run -----

  /** The free queue, the descriptors handed out, and all that was ever added or taken, in order. */
  datatype Account<T> = Account(free: seq<T>, out: set<T>, added: seq<T>, taken: seq<T>)

  ghost predicate Balanced<T>(pool: set<T>, a: Account<T>) {
    && NoDup(a.free)
    && Elements(a.free) !! a.out
    && Elements(a.free) + a.out == pool
    && a.added == a.taken + a.free
  }

  /** What a client does: it frees a descriptor that it holds, or takes one. */
  datatype Event<T> = Add(x: T) | Get

  ghost predicate Allowed<T>(a: Account<T>, e: Event<T>) { e.Add? ==> e.x in a.out }

  ghost function Next<T>(a: Account<T>, e: Event<T>): Account<T> {
    match e
    case Add(x) => Account(a.free + [x], a.out - {x}, a.added + [x], a.taken)
    case Get =>
      if a.free == [] then a else Account(a.free[1..], a.out + {a.free[0]}, a.added, a.taken + [a.free[0]])
  }

  /** The account after a run, if every event is allowed when it happens. */
  ghost function Run<T>(a: Account<T>, es: seq<Event<T>>): Option<Account<T>>
    decreases |es|
  {
    if es == [] then Some(a) else if Allowed(a, es[0]) then Run(Next(a, es[0]), es[1..]) else None
  }

  /** After Init. */
  ghost function Full<T>(ds: seq<T>): Account<T> { Account(ds, {}, ds, []) }

  lemma {:induction false} ElementsCount<T>(s: seq<T>)
    requires NoDup(s)
    ensures |Elements(s)| == |s|
  {
    if s != [] {
      var rest := s[..|s| - 1];
      ElementsCount(rest);
      assert Elements(s) == Elements(rest) + {s[|s| - 1]};
      assert s[|s| - 1] !in Elements(rest);
    } else {
      assert Elements(s) == {};
    }
  }

  /** Free and outstanding descriptors add up to the pool, and the k-th one taken is the k-th one added. */
  lemma BalancedLaws<T>(pool: set<T>, a: Account<T>)
    requires Balanced(pool, a)
    ensures |a.free| + |a.out| == |pool|
    ensures |a.taken| <= |a.added| && forall k :: 0 <= k < |a.taken| ==> a.taken[k] == a.added[k]
  {
    ElementsCount(a.free);
  }

  lemma NextBalanced<T>(pool: set<T>, a: Account<T>, e: Event<T>)
    requires Balanced(pool, a) && Allowed(a, e)
    ensures Balanced(pool, Next(a, e))
  {
    match e
    case Add(x) =>
      assert x !in Elements(a.free);
      assert Elements(a.free + [x]) == Elements(a.free) + {x};
    case Get =>
      if a.free != [] {
        var x, rest := a.free[0], a.free[1..];
        assert a.free == [x] + rest;
        assert Elements(a.free) == {x} + Elements(rest);
        assert x !in Elements(rest);
      }
  }

  /**
   * On every run after Init the free queue has distinct descriptors and, with the outstanding
   * ones, makes up the pool; and descriptors are reissued in the order in which they were freed.
   */
  lemma {:induction false} RunBalanced<T>(pool: set<T>, a: Account<T>, es: seq<Event<T>>)
    requires Balanced(pool, a) && Run(a, es).Some?
    ensures var b := Run(a, es).value;
      Balanced(pool, b) && |b.free| + |b.out| == |pool| && b.taken <= b.added
    decreases |es|
  {
    if es == [] {
      BalancedLaws(pool, a);
    } else {
      NextBalanced(pool, a, es[0]);
      RunBalanced(pool, Next(a, es[0]), es[1..]);
    }
  }

  lemma FullBalanced<T>(ds: seq<T>)
    requires NoDup(ds)
    ensures Balanced(Elements(ds), Full(ds))
  {}

  // ----- the rings -----

  /** The ring of queue heads; the ring of iTDs has the same code. */
  class Ring {
    var root: Descriptor?
    var end: Descriptor?
    var size: nat
    ghost var free: seq<Descriptor>

    /** From root, size links lead through the free descriptors, the last one being end, back to root. */
    ghost predicate Valid()
      reads this, free
    {
      && size == |free| < BYTE_RANGE && NoDup(free)
      && (free != [] ==> root == free[0] && end == free[|free| - 1] && end.link == root)
      && (forall i :: 0 <= i < |free| - 1 ==> free[i].link == free[i + 1])
      && (forall i :: 0 <= i < |free| ==> Blank(free[i].words))
    }

    ghost function Last(): set<Descriptor>
      reads this
    {
      if free == [] then {} else {free[|free| - 1]}
    }

    constructor ()
      ensures Valid() && free == []
    {
      root, end, size, free := null, null, 0, [];
    }

    /** Add_Free_QH_Ring, for a descriptor that is not in the ring; the counter is a byte. */
    method Add(d: Descriptor)
      requires Valid() && d !in free && |free| + 1 < BYTE_RANGE
      modifies this, d, Last()
      ensures Valid() && free == old(free) + [d]
    {
      d.Clear();
      if size == 0 {
        root := d;
        d.link := root;
        end := d;
      } else {
        end.link := d;
        d.link := root;
        end := d;
      }
      size := (size + 1) % BYTE_RANGE;
      free := free + [d];
    }

    /** Get_Free_QH: the blank descriptor that has been free for the longest time, or null. */
    method Get() returns (d: Descriptor?)
      requires Valid()
      modifies this, Last()
      ensures Valid() && (d == null <==> old(free) == [])
      ensures if d == null then free == [] else [d] + free == old(free) && Blank(d.words)
    {
      if size == 0 { return null; }
      ghost var rest := free[1..];
      d := root;
      root := root.link;
      end.link := root;
      size := size - 1;
      assert rest != [] ==> root == rest[0] && end == rest[|rest| - 1];
      free := rest;
    }

    /** QH_Init, from whatever state: the ring consists of the given descriptors. */
    method Init(ds: seq<Descriptor>)
      requires |ds| == POOL_SIZE && NoDup(ds)
      modifies this, ds
      ensures Valid() && free == ds
    {
      size, free := 0, [];
      var i := 0;
      while i < POOL_SIZE
        invariant i <= POOL_SIZE && Valid() && free == ds[..i]
      {
        assert ds[i] !in ds[..i];
        assert Last() == if i == 0 then {} else {ds[i - 1]};
        Add(ds[i]);
        assert ds[..i + 1] == ds[..i] + [ds[i]];
        i := i + 1;
      }
    }
  }

  /** A transfer descriptor, with two links. */
  class Transfer {
    var next: Transfer?
    var alt: Transfer?
    var words: seq<int>

    constructor (n: nat)
      ensures next == null && alt == null && words == Zeros(n)
    {
      next, alt, words := null, null, Zeros(n);
    }

    method Clear()
      modifies this
      ensures next == null && alt == null && words == Zeros(old(|words|))
    {
      next, alt, words := null, null, Zeros(|words|);
    }
  }

  /** The ring of transfer descriptors does not always close. */
  class TransferRing {
    var root: Transfer?
    var end: Transfer?
    var size: nat
    ghost var free: seq<Transfer>
    /** Where the alternative link of the last descriptor leads: to the root at the time it was added. */
    ghost var rootThen: Transfer?

    /**
     * From root, size - 1 links lead to end. The comparisons where the source means to assign
     * leave the link of a descriptor null that is added to an empty ring.
     */
    ghost predicate Valid()
      reads this, free
    {
      && size == |free| < BYTE_RANGE && NoDup(free)
      && (free != [] ==> root == free[0] && end == free[|free| - 1] && end.alt == rootThen)
      && (forall i :: 0 <= i < |free| - 1 ==> free[i].next == free[i + 1] == free[i].alt)
      && (forall i :: 0 <= i < |free| ==> Blank(free[i].words))
      && (|free| > 1 ==> end.next == root)
      && (|free| == 1 ==> end.next == root || end.next == null)
    }

    ghost function Last(): set<Transfer>
      reads this
    {
      if free == [] then {} else {free[|free| - 1]}
    }

    constructor ()
      ensures Valid() && free == []
    {
      root, end, size, free := null, null, 0, [];
    }

    /** Add_Free_QTD_Ring: the link leads back to the root only if the ring was not empty. */
    method Add(d: Transfer)
      requires Valid() && d !in free && |free| + 1 < BYTE_RANGE
      modifies this, d, Last()
      ensures Valid() && free == old(free) + [d]
      ensures d.next == d.alt == rootThen == if old(free) == [] then null else old(free)[0]
    {
      d.Clear();
      if size == 0 {
        root := d;
        rootThen := null;
        end := d;
        size := (size + 1) % BYTE_RANGE;
        free := free + [d];
      } else {
        Append(d);
      }
    }

    /** Links a blank descriptor to the last one, and back to the root. */
    method Append(d: Transfer)
      requires Valid() && free != [] && d !in free && |free| + 1 < BYTE_RANGE && Blank(d.words)
      modifies this, d`next, d`alt, end`next, end`alt
      ensures Valid() && free == old(free) + [d]
      ensures d.next == d.alt == rootThen == old(free)[0]
    {
      end.next := d;
      end.alt := d;
      d.next := root;
      d.alt := root;
      rootThen := root;
      end := d;
      size := (size + 1) % BYTE_RANGE;
      free := free + [d];
    }

    /** Get_Free_QTD: only the first of the two links of the last descriptor is brought up to date. */
    method Get() returns (d: Transfer?)
      requires Valid()
      modifies this`root, this`size, this`free, Last()
      ensures Valid() && (d == null <==> old(free) == [])
      ensures if d == null then free == [] else [d] + free == old(free) && Blank(d.words)
      ensures rootThen == old(rootThen) && (free != [] ==> end.next == root)
    {
      if size == 0 { return null; }
      ghost var rest := free[1..];
      d := root;
      root := root.next;
      end.next := root;
      size := size - 1;
      assert rest != [] ==> root == rest[0] && end == rest[|rest| - 1];
      free := rest;
    }

    /** QTD_Init. */
    method Init(ds: seq<Transfer>)
      requires |ds| == POOL_SIZE && NoDup(ds)
      modifies this, ds
      ensures Valid() && free == ds
    {
      size, free := 0, [];
      var i := 0;
      while i < POOL_SIZE
        invariant i <= POOL_SIZE && Valid() && free == ds[..i]
      {
        assert ds[i] !in ds[..i];
        assert Last() == if i == 0 then {} else {ds[i - 1]};
        Add(ds[i]);
        assert ds[..i + 1] == ds[..i] + [ds[i]];
        i := i + 1;
      }
    }
  }

  // ----- the rings keep the accounts -----

  /** Whatever an account allows, the ring does, and its queue stays that of the account. */
  method Serve(ring: Ring, e: Event<Descriptor>, ghost pool: set<Descriptor>, ghost a: Account<Descriptor>)
    returns (d: Descriptor?)
    requires ring.Valid() && ring.free == a.free && Balanced(pool, a) && Allowed(a, e) && |pool| < BYTE_RANGE
    modifies ring, a.out, a.free
    ensures ring.Valid() && ring.free == Next(a, e).free && Balanced(pool, Next(a, e))
    ensures e.Get? && a.free != [] ==> d == a.free[0]
  {
    NextBalanced(pool, a, e);
    match e
    case Add(x) =>
      Returned(pool, a, x);
      ring.Add(x);
      d := x;
    case Get =>
      d := ring.Get();
  }

  method ServeTransfer(ring: TransferRing, e: Event<Transfer>, ghost pool: set<Transfer>, ghost a: Account<Transfer>)
    returns (d: Transfer?)
    requires ring.Valid() && ring.free == a.free && Balanced(pool, a) && Allowed(a, e) && |pool| < BYTE_RANGE
    modifies ring, a.out, a.free
    ensures ring.Valid() && ring.free == Next(a, e).free && Balanced(pool, Next(a, e))
    ensures e.Get? && a.free != [] ==> d == a.free[0]
  {
    NextBalanced(pool, a, e);
    match e
    case Add(x) =>
      Returned(pool, a, x);
      ring.Add(x);
      d := x;
    case Get =>
      d := ring.Get();
  }

  /** A descriptor that is out is not free, and leaves room in the ring. */
  lemma Returned<T>(pool: set<T>, a: Account<T>, x: T)
    requires Balanced(pool, a) && x in a.out
    ensures x !in a.free && |a.free| + 1 <= |pool|
  {
    BalancedLaws(pool, a);
    assert x !in Elements(a.free);
    assert |a.out| > 0;
  }
}
