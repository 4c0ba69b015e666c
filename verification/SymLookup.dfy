/** The symbol table: hash chains that hand out one symbol for each name and kind. */
module SymLookup {
  import opened Exprs

  /** A symbol as the table sees it; it is put in front of its chain when it is made. */
  class Symbol {
    const name: Option<string>
    const isConst: bool
    const next: Symbol?

    constructor (name: Option<string>, isConst: bool, next: Symbol?)
      ensures this.name == name && this.isConst == isConst && this.next == next
    {
      this.name, this.isConst, this.next := name, isConst, next;
    }
  }

  const HASH_SIZE := 257

  /** The bucket of symbols without a name. */
  const NAMELESS := 256

  function CharSum(s: string): nat {
    if s == "" then 0 else CharSum(s[..|s| - 1]) + s[|s| - 1] as nat
  }

  function Hash(s: string): (b: nat)
    ensures b < NAMELESS
  {
    CharSum(s) % 256
  }

  ghost predicate Chain(r: Symbol?, c: seq<Symbol>) {
    if c == [] then r == null else r == c[0] && Chain(c[0].next, c[1..])
  }

  predicate IsTristateName(n: string) { n == "y" || n == "m" || n == "n" }

  /** What distinguishes one named symbol from another: y, m and n are constants however they are asked for. */
  datatype Key = Key(name: string, isConst: bool)

  function KeyOf(n: string, isConst: bool): Key { Key(n, isConst || IsTristateName(n)) }

  predicate KeyIs(k: Key, s: Symbol) { s.name == Some(k.name) && s.isConst == k.isConst }

  ghost predicate Chained(heads: seq<Symbol?>, chains: seq<seq<Symbol>>) {
    |heads| == |chains| == HASH_SIZE && forall b :: 0 <= b < HASH_SIZE ==> Chain(heads[b], chains[b])
  }

  ghost predicate InBucket(index: map<Key, Symbol>, b: nat, s: Symbol) {
    && s.name.Some? && Hash(s.name.value) == b && !IsTristateName(s.name.value)
    && Key(s.name.value, s.isConst) in index && index[Key(s.name.value, s.isConst)] == s
  }

  /** The named symbols in the chains, and the three static ones, are those of the index. */
  ghost predicate Indexed(chains: seq<seq<Symbol>>, index: map<Key, Symbol>) {
    && |chains| == HASH_SIZE
    && (forall k :: k in index ==> KeyIs(k, index[k]))
    && (forall n :: IsTristateName(n) ==> Key(n, true) in index && Key(n, false) !in index)
    && index.Keys >= {Key("y", true), Key("m", true), Key("n", true)}
    && (forall k :: k in index && !IsTristateName(k.name) ==> index[k] in chains[Hash(k.name)])
    && (forall b, s :: 0 <= b < NAMELESS && s in chains[b] ==> InBucket(index, b, s))
    && (forall s :: s in chains[NAMELESS] ==> s.name.None?)
  }

  lemma ChainedInsert(heads: seq<Symbol?>, chains: seq<seq<Symbol>>, s: Symbol, b: nat)
    requires Chained(heads, chains) && b < HASH_SIZE && s.next == heads[b]
    ensures Chained(heads[b := s], chains[b := [s] + chains[b]])
  {
    assert ([s] + chains[b])[1..] == chains[b];
  }

  lemma IndexedInsert(chains: seq<seq<Symbol>>, index: map<Key, Symbol>, s: Symbol, b: nat)
    requires Indexed(chains, index)
    requires match s.name
      case None => b == NAMELESS
      case Some(n) => b == Hash(n) && !IsTristateName(n) && Key(n, s.isConst) !in index
    ensures Indexed(chains[b := [s] + chains[b]],
      if s.name.None? then index else index[Key(s.name.value, s.isConst) := s])
  {
    assert forall t :: t in [s] + chains[b] <==> t == s || t in chains[b];
  }

  function EmptyChains(): seq<seq<Symbol>> { seq(HASH_SIZE, _ => []) }

  /** The symbols there are before any is asked for. */
  function StaticIndex(y: Symbol, m: Symbol, n: Symbol): map<Key, Symbol> {
    map[Key("y", true) := y, Key("m", true) := m, Key("n", true) := n]
  }

  lemma StaticIndexed(y: Symbol, m: Symbol, n: Symbol)
    requires y.name == Some("y") && m.name == Some("m") && n.name == Some("n")
    requires y.isConst && m.isConst && n.isConst
    ensures Indexed(EmptyChains(), StaticIndex(y, m, n))
    ensures var index := StaticIndex(y, m, n);
      index[Key("y", true)] == y && index[Key("m", true)] == m && index[Key("n", true)] == n
  {
    assert "y"[0] != "m"[0] && "n"[0] != "m"[0] && "y"[0] != "n"[0];
  }

  class Table {
    const yes: Symbol
    const mod: Symbol
    const no: Symbol
    const heads: array<Symbol?>
    ghost var chains: seq<seq<Symbol>>
    /** Every named symbol there is. */
    ghost var index: map<Key, Symbol>

    ghost predicate Valid()
      reads this, heads
    {
      && heads.Length == HASH_SIZE
      && Chained(heads[..], chains)
      && Indexed(chains, index)
      && index[Key("y", true)] == yes && index[Key("m", true)] == mod && index[Key("n", true)] == no
    }

    /** The symbols without a name, the newest first. */
    ghost function Nameless(): seq<Symbol>
      reads this
    {
      if |chains| == HASH_SIZE then chains[NAMELESS] else []
    }

    /** The symbols that the table has handed out: those in the chains, and the static ones. */
    ghost predicate Has(s: Symbol)
      reads this
    {
      if s.name.None? then s in Nameless()
      else if IsTristateName(s.name.value) then s in {yes, mod, no}
      else |chains| == HASH_SIZE && s in chains[Hash(s.name.value)]
    }

    constructor ()
      ensures Valid() && fresh(heads) && index.Keys == {Key("y", true), Key("m", true), Key("n", true)}
    {
      var y := new Symbol(Some("y"), true, null);
      var m := new Symbol(Some("m"), true, null);
      var n := new Symbol(Some("n"), true, null);
      yes, mod, no := y, m, n;
      heads := new Symbol?[HASH_SIZE](_ => null);
      chains := EmptyChains();
      index := StaticIndex(y, m, n);
      StaticIndexed(y, m, n);
    }

    /** The static symbols for the three tristate values. */
    method Static(name: string) returns (s: Symbol?)
      requires Valid()
      ensures if IsTristateName(name) then s == index[Key(name, true)] else s == null
    {
      s := null;
      if |name| == 1 {
        match name[0]
        case 'y' => assert name == "y"; s := yes;
        case 'm' => assert name == "m"; s := mod;
        case 'n' => assert name == "n"; s := no;
        case _ =>
      }
    }

    method HashOf(name: string) returns (b: nat)
      ensures b == Hash(name)
    {
      var sum, i := 0, 0;
      while i < |name|
        invariant i <= |name| && sum == CharSum(name[..i])
      {
        assert name[..i + 1][..i] == name[..i];
        sum := sum + name[i] as nat;
        i := i + 1;
      }
      assert name[..i] == name;
      b := sum % 256;
    }

    /** The first symbol of this name and kind in a chain. */
    method SearchChain(b: nat, name: string, isConst: bool) returns (s: Symbol?)
      requires Valid() && b == Hash(name) && !IsTristateName(name)
      ensures var k := Key(name, isConst); if k in index then s == index[k] else s == null
    {
      s := heads[b];
      ghost var left := chains[b];
      while s != null
        invariant Chain(s, left) && (forall t :: t in left ==> t in chains[b])
        invariant forall t :: t in chains[b] && t !in left ==> !KeyIs(Key(name, isConst), t)
        decreases |left|
      {
        assert s in left;
        assert InBucket(index, b, s);
        if s.name.value == name && s.isConst == isConst { return; }
        assert forall t :: t in left ==> t == s || t in left[1..];
        s, left := s.next, left[1..];
      }
    }

    /** sym_lookup: the symbol there is, or a new one in front of its chain. */
    method Lookup(name: Option<string>, isConst: bool) returns (s: Symbol)
      requires Valid()
      modifies this`chains, this`index, heads
      ensures Valid() && s.name == name
      ensures name.None? ==> fresh(s) && s.isConst == isConst && index == old(index)
      ensures name.Some? ==>
        var k := KeyOf(name.value, isConst);
        index == old(index)[k := s] && (if k in old(index) then s == old(index)[k] else fresh(s))
      ensures Nameless() == if name.None? then [s] + old(Nameless()) else old(Nameless())
    {
      var b := NAMELESS;
      if name.Some? {
        var found := Static(name.value);
        if found != null { return found; }
        b := HashOf(name.value);
        found := SearchChain(b, name.value, isConst);
        if found != null { return found; }
      }
      s := new Symbol(name, isConst, heads[b]);
      Insert(s, b);
    }

    method Insert(s: Symbol, b: nat)
      requires Valid() && b < HASH_SIZE && s.next == heads[b]
      requires match s.name
        case None => b == NAMELESS
        case Some(n) => b == Hash(n) && !IsTristateName(n) && Key(n, s.isConst) !in index
      modifies this`chains, this`index, heads
      ensures Valid() && Has(s)
      ensures index == if s.name.None? then old(index) else old(index)[Key(s.name.value, s.isConst) := s]
      ensures Nameless() == if s.name.None? then [s] + old(Nameless()) else old(Nameless())
    {
      ChainedInsert(heads[..], chains, s, b);
      IndexedInsert(chains, index, s, b);
      heads[b] := s;
      chains := chains[b := [s] + chains[b]];
      if s.name.Some? {
        index := index[Key(s.name.value, s.isConst) := s];
      }
    }

    /** sym_find: never makes a symbol, and only finds constants as y, m and n. */
    method FindSymbol(name: string) returns (s: Symbol?)
      requires Valid()
      ensures var k := KeyOf(name, false); if k in index then s == index[k] else s == null
    {
      s := Static(name);
      if s == null {
        var b := HashOf(name);
        s := SearchChain(b, name, false);
      }
    }

    /** One pointer for each name and kind: constants may be compared by address. */
    lemma ConstantsAreInterned(a: Symbol, b: Symbol)
      requires Valid() && Has(a) && Has(b) && a.name.Some?
      ensures a == b <==> a.name == b.name && a.isConst == b.isConst
    {
      if a.name == b.name && a.isConst == b.isConst {
        IsIndexed(a);
        IsIndexed(b);
      }
    }

    lemma IsIndexed(s: Symbol)
      requires Valid() && Has(s) && s.name.Some?
      ensures Key(s.name.value, s.isConst) in index && index[Key(s.name.value, s.isConst)] == s
    {
      if !IsTristateName(s.name.value) { assert InBucket(index, Hash(s.name.value), s); }
    }
  }
}
