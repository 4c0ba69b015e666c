/** conf_write: the walk over the menus that emits each symbol once, and what reading it back gives. */
module ConfWrite {
  import opened Tristates
  import opened Exprs
  import opened SymbolValue
  import opened SymbolMemo
  import opened MenuForest
  import opened MenuWalk
  import opened ConfFile
  import opened ConfRoundTrip
  import opened SaveLoad

  /** The value of every symbol, and the titles of the visible entries without a symbol. */
  datatype View = View(value: Sym -> SymState, title: Menu -> Option<string>)

  /** What is emitted for the entries in this order, while the symbols of `force` are flagged. */
  function ItemsOf(v: View, ms: seq<Menu>, force: set<Sym>): seq<Item> {
    if ms == [] then []
    else if ms[0].sym.None? then HeadingOf(v, ms[0]) + ItemsOf(v, ms[1..], force)
    else if !ms[0].isChoice && ms[0].sym.value in force then
      [RecordOf(ms[0].sym.value, v.value(ms[0].sym.value))] + ItemsOf(v, ms[1..], force - {ms[0].sym.value})
    else ItemsOf(v, ms[1..], force)
  }

  function TextOf(v: View, ms: seq<Menu>, force: set<Sym>): string {
    FormatAll(ItemsOf(v, ms, force))
  }

  const FIRST_WORD := "Automatically"
  const MORE_WORDS := "generated " + ("make config: " + "don't edit")
  const GENERATED := FIRST_WORD + [' '] + MORE_WORDS
  const PREAMBLE := "#" + "\n" + ("# " + GENERATED + "\n" + ("#" + "\n"))

  /** The whole file. */
  function FileText(v: View, ms: seq<Menu>): string { PREAMBLE + TextOf(v, ms, Flagged(ms)) }

  /** The comment in front changes nothing. */
  lemma PreambleLoads(env: Env, ld: Loaded, rest: string)
    ensures ReadFrom(env, Some(ld), PREAMBLE + rest) == ReadFrom(env, Some(ld), rest)
  {
    var r1 := "#" + "\n" + rest;
    var r0 := "# " + GENERATED + "\n" + r1;
    assert PREAMBLE + rest == "#" + "\n" + r0;
    BlankLoads(env, ld, "#", r0);
    GeneratedIsQuiet(env, ld);
    TitleLoads(env, ld, GENERATED, r1);
    BlankLoads(env, ld, "#", rest);
  }

  lemma GeneratedIsQuiet(env: Env, ld: Loaded)
    ensures Storable(env, Heading(GENERATED)) && AfterComment(env, ld, GENERATED) == ld
  {
    WordsAreText('\n');
    WordsAreText('\0');
    assert Lacks(FIRST_WORD, ' ');
    FindInFront(FIRST_WORD, MORE_WORDS, ' ');
    assert GENERATED[|FIRST_WORD| + 1..] == MORE_WORDS;
    OtherStart(MORE_WORDS, IS_UNSET);
  }

  lemma WordsAreText(c: char)
    requires c == '\n' || c == '\0'
    ensures Lacks(FIRST_WORD, c) && Lacks(MORE_WORDS, c) && Lacks(GENERATED, c)
  {
    assert Lacks(FIRST_WORD, c) && Lacks([' '], c);
    assert Lacks("generated ", c) && Lacks("make config: ", c) && Lacks("don't edit", c);
    LacksConcat("make config: ", "don't edit", c);
    LacksConcat("generated ", "make config: " + "don't edit", c);
    LacksConcat(FIRST_WORD + [' '], MORE_WORDS, c);
  }

  lemma OtherStart(s: string, w: string)
    requires s != [] && w != [] && s[0] != w[0]
    ensures !StartsWith(s, w)
  {
    if |w| <= |s| { assert s[..|w|][0] == s[0]; }
  }

  lemma Appended(a: string, b: string, c: string)
    ensures a + (b + c) == a + b + c
  {}

  function HeadingOf(v: View, m: Menu): seq<Item> {
    if v.title(m).None? then [] else [Heading(v.title(m).value)]
  }

  /** The symbols of the records. */
  function Recorded(items: seq<Item>): seq<Sym> {
    if items == [] then []
    else (if items[0].Record? then [items[0].x] else []) + Recorded(items[1..])
  }

  lemma {:induction false} FormatConcat(a: seq<Item>, b: seq<Item>)
    ensures FormatAll(a + b) == FormatAll(a) + FormatAll(b)
  {
    if a == [] {
      assert a + b == b;
    } else {
      assert (a + b)[0] == a[0] && (a + b)[1..] == a[1..] + b;
      FormatConcat(a[1..], b);
    }
  }

  // ----- the loop -----

  class Writer {
    const walker: Walker
    const view: View
    const modules: Tristate

    constructor (walker: Walker, view: View, modules: Tristate)
      ensures this.walker == walker && this.view == view && this.modules == modules
    {
      this.walker, this.view, this.modules := walker, view, modules;
    }

    /** The text for one entry, and the flags that are left. */
    method Emit(menu: Menu, force: set<Sym>, ghost rest: seq<Menu>) returns (text: string, force': set<Sym>)
      ensures text + TextOf(view, rest, force') == TextOf(view, [menu] + rest, force)
    {
      ghost var all := [menu] + rest;
      assert all[0] == menu && all[1..] == rest;
      text, force' := "", force;
      if menu.sym.None? {
        var title := view.title(menu);
        if title.Some? {
          text := "\n#\n# " + title.value + "\n#\n";
          FormatConcat([Heading(title.value)], ItemsOf(view, rest, force));
          assert FormatAll([Heading(title.value)]) == text + "";
        } else {
          assert [] + ItemsOf(view, rest, force) == ItemsOf(view, rest, force);
        }
      } else if !menu.isChoice && menu.sym.value in force {
        var x := menu.sym.value;
        force' := force - {x};
        text := WriteRecord(x, view.value(x).tri, view.value(x).str, modules);
        FormatConcat([RecordOf(x, view.value(x))], ItemsOf(view, rest, force'));
        assert FormatAll([RecordOf(x, view.value(x))]) == text + "";
      }
    }

    /** What is still to be emitted from position i on. */
    ghost function Rest(all: seq<Menu>, i: nat, force: set<Sym>): string
      requires i <= |all|
    {
      TextOf(view, all[i..], force)
    }

    method EmitAt(out: string, menu: Menu, force: set<Sym>, ghost all: seq<Menu>, ghost i: nat)
      returns (out': string, force': set<Sym>)
      requires i < |all| && all[i] == menu
      ensures out' + Rest(all, i + 1, force') == out + Rest(all, i, force)
    {
      assert all[i..] == [menu] + all[i + 1..];
      var text;
      text, force' := Emit(menu, force, all[i + 1..]);
      out' := out + text;
      Appended(out, text, Rest(all, i + 1, force'));
    }

    /** The loop over the entries. */
    method EmitAll(root: Menu, ghost kids: seq<Tree>, before: string, flagged: set<Sym>) returns (out: string)
      requires walker.Rooted(root, kids)
      ensures out == before + Rest(Pre(kids), 0, flagged)
    {
      ghost var all := Pre(kids);
      var force := flagged;
      out := before;
      var menu := root.list;
      ghost var i := 0;
      walker.First(root, kids);
      ghost var goal := before + Rest(all, 0, flagged);
      while menu != null
        invariant 0 <= i <= |all| && menu == if i < |all| then all[i] else null
        invariant out + Rest(all, i, force) == goal
        decreases |all| - i
      {
        out, force := EmitAt(out, menu, force, all, i);
        menu := walker.Next(root, kids, menu, i);
        i := i + 1;
      }
      assert all[i..] == [];
    }

    /** The file that conf_write puts out for the menus below the root. */
    method Write(root: Menu, ghost kids: seq<Tree>) returns (out: string)
      requires walker.Rooted(root, kids)
      ensures out == FileText(view, Pre(kids))
    {
      var force := walker.Flag(root, kids);
      out := EmitAll(root, kids, PREAMBLE, force);
      assert Pre(kids)[0..] == Pre(kids);
    }
  }

  // ----- what is emitted where -----

  /** An entry in front of i, which is no choice, has the symbol x. */
  predicate WrittenBefore(ms: seq<Menu>, i: nat, x: Sym)
    requires i <= |ms|
  {
    exists j :: 0 <= j < i && ms[j].sym == Some(x) && !ms[j].isChoice
  }

  /** Entry i emits its title, or its symbol unless an earlier entry has the same. */
  function EmittedAt(v: View, ms: seq<Menu>, i: nat): seq<Item>
    requires i < |ms|
  {
    if ms[i].sym.None? then (if v.title(ms[i]).Some? then [Heading(v.title(ms[i]).value)] else [])
    else if ms[i].isChoice || WrittenBefore(ms, i, ms[i].sym.value) then []
    else [RecordOf(ms[i].sym.value, v.value(ms[i].sym.value))]
  }

  function EmittedFrom(v: View, ms: seq<Menu>, i: nat): seq<Item>
    requires i <= |ms|
    decreases |ms| - i
  {
    if i == |ms| then [] else EmittedAt(v, ms, i) + EmittedFrom(v, ms, i + 1)
  }

  /** The flags stand for "not written before". */
  lemma {:induction false} ItemsFrom(v: View, ms: seq<Menu>, i: nat, force: set<Sym>)
    requires i <= |ms|
    requires forall k :: i <= k < |ms| && ms[k].sym.Some? && !ms[k].isChoice ==>
      (ms[k].sym.value in force <==> !WrittenBefore(ms, i, ms[k].sym.value))
    ensures ItemsOf(v, ms[i..], force) == EmittedFrom(v, ms, i)
    decreases |ms| - i
  {
    if i < |ms| {
      var m, rest := ms[i], ms[i + 1..];
      assert ms[i..][0] == m && ms[i..][1..] == rest;
      var written := m.sym.Some? && !m.isChoice && m.sym.value in force;
      var force' := if written then force - {m.sym.value} else force;
      forall k | i < k < |ms| && ms[k].sym.Some? && !ms[k].isChoice
        ensures ms[k].sym.value in force' <==> !WrittenBefore(ms, i + 1, ms[k].sym.value)
      {
        var x := ms[k].sym.value;
        assert WrittenBefore(ms, i + 1, x) <==> WrittenBefore(ms, i, x) || (m.sym == Some(x) && !m.isChoice);
      }
      ItemsFrom(v, ms, i + 1, force');
      assert EmittedAt(v, ms, i) == (if m.sym.None? then HeadingOf(v, m) else if written then [RecordOf(m.sym.value, v.value(m.sym.value))] else []);
      assert [] + ItemsOf(v, rest, force') == ItemsOf(v, rest, force');
    }
  }

  /** The whole file, entry by entry. */
  lemma ItemsAreEmitted(v: View, ms: seq<Menu>)
    ensures ItemsOf(v, ms, Flagged(ms)) == EmittedFrom(v, ms, 0)
  {
    forall k | 0 <= k < |ms| && ms[k].sym.Some?
      ensures ms[k].sym.value in Flagged(ms)
    {
      FlaggedHas(ms, ms[k]);
    }
    assert ms[0..] == ms;
    ItemsFrom(v, ms, 0, Flagged(ms));
  }

  // ----- the records of a file -----

  /** The records are those of the symbols that the walk writes, each once. */
  lemma {:induction false} RecordedIsWritten(v: View, ms: seq<Menu>, force: set<Sym>)
    ensures Recorded(ItemsOf(v, ms, force)) == Written(ms, force)
  {
    if ms != [] {
      var m, rest := ms[0], ms[1..];
      if m.sym.None? {
        RecordedIsWritten(v, rest, force);
        var h := HeadingOf(v, m);
        if h == [] { assert h + ItemsOf(v, rest, force) == ItemsOf(v, rest, force); }
      } else if !m.isChoice && m.sym.value in force {
        RecordedIsWritten(v, rest, force - {m.sym.value});
      } else {
        RecordedIsWritten(v, rest, force);
      }
    }
  }

  lemma {:induction false} RecordedHas(items: seq<Item>, k: nat)
    requires k < |items| && items[k].Record?
    ensures multiset(Recorded(items))[items[k].x] > 0
  {
    var head := if items[0].Record? then [items[0].x] else [];
    assert Recorded(items) == head + Recorded(items[1..]);
    if k > 0 { RecordedHas(items[1..], k - 1); }
  }

  /** If no symbol is recorded twice, the records are distinct. */
  lemma {:induction false} RecordedOnce(items: seq<Item>)
    requires forall x :: multiset(Recorded(items))[x] <= 1
    ensures Distinct(items)
  {
    if items != [] {
      var i, rest := items[0], items[1..];
      var head := if i.Record? then [i.x] else [];
      assert Recorded(items) == head + Recorded(rest);
      forall x
        ensures multiset(Recorded(rest))[x] <= 1
      {
        assert multiset(Recorded(items))[x] == multiset(head)[x] + multiset(Recorded(rest))[x];
      }
      RecordedOnce(rest);
      forall k | 0 <= k < |rest| && rest[k].Record? && i.Record?
        ensures rest[k].x != i.x
      {
        RecordedHas(rest, k);
        assert multiset(Recorded(items))[i.x] == multiset(head)[i.x] + multiset(Recorded(rest))[i.x];
      }
      assert forall j :: 0 < j < |items| ==> items[j] == rest[j - 1];
    }
  }

  /** No symbol has two records, however many entries it has. */
  lemma ItemsDistinct(v: View, ms: seq<Menu>)
    ensures Distinct(ItemsOf(v, ms, Flagged(ms)))
  {
    var items := ItemsOf(v, ms, Flagged(ms));
    RecordedIsWritten(v, ms, Flagged(ms));
    forall x
      ensures multiset(Recorded(items))[x] <= 1
    {
      WrittenOnce(ms, Flagged(ms), x);
    }
    RecordedOnce(items);
  }

  /** A record is one of a written symbol, with its value. */
  lemma {:induction false} ItemIs(v: View, ms: seq<Menu>, force: set<Sym>, k: nat)
    requires var items := ItemsOf(v, ms, force); k < |items| && items[k].Record?
    ensures var i := ItemsOf(v, ms, force)[k];
      i == RecordOf(i.x, v.value(i.x)) && exists m :: m in ms && m.sym == Some(i.x) && !m.isChoice
  {
    var m, rest := ms[0], ms[1..];
    if m.sym.None? {
      var h := HeadingOf(v, m);
      assert ItemsOf(v, ms, force)[k] == ItemsOf(v, rest, force)[k - |h|];
      ItemIs(v, rest, force, k - |h|);
    } else if !m.isChoice && m.sym.value in force {
      if k > 0 { ItemIs(v, rest, force - {m.sym.value}, k - 1); }
    } else {
      ItemIs(v, rest, force, k);
    }
  }

  lemma {:induction false} RecordedIn(items: seq<Item>, x: Sym) returns (k: nat)
    requires multiset(Recorded(items))[x] > 0
    ensures k < |items| && items[k].Record? && items[k].x == x
  {
    var head := if items[0].Record? then [items[0].x] else [];
    assert Recorded(items) == head + Recorded(items[1..]);
    if items[0].Record? && items[0].x == x {
      k := 0;
    } else {
      assert multiset(Recorded(items))[x] == multiset(head)[x] + multiset(Recorded(items[1..]))[x];
      k := RecordedIn(items[1..], x);
      k := k + 1;
    }
  }

  /** x has a menu entry, which is no choice. */
  predicate Entered(ms: seq<Menu>, x: Sym) { exists m :: m in ms && m.sym == Some(x) && !m.isChoice }

  function ReadingIn(v: View, x: Sym): Reading {
    if x.name == [] then Ignored else ReadingOf(x, v.value(x).tri, v.value(x).str)
  }

  /** Exactly the symbols with an entry have a record, to be read as their value. */
  lemma EntriesHaveRecords(v: View, ms: seq<Menu>, x: Sym) returns (k: nat)
    requires Entered(ms, x)
    ensures var items := ItemsOf(v, ms, Flagged(ms)); k < |items| && items[k] == RecordOf(x, v.value(x))
  {
    var items := ItemsOf(v, ms, Flagged(ms));
    RecordedIsWritten(v, ms, Flagged(ms));
    AllWrittenOnce(ms, x);
    k := RecordedIn(items, x);
    ItemIs(v, ms, Flagged(ms), k);
  }

  lemma RecordsAreTaken(v: View, ms: seq<Menu>, x: Sym)
    requires Named(ItemsOf(v, ms, Flagged(ms)))
    ensures HasRecord(ItemsOf(v, ms, Flagged(ms)), x) <==> Entered(ms, x) && ReadingIn(v, x).Takes?
  {
    var items := ItemsOf(v, ms, Flagged(ms));
    if Entered(ms, x) {
      var j := EntriesHaveRecords(v, ms, x);
      assert items[j] in items;
    }
    if HasRecord(items, x) {
      var k :| 0 <= k < |items| && items[k].Record? && items[k].x == x && ItemReading(items[k]).Takes?;
      assert items[k] in items;
      ItemIs(v, ms, Flagged(ms), k);
    }
  }

  lemma ReadableEntries(v: View, ms: seq<Menu>)
    requires Named(ItemsOf(v, ms, Flagged(ms)))
    ensures Readable(ItemsOf(v, ms, Flagged(ms))) <==> forall x :: Entered(ms, x) ==> ReadingIn(v, x) != GivesUp
  {
    var items := ItemsOf(v, ms, Flagged(ms));
    if Readable(items) {
      forall x | Entered(ms, x)
        ensures ReadingIn(v, x) != GivesUp
      {
        var k := EntriesHaveRecords(v, ms, x);
        assert items[k] in items && ItemReading(items[k]) != GivesUp;
      }
    } else {
      var k :| 0 <= k < |items| && ItemReading(items[k]) == GivesUp;
      var x := items[k].x;
      assert items[k] in items && items[k].Record?;
      ItemIs(v, ms, Flagged(ms), k);
      assert Entered(ms, x) && ReadingIn(v, x) == GivesUp;
    }
  }

  // ----- writing and reading -----

  /** The view shows the values of the configuration, and what is emitted are lines that fit. */
  ghost predicate Shows(env: Env, v: View, ms: seq<Menu>, c: Context, all: set<Sym>)
    requires Acyclic(c.table, all)
  {
    && (forall x :: x in all ==> v.value(x) == PlainValue(c, all, x, {}))
    && (forall i :: i in ItemsOf(v, ms, Flagged(ms)) ==> Quiet(env, i) && Storable(env, i))
    && (forall x :: x in all && PlainValue(c, all, x, {}).visible != NO ==> Registered(env, x))
  }

  /** x has its value again: by its record, unless that is an empty number, or else by its defaults. */
  ghost predicate Returns(v: View, ms: seq<Menu>, c: Context, all: set<Sym>, x: Sym)
    requires Acyclic(c.table, all) && x in all
  {
    if Entered(ms, x) && ReadingIn(v, x).Takes? then !(IsNumber(x) && v.value(x).str == "")
    else DefaultGives(c, x, StateBelow(c, all, x, {}))
  }

  /**
   * What conf_write emits for the menus `ms` is read back by conf_read unless it gives up on a
   * value. Then every symbol evaluates to what it was, if and only if each visible one returns.
   */
  lemma WriteThenRead(env: Env, v: View, ms: seq<Menu>, c: Context, c1: Context, all: set<Sym>)
    requires Acyclic(c.table, all) && ChoiceFree(c.table) && Shows(env, v, ms, c, all)
    requires var r := ReadFrom(env, Some(NOTHING_LOADED), FileText(v, ms)); r.Some? ==> LoadedInto(c, c1, all, r.value)
    ensures var r := ReadFrom(env, Some(NOTHING_LOADED), FileText(v, ms));
      && (r.Some? <==> forall x :: Entered(ms, x) ==> ReadingIn(v, x) != GivesUp)
      && (r.Some? ==>
          ((forall x :: x in all ==> PlainValue(c1, all, x, {}) == PlainValue(c, all, x, {}))
           <==> (forall x :: x in all && PlainValue(c, all, x, {}).visible != NO ==> Returns(v, ms, c, all, x))))
  {
    var items := ItemsOf(v, ms, Flagged(ms));
    PreambleLoads(env, NOTHING_LOADED, FormatAll(items));
    ItemsAreSaved(env, v, ms, c, all);
    LoadRestoresValues(env, c, c1, all, items);
    ReadableEntries(v, ms);
    forall x | x in all
      ensures ComesBack(items, c, all, x) <==> Returns(v, ms, c, all, x)
    {
      RecordsAreTaken(v, ms, x);
    }
  }

  lemma ItemsAreSaved(env: Env, v: View, ms: seq<Menu>, c: Context, all: set<Sym>)
    requires Acyclic(c.table, all) && Shows(env, v, ms, c, all)
    ensures Saves(env, ItemsOf(v, ms, Flagged(ms)), c, all)
  {
    var items := ItemsOf(v, ms, Flagged(ms));
    ItemsDistinct(v, ms);
    forall k | 0 <= k < |items| && items[k].Record? && items[k].x in all
      ensures items[k] == RecordOf(items[k].x, PlainValue(c, all, items[k].x, {}))
    {
      ItemIs(v, ms, Flagged(ms), k);
    }
  }
}
