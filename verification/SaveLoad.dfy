/** Saving a whole configuration and loading it again. */
module SaveLoad {
  import opened Tristates
  import opened Exprs
  import opened Symbols
  import opened DepGraph
  import opened SymbolValue
  import opened SymbolMemo
  import opened ConfFile
  import opened ConfRoundTrip

  /** What conf_write puts out for one menu entry: a symbol's values, or a title. */
  datatype Item = Record(x: Sym, v: Tristate, s: string) | Heading(title: string)

  function FormatItem(i: Item): string {
    match i
    case Record(x, v, s) => Format(x, v, s)
    case Heading(title) => "\n#\n# " + title + "\n#\n"
  }

  function FormatAll(items: seq<Item>): string {
    if items == [] then "" else FormatItem(items[0]) + FormatAll(items[1..])
  }

  /**
   * Records of registered symbols, each on a line that fits (see OneLine), and titles on
   * theirs.
   */
  ghost predicate Storable(env: Env, i: Item) {
    match i
    case Record(x, v, s) => Registered(env, x) && Lacks(s, '\0') && OneLine(x, v, s)
    case Heading(title) => Lacks(title, '\n') && Lacks(title, '\0') && |title| + 2 <= LINE_MAX
  }

  /** What reading an item back does; a title does nothing unless it looks like a record. */
  function ItemReading(i: Item): Reading
    requires i.Record? ==> i.x.name != []
  {
    if i.Record? then ReadingOf(i.x, i.v, i.s) else Ignored
  }

  function LoadItem(env: Env, ld: Loaded, i: Item): Option<Loaded>
    requires i.Record? ==> i.x.name != []
  {
    match i
    case Record(x, v, s) => AfterReading(env, ld, x, ReadingOf(x, v, s))
    case Heading(title) => Some(AfterComment(env, ld, title))
  }

  predicate Named(items: seq<Item>) { forall i :: i in items && i.Record? ==> i.x.name != [] }

  function LoadAll(env: Env, ld: Option<Loaded>, items: seq<Item>): Option<Loaded>
    requires Named(items)
    decreases |items|
  {
    if ld.None? || items == [] then ld
    else
      assert items[0] in items;
      LoadAll(env, LoadItem(env, ld.value, items[0]), items[1..])
  }

  /** An empty line or an empty comment. */
  lemma BlankLoads(env: Env, ld: Loaded, l: string, rest: string)
    requires l == "" || l == "#"
    ensures ReadFrom(env, Some(ld), l + "\n" + rest) == ReadFrom(env, Some(ld), rest)
  {
    ReadLine(env, ld, l, rest);
  }

  lemma TitleLoads(env: Env, ld: Loaded, title: string, rest: string)
    requires Storable(env, Heading(title))
    ensures ReadFrom(env, Some(ld), "# " + title + "\n" + rest) == ReadFrom(env, Some(AfterComment(env, ld, title)), rest)
  {
    var l := "# " + title;
    assert l[0] == '#' && l[1] == ' ' && l[2..] == title;
    ReadLine(env, ld, l, rest);
  }

  lemma HeadingText(title: string, rest: string)
    ensures FormatItem(Heading(title)) + rest == "" + "\n" + ("#" + "\n" + ("# " + title + "\n" + ("#" + "\n" + rest)))
  {}

  lemma HeadingLoads(env: Env, ld: Loaded, title: string, rest: string)
    requires Storable(env, Heading(title))
    ensures ReadFrom(env, Some(ld), FormatItem(Heading(title)) + rest) ==
            ReadFrom(env, Some(AfterComment(env, ld, title)), rest)
  {
    var r3 := "#" + "\n" + rest;
    var r2 := "# " + title + "\n" + r3;
    HeadingText(title, rest);
    BlankLoads(env, ld, "", "#" + "\n" + r2);
    BlankLoads(env, ld, "#", r2);
    TitleLoads(env, ld, title, r3);
    BlankLoads(env, AfterComment(env, ld, title), "#", rest);
  }

  /** Reading a file goes over what was written item by item. */
  lemma {:induction false} FileRoundTrip(env: Env, ld: Loaded, items: seq<Item>)
    requires forall i :: i in items ==> Storable(env, i)
    ensures Named(items) && ReadFrom(env, Some(ld), FormatAll(items)) == LoadAll(env, Some(ld), items)
    decreases |items|
  {
    assert forall i :: i in items ==> Storable(env, i);
    if items != [] {
      var i, rest := items[0], items[1..];
      assert Storable(env, i);
      match i {
        case Record(x, v, s) => RecordReads(env, ld, x, v, s, FormatAll(rest));
        case Heading(title) => HeadingLoads(env, ld, title, FormatAll(rest));
      }
      var ld1 := LoadItem(env, ld, i);
      if ld1.Some? { FileRoundTrip(env, ld1.value, rest); }
    }
  }

  /** The program gives up on a file exactly if it does on one of the records. */
  predicate Readable(items: seq<Item>)
    requires Named(items)
  {
    forall k :: 0 <= k < |items| ==> ItemReading(items[k]) != GivesUp
  }

  lemma {:induction false} LoadedIfReadable(env: Env, ld: Loaded, items: seq<Item>)
    requires Named(items)
    ensures LoadAll(env, Some(ld), items).Some? <==> Readable(items)
    decreases |items|
  {
    if items != [] {
      var ld1, rest := LoadItem(env, ld, items[0]), items[1..];
      assert forall k :: 0 < k < |items| ==> items[k] == rest[k - 1];
      assert ld1.Some? <==> ItemReading(items[0]) != GivesUp;
      if ld1.Some? { LoadedIfReadable(env, ld1.value, rest); }
    }
  }

  // ----- every symbol gets its own value back -----

  /** A title of the form `<symbol> is not set` is taken for a record. */
  predicate Quiet(env: Env, i: Item) {
    match i
    case Record(_, _, _) => true
    case Heading(t) =>
      var p := Find(t, ' ');
      p == |t| || !StartsWith(t[p + 1..], IS_UNSET) || t[..p] !in env.find
  }

  /** Such a title resets its symbol to n. */
  lemma LoudHeading(env: Env, ld: Loaded, x: Sym, rest: string)
    requires Registered(env, x) && x.IsTristate() && |x.name| + 13 <= LINE_MAX
    ensures var title := x.name + " " + IS_UNSET;
      ReadFrom(env, Some(ld), FormatItem(Heading(title)) + rest) == ReadFrom(env, Some(Stored(env, ld, x, NO, "")), rest)
  {
    var title := x.name + " " + IS_UNSET;
    UnsetText(x);
    assert Unset(x) == "# " + title;
    LacksConcat("# ", title, '\n');
    LacksConcat("# ", title, '\0');
    HeadingLoads(env, ld, title, rest);
    LoudComment(env, ld, x);
  }

  lemma LoudComment(env: Env, ld: Loaded, x: Sym)
    requires Registered(env, x) && x.IsTristate()
    ensures AfterComment(env, ld, x.name + " " + IS_UNSET) == Stored(env, ld, x, NO, "")
  {
    FindInFront(x.name, IS_UNSET, ' ');
    var t := x.name + " " + IS_UNSET;
    assert t[..|x.name|] == x.name && t[|x.name| + 1..] == IS_UNSET;
    assert IS_UNSET[..|IS_UNSET|] == IS_UNSET;
  }

  /** No item has x. */
  predicate Absent(items: seq<Item>, x: Sym) {
    forall i :: 0 <= i < |items| ==> items[i].Record? ==> items[i].x != x
  }

  /** No symbol is written twice. */
  predicate Distinct(items: seq<Item>) {
    forall i, j :: 0 <= i < j < |items| && items[i].Record? && items[j].Record? ==> items[i].x != items[j].x
  }

  lemma ItemSame(env: Env, ld: Loaded, i: Item, x: Sym)
    requires Registered(env, x) && Quiet(env, i) && (i.Record? ==> i.x != x && i.x.name != [])
    ensures SameIfAny(ld, LoadItem(env, ld, i), x)
  {
    match i
    case Heading(title) => assert AfterComment(env, ld, title) == ld;
    case Record(y, v, s) =>
      var r := ReadingOf(y, v, s);
      if r.Takes? {
        var ld' := if y.IsTristate() then LoadTri(ld, y, r.v) else LoadStr(ld, y, r.s);
        assert Same(ld, ld', x);
        GroupedSame(env, ld', x, y);
      }
  }

  lemma {:induction false} AbsentSame(env: Env, ld: Loaded, items: seq<Item>, x: Sym)
    requires Registered(env, x) && Absent(items, x) && Named(items)
    requires forall i :: i in items ==> Quiet(env, i)
    ensures SameIfAny(ld, LoadAll(env, Some(ld), items), x)
    decreases |items|
  {
    if items != [] {
      assert items[0] in items;
      ItemSame(env, ld, items[0], x);
      var ld1 := LoadItem(env, ld, items[0]);
      if ld1.Some? { AbsentSame(env, ld1.value, items[1..], x); }
    }
  }

  /** A record that is taken gives its symbol the value taken, others leave it as it was. */
  ghost predicate Received(ld: Loaded, r: Option<Loaded>, i: Item)
    requires i.Record? && i.x.name != []
  {
    match ItemReading(i)
    case Ignored => SameIfAny(ld, r, i.x)
    case Takes(v, s) => r.Some? ==> Recovered(r, i.x, v, s)
    case GivesUp => r.None?
  }

  lemma {:induction false} EachRecovered(env: Env, ld: Loaded, items: seq<Item>, k: nat)
    requires k < |items| && items[k].Record? && Distinct(items) && Named(items) && Registered(env, items[k].x)
    requires forall i :: i in items ==> Quiet(env, i)
    ensures Received(ld, LoadAll(env, Some(ld), items), items[k])
    decreases |items|
  {
    var x := items[k].x;
    assert items[0] in items && items[k] in items;
    var ld1, rest := LoadItem(env, ld, items[0]), items[1..];
    if k == 0 {
      var r := ItemReading(items[0]);
      if r.Takes? { GroupedSame(env, if x.IsTristate() then LoadTri(ld, x, r.v) else LoadStr(ld, x, r.s), x, x); }
      if ld1.Some? { AbsentSame(env, ld1.value, rest, x); }
    } else {
      assert rest[k - 1] == items[k];
      ItemSame(env, ld, items[0], x);
      if ld1.Some? { EachRecovered(env, ld1.value, rest, k - 1); } else { NothingLoaded(env, rest); }
    }
  }

  lemma NothingLoaded(env: Env, items: seq<Item>)
    requires Named(items)
    ensures LoadAll(env, None, items) == None
  {}

  // ----- the picked member of a choice -----

  /** The choice is known to be at y with this member. */
  predicate Picked(ld: Loaded, c: Sym, m: Sym) {
    c in ld.pick && ld.pick[c] == m && c in ld.known && Value(ld, c).tri == YES
  }

  predicate MemberRecord(env: Env, i: Item, c: Sym) {
    i.Record? && Info(env.table, i.x).choiceOf == Some(c)
  }

  /** A choice has boolean or tristate members and is not written itself. */
  predicate OfChoice(env: Env, i: Item, c: Sym) {
    i.Record? ==> i.x != c && (MemberRecord(env, i, c) ==> i.x.IsTristate())
  }

  /** After an item the choice is still known to be at y with m, if it can be read at all. */
  ghost predicate StillPicked(r: Option<Loaded>, c: Sym, m: Sym) { r.Some? ==> Picked(r.value, c, m) }

  lemma {:induction false} PickStays(env: Env, ld: Loaded, items: seq<Item>, c: Sym, m: Sym)
    requires Picked(ld, c, m) && Named(items)
    requires forall i :: i in items ==> Quiet(env, i) && OfChoice(env, i, c)
    requires forall i :: i in items && MemberRecord(env, i, c) ==> i.v != YES
    ensures StillPicked(LoadAll(env, Some(ld), items), c, m)
    decreases |items|
  {
    if items != [] {
      assert items[0] in items && Quiet(env, items[0]) && OfChoice(env, items[0], c);
      var ld1 := LoadItem(env, ld, items[0]);
      if ld1.Some? { PickStays(env, ld1.value, items[1..], c, m); }
    }
  }

  /** The one member that was saved at y, under a capital, is the picked one again. */
  lemma {:induction false} PickRestored(env: Env, ld: Loaded, items: seq<Item>, k: nat, c: Sym)
    requires k < |items| && MemberRecord(env, items[k], c) && items[k].v == YES && Named(items)
    requires items[k] in items && IsCapital(items[k].x.name[0])
    requires forall i :: i in items ==> Quiet(env, i) && OfChoice(env, i, c)
    requires forall j :: k < j < |items| && MemberRecord(env, items[j], c) ==> items[j].v != YES
    ensures StillPicked(LoadAll(env, Some(ld), items), c, items[k].x)
    decreases |items|
  {
    assert items[0] in items;
    var ld1, rest := LoadItem(env, ld, items[0]), items[1..];
    if ld1.Some? {
      if k == 0 {
        assert OfChoice(env, items[0], c);
        PickStays(env, ld1.value, rest, c, items[0].x);
      } else {
        assert rest[k - 1] == items[k];
        PickRestored(env, ld1.value, rest, k - 1, c);
      }
    }
  }

  // ----- the loaded values evaluate to the saved ones -----

  function RecordOf(x: Sym, r: SymState): Item { Record(x, r.tri, r.str) }

  /** The user value of x is the value r, as far as it is one of its type. */
  predicate UserIs(c: Context, x: Sym, r: SymState) {
    if x.IsTristate() then User(c, x).tri == r.tri else x.Type() != Unknown ==> User(c, x).str == r.str
  }

  /** Without a user value x would have the value it has. */
  ghost predicate DefaultGives(c: Context, x: Sym, s: State) {
    Step(c.(unset := c.unset + {x}), x, s) == Step(c, x, s)
  }

  lemma StepInvisible(c: Context, c1: Context, x: Sym, s: State)
    requires c1.table == c.table && c1.modules == c.modules && Step(c, x, s).visible == NO
    ensures Step(c1, x, s) == Step(c, x, s)
  {}

  lemma StepHeld(c: Context, c1: Context, x: Sym, s: State)
    requires c1.table == c.table && c1.modules == c.modules && Step(c, x, s).visible != NO && HasValue(c1, x)
    requires x.IsTristate() ==> UserIs(c1, x, Step(c, x, s))
    ensures Step(c1, x, s) == Step(c, x, s) <==> UserIs(c1, x, Step(c, x, s))
  {}

  lemma StepUnset(c: Context, c1: Context, x: Sym, s: State)
    requires c1.table == c.table && c1.modules == c.modules && !HasValue(c1, x)
    ensures Step(c1, x, s) == Step(c.(unset := c.unset + {x}), x, s)
  {}

  /** What a visible symbol needs under c1 to have the value it has under c: itself, or a default. */
  ghost predicate Regains(c: Context, c1: Context, x: Sym, s: State) {
    Step(c, x, s).visible != NO ==>
      if HasValue(c1, x) then UserIs(c1, x, Step(c, x, s)) else DefaultGives(c, x, s)
  }

  /** Tristates have no user value but their value; then exactly what Regains says is needed. */
  lemma StepRestored(c: Context, c1: Context, x: Sym, s: State)
    requires c1.table == c.table && c1.modules == c.modules
    requires Step(c, x, s).visible != NO && HasValue(c1, x) && x.IsTristate() ==> UserIs(c1, x, Step(c, x, s))
    ensures Step(c1, x, s) == Step(c, x, s) <==> Regains(c, c1, x, s)
  {
    if Step(c, x, s).visible == NO {
      StepInvisible(c, c1, x, s);
    } else if HasValue(c1, x) {
      StepHeld(c, c1, x, s);
    } else {
      StepUnset(c, c1, x, s);
    }
  }

  /** Every visible tristate that has a user value in c1 has its value under c there. */
  ghost predicate TristatesKept(c: Context, c1: Context, all: set<Sym>)
    requires Acyclic(c.table, all)
  {
    && c1.table == c.table && c1.modules == c.modules
    && forall x :: x in all && x.IsTristate() ==>
      var r := PlainValue(c, all, x, {}); r.visible != NO && HasValue(c1, x) ==> UserIs(c1, x, r)
  }

  ghost predicate AllRegain(c: Context, c1: Context, all: set<Sym>)
    requires Acyclic(c.table, all)
  {
    forall x :: x in all ==> Regains(c, c1, x, StateBelow(c, all, x, {}))
  }

  /** An evaluation in c1 whose dependencies have their old values. */
  lemma SameBelow(c: Context, c1: Context, all: set<Sym>, x: Sym, busy: set<Sym>)
    requires Acyclic(c.table, all) && ChoiceFree(c.table) && c1.table == c.table && c1.modules == c.modules
    requires x in all && Clean(c.table, all, {}, x, busy)
    requires forall y :: y in Deps(c.table, x) ==>
      Clean(c.table, all, {}, y, busy + {x}) ==> PlainValue(c1, all, y, busy + {x}) == PlainValue(c, all, y, busy + {x})
    ensures PlainValue(c1, all, x, busy) == Step(c1, x, StateBelow(c, all, x, busy))
  {
    var s, s1 := StateBelow(c, all, x, busy), StateBelow(c1, all, x, busy);
    assert AgreeOn(s1, s, Deps(c.table, x));
    StepLocal(c1, x, s1, s);
  }

  /** The state below x is the same whatever is being evaluated, as far as x looks. */
  lemma RegainsBelow(c: Context, c1: Context, all: set<Sym>, x: Sym, busy: set<Sym>)
    requires Acyclic(c.table, all) && ChoiceFree(c.table) && x in all && Clean(c.table, all, {}, x, busy)
    ensures Regains(c, c1, x, StateBelow(c, all, x, busy)) <==> Regains(c, c1, x, StateBelow(c, all, x, {}))
  {
    BelowAgrees(c, all, x, busy);
    RegainsLocal(c, c1, x, StateBelow(c, all, x, busy), StateBelow(c, all, x, {}));
  }

  lemma BelowAgrees(c: Context, all: set<Sym>, x: Sym, busy: set<Sym>)
    requires Acyclic(c.table, all) && ChoiceFree(c.table) && x in all && Clean(c.table, all, {}, x, busy)
    ensures AgreeOn(StateBelow(c, all, x, busy), StateBelow(c, all, x, {}), Deps(c.table, x))
  {
    forall y | y in Deps(c.table, x)
      ensures StateBelow(c, all, x, busy).tri(y) == StateBelow(c, all, x, {}).tri(y)
      ensures StateBelow(c, all, x, busy).str(y) == StateBelow(c, all, x, {}).str(y)
    {
      BelowIs(c, all, x, busy, y);
      BelowIs(c, all, x, {}, y);
    }
  }

  /** Below x every dependency has its own value. */
  lemma BelowIs(c: Context, all: set<Sym>, x: Sym, busy: set<Sym>, y: Sym)
    requires Acyclic(c.table, all) && ChoiceFree(c.table) && x in all && Clean(c.table, all, {}, x, busy)
    requires y in Deps(c.table, x)
    ensures y in all && var r := PlainValue(c, all, y, {});
      StateBelow(c, all, x, busy).tri(y) == r.tri && StateBelow(c, all, x, busy).str(y) == r.str
  {
    assert Clean(c.table, all, {}, y, busy + {x});
    PlainBusy(c, all, y, busy + {x}, {});
  }

  lemma RegainsLocal(c: Context, c1: Context, x: Sym, s: State, s': State)
    requires ChoiceFree(c.table) && AgreeOn(s, s', Deps(c.table, x))
    ensures Regains(c, c1, x, s) <==> Regains(c, c1, x, s')
  {
    StepLocal(c, x, s, s');
    StepLocal(c.(unset := c.unset + {x}), x, s, s');
  }

  lemma {:induction false} PlainRestored(c: Context, c1: Context, all: set<Sym>, x: Sym, busy: set<Sym>)
    requires Acyclic(c.table, all) && ChoiceFree(c.table) && TristatesKept(c, c1, all) && AllRegain(c, c1, all)
    requires x in all && Clean(c.table, all, {}, x, busy)
    ensures PlainValue(c1, all, x, busy) == PlainValue(c, all, x, busy)
    decreases all - busy
  {
    forall y | y in Deps(c.table, x)
      ensures PlainValue(c1, all, y, busy + {x}) == PlainValue(c, all, y, busy + {x})
    {
      PlainRestored(c, c1, all, y, busy + {x});
    }
    SameBelow(c, c1, all, x, busy);
    PlainBusy(c, all, x, busy, {});
    RegainsBelow(c, c1, all, x, busy);
    StepRestored(c, c1, x, StateBelow(c, all, x, busy));
  }

  lemma RestoredRegains(c: Context, c1: Context, all: set<Sym>, x: Sym)
    requires Acyclic(c.table, all) && ChoiceFree(c.table) && TristatesKept(c, c1, all) && x in all
    requires forall y :: y in all ==> PlainValue(c1, all, y, {}) == PlainValue(c, all, y, {})
    ensures Regains(c, c1, x, StateBelow(c, all, x, {}))
  {
    forall y | y in Deps(c.table, x)
      ensures PlainValue(c1, all, y, {} + {x}) == PlainValue(c, all, y, {} + {x})
    {
      PlainBusy(c, all, y, {} + {x}, {});
      PlainBusy(c1, all, y, {} + {x}, {});
    }
    SameBelow(c, c1, all, x, {});
    StepRestored(c, c1, x, StateBelow(c, all, x, {}));
  }

  /** All values are restored if and only if each visible symbol regains its own. */
  lemma RestoredExactly(c: Context, c1: Context, all: set<Sym>)
    requires Acyclic(c.table, all) && ChoiceFree(c.table) && TristatesKept(c, c1, all)
    ensures (forall x :: x in all ==> PlainValue(c1, all, x, {}) == PlainValue(c, all, x, {}))
      <==> AllRegain(c, c1, all)
  {
    if AllRegain(c, c1, all) {
      forall x | x in all
        ensures PlainValue(c1, all, x, {}) == PlainValue(c, all, x, {})
      {
        PlainRestored(c, c1, all, x, {});
      }
    } else {
      var x :| x in all && !Regains(c, c1, x, StateBelow(c, all, x, {}));
      if forall y :: y in all ==> PlainValue(c1, all, y, {}) == PlainValue(c, all, y, {}) {
        RestoredRegains(c, c1, all, x);
      }
    }
  }

  // ----- from the file -----

  /** A record of x that is taken. */
  predicate HasRecord(items: seq<Item>, x: Sym)
    requires Named(items)
  {
    exists k :: 0 <= k < |items| && items[k].Record? && items[k].x == x && ItemReading(items[k]).Takes?
  }

  /** The file is made of lines that fit, and its records hold the values of their symbols, each once. */
  ghost predicate Saves(env: Env, items: seq<Item>, c: Context, all: set<Sym>)
    requires Acyclic(c.table, all)
  {
    && Distinct(items) && (forall i :: i in items ==> Quiet(env, i) && Storable(env, i))
    && (forall k :: 0 <= k < |items| && items[k].Record? && items[k].x in all ==>
          items[k] == RecordOf(items[k].x, PlainValue(c, all, items[k].x, {})))
    && (forall x :: x in all && PlainValue(c, all, x, {}).visible != NO ==> Registered(env, x))
  }

  /** The user values are the loaded ones; of the visible symbols those that were loaded have one. */
  ghost predicate LoadedInto(c: Context, c1: Context, all: set<Sym>, ld: Loaded)
    requires Acyclic(c.table, all)
  {
    && c1.table == c.table && c1.modules == c.modules && c1.user == ld.user
    && forall y :: y in all && PlainValue(c, all, y, {}).visible != NO ==> (HasValue(c1, y) <==> y in ld.known)
  }

  predicate IsNumber(x: Sym) { x.Type() == Int || x.Type() == Hex }

  /** A taken record holds the value, but for an empty number. */
  lemma TakenValue(x: Sym, r: SymState)
    requires x.name != [] && ReadingOf(x, r.tri, r.str).Takes?
    ensures var t := ReadingOf(x, r.tri, r.str);
      && (x.IsTristate() ==> t.v == r.tri)
      && (!x.IsTristate() ==> (t.s == r.str <==> !(IsNumber(x) && r.str == "")))
  {}

  /** A symbol is known after loading exactly if it has a record that is taken, and then with what that holds. */
  lemma RecordLoaded(env: Env, ld: Loaded, c1: Context, items: seq<Item>, x: Sym, r: SymState)
    requires Registered(env, x) && Distinct(items) && Named(items) && forall i :: i in items ==> Quiet(env, i)
    requires forall k :: 0 <= k < |items| && items[k].Record? && items[k].x == x ==> items[k] == RecordOf(x, r)
    requires LoadAll(env, Some(NOTHING_LOADED), items) == Some(ld) && c1.user == ld.user
    ensures x in ld.known <==> HasRecord(items, x)
    ensures HasRecord(items, x) ==> (UserIs(c1, x, r) <==> !(IsNumber(x) && r.str == ""))
  {
    if k :| 0 <= k < |items| && items[k].Record? && items[k].x == x {
      EachRecovered(env, NOTHING_LOADED, items, k);
      if HasRecord(items, x) {
        var j :| 0 <= j < |items| && items[j].Record? && items[j].x == x && ItemReading(items[j]).Takes?;
        assert j == k;
        TakenValue(x, r);
      }
    } else {
      AbsentSame(env, NOTHING_LOADED, items, x);
    }
  }

  /** A visible symbol whose record is taken with its value, or that has its value by default. */
  ghost predicate ComesBack(items: seq<Item>, c: Context, all: set<Sym>, x: Sym)
    requires Acyclic(c.table, all) && x in all && Named(items)
  {
    var r := PlainValue(c, all, x, {});
    if HasRecord(items, x) then !(IsNumber(x) && r.str == "") else DefaultGives(c, x, StateBelow(c, all, x, {}))
  }

  /**
   * The program reads the file unless it gives up on a record. It then evaluates every symbol
   * to what it was, if and only if each visible one comes back: by its record, unless that is an
   * empty number, or without one by its defaults. Invisible symbols do so in any case.
   */
  lemma LoadRestoresValues(env: Env, c: Context, c1: Context, all: set<Sym>, items: seq<Item>)
    requires Acyclic(c.table, all) && ChoiceFree(c.table) && Saves(env, items, c, all)
    requires var r := ReadFrom(env, Some(NOTHING_LOADED), FormatAll(items)); r.Some? ==> LoadedInto(c, c1, all, r.value)
    ensures Named(items)
    ensures ReadFrom(env, Some(NOTHING_LOADED), FormatAll(items)).Some? <==> Readable(items)
    ensures Readable(items) ==>
      ((forall x :: x in all ==> PlainValue(c1, all, x, {}) == PlainValue(c, all, x, {}))
       <==> (forall x :: x in all && PlainValue(c, all, x, {}).visible != NO ==> ComesBack(items, c, all, x)))
  {
    FileRoundTrip(env, NOTHING_LOADED, items);
    LoadedIfReadable(env, NOTHING_LOADED, items);
    if Readable(items) {
      var ld := LoadAll(env, Some(NOTHING_LOADED), items).value;
      forall x | x in all && PlainValue(c, all, x, {}).visible != NO
        ensures x.IsTristate() && HasValue(c1, x) ==> UserIs(c1, x, PlainValue(c, all, x, {}))
        ensures Regains(c, c1, x, StateBelow(c, all, x, {})) <==> ComesBack(items, c, all, x)
      {
        RecordLoaded(env, ld, c1, items, x, PlainValue(c, all, x, {}));
      }
      RestoredExactly(c, c1, all);
    }
  }

  /** A value of m is never written: without defaults and reverse dependencies it becomes n. */
  lemma ModIsLost(c: Context, c1: Context, x: Sym, s: State)
    requires c1.table == c.table && c1.modules == c.modules && x.IsTristate() && !HasValue(c1, x) && x.name != []
    requires Step(c, x, s).tri == MOD && Step(c, x, s).rev == NO && Step(c, x, s).visible != NO
    ensures ItemReading(RecordOf(x, Step(c, x, s))) == Ignored
    ensures DefaultTri(Info(c.table, x).props, s) == NO ==> Step(c1, x, s).tri == NO
  {}
}
