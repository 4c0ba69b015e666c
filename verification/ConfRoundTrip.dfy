/** Which values survive being written to a .config file and read back. */
module ConfRoundTrip {
  import opened Tristates
  import opened Exprs
  import opened Symbols
  import opened Quoting
  import opened ConfFile

  // ----- writing one symbol -----

  /** Symbol x with tristate value v or, for the other types, string value s. */
  function Format(x: Sym, v: Tristate, s: string): string {
    match x.Type()
    case Boolean | Tri => if v == NO then Unset(x) + "\n" else if v == MOD then "" else x.name + "=" + "y" + "\n"
    case String => x.name + "=" + Quoted(s) + "\n"
    case Int | Hex => x.name + "=" + Number(s) + "\n"
    case Unknown => ""
  }

  function Unset(x: Sym): string { "# " + x.name + " " + IS_UNSET }
  function Quoted(s: string): string { "\"" + (Escape(s) + "\"") }
  function Number(s: string): string { if s == "" then "0" else s }

  /** The cases of conf_write; the type tested is Boolean for a tristate without modules. */
  method WriteRecord(x: Sym, v: Tristate, s: string, modules: Tristate) returns (out: string)
    ensures out == Format(x, v, s)
  {
    var ty := if x.Type() == Tri && modules == NO then Boolean else x.Type();
    match ty
    case Boolean | Tri =>
      if v == NO {
        out := "# " + x.name + " " + IS_UNSET + "\n";
      } else if v == MOD {
        out := "";
      } else {
        out := x.name + "=" + "y" + "\n";
      }
    case String =>
      var t := WriteEscaped(s);
      out := x.name + "=" + ("\"" + (t + "\"")) + "\n";
    case Hex =>
      if !StartsWith(s, "0x") && !StartsWith(s, "0X") {
        out := x.name + "=" + (if s == "" then "0" else s) + "\n";
      } else {
        out := x.name + "=" + (if s == "" then "0" else s) + "\n";
      }
    case Int =>
      out := x.name + "=" + (if s == "" then "0" else s) + "\n";
    case Unknown =>
      out := "";
  }

  // ----- names -----

  /** The characters of symbol names in Kconfig files. */
  predicate IsWord(c: char) { IsDigit(c) || IsCapital(c) || 'a' <= c <= 'z' || c in "_-/." }

  predicate IsName(n: string) { n != [] && forall i :: 0 <= i < |n| ==> IsWord(n[i]) }

  /** sym_find returns x for its name and never a symbol of another name; x is no choice. */
  ghost predicate Registered(env: Env, x: Sym) {
    && IsName(x.name) && x.name in env.find && env.find[x.name] == x
    && (forall n :: n in env.find ==> env.find[n].name == n)
    && (forall y :: Info(env.table, y).choiceOf != Some(x))
  }

  // ----- a line that fits the buffer -----

  lemma FindInFront(s: string, t: string, c: char)
    requires Lacks(s, c)
    ensures Find(s + [c] + t, c) == |s|
  {
    FindIs(s + [c] + t, c, |s|);
  }

  lemma FindNone(s: string, c: char)
    requires Lacks(s, c)
    ensures Find(s, c) == |s| && UpTo(s, c) == s
  {
    FindIs(s, c, |s|);
  }

  lemma FindBeforeNewline(l: string, c: char)
    requires c != '\n'
    ensures if Find(l, c) == |l| then Find(l + "\n", c) == |l| + 1 else Find(l + "\n", c) == Find(l, c)
  {
    var k := Find(l, c);
    FindIs(l + "\n", c, if k == |l| then k + 1 else k);
  }

  lemma StartsBeforeNewline(l: string, w: string)
    requires Lacks(w, '\n')
    ensures StartsWith(l + "\n", w) == StartsWith(l, w)
  {
    if |w| == |l| + 1 {
      assert (l + "\n")[..|w|][|l|] == '\n';
    } else if |w| <= |l| {
      assert (l + "\n")[..|w|] == l[..|w|];
    }
  }

  lemma UpToNewline(l: string)
    ensures UpTo(l + "\n", '\n') == UpTo(l, '\n')
  {
    var k := Find(l, '\n');
    FindIs(l + "\n", '\n', k);
    assert (l + "\n")[..k] == l[..k];
  }

  lemma CommentNewline(env: Env, ld: Loaded, t: string)
    ensures AfterComment(env, ld, t + "\n") == AfterComment(env, ld, t)
  {
    var p := Find(t, ' ');
    FindBeforeNewline(t, ' ');
    if p < |t| {
      assert (t + "\n")[p + 1..] == t[p + 1..] + "\n";
      StartsBeforeNewline(t[p + 1..], IS_UNSET);
      assert (t + "\n")[..p] == t[..p];
    }
  }

  lemma AssignmentNewline(env: Env, l: string)
    ensures Assigned(env, l + "\n") == Assigned(env, l)
  {
    var p := Find(l, '=');
    FindBeforeNewline(l, '=');
    if p < |l| {
      assert (l + "\n")[p + 1..] == l[p + 1..] + "\n";
      UpToNewline(l[p + 1..]);
      assert (l + "\n")[..p] == l[..p];
    }
  }

  /** It makes no difference whether a line came with its newline. */
  lemma NewlineIgnored(env: Env, ld: Loaded, l: string)
    ensures AfterLine(env, ld, l + "\n") == AfterLine(env, ld, l)
  {
    if l != [] {
      assert (l + "\n")[0] == l[0];
      if |l| > 1 { assert (l + "\n")[2..] == l[2..] + "\n"; }
      if l[0] == '#' && |l| > 1 && l[1] == ' ' { CommentNewline(env, ld, l[2..]); }
      if IsCapital(l[0]) { AssignmentNewline(env, l); }
    }
  }

  lemma ReadOne(env: Env, ld: Loaded, chunk: string, rest: string)
    requires chunk != [] && Lacks(chunk, '\0') && ChunkLength(chunk + rest) == |chunk|
    ensures ReadFrom(env, Some(ld), chunk + rest) == ReadFrom(env, AfterLine(env, ld, chunk), rest)
  {
    FindNone(chunk, '\0');
    assert (chunk + rest)[..|chunk|] == chunk && (chunk + rest)[|chunk|..] == rest;
  }

  /** A line of up to 1023 characters, whatever follows it; at 1023 its newline is read by itself. */
  lemma ReadLine(env: Env, ld: Loaded, l: string, rest: string)
    requires Lacks(l, '\n') && Lacks(l, '\0') && |l| <= LINE_MAX
    ensures ReadFrom(env, Some(ld), l + "\n" + rest) == ReadFrom(env, AfterLine(env, ld, l), rest)
  {
    FindInFront(l, rest, '\n');
    if |l| < LINE_MAX {
      ReadOne(env, ld, l + "\n", rest);
      NewlineIgnored(env, ld, l);
    } else {
      assert l + "\n" + rest == l + ("\n" + rest);
      ReadOne(env, ld, l, "\n" + rest);
      var r := AfterLine(env, ld, l);
      if r.Some? {
        FindIs("\n" + rest, '\n', 0);
        ReadOne(env, r.value, "\n", rest);
      }
    }
  }

  // ----- what the lines of a symbol do -----

  lemma UnsetLine(env: Env, ld: Loaded, x: Sym)
    requires Registered(env, x)
    ensures AfterLine(env, ld, Unset(x)) == Some(Grouped(env, if x.IsTristate() then LoadTri(ld, x, NO) else ld, x))
  {
    var t := x.name + " " + IS_UNSET;
    assert Unset(x)[2..] == t && Unset(x)[0] == '#' && Unset(x)[1] == ' ';
    FindInFront(x.name, IS_UNSET, ' ');
    assert t[..|x.name|] == x.name && t[|x.name| + 1..] == IS_UNSET;
    assert IS_UNSET[..|IS_UNSET|] == IS_UNSET;
  }

  function After(env: Env, r: Option<Loaded>, x: Sym): Option<Loaded> {
    if r.None? then None else Some(Grouped(env, r.value, x))
  }

  /** An assignment to x, with v its text up to where the chunk or the line ends. */
  lemma AssignLine(env: Env, ld: Loaded, x: Sym, v: string)
    requires Registered(env, x) && IsCapital(x.name[0])
    ensures AfterLine(env, ld, x.name + "=" + v) == After(env, LoadText(ld, x, UpTo(v, '\n')), x)
  {
    var l := x.name + "=" + v;
    FindInFront(x.name, v, '=');
    assert l[0] == x.name[0] && l[..|x.name|] == x.name && l[|x.name| + 1..] == v;
  }

  /** The first character of the text decides: y, n, and m where there is an m. Other text does nothing. */
  lemma AssignedTristate(env: Env, ld: Loaded, x: Sym, v: string)
    requires Registered(env, x) && IsCapital(x.name[0]) && x.IsTristate() && v != [] && v[0] != '\n'
    ensures var r := AfterLine(env, ld, x.name + "=" + v);
      && r.Some?
      && (v[0] == 'y' ==> x in r.value.known && Value(r.value, x).tri == YES)
      && (v[0] == 'n' ==> x in r.value.known && Value(r.value, x).tri == NO)
      && (v[0] == 'm' && x.Type() == Tri ==> x in r.value.known && Value(r.value, x).tri == MOD)
      && (v[0] == 'm' && x.Type() == Boolean ==> Same(ld, r.value, x))
      && (v[0] !in "ymn" ==> Same(ld, r.value, x))
  {
    AssignLine(env, ld, x, v);
    var t := UpTo(v, '\n');
    assert t != [] && t[0] == v[0];
    var r := LoadText(ld, x, t).value;
    GroupedSame(env, r, x, x);
  }

  /** A member of a choice makes that known, at least at its own value; at y it becomes the picked one. */
  lemma MemberGrouped(env: Env, ld: Loaded, x: Sym, c: Sym)
    requires Info(env.table, x).choiceOf == Some(c) && c != x
    ensures var r := Grouped(env, ld, x);
      && c in r.known && Value(r, c).tri >= Value(ld, x).tri && Value(r, c).tri in {Value(ld, c).tri, Value(ld, x).tri}
      && Value(r, c).tri >= Value(ld, c).tri
      && (if Value(ld, x).tri == YES then r.pick == ld.pick[c := x] else r.pick == ld.pick)
      && forall y :: y != c ==> (y in r.known <==> y in ld.known) && Value(r, y) == Value(ld, y)
  {}

  // ----- which values come back -----

  /** Newline-free strings, valid numbers and y behind a capital, and n; on lines that fit the buffer. */
  predicate Recoverable(x: Sym, v: Tristate, s: string)
    requires x.name != []
  {
    match x.Type()
    case Boolean | Tri =>
      || (v == NO && |x.name| + 13 <= LINE_MAX)
      || (v == YES && IsCapital(x.name[0]) && |x.name| + 2 <= LINE_MAX)
    case String => IsCapital(x.name[0]) && Lacks(s, '\n') && |x.name| + 3 + |Escape(s)| <= LINE_MAX
    case Int | Hex => IsCapital(x.name[0]) && ValidText(x.Type(), s) && |x.name| + 1 + |s| <= LINE_MAX
    case Unknown => false
  }

  predicate Recovered(r: Option<Loaded>, x: Sym, v: Tristate, s: string) {
    r.Some? && x in r.value.known && if x.IsTristate() then Value(r.value, x).tri == v else Value(r.value, x).str == s
  }

  /** The user value set, and the choice informed. */
  function Stored(env: Env, ld: Loaded, x: Sym, v: Tristate, s: string): Loaded {
    Grouped(env, if x.IsTristate() then LoadTri(ld, x, v) else LoadStr(ld, x, s), x)
  }

  lemma {:induction false} EscapeLacks(s: string, c: char)
    requires !Special(c)
    ensures Lacks(Escape(s), c) <==> Lacks(s, c)
  {
    if s != [] {
      EscapeLacks(s[1..], c);
      var e := Escape(s[1..]);
      if Special(s[0]) {
        assert Escape(s) == ['\\', s[0]] + e;
        assert Lacks(Escape(s), c) <==> Lacks(e, c) by { LacksConcat(['\\', s[0]], e, c); }
      } else {
        assert Escape(s) == [s[0]] + e;
        LacksConcat([s[0]], e, c);
      }
      LacksConcat([s[0]], s[1..], c);
      assert s == [s[0]] + s[1..];
    }
  }

  lemma LacksConcat(a: string, b: string, c: char)
    ensures Lacks(a + b, c) <==> Lacks(a, c) && Lacks(b, c)
  {
    assert forall i :: 0 <= i < |a| ==> a[i] == (a + b)[i];
    assert forall i :: 0 <= i < |b| ==> b[i] == (a + b)[|a| + i];
  }

  lemma QuotedText(ld: Loaded, x: Sym, s: string)
    requires x.Type() == String
    ensures LoadText(ld, x, Quoted(s)) == Some(LoadStr(ld, x, s))
  {
    UnescapeEscape(s, []);
    assert Quoted(s)[1..] == Escape(s) + ['"'] + [];
    assert StartsWith(Quoted(s), "\"");
  }

  /** Numbers are plain text. */
  lemma ValidNumber(ty: SymType, s: string)
    requires (ty == Int || ty == Hex) && ValidText(ty, s)
    ensures s != [] && Lacks(s, '\n') && Lacks(s, '\0')
  {
    var k := if ty == Int then (if StartsWith(s, "-") then 1 else 0)
             else if StartsWith(s, "0x") || StartsWith(s, "0X") then 2 else 0;
    var digits := s[k..];
    assert AllHexDigits(digits);
    if k > 0 { assert s[0] == s[..k][0] && s[k - 1] == s[..k][k - 1]; }
    assert s == s[..k] + digits;
    LacksConcat(s[..k], digits, '\n');
    LacksConcat(s[..k], digits, '\0');
  }

  lemma UnsetText(x: Sym)
    requires IsName(x.name)
    ensures |Unset(x)| == |x.name| + 13 && Lacks(Unset(x), '\n') && Lacks(Unset(x), '\0')
  {
    assert Lacks(IS_UNSET, '\n') && Lacks(IS_UNSET, '\0');
  }

  lemma UnsetLoads(env: Env, ld: Loaded, x: Sym, rest: string)
    requires Registered(env, x) && x.IsTristate() && Recoverable(x, NO, "")
    ensures ReadFrom(env, Some(ld), Unset(x) + "\n" + rest) == ReadFrom(env, Some(Stored(env, ld, x, NO, "")), rest)
  {
    UnsetText(x);
    ReadLine(env, ld, Unset(x), rest);
    UnsetLine(env, ld, x);
  }

  /** A record with text t does what the text does. */
  lemma TextReads(env: Env, ld: Loaded, x: Sym, t: string, rest: string)
    requires Registered(env, x) && IsCapital(x.name[0])
    requires Lacks(t, '\n') && Lacks(t, '\0') && |x.name| + 1 + |t| <= LINE_MAX
    ensures ReadFrom(env, Some(ld), x.name + "=" + t + "\n" + rest) == ReadFrom(env, After(env, LoadText(ld, x, t), x), rest)
  {
    FindNone(t, '\n');
    AssignLine(env, ld, x, t);
    ReadLine(env, ld, x.name + "=" + t, rest);
  }

  /** An assignment to a name without a capital in front is passed over. */
  lemma LowerCaseReads(env: Env, ld: Loaded, x: Sym, t: string, rest: string)
    requires IsName(x.name) && !IsCapital(x.name[0])
    requires Lacks(t, '\n') && Lacks(t, '\0') && |x.name| + 1 + |t| <= LINE_MAX
    ensures ReadFrom(env, Some(ld), x.name + "=" + t + "\n" + rest) == ReadFrom(env, Some(ld), rest)
  {
    var l := x.name + "=" + t;
    assert l[0] == x.name[0] && IsWord(l[0]);
    ReadLine(env, ld, l, rest);
  }

  /** What the line of a record does to the reader. */
  datatype Reading = Ignored | Takes(v: Tristate, s: string) | GivesUp

  function ReadingOf(x: Sym, v: Tristate, s: string): Reading
    requires x.name != []
  {
    match x.Type()
    case Boolean | Tri =>
      if v == NO then Takes(NO, s) else if v == YES && IsCapital(x.name[0]) then Takes(YES, s) else Ignored
    case String =>
      if !IsCapital(x.name[0]) then Ignored else if QuoteFits(x, s) then Takes(v, s) else GivesUp
    case Int | Hex =>
      if !IsCapital(x.name[0]) then Ignored else if ValidText(x.Type(), Number(s)) then Takes(v, Number(s)) else GivesUp
    case Unknown => Ignored
  }

  predicate QuoteFits(x: Sym, s: string) { Lacks(s, '\n') && |x.name| + 3 + |Escape(s)| <= LINE_MAX }

  /**
   * A record is one line that fits the buffer; only of strings this is not asked, unless
   * the line is one that is passed over.
   */
  predicate OneLine(x: Sym, v: Tristate, s: string)
    requires x.name != []
  {
    match x.Type()
    case Boolean | Tri => |x.name| + 13 <= LINE_MAX
    case String => if IsCapital(x.name[0]) then |x.name| + 2 <= LINE_MAX else QuoteFits(x, s)
    case Int | Hex => Lacks(s, '\n') && |x.name| + 1 + |Number(s)| <= LINE_MAX
    case Unknown => true
  }

  function AfterReading(env: Env, ld: Loaded, x: Sym, r: Reading): Option<Loaded> {
    match r
    case Ignored => Some(ld)
    case Takes(v, s) => Some(Stored(env, ld, x, v, s))
    case GivesUp => None
  }

  /** Any record, whatever has been read before and whatever follows. */
  lemma RecordReads(env: Env, ld: Loaded, x: Sym, v: Tristate, s: string, rest: string)
    requires Registered(env, x) && OneLine(x, v, s) && Lacks(s, '\0')
    ensures ReadFrom(env, Some(ld), Format(x, v, s) + rest) == ReadFrom(env, AfterReading(env, ld, x, ReadingOf(x, v, s)), rest)
  {
    match x.Type()
    case Boolean | Tri => TristateReads(env, ld, x, v, s, rest);
    case String => StringReads(env, ld, x, v, s, rest);
    case Int | Hex => NumberReads(env, ld, x, v, s, rest);
    case Unknown => assert "" + rest == rest;
  }

  lemma TristateReads(env: Env, ld: Loaded, x: Sym, v: Tristate, s: string, rest: string)
    requires Registered(env, x) && OneLine(x, v, s) && x.IsTristate()
    ensures ReadFrom(env, Some(ld), Format(x, v, s) + rest) == ReadFrom(env, AfterReading(env, ld, x, ReadingOf(x, v, s)), rest)
  {
    if v == NO {
      UnsetLoads(env, ld, x, rest);
    } else if v == MOD {
      assert "" + rest == rest;
    } else if IsCapital(x.name[0]) {
      TextReads(env, ld, x, "y", rest);
    } else {
      LowerCaseReads(env, ld, x, "y", rest);
    }
  }

  lemma StringReads(env: Env, ld: Loaded, x: Sym, v: Tristate, s: string, rest: string)
    requires Registered(env, x) && OneLine(x, v, s) && Lacks(s, '\0') && x.Type() == String
    ensures ReadFrom(env, Some(ld), Format(x, v, s) + rest) == ReadFrom(env, AfterReading(env, ld, x, ReadingOf(x, v, s)), rest)
  {
    EscapeLacks(s, '\n');
    EscapeLacks(s, '\0');
    if !IsCapital(x.name[0]) {
      LowerCaseReads(env, ld, x, Quoted(s), rest);
    } else if QuoteFits(x, s) {
      QuotedText(ld, x, s);
      TextReads(env, ld, x, Quoted(s), rest);
    } else {
      StringGivesUp(env, ld, x, s, rest);
    }
  }

  lemma StringGivesUp(env: Env, ld: Loaded, x: Sym, s: string, rest: string)
    requires Registered(env, x) && x.Type() == String && IsCapital(x.name[0]) && |x.name| + 2 <= LINE_MAX
    requires Lacks(s, '\0') && !QuoteFits(x, s)
    ensures ReadFrom(env, Some(ld), x.name + "=" + Quoted(s) + "\n" + rest) == None
  {
    EscapeLacks(s, '\n');
    EscapeLacks(s, '\0');
    var w := Quoted(s) + "\n";
    assert x.name + "=" + Quoted(s) + "\n" + rest == x.name + "=" + w + rest;
    var m := FirstChunk(env, ld, x, w, rest);
    CutQuote(ld, x, s, m);
  }

  lemma NumberReads(env: Env, ld: Loaded, x: Sym, v: Tristate, s: string, rest: string)
    requires Registered(env, x) && OneLine(x, v, s) && Lacks(s, '\0') && (x.Type() == Int || x.Type() == Hex)
    ensures ReadFrom(env, Some(ld), Format(x, v, s) + rest) == ReadFrom(env, AfterReading(env, ld, x, ReadingOf(x, v, s)), rest)
  {
    if IsCapital(x.name[0]) {
      TextReads(env, ld, x, Number(s), rest);
    } else {
      LowerCaseReads(env, ld, x, Number(s), rest);
    }
  }

  /** A recoverable record is stored with its own value. */
  lemma RecordLoads(env: Env, ld: Loaded, x: Sym, v: Tristate, s: string, rest: string)
    requires Registered(env, x) && Recoverable(x, v, s) && Lacks(s, '\0')
    ensures ReadFrom(env, Some(ld), Format(x, v, s) + rest) == ReadFrom(env, Some(Stored(env, ld, x, v, s)), rest)
  {
    match x.Type()
    case Boolean | Tri =>
      if v == NO { UnsetLoads(env, ld, x, rest); } else { TextReads(env, ld, x, "y", rest); }
    case String =>
      StringReads(env, ld, x, v, s, rest);
    case Int | Hex =>
      ValidNumber(x.Type(), s);
      NumberReads(env, ld, x, v, s, rest);
  }

  /** An empty number is written, and comes back, as 0. */
  lemma EmptyNumber(x: Sym, v: Tristate)
    requires (x.Type() == Int || x.Type() == Hex) && x.name != [] && IsCapital(x.name[0])
    ensures ReadingOf(x, v, "") == Takes(v, "0")
  {
    assert "0"[..1][0] == '0' && "-"[0] == '-';
    assert !StartsWith("0", "-");
  }

  // ----- what does not come back -----

  /** Nothing is loaded for x. */
  predicate Same(ld: Loaded, ld': Loaded, x: Sym) {
    Value(ld', x) == Value(ld, x) && (x in ld'.known <==> x in ld.known)
  }

  ghost predicate SameIfAny(ld: Loaded, r: Option<Loaded>, x: Sym) {
    r.Some? ==> Same(ld, r.value, x)
  }

  /** Only a choice is changed on behalf of its members. */
  lemma GroupedSame(env: Env, ld: Loaded, x: Sym, y: Sym)
    requires Registered(env, x)
    ensures Same(ld, Grouped(env, ld, y), x)
  {}

  /** A comment that does not name x, or x is no tristate. */
  lemma CommentMisses(env: Env, ld: Loaded, x: Sym, t: string)
    requires Registered(env, x) && (x.IsTristate() ==> |t| <= |x.name| + |IS_UNSET|)
    ensures Same(ld, AfterComment(env, ld, t), x)
  {
    var p := Find(t, ' ');
    if p < |t| && StartsWith(t[p + 1..], IS_UNSET) && t[..p] in env.find {
      var y := env.find[t[..p]];
      var ld' := if y.IsTristate() then LoadTri(ld, y, NO) else ld;
      assert y == x ==> p == |x.name|;
      GroupedSame(env, ld', x, y);
    }
  }

  /** An assignment to another symbol, or one without any text. */
  lemma AssignmentMisses(env: Env, ld: Loaded, x: Sym, l: string)
    requires Registered(env, x) && |l| <= |x.name| + 1
    ensures SameIfAny(ld, AfterAssignment(env, ld, l), x)
  {
    var r := Assigned(env, l);
    if r.Some? {
      var a := r.value;
      if a.x == x {
        assert l[..Find(l, '=')] == x.name;
        assert a.text == "";
      }
      var ld' := LoadText(ld, a.x, a.text);
      if ld'.Some? {
        assert Same(ld, ld'.value, x);
        GroupedSame(env, ld'.value, x, a.x);
      }
    }
  }

  /** Assignments to x are not recognised, and it has no other form. */
  predicate NeverAssigned(x: Sym)
    requires x.name != []
  {
    !IsCapital(x.name[0]) && !x.IsTristate()
  }

  lemma LineMisses(env: Env, ld: Loaded, x: Sym, l: string)
    requires Registered(env, x) && (|l| <= |x.name| + 1 || NeverAssigned(x))
    ensures SameIfAny(ld, AfterLine(env, ld, l), x)
  {
    if l != [] && l[0] == '#' && |l| > 1 && l[1] == ' ' {
      CommentMisses(env, ld, x, l[2..]);
    } else if l != [] && IsCapital(l[0]) {
      if |l| <= |x.name| + 1 { AssignmentMisses(env, ld, x, l); } else { LowerCaseMisses(env, ld, x, l); }
    }
  }

  lemma LowerCaseMisses(env: Env, ld: Loaded, x: Sym, l: string)
    requires Registered(env, x) && !IsCapital(x.name[0]) && l != [] && IsCapital(l[0])
    ensures SameIfAny(ld, AfterAssignment(env, ld, l), x)
  {
    var r := Assigned(env, l);
    if r.Some? {
      var a := r.value;
      var name := l[..Find(l, '=')];
      assert a.x.name == name && (name == [] || name[0] == l[0]);
      var ld' := LoadText(ld, a.x, a.text);
      if ld'.Some? {
        assert Same(ld, ld'.value, x);
        GroupedSame(env, ld'.value, x, a.x);
      }
    }
  }

  lemma ReadUnfold(env: Env, ld: Loaded, file: string)
    requires file != []
    ensures var n := ChunkLength(file);
      ReadFrom(env, Some(ld), file) == ReadFrom(env, AfterLine(env, ld, UpTo(file[..n], '\0')), file[n..])
  {}

  /** The same for a whole file, by its length, that of its lines, or the name of x. */
  lemma {:induction false} FileMisses(env: Env, ld: Loaded, x: Sym, file: string)
    requires Registered(env, x)
    requires |file| <= |x.name| + 1 || LINE_MAX <= |x.name| + 1 || NeverAssigned(x)
    ensures SameIfAny(ld, ReadFrom(env, Some(ld), file), x)
    decreases |file|
  {
    if file != [] {
      var n := ChunkLength(file);
      var l := UpTo(file[..n], '\0');
      ReadUnfold(env, ld, file);
      LineMisses(env, ld, x, l);
      var r := AfterLine(env, ld, l);
      if r.Some? { FileMisses(env, r.value, x, file[n..]); }
    }
  }

  /** A number is never longer than what is left of its line after the name. */
  lemma LongerAssigned(env: Env, ld: Loaded, x: Sym, l: string, s: string)
    requires Registered(env, x) && (x.Type() == Int || x.Type() == Hex) && |l| < |x.name| + 1 + |s|
    requires Value(ld, x).str != s
    ensures var r := AfterAssignment(env, ld, l); r.Some? ==> Value(r.value, x).str != s
  {
    var r := Assigned(env, l);
    if r.Some? {
      var a := r.value;
      if a.x == x {
        assert l[..Find(l, '=')] == x.name && |a.text| < |s|;
        ShorterText(ld, x, a.text, s);
      } else {
        OtherText(ld, x, a.x, a.text);
      }
      var ld' := LoadText(ld, a.x, a.text);
      if ld'.Some? { GroupedSame(env, ld'.value, x, a.x); }
    }
  }

  lemma ShorterText(ld: Loaded, x: Sym, text: string, s: string)
    requires (x.Type() == Int || x.Type() == Hex) && |text| < |s|
    ensures var r := LoadText(ld, x, text); r.Some? ==> Value(r.value, x).str != s
  {}

  lemma OtherText(ld: Loaded, x: Sym, y: Sym, text: string)
    requires y != x
    ensures SameIfAny(ld, LoadText(ld, y, text), x)
  {}

  lemma LongerLoaded(env: Env, ld: Loaded, x: Sym, l: string, s: string)
    requires Registered(env, x) && (x.Type() == Int || x.Type() == Hex) && |l| < |x.name| + 1 + |s|
    requires Value(ld, x).str != s
    ensures var r := AfterLine(env, ld, l); r.Some? ==> Value(r.value, x).str != s
  {
    if l != [] && l[0] == '#' && |l| > 1 && l[1] == ' ' {
      CommentMisses(env, ld, x, l[2..]);
    } else if l != [] && IsCapital(l[0]) {
      LongerAssigned(env, ld, x, l, s);
    }
  }

  lemma {:induction false} LongerMissed(env: Env, ld: Loaded, x: Sym, file: string, s: string)
    requires Registered(env, x) && (x.Type() == Int || x.Type() == Hex) && |file| < |x.name| + 1 + |s|
    requires Value(ld, x).str != s
    ensures var r := ReadFrom(env, Some(ld), file); r.Some? ==> Value(r.value, x).str != s
    decreases |file|
  {
    if file != [] {
      var n := ChunkLength(file);
      var l := UpTo(file[..n], '\0');
      ReadUnfold(env, ld, file);
      LongerLoaded(env, ld, x, l, s);
      var r := AfterLine(env, ld, l);
      if r.Some? { LongerMissed(env, r.value, x, file[n..], s); }
    }
  }

  // ----- a record alone in a file -----

  /** What is read of a line `x=w` at once: all of it, or as much as fits. */
  lemma FirstChunk(env: Env, ld: Loaded, x: Sym, w: string, rest: string) returns (m: nat)
    requires Registered(env, x) && IsCapital(x.name[0]) && |x.name| + 2 <= LINE_MAX
    requires w != [] && w[|w| - 1] == '\n' && Lacks(w, '\0')
    ensures 1 <= m <= |w| && |x.name| + 1 + m <= LINE_MAX
    ensures var r := After(env, LoadText(ld, x, UpTo(w[..m], '\n')), x);
      ReadFrom(env, Some(ld), x.name + "=" + w + rest) == ReadFrom(env, r, w[m..] + rest)
  {
    var file, k := x.name + "=" + w + rest, |x.name| + 1;
    assert file[k + |w| - 1] == w[|w| - 1];
    FirstNewline(file, k, k + |w| - 1);
    var n := ChunkLength(file);
    m := n - k;
    var chunk := x.name + "=" + w[..m];
    assert file[..n] == chunk && file[n..] == w[m..] + rest;
    FindNone(chunk, '\0');
    ReadUnfold(env, ld, file);
    AssignLine(env, ld, x, w[..m]);
  }

  /** A newline at j, and none before k. */
  lemma FirstNewline(s: string, k: nat, j: nat)
    requires k <= j < |s| && s[j] == '\n' && Lacks(s[..k], '\n')
    ensures k <= Find(s, '\n') <= j
  {
    assert forall i :: 0 <= i < k ==> s[i] == s[..k][i];
  }

  lemma CutPrefix(w: string, m: nat)
    requires m <= |w|
    ensures UpTo(w[..m], '\n') == w[..if m <= Find(w, '\n') then m else Find(w, '\n')]
  {
    var k := Find(w, '\n');
    FindIs(w[..m], '\n', if m <= k then m else k);
    assert k < m ==> w[..m][..k] == w[..k];
  }

  /** A quoted string that is cut, by a newline in it or by the end of the buffer, is rejected. */
  lemma CutQuote(ld: Loaded, x: Sym, s: string, m: nat)
    requires x.Type() == String && 1 <= m <= |Quoted(s)| + 1 && (m <= |Escape(s)| + 1 || !Lacks(Escape(s), '\n'))
    ensures LoadText(ld, x, UpTo((Quoted(s) + "\n")[..m], '\n')) == None
  {
    var w, e := Quoted(s) + "\n", Escape(s);
    assert w == "\"" + e + "\"\n";
    CutPrefix(w, m);
    var k := Find(w, '\n');
    var j := if m <= k then m else k;
    CutBefore(w, e);
    QuotePrefix(w, e, j);
    UnescapeCut(s, j - 1);
  }

  /** Where a quoted line ends for the reader. */
  lemma CutBefore(w: string, e: string)
    requires w == "\"" + e + "\"\n"
    ensures Find(w, '\n') >= 1 && (!Lacks(e, '\n') ==> Find(w, '\n') <= |e|)
  {
    assert w[0] == '"';
    if !Lacks(e, '\n') {
      var i :| 0 <= i < |e| && e[i] == '\n';
      assert w[1 + i] == '\n';
    }
  }

  lemma QuotePrefix(w: string, e: string, j: nat)
    requires w == "\"" + e + "\"\n" && 1 <= j <= |e| + 1
    ensures w[..j][1..] == e[..j - 1] && StartsWith(w[..j], "\"")
  {
    assert w[..j] == "\"" + e[..j - 1];
  }

  lemma StringLost(env: Env, x: Sym, s: string)
    requires Registered(env, x) && x.Type() == String && Lacks(s, '\0') && !Recoverable(x, NO, s)
    ensures !Recovered(ReadFrom(env, Some(NOTHING_LOADED), Format(x, NO, s)), x, NO, s)
  {
    var ld, w := NOTHING_LOADED, Quoted(s) + "\n";
    assert Format(x, NO, s) == x.name + "=" + w;
    if !IsCapital(x.name[0]) || LINE_MAX <= |x.name| + 1 {
      FileMisses(env, ld, x, x.name + "=" + w);
    } else {
      EscapeLacks(s, '\0');
      EscapeLacks(s, '\n');
      var m := FirstChunk(env, ld, x, w, "");
      assert x.name + "=" + w + "" == x.name + "=" + w;
      CutQuote(ld, x, s, m);
    }
  }

  lemma NumberLost(env: Env, x: Sym, s: string)
    requires Registered(env, x) && (x.Type() == Int || x.Type() == Hex) && Lacks(s, '\0') && !Recoverable(x, NO, s)
    ensures !Recovered(ReadFrom(env, Some(NOTHING_LOADED), Format(x, NO, s)), x, NO, s)
  {
    var ld, w := NOTHING_LOADED, Number(s) + "\n";
    assert Format(x, NO, s) == x.name + "=" + w;
    if !IsCapital(x.name[0]) || LINE_MAX <= |x.name| + 1 {
      FileMisses(env, ld, x, x.name + "=" + w);
    } else {
      var m := FirstChunk(env, ld, x, w, "");
      assert x.name + "=" + w + "" == x.name + "=" + w && w[m..] + "" == w[m..];
      var u := UpTo(w[..m], '\n');
      if ValidText(x.Type(), u) {
        ValidNumber(x.Type(), u);
        assert u != s;
        GroupedSame(env, LoadStr(ld, x, u), x, x);
        LongerMissed(env, Grouped(env, LoadStr(ld, x, u), x), x, w[m..], s);
      }
    }
  }

  lemma YesLost(env: Env, x: Sym)
    requires Registered(env, x) && x.IsTristate() && !Recoverable(x, YES, "")
    ensures !Recovered(ReadFrom(env, Some(NOTHING_LOADED), Format(x, YES, "")), x, YES, "")
  {
    var ld, file := NOTHING_LOADED, Format(x, YES, "");
    if LINE_MAX <= |x.name| + 1 {
      FileMisses(env, ld, x, file);
    } else {
      LowerCaseReads(env, ld, x, "y", "");
      assert file == x.name + "=" + "y" + "\n" + "";
    }
  }

  lemma NoLost(env: Env, x: Sym)
    requires Registered(env, x) && x.IsTristate() && !Recoverable(x, NO, "")
    ensures !Recovered(ReadFrom(env, Some(NOTHING_LOADED), Format(x, NO, "")), x, NO, "")
  {
    var ld, file := NOTHING_LOADED, Format(x, NO, "");
    FindIs(file, '\n', |x.name| + 13);
    var chunk := file[..LINE_MAX];
    FindNone(chunk, '\0');
    ReadUnfold(env, ld, file);
    assert chunk[0] == '#' && chunk[1] == ' ';
    CommentMisses(env, ld, x, chunk[2..]);
    FileMisses(env, AfterComment(env, ld, chunk[2..]), x, file[LINE_MAX..]);
  }

  /** One record, written and read: it comes back exactly if it is recoverable. */
  lemma RecordRoundTrip(env: Env, x: Sym, v: Tristate, s: string)
    requires Registered(env, x) && Lacks(s, '\0')
    ensures Recovered(ReadFrom(env, Some(NOTHING_LOADED), Format(x, v, s)), x, v, s) <==> Recoverable(x, v, s)
  {
    var ld := NOTHING_LOADED;
    if Recoverable(x, v, s) {
      RecordLoads(env, ld, x, v, s, "");
      assert Format(x, v, s) + "" == Format(x, v, s);
      GroupedSame(env, if x.IsTristate() then LoadTri(ld, x, v) else LoadStr(ld, x, s), x, x);
    } else {
      match x.Type()
      case String => StringLost(env, x, s);
      case Int | Hex => NumberLost(env, x, s);
      case Unknown =>
      case Boolean | Tri =>
        if v == NO { NoLost(env, x); }
        if v == YES { YesLost(env, x); }
    }
  }
}
