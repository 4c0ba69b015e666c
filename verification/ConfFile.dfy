/** A .config file as text: what is written for a symbol, and what reading a line back does. */
module ConfFile {
  import opened Tristates
  import opened Exprs
  import opened Symbols
  import opened SymbolValue
  import opened Quoting

  // ----- searching strings -----

  /** strchr as an index; the length stands for no match. */
  function Find(s: string, c: char): (k: nat)
    ensures k <= |s| && (forall j :: 0 <= j < k ==> s[j] != c) && (k < |s| ==> s[k] == c)
  {
    if s == [] || s[0] == c then 0 else 1 + Find(s[1..], c)
  }

  function UpTo(s: string, c: char): string { s[..Find(s, c)] }

  predicate StartsWith(s: string, w: string) { |w| <= |s| && s[..|w|] == w }

  predicate Lacks(s: string, c: char) { forall i :: 0 <= i < |s| ==> s[i] != c }

  // ----- valid integers -----

  predicate IsDigit(c: char) { '0' <= c <= '9' }
  predicate IsHexDigit(c: char) { IsDigit(c) || 'a' <= c <= 'f' || 'A' <= c <= 'F' }

  predicate AllDigits(s: string) { forall i :: 0 <= i < |s| ==> IsDigit(s[i]) }
  predicate AllHexDigits(s: string) { forall i :: 0 <= i < |s| ==> IsHexDigit(s[i]) }

  /** An optional minus sign, then digits without a leading zero. */
  predicate IsDecimal(s: string) {
    var digits := if StartsWith(s, "-") then s[1..] else s;
    digits != [] && AllDigits(digits) && (digits[0] == '0' ==> |digits| == 1)
  }

  /** An optional 0x or 0X, then at least one digit. */
  predicate IsHexadecimal(s: string) {
    var digits := if StartsWith(s, "0x") || StartsWith(s, "0X") then s[2..] else s;
    digits != [] && AllHexDigits(digits)
  }

  predicate ValidText(ty: SymType, s: string) {
    match ty
    case String => true
    case Int => IsDecimal(s)
    case Hex => IsHexadecimal(s)
    case Boolean | Tri => s != [] && s[0] in "yYmMnN"
    case Unknown => false
  }

  method DecimalValid(s: string) returns (ok: bool)
    ensures ok == IsDecimal(s)
  {
    var i := if |s| > 0 && s[0] == '-' then 1 else 0;
    assert i == 0 ==> !StartsWith(s, "-");
    ghost var digits := s[i..];
    assert digits == if StartsWith(s, "-") then s[1..] else s;
    if i == |s| || !IsDigit(s[i]) { return false; }
    assert digits[0] == s[i];
    if s[i] == '0' && i + 1 < |s| { return false; }
    var k := i + 1;
    while k < |s|
      invariant i < k <= |s| && forall j :: 0 <= j < k - i ==> IsDigit(digits[j])
    {
      assert digits[k - i] == s[k];
      if !IsDigit(s[k]) { return false; }
      k := k + 1;
    }
    return true;
  }

  method HexadecimalValid(s: string) returns (ok: bool)
    ensures ok == IsHexadecimal(s)
  {
    var i := if |s| > 1 && s[0] == '0' && (s[1] == 'x' || s[1] == 'X') then 2 else 0;
    assert i == 2 <==> StartsWith(s, "0x") || StartsWith(s, "0X");
    ghost var digits := s[i..];
    if i == |s| { return false; }
    var k := i;
    while k < |s|
      invariant i <= k <= |s| && forall j :: 0 <= j < k - i ==> IsHexDigit(digits[j])
    {
      assert digits[k - i] == s[k];
      if !IsHexDigit(s[k]) { return false; }
      k := k + 1;
    }
    return true;
  }

  /** sym_string_valid, character by character; the end of the string fails every test. */
  method StringValid(ty: SymType, s: string) returns (ok: bool)
    ensures ok == ValidText(ty, s)
  {
    match ty
    case String => ok := true;
    case Int => ok := DecimalValid(s);
    case Hex => ok := HexadecimalValid(s);
    case Boolean | Tri =>
      ok := |s| > 0 && (s[0] == 'y' || s[0] == 'Y' || s[0] == 'm' || s[0] == 'M' || s[0] == 'n' || s[0] == 'N');
    case Unknown => ok := false;
  }

  // ----- reading -----

  /** The symbol records, and sym_find. */
  datatype Env = Env(table: Table, find: map<string, Sym>)

  /** User values, the picked member of each choice, and the symbols that are no longer SYMBOL_NEW. */
  datatype Loaded = Loaded(user: map<Sym, UserValue>, pick: map<Sym, Sym>, known: set<Sym>)

  const NOTHING_LOADED := Loaded(map[], map[], {})

  function Value(ld: Loaded, x: Sym): UserValue {
    if x in ld.user then ld.user[x] else NO_VALUE
  }

  function LoadTri(ld: Loaded, x: Sym, v: Tristate): Loaded {
    ld.(user := ld.user[x := UserValue(v, Value(ld, x).str)], known := ld.known + {x})
  }

  function LoadStr(ld: Loaded, x: Sym, s: string): Loaded {
    ld.(user := ld.user[x := UserValue(Value(ld, x).tri, s)], known := ld.known + {x})
  }

  /** A member of a choice makes the choice known; at y it becomes the picked one. */
  function Grouped(env: Env, ld: Loaded, x: Sym): Loaded {
    match Info(env.table, x).choiceOf
    case None => ld
    case Some(c) =>
      var v := Value(ld, x).tri;
      LoadTri(if v == YES then ld.(pick := ld.pick[c := x]) else ld, c, Apply(Or, Value(ld, c).tri, v))
  }

  const IS_UNSET := "is not set"

  /** A comment, from its first word on. */
  function AfterComment(env: Env, ld: Loaded, t: string): Loaded {
    var p := Find(t, ' ');
    if p == |t| || !StartsWith(t[p + 1..], IS_UNSET) || t[..p] !in env.find then ld
    else
      var x := env.find[t[..p]];
      Grouped(env, if x.IsTristate() then LoadTri(ld, x, NO) else ld, x)
  }

  function LoadText(ld: Loaded, x: Sym, v: string): Option<Loaded> {
    match x.Type()
    case Boolean | Tri => Some(
      if v == [] then ld
      else if v[0] == 'm' && x.Type() == Tri then LoadTri(ld, x, MOD)
      else if v[0] == 'y' then LoadTri(ld, x, YES)
      else if v[0] == 'n' then LoadTri(ld, x, NO)
      else ld)
    case String =>
      if !StartsWith(v, "\"") then Some(ld)
      else
        var s := Unescape(v[1..]);
        if s.None? then None else Some(LoadStr(ld, x, s.value))
    case Int | Hex => if ValidText(x.Type(), v) then Some(LoadStr(ld, x, v)) else None
    case Unknown => Some(ld)
  }

  /** The symbol a line assigns to, and the text up to the end of the line. */
  datatype Assignment = Assignment(x: Sym, text: string)

  function Assigned(env: Env, l: string): Option<Assignment> {
    var p := Find(l, '=');
    if p == |l| || l[..p] !in env.find then None
    else Some(Assignment(env.find[l[..p]], UpTo(l[p + 1..], '\n')))
  }

  function AfterAssignment(env: Env, ld: Loaded, l: string): Option<Loaded> {
    match Assigned(env, l)
    case None => Some(ld)
    case Some(a) =>
      var r := LoadText(ld, a.x, a.text);
      if r.None? then None else Some(Grouped(env, r.value, a.x))
  }

  predicate IsCapital(c: char) { 'A' <= c <= 'Z' }

  /** What one line does; None where the program gives up. */
  function AfterLine(env: Env, ld: Loaded, l: string): Option<Loaded> {
    if l == [] then Some(ld)
    else if l[0] == '#' then Some(if |l| > 1 && l[1] == ' ' then AfterComment(env, ld, l[2..]) else ld)
    else if IsCapital(l[0]) then AfterAssignment(env, ld, l)
    else Some(ld)
  }

  const LINE_MAX := 1023

  /** fgets: up to and including the next newline, but no more than fits the buffer. */
  function ChunkLength(file: string): (n: nat)
    requires file != []
    ensures 0 < n <= |file| && n <= LINE_MAX
  {
    var k := Find(file, '\n') + 1;
    if k <= LINE_MAX && k <= |file| then k else if |file| <= LINE_MAX then |file| else LINE_MAX
  }

  /** Loading one line; None where the program gives up. */
  type Loader = (Loaded, string) -> Option<Loaded>

  function Lines(load: Loader, ld: Option<Loaded>, file: string): Option<Loaded>
    decreases |file|
  {
    if ld.None? || file == [] then ld
    else
      var n := ChunkLength(file);
      Lines(load, load(ld.value, UpTo(file[..n], '\0')), file[n..])
  }

  function LineLoader(env: Env): Loader { (ld, l) => AfterLine(env, ld, l) }

  function ReadFrom(env: Env, ld: Option<Loaded>, file: string): Option<Loaded> {
    Lines(LineLoader(env), ld, file)
  }

  // ----- the reading loop on its buffer -----

  lemma FindIs(s: string, c: char, k: nat)
    requires k <= |s| && (forall j :: 0 <= j < k ==> s[j] != c) && (k < |s| ==> s[k] == c)
    ensures Find(s, c) == k
  {
    assert Find(s, c) >= k && Find(s, c) <= k;
  }

  /** strchr on the buffer: an index, or its length. */
  method FindChar(a: array<char>, p: nat, ghost e: nat, c: char) returns (q: nat)
    requires StringAt(a[..], p, e) && c != '\0'
    ensures Find(a[p..e], c) == if q == a.Length then e - p else q - p
    ensures q == a.Length || p <= q < e
  {
    q := p;
    while a[q] != '\0'
      invariant p <= q <= e
      invariant forall j :: p <= j < q ==> a[j] != c
      decreases e - q
    {
      if a[q] == c {
        FindIs(a[p..e], c, q - p);
        return;
      }
      q := q + 1;
    }
    FindIs(a[p..e], c, e - p);
    q := a.Length;
  }

  /** The string at p as a value. */
  method StringFrom(a: array<char>, p: nat, ghost e: nat) returns (s: string)
    requires StringAt(a[..], p, e)
    ensures s == a[p..e]
  {
    var n := StringLength(a, p, e);
    s := a[p..p + n];
  }

  /** strncmp(a + p, w, |w|) == 0. */
  method StartsAt(a: array<char>, p: nat, ghost e: nat, w: string) returns (same: bool)
    requires StringAt(a[..], p, e) && Lacks(w, '\0')
    ensures same == StartsWith(a[p..e], w)
  {
    ghost var s := a[p..e];
    var i := 0;
    while i < |w|
      invariant i <= |w| && p + i <= e && s[..i] == w[..i]
    {
      if a[p + i] != w[i] {
        assert p + i < e ==> s[i] == a[p + i];
        assert |w| <= |s| ==> s[..|w|][i] == s[i];
        return false;
      }
      assert s[i] == a[p + i];
      i := i + 1;
    }
    return true;
  }

  method LoadComment(env: Env, ld: Loaded, a: array<char>, p: nat, ghost e: nat) returns (r: Loaded)
    requires StringAt(a[..], p, e)
    modifies a
    ensures r == AfterComment(env, ld, old(a[p..e]))
  {
    ghost var t := a[p..e];
    var q := FindChar(a, p, e, ' ');
    if q == a.Length { return ld; }
    a[q] := '\0';
    assert a[q + 1..e] == t[q - p + 1..];
    var unset := StartsAt(a, q + 1, e, IS_UNSET);
    if !unset { return ld; }
    var name := StringFrom(a, p, q);
    assert name == t[..q - p];
    if name !in env.find { return ld; }
    var x := env.find[name];
    r := Grouped(env, if x.IsTristate() then LoadTri(ld, x, NO) else ld, x);
  }

  /** The value of an assignment, which stands at p. */
  method LoadValue(ld: Loaded, x: Sym, a: array<char>, p: nat, ghost e: nat) returns (r: Option<Loaded>)
    requires StringAt(a[..], p, e)
    modifies a
    ensures r == LoadText(ld, x, old(a[p..e]))
  {
    ghost var v := a[p..e];
    assert a[p] != '\0' ==> a[p] == v[0];
    match x.Type()
    case Boolean | Tri =>
      if a[p] == 'm' && x.Type() == Tri { return Some(LoadTri(ld, x, MOD)); }
      if a[p] == 'y' { return Some(LoadTri(ld, x, YES)); }
      if a[p] == 'n' { return Some(LoadTri(ld, x, NO)); }
      return Some(ld);
    case String =>
      if a[p] != '"' { return Some(ld); }
      assert a[p + 1..e] == v[1..];
      var ok;
      ghost var e';
      ok, e' := UnescapeInPlace(a, p + 1, e);
      if !ok { return None; }
      var s := StringFrom(a, p + 1, e');
      return Some(LoadStr(ld, x, s));
    case Int | Hex =>
      var s := StringFrom(a, p, e);
      var ok := StringValid(x.Type(), s);
      if !ok { return None; }
      return Some(LoadStr(ld, x, s));
    case Unknown =>
      return Some(ld);
  }

  /** The value is cut at the newline, if there is one. */
  method CutLine(a: array<char>, p: nat, ghost e: nat) returns (ghost e': nat)
    requires StringAt(a[..], p, e)
    modifies a
    ensures StringAt(a[..], p, e') && a[p..e'] == UpTo(old(a[p..e]), '\n')
    ensures a[..p] == old(a[..p])
  {
    var q := FindChar(a, p, e, '\n');
    ghost var l := a[p..e];
    if q == a.Length { return e; }
    a[q] := '\0';
    assert a[p..q] == l[..q - p];
    return q;
  }

  method LoadAssignment(env: Env, ld: Loaded, a: array<char>, ghost e: nat) returns (r: Option<Loaded>)
    requires StringAt(a[..], 0, e)
    modifies a
    ensures r == AfterAssignment(env, ld, old(a[..e]))
  {
    ghost var l := a[0..e];
    assert l == a[..e];
    var q := FindChar(a, 0, e, '=');
    if q == a.Length { return Some(ld); }
    a[q] := '\0';
    assert a[q + 1..e] == l[q + 1..];
    assert a[..q + 1] == l[..q] + ['\0'];
    ghost var e1 := CutLine(a, q + 1, e);
    assert StringAt(a[..], 0, q) && a[0..q] == l[..q] by {
      assert forall i :: 0 <= i <= q ==> a[i] == a[..q + 1][i];
    }
    var name := StringFrom(a, 0, q);
    if name !in env.find { return Some(ld); }
    var x := env.find[name];
    r := LoadValue(ld, x, a, q + 1, e1);
    if r.Some? { r := Some(Grouped(env, r.value, x)); }
  }

  method LoadLine(env: Env, ld: Loaded, a: array<char>, ghost e: nat) returns (r: Option<Loaded>)
    requires StringAt(a[..], 0, e)
    modifies a
    ensures r == AfterLine(env, ld, old(a[..e]))
  {
    ghost var l := a[..e];
    assert e > 0 ==> l[0] == a[0];
    assert e > 1 ==> l[1] == a[1];
    if a[0] == '#' {
      if a[1] != ' ' { return Some(ld); }
      assert a[2..e] == l[2..];
      var c := LoadComment(env, ld, a, 2, e);
      return Some(c);
    }
    if IsCapital(a[0]) {
      r := LoadAssignment(env, ld, a, e);
      return;
    }
    return Some(ld);
  }

  /** fgets(a, 1024, file) at position pos, which is not the end. */
  method ReadChunk(a: array<char>, file: string, pos: nat) returns (n: nat)
    requires a.Length == LINE_MAX + 1 && pos < |file|
    modifies a
    ensures n == ChunkLength(file[pos..])
    ensures a[..n] == file[pos..pos + n] && a[n] == '\0'
  {
    ghost var rest := file[pos..];
    n := 0;
    while n < LINE_MAX && pos + n < |file|
      invariant n <= LINE_MAX && pos + n <= |file|
      invariant a[..n] == rest[..n] && Lacks(rest[..n], '\n')
    {
      a[n] := file[pos + n];
      assert rest[n] == a[n];
      n := n + 1;
      if a[n - 1] == '\n' {
        FindIs(rest, '\n', n - 1);
        break;
      }
    }
    assert Lacks(rest[..n], '\n') ==> Find(rest, '\n') >= n by {
      assert forall j :: 0 <= j < n ==> rest[j] == rest[..n][j];
    }
    a[n] := '\0';
    assert rest[..n] == file[pos..pos + n];
  }

  lemma ContentsOfBuffer(s: string, n: nat) returns (e: nat)
    requires n < |s| && s[n] == '\0'
    ensures StringAt(s, 0, e) && s[..e] == UpTo(s[..n], '\0')
  {
    e := Find(s[..n], '\0');
    assert forall j :: 0 <= j < e ==> s[j] == s[..n][j];
  }

  /** `load` is AfterLine; the trigger keeps the loops below from looking into it. */
  ghost predicate Loads(load: Loader, env: Env) {
    forall ld, l {:trigger AfterLine(env, ld, l)} :: load(ld, l) == AfterLine(env, ld, l)
  }

  /** A chunk is used as a string, up to its first NUL. */
  method ReadString(a: array<char>, file: string, pos: nat) returns (n: nat, ghost e: nat)
    requires a.Length == LINE_MAX + 1 && pos < |file|
    modifies a
    ensures n == ChunkLength(file[pos..])
    ensures StringAt(a[..], 0, e) && a[..e] == UpTo(file[pos..pos + n], '\0')
  {
    n := ReadChunk(a, file, pos);
    e := ContentsOfBuffer(a[..], n);
    assert a[..][..n] == a[..n];
    assert a[..][..e] == a[..e];
  }

  lemma LinesStep(load: Loader, ld: Loaded, file: string, pos: nat)
    requires pos < |file|
    ensures var n := ChunkLength(file[pos..]);
      LinesFrom(load, Some(ld), file, pos) == LinesFrom(load, load(ld, UpTo(file[pos..pos + n], '\0')), file, pos + n)
  {
    var n := ChunkLength(file[pos..]);
    assert file[pos..][..n] == file[pos..pos + n] && file[pos..][n..] == file[pos + n..];
  }

  method LoadLineBy(env: Env, ld: Loaded, a: array<char>, ghost e: nat, ghost load: Loader) returns (r: Option<Loaded>)
    requires StringAt(a[..], 0, e) && Loads(load, env)
    modifies a
    ensures r == load(ld, old(a[..e]))
  {
    r := LoadLine(env, ld, a, e);
  }

  /** What is left to read from pos. */
  function LinesFrom(load: Loader, ld: Option<Loaded>, file: string, pos: nat): Option<Loaded>
    requires pos <= |file|
  {
    Lines(load, ld, file[pos..])
  }

  /** The next line of the file, read into the buffer and loaded from there. */
  method LoadChunk(env: Env, ld: Loaded, a: array<char>, file: string, pos: nat, ghost load: Loader)
    returns (r: Option<Loaded>, n: nat)
    requires a.Length == LINE_MAX + 1 && pos < |file| && Loads(load, env)
    modifies a
    ensures n == ChunkLength(file[pos..])
    ensures r == load(ld, UpTo(file[pos..pos + n], '\0'))
  {
    ghost var e;
    n, e := ReadString(a, file, pos);
    r := LoadLineBy(env, ld, a, e, load);
  }

  method LoadLines(env: Env, file: string, ghost load: Loader) returns (r: Option<Loaded>)
    requires Loads(load, env)
    ensures r == Lines(load, Some(NOTHING_LOADED), file)
  {
    r := Some(NOTHING_LOADED);
    var a := new char[LINE_MAX + 1];
    var pos := 0;
    ghost var goal := Lines(load, r, file);
    assert file[0..] == file;
    while pos < |file| && r.Some?
      invariant pos <= |file|
      invariant LinesFrom(load, r, file, pos) == goal
      decreases |file| - pos
    {
      LinesStep(load, r.value, file, pos);
      var n;
      r, n := LoadChunk(env, r.value, a, file, pos, load);
      pos := pos + n;
    }
  }

  /** The loop of conf_read over the lines of a file, and its line buffer. */
  method ConfRead(env: Env, file: string) returns (r: Option<Loaded>)
    ensures r == ReadFrom(env, Some(NOTHING_LOADED), file)
  {
    r := LoadLines(env, file, LineLoader(env));
  }
}
