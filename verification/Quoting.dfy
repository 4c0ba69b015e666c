/** Quoted strings of a .config file: escaping them, and undoing it in the line buffer. */
module Quoting {
  import opened Exprs

  // ----- quoting -----

  predicate Special(c: char) { c == '"' || c == '\\' }

  function Escape(s: string): string {
    if s == [] then []
    else if Special(s[0]) then ['\\', s[0]] + Escape(s[1..])
    else [s[0]] + Escape(s[1..])
  }

  /** The quotes and backslashes of a string. */
  function SpecialsIn(s: string): nat {
    if s == [] then 0 else (if s[0] in {'"', '\\'} then 1 else 0) + SpecialsIn(s[1..])
  }

  /** One character is added for each of them, and none for any other. */
  lemma {:induction false} EscapeLength(s: string)
    ensures |Escape(s)| == |s| + SpecialsIn(s)
    ensures SpecialsIn(s) == 0 ==> Escape(s) == s
  {
    if s != [] {
      EscapeLength(s[1..]);
      assert [s[0]] + s[1..] == s;
    }
  }

  /** Up to the closing quote, dropping one backslash before each escaped character. */
  function Unescape(s: string): Option<string> {
    if s == [] then None
    else if s[0] == '"' then Some([])
    else if s[0] == '\\' then
      if |s| == 1 then None
      else
        var r := Unescape(s[2..]);
        if r.None? then None else Some([s[1]] + r.value)
    else
      var r := Unescape(s[1..]);
      if r.None? then None else Some([s[0]] + r.value)
  }

  /** Unescaping stops at the quote that closes an escaped string, whatever follows it. */
  lemma {:induction false} UnescapeEscape(s: string, rest: string)
    ensures Unescape(Escape(s) + ['"'] + rest) == Some(s)
  {
    var t := Escape(s) + ['"'] + rest;
    if s == [] {
      assert t == ['"'] + rest;
    } else {
      UnescapeEscape(s[1..], rest);
      var u := Escape(s[1..]) + ['"'] + rest;
      if Special(s[0]) {
        assert t == ['\\', s[0]] + u;
        assert t[2..] == u;
      } else {
        assert t == [s[0]] + u;
        assert t[1..] == u;
      }
      assert s == [s[0]] + s[1..];
    }
  }

  /** A line that is cut off before the closing quote never parses. */
  lemma {:induction false} UnescapeCut(s: string, k: nat)
    requires k <= |Escape(s)|
    ensures Unescape(Escape(s)[..k]).None?
  {
    if k > 0 {
      var t, u := Escape(s)[..k], Escape(s[1..]);
      if Special(s[0]) {
        assert Escape(s) == ['\\', s[0]] + u;
        if k > 1 {
          UnescapeCut(s[1..], k - 2);
          assert t == ['\\', s[0]] + u[..k - 2];
          assert t[2..] == u[..k - 2];
        }
      } else {
        assert Escape(s) == [s[0]] + u;
        UnescapeCut(s[1..], k - 1);
        assert t == [s[0]] + u[..k - 1];
        assert t[1..] == u[..k - 1];
      }
    }
  }

  /** Index of the first special character at or after i, or the length. */
  function NextSpecial(s: string, i: nat): (k: nat)
    requires i <= |s|
    ensures i <= k <= |s|
    ensures forall j :: i <= j < k ==> !Special(s[j])
    ensures k < |s| ==> Special(s[k])
    decreases |s| - i
  {
    if i == |s| || Special(s[i]) then i else NextSpecial(s, i + 1)
  }

  lemma {:induction false} EscapePlain(s: string, t: string)
    requires forall j :: 0 <= j < |s| ==> !Special(s[j])
    ensures Escape(s + t) == s + Escape(t)
  {
    if s == [] {
      assert s + t == t;
    } else {
      EscapePlain(s[1..], t);
      assert (s + t)[0] == s[0] && (s + t)[1..] == s[1..] + t;
    }
  }

  lemma EscapeRun(str: string, i: nat, l: nat)
    requires i <= l <= |str| && forall j :: i <= j < l ==> !Special(str[j])
    ensures Escape(str[i..]) == str[i..l] + Escape(str[l..])
  {
    assert str[i..] == str[i..l] + str[l..];
    EscapePlain(str[i..l], str[l..]);
  }

  /** Specials in a row, each behind a backslash; at least one if there is one at i. */
  method WriteSpecials(str: string, i: nat, out: string) returns (k: nat, out': string)
    requires i <= |str|
    ensures i <= k <= |str| && (k < |str| ==> !Special(str[k]))
    ensures out' + Escape(str[k..]) == out + Escape(str[i..])
  {
    k, out' := i, out;
    while k < |str| && Special(str[k])
      invariant i <= k <= |str| && out' + Escape(str[k..]) == out + Escape(str[i..])
    {
      assert str[k..][1..] == str[k + 1..];
      assert out' + (['\\', str[k]] + Escape(str[k + 1..])) == (out' + ['\\', str[k]]) + Escape(str[k + 1..]);
      out' := out' + ['\\', str[k]];
      k := k + 1;
    }
  }

  /** The writing loop: a run of plain characters, then each special one behind a backslash. */
  method WriteEscaped(str: string) returns (out: string)
    ensures out == Escape(str)
  {
    out := "";
    var i := 0;
    assert str[0..] == str;
    while true
      invariant i <= |str| && out + Escape(str[i..]) == Escape(str)
      decreases |str| - i
    {
      var l := NextSpecial(str, i);
      EscapeRun(str, i, l);
      assert out + (str[i..l] + Escape(str[l..])) == (out + str[i..l]) + Escape(str[l..]);
      var k;
      k, out := WriteSpecials(str, l, out + str[i..l]);
      if k == |str| {
        return;
      }
      i := k;
    }
  }

  // ----- unquoting in place -----

  /** A NUL-terminated string starts at p and ends before e. */
  ghost predicate StringAt(s: string, p: nat, e: nat) {
    p <= e < |s| && s[e] == '\0' && forall i :: p <= i < e ==> s[i] != '\0'
  }

  /** strpbrk for the two special characters: |a| stands for no match. */
  method FindSpecial(a: array<char>, p: nat, ghost e: nat) returns (q: nat)
    requires StringAt(a[..], p, e)
    ensures q < e || q == a.Length
    ensures q < e ==> p <= q && Special(a[q])
    ensures forall i :: p <= i < (if q < e then q else e) ==> !Special(a[i])
  {
    q := p;
    while a[q] != '\0'
      invariant p <= q <= e
      invariant forall i :: p <= i < q ==> !Special(a[i])
      decreases e - q
    {
      if Special(a[q]) { return; }
      q := q + 1;
    }
    q := a.Length;
  }

  method StringLength(a: array<char>, p: nat, ghost e: nat) returns (n: nat)
    requires StringAt(a[..], p, e)
    ensures n == e - p
  {
    n := 0;
    while a[p + n] != '\0'
      invariant p + n <= e
      decreases e - p - n
    {
      n := n + 1;
    }
  }

  /** memmove(p, p + 1, n). */
  method MoveDown(a: array<char>, p: nat, n: nat)
    requires p + n < a.Length
    modifies a
    ensures a[..] == old(a[..p]) + old(a[p + 1..p + 1 + n]) + old(a[p + n..])
  {
    var i := 0;
    while i < n
      invariant i <= n
      invariant forall j :: 0 <= j < a.Length ==> a[j] == if p <= j < p + i then old(a[j + 1]) else old(a[j])
    {
      a[p + i] := a[p + i + 1];
      i := i + 1;
    }
  }

  lemma {:induction false} UnescapePlain(s: string, t: string)
    requires forall j :: 0 <= j < |s| ==> !Special(s[j])
    ensures Unescape(s + t) == if Unescape(t).None? then None else Some(s + Unescape(t).value)
  {
    if s == [] {
      assert s + t == t;
      assert Unescape(t).Some? ==> s + Unescape(t).value == Unescape(t).value;
    } else {
      UnescapePlain(s[1..], t);
      assert (s + t)[0] == s[0] && (s + t)[1..] == s[1..] + t;
      if Unescape(t).Some? {
        assert [s[0]] + (s[1..] + Unescape(t).value) == s + Unescape(t).value;
      }
    }
  }

  /** A backslash and the character behind it. */
  lemma UnescapePair(c: char, t: string)
    ensures Unescape(['\\', c] + t) == if Unescape(t).None? then None else Some([c] + Unescape(t).value)
  {
    assert (['\\', c] + t)[2..] == t;
  }

  /** Before q the string is decoded, from q to its end at e it is not; `goal` is the decoded whole. */
  ghost predicate Decoding(s: string, p: nat, q: nat, e: nat, goal: Option<string>) {
    && p <= q <= e && StringAt(s, p, e)
    && goal == Prefixed(s[p..q], Unescape(s[q..e]))
  }

  function Prefixed(s: string, r: Option<string>): Option<string> {
    if r.None? then None else Some(s + r.value)
  }

  /** A trailing backslash has been removed: the scan goes on at a terminator, behind the string. */
  ghost predicate RanOut(s: string, q: nat, e: nat, goal: Option<string>) {
    q == e + 1 && q < |s| && s[q] == '\0' && goal.None?
  }

  lemma DecodingNone(s: string, p: nat, q: nat, e: nat, goal: Option<string>)
    requires Decoding(s, p, q, e, goal) && forall i :: q <= i < e ==> !Special(s[i])
    ensures goal.None?
  {
    UnescapePlain(s[q..e], []);
    assert s[q..e] + [] == s[q..e];
  }

  lemma DecodingRun(s: string, p: nat, q: nat, k: nat, e: nat, goal: Option<string>)
    requires Decoding(s, p, q, e, goal) && q <= k < e && forall i :: q <= i < k ==> !Special(s[i])
    ensures Decoding(s, p, k, e, goal)
  {
    UnescapePlain(s[q..k], s[k..e]);
    assert s[q..e] == s[q..k] + s[k..e];
    assert s[p..k] == s[p..q] + s[q..k];
    var r := Unescape(s[k..e]);
    if r.Some? { assert s[p..q] + (s[q..k] + r.value) == s[p..k] + r.value; }
  }

  lemma DecodingQuote(s: string, p: nat, k: nat, e: nat, goal: Option<string>)
    requires Decoding(s, p, k, e, goal) && k < e && s[k] == '"'
    ensures goal == Some(s[p..k])
    ensures StringAt(s[k := '\0'], p, k) && s[k := '\0'][p..k] == s[p..k]
  {
    assert s[k..e][0] == '"';
    assert s[p..k] + [] == s[p..k];
  }

  /** The characters behind a backslash move down by one, the terminator with them. */
  function Closed(s: string, k: nat, e: nat): (t: string)
    requires k < e < |s|
    ensures |t| == |s|
    ensures forall i :: 0 <= i < |s| ==> t[i] == if k <= i < e then s[i + 1] else s[i]
  {
    s[..k] + s[k + 1..e + 1] + s[e..]
  }

  lemma ClosedBehind(s: string, p: nat, k: nat, e: nat)
    requires StringAt(s, p, e) && p <= k && k + 1 < e
    ensures var t := Closed(s, k, e);
      && t[k + 1..e - 1] == s[k + 2..e]
      && t[p..k + 1] == s[p..k] + [s[k + 1]]
      && StringAt(t, p, e - 1)
  {
    var t := Closed(s, k, e);
    forall i | p <= i < e - 1
      ensures t[i] != '\0'
    {
      assert t[i] == if k <= i < e then s[i + 1] else s[i];
    }
  }

  lemma Regrouped(a: string, b: string, c: string)
    ensures a + (b + c) == a + b + c
  {}

  lemma DecodingBackslash(s: string, p: nat, k: nat, e: nat, goal: Option<string>)
    requires Decoding(s, p, k, e, goal) && k < e && s[k] == '\\'
    ensures k + 1 < e ==> Decoding(Closed(s, k, e), p, k + 1, e - 1, goal)
    ensures k + 1 == e ==> RanOut(Closed(s, k, e), k + 1, e - 1, goal)
  {
    var u := s[k..e];
    assert u[0] == '\\';
    if k + 1 < e {
      var rest := s[k + 2..e];
      ClosedBehind(s, p, k, e);
      UnescapePair(s[k + 1], rest);
      assert u == ['\\', s[k + 1]] + rest;
      var r := Unescape(rest);
      if r.Some? { Regrouped(s[p..k], [s[k + 1]], r.value); }
    } else {
      assert Unescape(u).None?;
    }
  }

  /** Where the scan stands: inside the string, or behind it after a trailing backslash. */
  ghost predicate Scanning(s: string, p: nat, q: nat, e: nat, goal: Option<string>) {
    Decoding(s, p, q, e, goal) || RanOut(s, q, e, goal)
  }

  /** The buffer after one turn at the special character found at k. */
  method UnescapeTurn(a: array<char>, p: nat, k: nat, ghost e: nat, ghost goal: Option<string>)
    returns (done: bool)
    requires Decoding(a[..], p, k, e, goal) && k < e && Special(a[k])
    modifies a
    ensures done ==> goal.Some? && StringAt(a[..], p, k) && a[p..k] == goal.value
    ensures !done ==> Scanning(a[..], p, k + 1, e - 1, goal)
  {
    ghost var s := a[..];
    if a[k] == '"' {
      DecodingQuote(s, p, k, e, goal);
      a[k] := '\0';
      assert a[..] == s[k := '\0'];
      assert a[p..k] == a[..][p..k];
      return true;
    }
    DecodingBackslash(s, p, k, e, goal);
    var n := StringLength(a, k, e);
    MoveDown(a, k, n);
    assert a[..] == Closed(s, k, e);
    return false;
  }

  lemma ScanningFound(s: string, p: nat, q: nat, k: nat, e: nat, goal: Option<string>)
    requires Scanning(s, p, q, e, goal)
    requires k == |s| ==> forall i :: q <= i < e ==> !Special(s[i])
    requires k != |s| ==> q <= k < e && forall i :: q <= i < k ==> !Special(s[i])
    ensures if k == |s| then goal.None? else Decoding(s, p, k, e, goal)
  {
    if Decoding(s, p, q, e, goal) {
      if k == |s| { DecodingNone(s, p, q, e, goal); } else { DecodingRun(s, p, q, k, e, goal); }
    }
  }

  /** The reading loop on the buffer itself: true, with the string cut at the closing quote, or false. */
  method UnescapeInPlace(a: array<char>, p: nat, ghost e0: nat) returns (ok: bool, ghost e: nat)
    requires StringAt(a[..], p, e0)
    modifies a
    ensures ok <==> Unescape(old(a[p..e0])).Some?
    ensures ok ==> StringAt(a[..], p, e) && a[p..e] == Unescape(old(a[p..e0])).value
  {
    ghost var goal := Unescape(a[p..e0]);
    var q: nat := p;
    e := e0;
    assert Decoding(a[..], p, q, e, goal) by {
      assert a[..][p..p] == [] && a[..][p..e] == a[p..e0];
      assert goal.Some? ==> [] + goal.value == goal.value;
    }
    while true
      invariant Scanning(a[..], p, q, e, goal)
      decreases e + 1 - q
    {
      var k := FindSpecial(a, q, if q <= e then e else q);
      ScanningFound(a[..], p, q, k, e, goal);
      if k == a.Length {
        return false, e;
      }
      var done := UnescapeTurn(a, p, k, e, goal);
      if done {
        return true, k;
      }
      q, e := k + 1, e - 1;
    }
  }
}
