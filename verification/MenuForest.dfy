/** Menu entries linked by next, list and parent pointers, and the forests they represent. */
module MenuForest {
  import opened Exprs
  import opened Sequences

  /** The prompt of an entry: whether it has a text, and its condition. */
  datatype PromptInfo = PromptInfo(text: bool, visible: Option<Expr>)

  class Menu {
    var next: Menu?
    var parent: Menu?
    var list: Menu?
    const sym: Option<Sym>
    const isChoice: bool
    var prompt: Option<PromptInfo>
    /** The conditions of the other properties of the entry: defaults, selects, ranges. */
    var others: seq<Option<Expr>>
    var dep: Option<Expr>

    constructor (sym: Option<Sym>, isChoice: bool, prompt: Option<PromptInfo>, others: seq<Option<Expr>>, dep: Option<Expr>)
      ensures this.sym == sym && this.isChoice == isChoice
      ensures this.prompt == prompt && this.others == others && this.dep == dep
      ensures next == null && parent == null && list == null
    {
      this.sym, this.isChoice, this.prompt, this.others, this.dep := sym, isChoice, prompt, others, dep;
      next, parent, list := null, null, null;
    }
  }

  /** The pointers of one entry, and of all. */
  datatype Link = Link(next: Menu?, list: Menu?, parent: Menu?)
  type Links = map<Menu, Link>

  ghost function LinksOf(nodes: set<Menu>): Links
    reads nodes`next, nodes`list, nodes`parent
  {
    map n | n in nodes :: Link(n.next, n.list, n.parent)
  }

  /** An entry with the entries below it. */
  datatype Tree = Node(m: Menu, kids: seq<Tree>)

  function Pre(ts: seq<Tree>): seq<Menu> {
    if ts == [] then [] else [ts[0].m] + Pre(ts[0].kids) + Pre(ts[1..])
  }

  /**
   * From `head`, following next, one finds the entries of `ts` and then `end`; all have the
   * parent `par`, and the list pointer of each leads to the entries below it.
   */
  ghost predicate Seg(h: Links, ts: seq<Tree>, head: Menu?, par: Menu?, end: Menu?) {
    if ts == [] then head == end
    else
      var m := ts[0].m;
      && head == m && m in h && h[m].parent == par
      && Seg(h, ts[0].kids, h[m].list, m, null)
      && Seg(h, ts[1..], h[m].next, par, end)
  }

  lemma {:induction false} PreConcat(a: seq<Tree>, b: seq<Tree>)
    ensures Pre(a + b) == Pre(a) + Pre(b)
  {
    if a == [] {
      assert a + b == b;
    } else {
      PreConcat(a[1..], b);
      assert a + b == [a[0]] + (a[1..] + b) && a == [a[0]] + a[1..];
      PreCons(a[0], a[1..] + b);
      PreCons(a[0], a[1..]);
      Assoc([a[0].m], Pre(a[0].kids), Pre(a[1..]), Pre(b));
    }
  }

  lemma PreCons(t: Tree, rest: seq<Tree>)
    ensures Pre([t] + rest) == [t.m] + Pre(t.kids) + Pre(rest)
    ensures Pre([t]) == [t.m] + Pre(t.kids)
  {
    assert ([t] + rest)[1..] == rest;
    assert [t][1..] == [];
  }

  /** Pointers of other entries do not matter. */
  lemma {:induction false} SegFrame(h: Links, h': Links, ts: seq<Tree>, head: Menu?, par: Menu?, end: Menu?)
    requires Seg(h, ts, head, par, end)
    requires forall n :: n in Pre(ts) ==> n in h && n in h' && h'[n] == h[n]
    ensures Seg(h', ts, head, par, end)
  {
    if ts != [] {
      var m := ts[0].m;
      assert m in Pre(ts);
      SegFrame(h, h', ts[0].kids, h[m].list, m, null);
      SegFrame(h, h', ts[1..], h[m].next, par, end);
    }
  }

  lemma {:induction false} SegAppend(h: Links, a: seq<Tree>, b: seq<Tree>, head: Menu?, mid: Menu?, par: Menu?, end: Menu?)
    requires Seg(h, a, head, par, mid) && Seg(h, b, mid, par, end)
    ensures Seg(h, a + b, head, par, end)
  {
    if a == [] {
      assert a + b == b;
    } else {
      SegAppend(h, a[1..], b, h[a[0].m].next, mid, par, end);
      assert (a + b)[0] == a[0] && (a + b)[1..] == a[1..] + b;
    }
  }

  /** The entries of a segment are all known. */
  lemma {:induction false} SegKnown(h: Links, ts: seq<Tree>, head: Menu?, par: Menu?, end: Menu?)
    requires Seg(h, ts, head, par, end)
    ensures forall n :: n in Pre(ts) ==> n in h
  {
    if ts != [] {
      SegKnown(h, ts[0].kids, h[ts[0].m].list, ts[0].m, null);
      SegKnown(h, ts[1..], h[ts[0].m].next, par, end);
    }
  }

  /** Pointing the last entry somewhere else moves the end of the segment. */
  lemma {:induction false} SegRetarget(h: Links, ts: seq<Tree>, head: Menu?, par: Menu?, end: Menu?, last: Menu, end': Menu?)
    requires Seg(h, ts, head, par, end) && NoDup(Pre(ts))
    requires ts != [] && last == ts[|ts| - 1].m
    ensures last in h
    ensures h[last].next == end
    ensures Seg(h[last := h[last].(next := end')], ts, head, par, end')
  {
    var m := ts[0].m;
    SegKnown(h, ts, head, par, end);
    PreParts(ts);
    if |ts| == 1 {
      var h' := h[last := h[last].(next := end')];
      SegFrame(h, h', ts[0].kids, h[m].list, m, null);
    } else {
      SegRetarget(h, ts[1..], h[m].next, par, end, last, end');
      LastInPre(ts[1..]);
      var h' := h[last := h[last].(next := end')];
      assert last != m && last !in Pre(ts[0].kids);
      SegFrame(h, h', ts[0].kids, h[m].list, m, null);
    }
  }

  lemma LastInPre(ts: seq<Tree>)
    requires ts != []
    ensures ts[|ts| - 1].m in Pre(ts)
  {
    assert ts == ts[..|ts| - 1] + [ts[|ts| - 1]];
    PreConcat(ts[..|ts| - 1], [ts[|ts| - 1]]);
    PreCons(ts[|ts| - 1], []);
  }

  /** The first entry, what is below it and what follows are disjoint. */
  lemma PreParts(ts: seq<Tree>)
    requires ts != [] && NoDup(Pre(ts))
    ensures NoDup(Pre(ts[0].kids)) && NoDup(Pre(ts[1..]))
    ensures ts[0].m !in Pre(ts[0].kids) && ts[0].m !in Pre(ts[1..])
    ensures forall n :: n in Pre(ts[0].kids) ==> n !in Pre(ts[1..])
  {
    NoDupThree([ts[0].m], Pre(ts[0].kids), Pre(ts[1..]));
    assert ts[0].m in [ts[0].m];
  }

  lemma NoDupThree(a: seq<Menu>, b: seq<Menu>, c: seq<Menu>)
    requires NoDup(a + b + c)
    ensures NoDup(b) && NoDup(c)
    ensures forall n :: n in a ==> n !in b && n !in c
    ensures forall n :: n in b ==> n !in c
  {
    NoDupSplit(a + b, c);
    NoDupSplit(a, b);
    assert forall n :: n in a || n in b ==> n in a + b;
  }

  lemma NoDupParts(a: seq<Menu>, b: seq<Menu>)
    ensures NoDup(a + b) <==> NoDup(a) && NoDup(b) && forall n :: n in a ==> n !in b
  {
    var s := a + b;
    if NoDup(s) {
      NoDupSplit(a, b);
    } else {
      var i, j :| 0 <= i < j < |s| && s[i] == s[j];
      if i < |a| <= j { assert a[i] in a && b[j - |a|] in b; }
      else if j < |a| { assert a[i] == a[j]; }
      else { assert b[i - |a|] == b[j - |a|]; }
    }
  }

  lemma NoDupSplit(a: seq<Menu>, b: seq<Menu>)
    requires NoDup(a + b)
    ensures NoDup(a) && NoDup(b) && forall n :: n in a ==> n !in b
  {
    var s := a + b;
    forall i, j | 0 <= i < j < |a|
      ensures a[i] != a[j]
    {
      assert s[i] != s[j];
    }
    forall i, j | 0 <= i < j < |b|
      ensures b[i] != b[j]
    {
      assert s[|a| + i] != s[|a| + j];
    }
    forall i, j | 0 <= i < |a| && 0 <= j < |b|
      ensures a[i] != b[j]
    {
      assert s[i] != s[|a| + j];
    }
  }

  /** The entries of the first level. */
  function Tops(ts: seq<Tree>): (r: seq<Menu>)
    ensures |r| == |ts| && forall i :: 0 <= i < |ts| ==> r[i] == ts[i].m
  {
    if ts == [] then [] else [ts[0].m] + Tops(ts[1..])
  }

  lemma {:induction false} TopsInPre(ts: seq<Tree>, n: Menu)
    requires n in Tops(ts)
    ensures n in Pre(ts)
  {
    if n != ts[0].m { TopsInPre(ts[1..], n); }
  }

  lemma {:induction false} SegNext(h: Links, ts: seq<Tree>, head: Menu?, par: Menu?, end: Menu?, i: nat)
    requires Seg(h, ts, head, par, end) && i < |ts|
    ensures head == ts[0].m && ts[i].m in h
    ensures h[ts[i].m].next == if i + 1 < |ts| then ts[i + 1].m else end
  {
    if i > 0 { SegNext(h, ts[1..], h[ts[0].m].next, par, end, i - 1); }
    else if |ts| > 1 { assert ts[1..][0] == ts[1]; }
  }

  function Reparented(h: Links, s: seq<Menu>, par: Menu?): Links {
    map n | n in h :: if n in s then h[n].(parent := par) else h[n]
  }

  lemma ReparentedStep(h: Links, s: seq<Menu>, i: nat, par: Menu?)
    requires i < |s| && s[i] in h
    ensures var g := Reparented(h, s[..i], par);
      g[s[i] := g[s[i]].(parent := par)] == Reparented(h, s[..i + 1], par)
  {
    assert s[..i + 1] == s[..i] + [s[i]];
  }

  /** Changing the parent of the whole first level changes the parent of the segment. */
  lemma {:induction false} SegReparent(h: Links, h': Links, ts: seq<Tree>, head: Menu?, par: Menu?, end: Menu?, par': Menu?)
    requires Seg(h, ts, head, par, end) && NoDup(Pre(ts))
    requires forall n :: n in Pre(ts) ==>
      n in h && n in h' && h'[n] == if n in Tops(ts) then h[n].(parent := par') else h[n]
    ensures Seg(h', ts, head, par', end)
  {
    if ts != [] {
      var m := ts[0].m;
      PreParts(ts);
      forall n | n in Pre(ts[0].kids)
        ensures n in h && n in h' && h'[n] == h[n]
      {
        assert n in Pre(ts);
        if n in Tops(ts[1..]) { TopsInPre(ts[1..], n); }
      }
      SegFrame(h, h', ts[0].kids, h[m].list, m, null);
      SegReparent(h, h', ts[1..], h[m].next, par, end, par');
    }
  }

  /** Moving on by one entry. */
  lemma SegStep(h: Links, done: seq<Tree>, t: Tree, rest: seq<Tree>, head: Menu?, menu: Menu?, par: Menu?, end: Menu?)
    requires Seg(h, done, head, par, menu) && Seg(h, [t] + rest, menu, par, end)
    ensures menu == t.m && t.m in h && h[t.m].parent == par
    ensures Seg(h, t.kids, h[t.m].list, t.m, null)
    ensures Seg(h, done + [t], head, par, h[t.m].next) && Seg(h, rest, h[t.m].next, par, end)
  {
    assert ([t] + rest)[0] == t && ([t] + rest)[1..] == rest;
    assert [t][0] == t && [t][1..] == [];
    assert Seg(h, [t], menu, par, h[t.m].next);
    SegAppend(h, done, [t], head, menu, par, h[t.m].next);
  }

  lemma Assoc(a: seq<Menu>, b: seq<Menu>, c: seq<Menu>, d: seq<Menu>)
    ensures a + (b + c + d) == a + b + c + d
    ensures a + (b + c) == a + b + c
  {}

  lemma Regrouped(a: seq<Menu>, b: seq<Menu>, c: seq<Menu>, d: seq<Menu>)
    ensures a + (b + c) + d == a + (b + (c + d))
  {}

  lemma PreStep(done: seq<Tree>, t: Tree, rest: seq<Tree>)
    ensures Pre(done) + Pre([t] + rest) == Pre(done) + [t.m] + Pre(t.kids) + Pre(rest)
    ensures Pre(done + [t]) + Pre(rest) == Pre(done) + [t.m] + Pre(t.kids) + Pre(rest)
  {
    PreConcat(done, [t]);
    PreCons(t, rest);
    Assoc(Pre(done), [t.m], Pre(t.kids), Pre(rest));
  }

  /** Hoisting the entries below `t` leaves the preorder as it was. */
  lemma PreHoist(t: Tree, rest: seq<Tree>)
    ensures Pre([Node(t.m, [])] + (t.kids + rest)) == Pre([t] + rest)
  {
    PreCons(Node(t.m, []), t.kids + rest);
    PreCons(t, rest);
    PreConcat(t.kids, rest);
    Assoc([t.m], Pre(t.kids), Pre(rest), []);
    assert [t.m] + Pre([]) == [t.m];
  }

  /** A list of distinct entries around one of them. */
  lemma NoDupAround(p: Menu, a: seq<Menu>, m: Menu, k: seq<Menu>, r: seq<Menu>)
    requires NoDup([p] + (a + [m] + k + r))
    ensures NoDup([m] + k + r) && NoDup([m] + k) && NoDup(a) && NoDup(k) && NoDup(r)
    ensures p != m && p !in a && p !in k && p !in r
    ensures forall n :: n in a ==> n != m && n !in k && n !in r
    ensures forall n :: n in r ==> n != m && n !in k
    ensures m !in k
  {
    NoDupSplit([p], a + [m] + k + r);
    Assoc(a, [m], k, r);
    NoDupSplit(a, [m] + k + r);
    NoDupSplit([m] + k, r);
    NoDupSplit([m], k);
    assert p in [p] && m in [m];
    assert forall n :: n in a || n == m || n in k || n in r ==> n in a + [m] + k + r;
    assert forall n :: n == m || n in k || n in r ==> n in [m] + k + r;
    assert forall n :: n == m || n in k ==> n in [m] + k;
  }

  lemma SegCons(h: Links, t: Tree, rest: seq<Tree>, par: Menu?, end: Menu?)
    requires t.m in h && h[t.m].parent == par && Seg(h, t.kids, h[t.m].list, t.m, null) && Seg(h, rest, h[t.m].next, par, end)
    ensures Seg(h, [t] + rest, t.m, par, end)
  {
    assert ([t] + rest)[0] == t && ([t] + rest)[1..] == rest;
  }

  predicate Suffix(a: seq<Tree>, b: seq<Tree>) { |a| <= |b| && a == b[|b| - |a|..] }

  /** The trees of `all` in front of `left`. */
  function Taken(all: seq<Tree>, left: seq<Tree>): seq<Tree>
    requires |left| <= |all|
  {
    all[..|all| - |left|]
  }

  lemma TakenTrans(a: seq<Tree>, b: seq<Tree>, c: seq<Tree>)
    requires Suffix(a, b) && Suffix(b, c)
    ensures Suffix(a, c) && Taken(c, a) == Taken(c, b) + Taken(b, a)
  {
    SuffixTrans(a, b, c);
    assert c == Taken(c, b) + b;
  }

  lemma TakenFirst(t: Tree, rest: seq<Tree>, left: seq<Tree>)
    requires Suffix(left, rest)
    ensures Suffix(left, [t] + rest) && Taken([t] + rest, left) == [t] + Taken(rest, left)
  {}

  /** At all depths, entries with children have a text. */
  ghost predicate Textual(ts: seq<Tree>, texted: set<Menu>) {
    ts == [] || ((ts[0].kids == [] || ts[0].m in texted) && Textual(ts[0].kids, texted) && Textual(ts[1..], texted))
  }

  /** The same below the first level. */
  ghost predicate Loose(ts: seq<Tree>, texted: set<Menu>) { forall k :: k in ts ==> Textual(k.kids, texted) }

  lemma {:induction false} TextualLoose(ts: seq<Tree>, texted: set<Menu>)
    requires Textual(ts, texted)
    ensures Loose(ts, texted)
  {
    if ts != [] { TextualLoose(ts[1..], texted); }
  }

  lemma SuffixTrans(a: seq<Tree>, b: seq<Tree>, c: seq<Tree>)
    requires Suffix(a, b) && Suffix(b, c)
    ensures Suffix(a, c)
  {
    assert c[|c| - |b|..][|b| - |a|..] == c[|c| - |a|..];
  }

  /** The siblings `done` become the list of `parent`; `menu` follows it. */
  ghost function Absorbed(h: Links, parent: Menu, last: Menu): Links
    requires parent in h && last in h
  {
    h[parent := Link(h[last].next, h[parent].next, h[parent].parent)][last := h[last].(next := null)]
  }

  lemma AbsorbedLinks(h: Links, parent: Menu, done: seq<Tree>, todo: seq<Tree>, menu: Menu?, par: Menu?)
    requires parent in h && h[parent].parent == par && done != []
    requires Seg(h, done, h[parent].next, parent, menu) && Seg(h, todo, menu, par, null)
    requires NoDup([parent] + (Pre(done) + Pre(todo)))
    ensures done[|done| - 1].m in h && done[|done| - 1].m != parent
    ensures var h' := Absorbed(h, parent, done[|done| - 1].m);
      && h'[parent].parent == par
      && Seg(h', done, h'[parent].list, parent, null) && Seg(h', todo, h'[parent].next, par, null)
      && forall n :: n in h && n != parent && n !in Pre(done) ==> n in h' && h'[n] == h[n]
  {
    var last := done[|done| - 1].m;
    NoDupSplit([parent], Pre(done) + Pre(todo));
    NoDupSplit(Pre(done), Pre(todo));
    assert parent in [parent];
    SegKnown(h, done, h[parent].next, parent, menu);
    SegKnown(h, todo, menu, par, null);
    LastInPre(done);
    assert last in Pre(done) + Pre(todo);
    SegRetarget(h, done, h[parent].next, parent, menu, last, null);
    var h' := Absorbed(h, parent, last);
    AbsorbedFrame(h, parent, done, todo, last);
    SegFrame(h[last := h[last].(next := null)], h', done, h[parent].next, parent, null);
    SegFrame(h, h', todo, menu, par, null);
  }

  lemma AbsorbedFrame(h: Links, parent: Menu, done: seq<Tree>, todo: seq<Tree>, last: Menu)
    requires parent in h && last in h && last != parent && last in Pre(done)
    requires forall n :: n in Pre(done) ==> n in h && n != parent && n !in Pre(todo)
    requires forall n :: n in Pre(todo) ==> n in h && n != parent
    ensures var h', h2 := Absorbed(h, parent, last), h[last := h[last].(next := null)];
      && (forall n :: n in Pre(done) ==> n in h2 && n in h' && h'[n] == h2[n])
      && (forall n :: n in Pre(todo) ==> n in h' && h'[n] == h[n])
  {}

  lemma NoDupAfter(p: Menu, d: seq<Menu>, m: Menu, own: seq<Menu>)
    requires NoDup([p] + (d + ([m] + own)))
    ensures NoDup([m] + own) && p !in [m] + own
    ensures forall n :: n in d ==> n !in [m] + own
  {
    NoDupSplit([p], d + ([m] + own));
    NoDupSplit(d, [m] + own);
    assert p in [p];
    assert forall n :: n in [m] + own ==> n in d + ([m] + own);
  }

  lemma PreOwn(t: Tree, rest: seq<Tree>)
    ensures Pre([t] + rest) == [t.m] + (Pre(t.kids) + Pre(rest))
  {
    PreCons(t, rest);
  }

  /** Before an entry of a list is finalised: what it owns is separate from what has been dealt with. */
  lemma StepInto(h: Links, done: seq<Tree>, t: Tree, rest: seq<Tree>, head: Menu?, menu: Menu?, owner: Menu, par: Menu?, all: seq<Menu>)
    requires Seg(h, done, head, par, menu) && Seg(h, [t] + rest, menu, par, null)
    requires Pre(done) + Pre([t] + rest) == all && NoDup([owner] + all)
    ensures menu == t.m && t.m in h && h[t.m].parent == par
    ensures Seg(h, t.kids, h[t.m].list, t.m, null) && Seg(h, rest, h[t.m].next, par, null)
    ensures var own := Pre(t.kids) + Pre(rest);
      && NoDup([t.m] + own) && owner !in [t.m] + own
      && Pre([t] + rest) == [t.m] + own
      && (forall n :: n in Pre(done) ==> n in h && n !in [t.m] + own)
  {
    SegStep(h, done, t, rest, head, menu, par, null);
    PreOwn(t, rest);
    NoDupAfter(owner, Pre(done), t.m, Pre(t.kids) + Pre(rest));
    SegKnown(h, done, head, par, menu);
  }

  lemma PreOut(done: seq<Tree>, t: Tree, rest: seq<Tree>)
    ensures Pre(done + [t]) == Pre(done) + ([t.m] + Pre(t.kids))
    ensures Pre(done + [t]) + Pre(rest) == Pre(done) + ([t.m] + (Pre(t.kids) + Pre(rest)))
  {
    PreConcat(done, [t]);
    PreCons(t, rest);
    Regrouped(Pre(done), [t.m], Pre(t.kids), Pre(rest));
  }

  /** After an entry of a list has been finalised: the list goes on behind it. */
  lemma StepOut(h: Links, h': Links, done: seq<Tree>, t: Tree, rest: seq<Tree>, head: Menu?, par: Menu?)
    requires Seg(h, done, head, par, t.m)
    requires forall n :: n in Pre(done) ==> n in h && n in h' && h'[n] == h[n]
    requires t.m in h' && h'[t.m].parent == par
    requires Seg(h', t.kids, h'[t.m].list, t.m, null) && Seg(h', rest, h'[t.m].next, par, null)
    ensures Seg(h', done + [t], head, par, h'[t.m].next)
    ensures Pre(done + [t]) == Pre(done) + ([t.m] + Pre(t.kids))
    ensures Pre(done + [t]) + Pre(rest) == Pre(done) + ([t.m] + (Pre(t.kids) + Pre(rest)))
  {
    SegFrame(h, h', done, head, par, t.m);
    SegCons(h', t, rest, par, null);
    SegStep(h', done, t, rest, head, t.m, par, null);
    PreOut(done, t, rest);
  }

  /** An entry with the given parent, its children and its following siblings. */
  ghost predicate Family(h: Links, m: Menu, kids: seq<Tree>, rest: seq<Tree>, par: Menu?, all: seq<Menu>) {
    && m in h && h[m].parent == par
    && Seg(h, kids, h[m].list, m, null) && Seg(h, rest, h[m].next, par, null)
    && Pre(kids) + Pre(rest) == all && NoDup([m] + all)
  }

  /** Work below an entry leaves the entry and its siblings alone. */
  lemma FamilyBelow(h: Links, h': Links, m: Menu, kids: seq<Tree>, kids': seq<Tree>, rest: seq<Tree>, par: Menu?, all: seq<Menu>)
    requires Family(h, m, kids, rest, par, all) && m in h'
    requires Seg(h', kids', h'[m].list, m, null) && Pre(kids') == Pre(kids)
    requires forall n :: n in h && n !in Pre(kids) ==> n in h' && h'[n] == h[n]
    ensures Family(h', m, kids', rest, par, all)
  {
    NoDupSplit([m], all);
    NoDupSplit(Pre(kids), Pre(rest));
    assert m in [m];
    assert forall n :: n in Pre(kids) ==> n in all;
    SegKnown(h, rest, h[m].next, par, null);
    SegFrame(h, h', rest, h[m].next, par, null);
  }

  lemma FamilyKids(h: Links, m: Menu, kids: seq<Tree>, rest: seq<Tree>, par: Menu?, all: seq<Menu>)
    requires Family(h, m, kids, rest, par, all)
    ensures NoDup([m] + Pre(kids))
    ensures forall n :: n in Pre(kids) ==> n in all
    ensures forall n :: n in Tops(rest) ==> n !in Pre(kids) && n in all
  {
    assert [m] + Pre(kids) + Pre(rest) == [m] + all;
    NoDupSplit([m] + Pre(kids), Pre(rest));
    forall n | n in Tops(rest)
      ensures n in Pre(rest)
    {
      TopsInPre(rest, n);
    }
    assert forall n :: n in Pre(kids) ==> n in [m] + Pre(kids);
  }

  /** A sibling about to be absorbed by `owner`: what it owns is separate from what already was. */
  lemma AbsorbInto(h: Links, done: seq<Tree>, t: Tree, rest: seq<Tree>, head: Menu?, menu: Menu?, owner: Menu, par: Menu?, all: seq<Menu>)
    requires Seg(h, done, head, owner, menu) && Seg(h, [t] + rest, menu, par, null)
    requires Pre(done) + Pre([t] + rest) == all && NoDup([owner] + all)
    ensures menu == t.m && t.m in h && t.m != owner
    ensures var own := Pre(t.kids) + Pre(rest);
      && Family(h, t.m, t.kids, rest, par, own) && owner !in [t.m] + own && t.m !in own
      && Pre([t] + rest) == [t.m] + own
      && (forall n :: n in Pre(done) ==> n in h && n !in [t.m] + own)
  {
    assert ([t] + rest)[0] == t && ([t] + rest)[1..] == rest;
    PreOwn(t, rest);
    NoDupAfter(owner, Pre(done), t.m, Pre(t.kids) + Pre(rest));
    SegKnown(h, done, head, owner, menu);
    assert t.m in [t.m] + (Pre(t.kids) + Pre(rest));
    NoDupSplit([t.m], Pre(t.kids) + Pre(rest));
    assert t.m in [t.m];
  }

  lemma TopsCons(t: Tree, rest: seq<Tree>)
    ensures forall n :: n in Tops([t] + rest) <==> n == t.m || n in Tops(rest)
  {
    assert ([t] + rest)[0] == t && ([t] + rest)[1..] == rest;
    assert Tops([t] + rest) == [t.m] + Tops(rest);
  }

  /** The sibling has been finalised and given its new parent. */
  lemma AbsorbOut(h: Links, h1: Links, done: seq<Tree>, t: Tree, rest: seq<Tree>, head: Menu?, owner: Menu, par: Menu?, own: seq<Menu>)
    requires Seg(h, done, head, owner, t.m) && Family(h1, t.m, t.kids, rest, par, own)
    requires forall n :: n in Pre(done) ==> n in h && n in h1 && h1[n] == h[n] && n != t.m
    ensures var h2 := h1[t.m := h1[t.m].(parent := owner)];
      && Seg(h2, done + [t], head, owner, h2[t.m].next) && Seg(h2, rest, h2[t.m].next, par, null)
    ensures Pre(done + [t]) == Pre(done) + ([t.m] + Pre(t.kids))
    ensures Pre(done + [t]) + Pre(rest) == Pre(done) + ([t.m] + own)
  {
    var h2 := h1[t.m := h1[t.m].(parent := owner)];
    NoDupSplit([t.m], own);
    assert t.m in [t.m];
    assert forall n :: n in Pre(t.kids) || n in Pre(rest) ==> n in own;
    SegKnown(h1, t.kids, h1[t.m].list, t.m, null);
    SegKnown(h1, rest, h1[t.m].next, par, null);
    SegFrame(h, h2, done, head, owner, t.m);
    SegFrame(h1, h2, t.kids, h1[t.m].list, t.m, null);
    SegFrame(h1, h2, rest, h1[t.m].next, par, null);
    SegCons(h2, t, [], owner, h2[t.m].next);
    assert [t] + [] == [t];
    SegAppend(h2, done, [t], head, t.m, owner, h2[t.m].next);
    PreOut(done, t, rest);
  }

  lemma SuffixDistinct(a: seq<Tree>, b: seq<Tree>)
    requires Suffix(a, b) && NoDup(Pre(b))
    ensures NoDup(Pre(a))
  {
    var c := Taken(b, a);
    assert b == c + a;
    PreConcat(c, a);
    NoDupSplit(Pre(c), Pre(a));
  }

  lemma OneMore(a: seq<Tree>, t: Tree, b: seq<Tree>)
    ensures a + ([t] + b) == a + [t] + b
  {}

  lemma TopsConcat(a: seq<Tree>, b: seq<Tree>)
    ensures Tops(a + b) == Tops(a) + Tops(b)
  {}

  /** An entry without parent and siblings. */
  lemma NoSiblings(h: Links, m: Menu, kids: seq<Tree>)
    requires m in h && h[m].parent == null && h[m].next == null
    requires Seg(h, kids, h[m].list, m, null) && NoDup([m] + Pre(kids))
    ensures Family(h, m, kids, [], null, Pre(kids))
  {
    assert Pre([]) == [];
  }

  lemma NoSiblingsLeft(h: Links, m: Menu, kids: seq<Tree>, all: seq<Menu>)
    requires Family(h, m, kids, [], null, all)
    ensures h[m].parent == null && h[m].next == null
    ensures Pre(kids) == all
  {
    assert Pre([]) == [];
  }

  lemma {:induction false} InnerInPre(ts: seq<Tree>, k: Tree, n: Menu)
    requires k in ts
    ensures n in Pre(k.kids) ==> n in Pre(ts)
    ensures k.m in Pre(ts)
  {
    assert Pre(ts) == [ts[0].m] + Pre(ts[0].kids) + Pre(ts[1..]);
    if k != ts[0] { InnerInPre(ts[1..], k, n); }
  }

  lemma {:induction false} TopOf(ts: seq<Tree>, k: Tree)
    requires k in ts
    ensures k.m in Tops(ts)
  {
    if k != ts[0] { TopOf(ts[1..], k); }
  }

  lemma {:induction false} InnerNotTop(ts: seq<Tree>, k: Tree, n: Menu)
    requires k in ts && NoDup(Pre(ts)) && n in Pre(k.kids)
    ensures n !in Tops(ts)
  {
    PreParts(ts);
    if k == ts[0] {
      if n in Tops(ts[1..]) { TopsInPre(ts[1..], n); }
    } else {
      InnerInPre(ts[1..], k, n);
      InnerNotTop(ts[1..], k, n);
    }
  }
}
