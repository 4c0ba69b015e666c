/** Choice groups: which member a choice selects, and what values its members get. */
module ChoiceGroups {
  import opened Tristates
  import opened Exprs
  import opened Symbols
  import opened SymbolValue

  /** The assignment `s`, except that the choice symbol has the value v. */
  function WithChoice(s: State, choice: Sym, v: Tristate): State {
    State(y => TriWith(s, choice, v, y), s.str)
  }

  function TriWith(s: State, choice: Sym, v: Tristate, y: Sym): Tristate {
    if y == choice then v else s.tri(y)
  }

  predicate Shown(c: Context, x: Sym, s: State) { Visibility(c, x, s) != NO }

  /** The first default with a condition that holds and a symbol that is visible. */
  function VisibleDefault(c: Context, ps: seq<Property>, s: State): (r: Option<Sym>)
    requires ChoiceDefaults(ps)
    ensures r.Some? ==> Shown(c, r.value, s)
  {
    if ps == [] then None
    else if ps[0].kind == Default && EvalOpt(ps[0].visible, s) != NO && Shown(c, ps[0].expr.value.sym, s) then
      Some(ps[0].expr.value.sym)
    else VisibleDefault(c, ps[1..], s)
  }

  function FirstShown(c: Context, xs: seq<Sym>, s: State): (r: Option<Sym>)
    ensures r.Some? ==> r.value in xs && Shown(c, r.value, s)
    ensures r.None? ==> forall x :: x in xs ==> !Shown(c, x, s)
  {
    if xs == [] then None else if Shown(c, xs[0], s) then Some(xs[0]) else FirstShown(c, xs[1..], s)
  }

  /** Every default of a choice names a single symbol. */
  predicate ChoiceDefaults(ps: seq<Property>) {
    forall i :: 0 <= i < |ps| && ps[i].kind == Default ==> ps[i].expr.Some? && ps[i].expr.value.Leaf?
  }

  /** The user's choice if it is visible, else a visible default, else the first visible member. */
  function Selected(c: Context, choice: Sym, pick: Option<Sym>, s: State): (r: Option<Sym>)
    requires ChoiceDefaults(Info(c.table, choice).props)
    ensures r.Some? ==> Shown(c, r.value, s)
  {
    if pick.Some? && Shown(c, pick.value, s) then pick
    else
      var d := VisibleDefault(c, Info(c.table, choice).props, s);
      if d.Some? then d else FirstShown(c, Info(c.table, choice).members, s)
  }

  /** Default i names the first visible symbol of a default whose condition is not n. */
  predicate DefaultShown(c: Context, ps: seq<Property>, s: State, i: nat)
    requires ChoiceDefaults(ps)
  {
    i < |ps| && ps[i].kind == Default && EvalOpt(ps[i].visible, s) != NO && Shown(c, ps[i].expr.value.sym, s)
  }

  lemma {:induction false} VisibleDefaultIs(c: Context, ps: seq<Property>, s: State)
    requires ChoiceDefaults(ps)
    ensures VisibleDefault(c, ps, s).None? <==> forall i: nat :: !DefaultShown(c, ps, s, i)
    ensures forall i: nat :: DefaultShown(c, ps, s, i) && (forall j: nat :: j < i ==> !DefaultShown(c, ps, s, j)) ==>
      VisibleDefault(c, ps, s) == Some(ps[i].expr.value.sym)
  {
    if ps != [] {
      VisibleDefaultIs(c, ps[1..], s);
      assert forall i: nat :: i > 0 ==> (DefaultShown(c, ps, s, i) <==> DefaultShown(c, ps[1..], s, i - 1));
      forall i: nat | DefaultShown(c, ps, s, i) && forall j: nat :: j < i ==> !DefaultShown(c, ps, s, j)
        ensures VisibleDefault(c, ps, s) == Some(ps[i].expr.value.sym)
      {
        if i > 0 {
          assert !DefaultShown(c, ps, s, 0);
          assert forall j: nat :: j < i - 1 ==> (DefaultShown(c, ps[1..], s, j) <==> DefaultShown(c, ps, s, j + 1));
        }
      }
      if VisibleDefault(c, ps, s).Some? && !DefaultShown(c, ps, s, 0) {
        var i: nat :| DefaultShown(c, ps[1..], s, i);
        assert DefaultShown(c, ps, s, i + 1);
      }
    }
  }

  lemma {:induction false} FirstShownIs(c: Context, xs: seq<Sym>, s: State, j: nat)
    requires j < |xs| && Shown(c, xs[j], s) && forall k :: 0 <= k < j ==> !Shown(c, xs[k], s)
    ensures FirstShown(c, xs, s) == Some(xs[j])
  {
    if j > 0 {
      assert !Shown(c, xs[0], s);
      FirstShownIs(c, xs[1..], s, j - 1);
    }
  }

  /**
   * The member a choice selects: the picked one while it is visible; else that of the first
   * default shown, if one is; else the first visible member, if there is one.
   */
  lemma SelectedExactly(c: Context, choice: Sym, pick: Option<Sym>, s: State)
    requires ChoiceDefaults(Info(c.table, choice).props)
    ensures var r, ps, xs := Selected(c, choice, pick, s), Info(c.table, choice).props, Info(c.table, choice).members;
      if pick.Some? && Shown(c, pick.value, s) then r == pick
      else if exists i: nat :: DefaultShown(c, ps, s, i) then
        forall i: nat :: DefaultShown(c, ps, s, i) && (forall j: nat :: j < i ==> !DefaultShown(c, ps, s, j)) ==>
          r == Some(ps[i].expr.value.sym)
      else
        && (r.None? <==> forall x :: x in xs ==> !Shown(c, x, s))
        && (forall j: nat :: j < |xs| && Shown(c, xs[j], s) && (forall k :: 0 <= k < j ==> !Shown(c, xs[k], s)) ==> r == Some(xs[j]))
  {
    var ps, xs := Info(c.table, choice).props, Info(c.table, choice).members;
    VisibleDefaultIs(c, ps, s);
    forall j: nat | j < |xs| && Shown(c, xs[j], s) && forall k :: 0 <= k < j ==> !Shown(c, xs[k], s)
      ensures FirstShown(c, xs, s) == Some(xs[j])
    {
      FirstShownIs(c, xs, s, j);
    }
  }

  /** What the evaluation of a choice symbol leaves: its value and the member it holds. */
  datatype ChoiceState = ChoiceState(tri: Tristate, val: Option<Sym>)

  function ChoiceTri(c: Context, choice: Sym, s: State): Tristate {
    var visible, rev := Visibility(c, choice, s), ReverseDep(c, choice, s);
    var v :=
      if Apply(Or, visible, rev) != NO then Bounded(if HasValue(c, choice) then User(c, choice).tri else NO, visible, rev)
      else NO;
    Promote(v, EffectivelyBoolean(c, choice))
  }

  /** A choice takes its user value within its bounds; it has no defaults of its own. */
  lemma ChoiceTriIs(c: Context, choice: Sym, s: State) returns (w: Tristate)
    requires choice.IsTristate()
    ensures var visible, rev := Visibility(c, choice, s), ReverseDep(c, choice, s);
      && CutAndLifted(w, if HasValue(c, choice) then User(c, choice).tri else NO, visible, rev)
      && Promoted(ChoiceTri(c, choice, s), w, choice.Type() == Boolean || c.modules == NO)
  {
    w := Bounded(if HasValue(c, choice) then User(c, choice).tri else NO, Visibility(c, choice, s), ReverseDep(c, choice, s));
  }

  /** A choice at y without a visible member falls back to n. */
  function ChoiceStep(c: Context, choice: Sym, pick: Option<Sym>, s: State): ChoiceState
    requires ChoiceDefaults(Info(c.table, choice).props)
  {
    var v := ChoiceTri(c, choice, s);
    if v != YES then ChoiceState(v, None)
    else
      var m := Selected(c, choice, pick, WithChoice(s, choice, YES));
      ChoiceState(if m.None? then NO else YES, m)
  }

  /** A member at visibility y is y exactly when the choice holds it; below that it is bounded. */
  function MemberStep(c: Context, x: Sym, held: Option<Sym>, s: State): Tristate {
    var ps := Info(c.table, x).props;
    var visible := Visibility(c, x, s);
    var boolean := x.Type() == Boolean || visible == YES || c.modules == NO;
    var v :=
      if visible == YES then (if held == Some(x) then YES else NO)
      else if visible != NO then Bounded(if HasValue(c, x) then User(c, x).tri else DefaultTri(ps, s), visible, NO)
      else DefaultTri(ps, s);
    Promote(v, boolean)
  }

  /** A member that can only be m is m exactly if the user has set it so, or a default would make it so. */
  lemma MemberOfMod(c: Context, x: Sym, held: Option<Sym>, s: State)
    requires x.IsTristate() && Visibility(c, x, s) == MOD
    ensures var v := if HasValue(c, x) then User(c, x).tri else DefaultTri(Info(c.table, x).props, s);
      MemberStep(c, x, held, s) == if v == NO then NO else MOD
  {}

  /**
   * A well-formed group: members are boolean or tristate and have no defaults; user and default
   * selections are members. The visibility of members is read from the assignment, so it does
   * not change with their values.
   */
  ghost predicate WellFormed(c: Context, choice: Sym, pick: Option<Sym>) {
    var info := Info(c.table, choice);
    && choice.IsTristate()
    && (forall x :: x in info.members ==> x.IsTristate() && NoDefaults(Info(c.table, x).props))
    && ChoiceDefaults(info.props)
    && (forall p :: p in info.props && p.kind == Default ==> p.expr.value.sym in info.members)
    && (pick.Some? ==> pick.value in info.members)
  }

  predicate NoDefaults(ps: seq<Property>) { forall i :: 0 <= i < |ps| ==> ps[i].kind != Default }

  lemma {:induction false} NoDefaultTri(ps: seq<Property>, s: State)
    requires NoDefaults(ps)
    ensures DefaultTri(ps, s) == NO && DefaultProp(ps, s).None?
  {
    if ps != [] { NoDefaultTri(ps[1..], s); }
  }

  lemma {:induction false} VisibleDefaultIsMember(c: Context, ps: seq<Property>, s: State, members: seq<Sym>)
    requires ChoiceDefaults(ps)
    requires forall p :: p in ps && p.kind == Default ==> p.expr.value.sym in members
    ensures var r := VisibleDefault(c, ps, s); r.Some? ==> r.value in members
  {
    if ps != [] {
      assert ps[0] in ps;
      VisibleDefaultIsMember(c, ps[1..], s, members);
    }
  }

  lemma SelectedIsMember(c: Context, choice: Sym, pick: Option<Sym>, s: State)
    requires WellFormed(c, choice, pick)
    ensures var r := Selected(c, choice, pick, s);
      && (r.Some? ==> r.value in Info(c.table, choice).members && Shown(c, r.value, s))
      && (r.None? ==> forall x :: x in Info(c.table, choice).members ==> !Shown(c, x, s))
  {
    VisibleDefaultIsMember(c, Info(c.table, choice).props, s, Info(c.table, choice).members);
  }

  /** A member is y exactly when it is held and its visibility is y. */
  lemma MemberIsYes(c: Context, choice: Sym, pick: Option<Sym>, x: Sym, held: Option<Sym>, s: State)
    requires WellFormed(c, choice, pick) && x in Info(c.table, choice).members
    ensures MemberStep(c, x, held, s) == YES <==> held == Some(x) && Visibility(c, x, s) == YES
  {
    NoDefaultTri(Info(c.table, x).props, s);
  }

  /** The values of the members once the choice has been evaluated. */
  function MemberValue(c: Context, choice: Sym, pick: Option<Sym>, x: Sym, s: State): Tristate
    requires ChoiceDefaults(Info(c.table, choice).props)
  {
    var r := ChoiceStep(c, choice, pick, s);
    MemberStep(c, x, r.val, WithChoice(s, choice, r.tri))
  }

  /** Exclusivity: never are two members y. */
  lemma AtMostOneYes(c: Context, choice: Sym, pick: Option<Sym>, s: State, x: Sym, y: Sym)
    requires WellFormed(c, choice, pick)
    requires x in Info(c.table, choice).members && y in Info(c.table, choice).members
    requires MemberValue(c, choice, pick, x, s) == YES && MemberValue(c, choice, pick, y, s) == YES
    ensures x == y
  {
    var r := ChoiceStep(c, choice, pick, s);
    MemberIsYes(c, choice, pick, x, r.val, WithChoice(s, choice, r.tri));
    MemberIsYes(c, choice, pick, y, r.val, WithChoice(s, choice, r.tri));
  }

  /**
   * A choice at y has a member that is y exactly when the selected member's visibility is y;
   * with boolean members, or without modules, that is always so.
   */
  lemma ChoiceAtYes(c: Context, choice: Sym, pick: Option<Sym>, s: State)
    requires WellFormed(c, choice, pick) && ChoiceStep(c, choice, pick, s).tri == YES
    ensures var r := ChoiceStep(c, choice, pick, s);
      && r.val.Some? && r.val.value in Info(c.table, choice).members
      && ((exists x :: x in Info(c.table, choice).members && MemberValue(c, choice, pick, x, s) == YES)
          <==> Visibility(c, r.val.value, WithChoice(s, choice, YES)) == YES)
      && (r.val.value.Type() == Boolean || c.modules == NO ==> MemberValue(c, choice, pick, r.val.value, s) == YES)
  {
    var r := ChoiceStep(c, choice, pick, s);
    var t := WithChoice(s, choice, YES);
    SelectedIsMember(c, choice, pick, t);
    forall x | x in Info(c.table, choice).members
      ensures MemberValue(c, choice, pick, x, s) == YES <==> r.val == Some(x) && Visibility(c, x, t) == YES
    {
      MemberIsYes(c, choice, pick, x, r.val, t);
    }
  }

  /** A choice that is not y has no member at y. */
  lemma ChoiceBelowYes(c: Context, choice: Sym, pick: Option<Sym>, s: State, x: Sym)
    requires WellFormed(c, choice, pick) && x in Info(c.table, choice).members
    requires ChoiceStep(c, choice, pick, s).tri != YES
    ensures MemberValue(c, choice, pick, x, s) != YES
  {
    var r := ChoiceStep(c, choice, pick, s);
    MemberIsYes(c, choice, pick, x, r.val, WithChoice(s, choice, r.tri));
  }

  /** Picking a member that can be y makes it the one that is y, as long as the choice can be y. */
  lemma PickTakesEffect(c: Context, choice: Sym, x: Sym, s: State)
    requires WellFormed(c, choice, Some(x)) && ChoiceTri(c, choice, s) == YES
    requires Visibility(c, x, WithChoice(s, choice, YES)) == YES
    ensures MemberValue(c, choice, Some(x), x, s) == YES
    ensures forall y :: y in Info(c.table, choice).members && y != x ==> MemberValue(c, choice, Some(x), y, s) != YES
  {
    var t := WithChoice(s, choice, YES);
    MemberIsYes(c, choice, Some(x), x, Some(x), t);
    forall y | y in Info(c.table, choice).members && y != x
      ensures MemberValue(c, choice, Some(x), y, s) != YES
    {
      MemberIsYes(c, choice, Some(x), y, Some(x), t);
    }
  }

  /** A hidden member takes its default. */
  predicate HiddenYes(c: Context, x: Sym, s: State) {
    Visibility(c, x, s) == NO &&
    Promote(DefaultTri(Info(c.table, x).props, s), x.Type() == Boolean || c.modules == NO) == YES
  }

  predicate HeldYes(c: Context, x: Sym, held: Option<Sym>, s: State) {
    held == Some(x) && Visibility(c, x, s) == YES
  }

  lemma MemberIsYesExactly(c: Context, x: Sym, held: Option<Sym>, s: State)
    requires x.IsTristate()
    ensures MemberStep(c, x, held, s) == YES <==> HeldYes(c, x, held, s) || HiddenYes(c, x, s)
  {}

  /**
   * Without the condition on defaults: at most one member is y if and only if no hidden member
   * has a default of y beside another one, or beside the member that is held.
   */
  lemma ExclusiveExactly(c: Context, choice: Sym, pick: Option<Sym>, s: State)
    requires ChoiceDefaults(Info(c.table, choice).props)
    requires forall x :: x in Info(c.table, choice).members ==> x.IsTristate()
    ensures var r := ChoiceStep(c, choice, pick, s);
      var t := WithChoice(s, choice, r.tri);
      var members := Info(c.table, choice).members;
      (forall x, y :: x in members && y in members && x != y ==>
        !(MemberValue(c, choice, pick, x, s) == YES && MemberValue(c, choice, pick, y, s) == YES))
      <==>
      (forall x, y :: x in members && y in members && x != y && HiddenYes(c, x, t) ==>
        !HiddenYes(c, y, t) && !HeldYes(c, y, r.val, t))
  {
    var r := ChoiceStep(c, choice, pick, s);
    var t := WithChoice(s, choice, r.tri);
    forall x | x in Info(c.table, choice).members
      ensures MemberValue(c, choice, pick, x, s) == YES <==> HeldYes(c, x, r.val, t) || HiddenYes(c, x, t)
    {
      MemberIsYesExactly(c, x, r.val, t);
    }
  }

  /**
   * With a default on a member exclusivity fails: a hidden member takes its default. Two
   * hidden members with the default y are both y.
   */
  lemma DefaultsBreakExclusivity(c: Context, x: Sym, held: Option<Sym>, s: State)
    requires Info(c.table, x).props == [Property(Default, false, None, Some(EXPR_YES))]
    ensures Visibility(c, x, s) == NO && MemberStep(c, x, held, s) == YES
  {
    var ps := Info(c.table, x).props;
    assert ps[1..] == [];
    assert PromptVisibility(ps, s) == NO;
    ConstantValues(s);
  }

  // ----- the evaluation of a group, step by step -----

  /** The group's own fields; everything outside has been evaluated and is read from `base`. */
  class Group {
    const c: Context
    const choice: Sym
    const base: State
    var pick: Option<Sym>
    var tri: Tristate
    var val: Option<Sym>
    var visible: map<Sym, Tristate>
    var value: map<Sym, Tristate>

    constructor (c: Context, choice: Sym, base: State, pick: Option<Sym>)
      requires WellFormed(c, choice, pick)
      ensures Valid() && this.c == c && this.choice == choice && this.base == base && this.pick == pick
    {
      this.c, this.choice, this.base, this.pick := c, choice, base, pick;
      tri, val, visible, value := NO, None, map[], map[];
    }

    ghost predicate Valid()
      reads this
    {
      WellFormed(c, choice, pick)
    }

    function Now(): State
      reads this
    {
      WithChoice(base, choice, tri)
    }

    /** sym_calc_visibility on a member: no reverse dependency is looked at. */
    method CalcVisibility(x: Sym)
      modifies this`visible
      ensures visible == old(visible)[x := Visibility(c, x, Now())]
    {
      visible := visible[x := Visibility(c, x, Now())];
    }

    /** sym_calc_choice: stops at the first symbol found visible, or resets the choice to n. */
    method CalcChoice() returns (m: Option<Sym>)
      requires Valid()
      modifies this`visible, this`tri
      ensures m == Selected(c, choice, pick, old(Now()))
      ensures tri == if m.None? then NO else old(tri)
    {
      var info := Info(c.table, choice);
      if pick.Some? {
        CalcVisibility(pick.value);
        if visible[pick.value] != NO { return pick; }
      }
      var i := 0;
      while i < |info.props|
        invariant i <= |info.props| && tri == old(tri)
        invariant VisibleDefault(c, info.props, Now()) == VisibleDefault(c, info.props[i..], Now())
      {
        assert info.props[i..][0] == info.props[i] && info.props[i..][1..] == info.props[i + 1..];
        var p := info.props[i];
        if p.kind == Default && EvalOpt(p.visible, Now()) != NO {
          var d := p.expr.value.sym;
          CalcVisibility(d);
          if visible[d] != NO { return Some(d); }
        }
        i := i + 1;
      }
      i := 0;
      while i < |info.members|
        invariant i <= |info.members| && tri == old(tri)
        invariant FirstShown(c, info.members, Now()) == FirstShown(c, info.members[i..], Now())
      {
        assert info.members[i..][0] == info.members[i] && info.members[i..][1..] == info.members[i + 1..];
        var d := info.members[i];
        CalcVisibility(d);
        if visible[d] != NO { return Some(d); }
        i := i + 1;
      }
      tri := NO;
      m := None;
    }

    /** sym_calc_value on the choice symbol. */
    method CalcChoiceValue()
      requires Valid()
      modifies this`visible, this`tri, this`val
      ensures ChoiceState(tri, val) == ChoiceStep(c, choice, pick, base)
    {
      tri, val := ChoiceTri(c, choice, base), None;
      if tri == YES { val := CalcChoice(); }
    }

    /** sym_calc_value on a member, after the choice itself. */
    method CalcMember(x: Sym)
      requires Valid() && x in Info(c.table, choice).members
      modifies this`visible, this`value
      ensures value == old(value)[x := MemberStep(c, x, val, Now())]
    {
      CalcVisibility(x);
      NoDefaultTri(Info(c.table, x).props, Now());
      var v := NO;
      if visible[x] == YES {
        v := if val == Some(x) then YES else NO;
      } else if visible[x] != NO && HasValue(c, x) {
        v := Bounded(User(c, x).tri, visible[x], NO);
      }
      value := value[x := Promote(v, x.Type() == Boolean || visible[x] == YES || c.modules == NO)];
    }

    /** Evaluating the group in any order of its members leaves at most one of them y. */
    method CalcGroup(order: seq<Sym>)
      requires Valid() && forall x :: x in order ==> x in Info(c.table, choice).members
      modifies this`visible, this`tri, this`val, this`value
      ensures ChoiceState(tri, val) == ChoiceStep(c, choice, pick, base)
      ensures forall x :: x in order ==> x in value && value[x] == MemberValue(c, choice, pick, x, base)
      ensures forall x, y :: x in order && y in order && value[x] == YES && value[y] == YES ==> x == y
    {
      CalcChoiceValue();
      var i := 0;
      while i < |order|
        invariant i <= |order|
        invariant ChoiceState(tri, val) == ChoiceStep(c, choice, pick, base)
        invariant forall j :: 0 <= j < i ==>
          order[j] in value && value[order[j]] == MemberValue(c, choice, pick, order[j], base)
      {
        CalcMember(order[i]);
        i := i + 1;
      }
      forall x, y | x in order && y in order && value[x] == YES && value[y] == YES
        ensures x == y
      {
        AtMostOneYes(c, choice, pick, base, x, y);
      }
    }
  }
}
