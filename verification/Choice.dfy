// Choices: sym_calc_choice, sym_choice_default and the cases of
// sym_calc_visibility, sym_calc_value and sym_set_tristate_value for a choice
// and its values (support/kconfig/symbol.c).
//
// The symbols outside the choice are evaluated and do not change meanwhile.

module Choices {
  import opened Wrappers
  import opened Expressions
  import opened SymbolValue

  datatype ChoiceDefault = ChoiceDefault(sym: Symbol, visible: Option<Expr>)

  // The prompts of a choice value; while the choice is y, an m condition of a
  // tristate value does not make it visible.
  function MemberPrompts(ps: seq<Option<Expr>>, n: nat, v: Valuation, noMod: bool): Tri
    requires n <= |ps|
  {
    if n == 0 then NO
    else
      var t := ValueOpt(ps[n - 1], v);
      Ap(Or, MemberPrompts(ps, n - 1, v, noMod), if noMod && t == MOD then NO else t)
  }

  function FirstVisible(members: seq<Symbol>, visible: map<Symbol, Tri>, i: nat): Option<Symbol>
    requires i <= |members| && forall m | m in members :: m in visible
    decreases |members| - i
  {
    if i == |members| then None
    else if visible[members[i]] != NO then Some(members[i])
    else FirstVisible(members, visible, i + 1)
  }

  function FirstDefaultMember(ds: seq<ChoiceDefault>, visible: map<Symbol, Tri>, v: Valuation, i: nat): Option<Symbol>
    requires i <= |ds| && forall d | d in ds :: d.sym in visible
    decreases |ds| - i
  {
    if i == |ds| then None
    else if ValueOpt(ds[i].visible, v) != NO && visible[ds[i].sym] != NO then Some(ds[i].sym)
    else FirstDefaultMember(ds, visible, v, i + 1)
  }

  // sym_choice_default
  function DefaultMember(
    ds: seq<ChoiceDefault>, members: seq<Symbol>, visible: map<Symbol, Tri>, v: Valuation): (r: Option<Symbol>)
    requires (forall d | d in ds :: d.sym in members) && forall m | m in members :: m in visible
  {
    var d := FirstDefaultMember(ds, visible, v, 0);
    if d.Some? then d else FirstVisible(members, visible, 0)
  }

  lemma {:induction false} FirstVisibleSound(members: seq<Symbol>, visible: map<Symbol, Tri>, i: nat)
    requires i <= |members| && forall m | m in members :: m in visible
    ensures var r := FirstVisible(members, visible, i);
      if r.Some? then r.value in members && visible[r.value] != NO
      else forall j | i <= j < |members| :: visible[members[j]] == NO
    decreases |members| - i
  {
    if i < |members| && visible[members[i]] == NO { FirstVisibleSound(members, visible, i + 1); }
  }

  lemma {:induction false} FirstDefaultMemberSound(
    ds: seq<ChoiceDefault>, visible: map<Symbol, Tri>, v: Valuation, i: nat)
    requires i <= |ds| && forall d | d in ds :: d.sym in visible
    ensures var r := FirstDefaultMember(ds, visible, v, i);
      r.Some? ==> (exists j :: i <= j < |ds| && ds[j].sym == r.value) && visible[r.value] != NO
    decreases |ds| - i
  {
    if i < |ds| && !(ValueOpt(ds[i].visible, v) != NO && visible[ds[i].sym] != NO) {
      FirstDefaultMemberSound(ds, visible, v, i + 1);
    }
  }

  // The default is a visible member, and there is one if any member is visible.
  lemma DefaultMemberSound(
    ds: seq<ChoiceDefault>, members: seq<Symbol>, visible: map<Symbol, Tri>, v: Valuation)
    requires (forall d | d in ds :: d.sym in members) && forall m | m in members :: m in visible
    ensures var r := DefaultMember(ds, members, visible, v);
      && (r.Some? ==> r.value in members && visible[r.value] != NO)
      && (r.None? <==> forall m | m in members :: visible[m] == NO)
  {
    FirstDefaultMemberSound(ds, visible, v, 0);
    FirstVisibleSound(members, visible, 0);
  }

  // r follows from the default lines, in order: the first whose condition is not
  // n and whose symbol is visible, and without one the first visible member.
  ghost predicate ByDefault(
    ds: seq<ChoiceDefault>, members: seq<Symbol>, visible: map<Symbol, Tri>, v: Valuation, r: Option<Symbol>)
    requires (forall d | d in ds :: d.sym in members) && forall m | m in members :: m in visible
  {
    && (forall i | IsFirstDefault(ds, visible, v, i) :: r == Some(ds[i].sym))
    && ((forall i | 0 <= i < |ds| :: !Applies(ds[i], visible, v)) ==>
          && (forall k | IsFirstVisible(members, visible, k) :: r == Some(members[k]))
          && ((forall m | m in members :: visible[m] == NO) ==> r == None))
  }

  predicate Applies(d: ChoiceDefault, visible: map<Symbol, Tri>, v: Valuation)
    requires d.sym in visible
  {
    ValueOpt(d.visible, v) != NO && visible[d.sym] != NO
  }

  predicate IsFirstDefault(ds: seq<ChoiceDefault>, visible: map<Symbol, Tri>, v: Valuation, i: int)
    requires forall d | d in ds :: d.sym in visible
  {
    0 <= i < |ds| && Applies(ds[i], visible, v) && forall j | 0 <= j < i :: !Applies(ds[j], visible, v)
  }

  predicate IsFirstVisible(members: seq<Symbol>, visible: map<Symbol, Tri>, k: int)
    requires forall m | m in members :: m in visible
  {
    0 <= k < |members| && visible[members[k]] != NO && forall j | 0 <= j < k :: visible[members[j]] == NO
  }

  lemma {:induction false} FirstDefaultAt(
    ds: seq<ChoiceDefault>, visible: map<Symbol, Tri>, v: Valuation, i: nat, n: nat)
    requires i <= n <= |ds| && forall d | d in ds :: d.sym in visible
    requires forall j | i <= j < n :: !Applies(ds[j], visible, v)
    ensures FirstDefaultMember(ds, visible, v, i) == FirstDefaultMember(ds, visible, v, n)
    decreases n - i
  {
    if i < n {
      assert !Applies(ds[i], visible, v);
      FirstDefaultAt(ds, visible, v, i + 1, n);
    }
  }

  lemma {:induction false} FirstVisibleAt(members: seq<Symbol>, visible: map<Symbol, Tri>, i: nat, n: nat)
    requires i <= n <= |members| && forall m | m in members :: m in visible
    requires forall j | i <= j < n :: visible[members[j]] == NO
    ensures FirstVisible(members, visible, i) == FirstVisible(members, visible, n)
    decreases n - i
  {
    if i < n { FirstVisibleAt(members, visible, i + 1, n); }
  }

  lemma DefaultMemberExact(
    ds: seq<ChoiceDefault>, members: seq<Symbol>, visible: map<Symbol, Tri>, v: Valuation)
    requires (forall d | d in ds :: d.sym in members) && forall m | m in members :: m in visible
    ensures ByDefault(ds, members, visible, v, DefaultMember(ds, members, visible, v))
  {
    forall i | IsFirstDefault(ds, visible, v, i) ensures DefaultMember(ds, members, visible, v) == Some(ds[i].sym) {
      FirstDefaultAt(ds, visible, v, 0, i);
    }
    if forall i | 0 <= i < |ds| :: !Applies(ds[i], visible, v) {
      FirstDefaultAt(ds, visible, v, 0, |ds|);
      forall k | IsFirstVisible(members, visible, k)
        ensures DefaultMember(ds, members, visible, v) == Some(members[k])
      {
        FirstVisibleAt(members, visible, 0, k);
      }
      if forall m | m in members :: visible[m] == NO { FirstVisibleAt(members, visible, 0, |members|); }
    }
  }

  class Choice {
    const c: Config
    const sym: Symbol
    const members: seq<Symbol>
    const defaults: seq<ChoiceDefault>
    // the evaluated symbols outside the choice
    const outer: State
    // curr.tri and curr.val of the choice
    var tri: Tri
    var chosen: Option<Symbol>
    // def[S_DEF_USER].val of the choice, and SYMBOL_DEF_USER of choice and members
    var userChosen: Option<Symbol>
    var hasUser: set<Symbol>
    // def[S_DEF_USER].tri of the choice and of the members
    var userTri: Tri
    var user: map<Symbol, Tri>
    // visible and curr.tri of the members
    var visible: map<Symbol, Tri>
    var value: map<Symbol, Tri>

    // What menu_finalize sets up: values and defaults that belong to the
    // choice, conditions on symbols outside and on the choice itself.
    ghost predicate WellFormed()
      reads this
    {
      && IsLogic(sym) && sym !in members && c.modules != sym && c.modules !in members
      && (forall m | m in members :: IsLogic(m) && !IsLetter(m) && m in visible && m in value && m in user)
      && (forall d | d in defaults :: d.sym in members)
      && (userChosen.Some? ==> userChosen.value in members)
    }

    // The choice bounds the conditions of its values from above, and in a
    // tristate choice the values that are not tristate need it to be y.
    // ChoiceMenus derives this from the menu.
    ghost predicate Bounded() {
      forall m, t: Tri | m in members && Possible(t) ::
        && (forall i | 0 <= i < |DefOf(c, m).prompts| :: BoundedAt(m, DefOf(c, m).prompts[i], t))
        && (forall i | 0 <= i < |DefOf(c, m).defaults| :: BoundedAt(m, DefOf(c, m).defaults[i].visible, t))
    }

    // A choice that is not tristate, or that lacks modules, is never m.
    predicate Possible(t: Tri) {
      t == MOD ==> TypeOf(sym, Modules()).Tristate?
    }

    predicate BoundedAt(m: Symbol, p: Option<Expr>, t: Tri) {
      && ValueOpt(p, At(t)) <= t
      && (sym.stype.Tristate? && !m.stype.Tristate? && t == MOD ==> ValueOpt(p, At(t)) == NO)
    }

    // What is read while the choice is t.
    function At(t: Tri): Valuation {
      Readings(c, (s: Symbol) => if s == sym then SymVal("", t) else outer(s))
    }

    function Modules(): Tri {
      outer(c.modules).tri
    }

    function VisibleAt(m: Symbol, t: Tri): Tri {
      var ps := DefOf(c, m).prompts;
      Promote(
        MemberPrompts(ps, |ps|, At(t), m.stype.Tristate? && t == YES), !m.stype.Tristate? || Modules() == NO)
    }

    lemma {:induction false} MemberPromptsExact(ps: seq<Option<Expr>>, n: nat, v: Valuation, noMod: bool)
      requires n <= |ps|
      ensures MemberPrompts(ps, n, v, noMod) == YES <==> exists i :: 0 <= i < n && ValueOpt(ps[i], v) == YES
      ensures MemberPrompts(ps, n, v, noMod) == NO
        <==> forall i | 0 <= i < n :: ValueOpt(ps[i], v) == NO || (noMod && ValueOpt(ps[i], v) == MOD)
    {
      if n > 0 { MemberPromptsExact(ps, n - 1, v, noMod); }
    }

    // A choice value is not visible if no prompt is, where m does not count for
    // a tristate while the choice is y; it is visible as m only if it is a
    // tristate, with modules, and no prompt is y.
    lemma VisibleExact(m: Symbol, t: Tri)
      requires m in members
      ensures var ps := DefOf(c, m).prompts;
        && (VisibleAt(m, t) == NO <==> forall i | 0 <= i < |ps| ::
              ValueOpt(ps[i], At(t)) == NO || (ValueOpt(ps[i], At(t)) == MOD && m.stype.Tristate? && t == YES))
        && ((exists i :: 0 <= i < |ps| && ValueOpt(ps[i], At(t)) == YES) ==> VisibleAt(m, t) == YES)
        && (VisibleAt(m, t) != NO && !(exists i :: 0 <= i < |ps| && ValueOpt(ps[i], At(t)) == YES) ==>
              VisibleAt(m, t) == if m.stype.Tristate? && outer(c.modules).tri != NO then MOD else YES)
    {
      var ps := DefOf(c, m).prompts;
      MemberPromptsExact(ps, |ps|, At(t), m.stype.Tristate? && t == YES);
    }

    // sym_calc_visibility, of a choice value
    method CalcVisibility(m: Symbol)
      requires WellFormed() && m in members
      modifies `visible
      ensures WellFormed() && visible == old(visible)[m := VisibleAt(m, tri)]
    {
      var ps := DefOf(c, m).prompts;
      var t := NO;
      var i := 0;
      while i < |ps|
        invariant 0 <= i <= |ps| && t == MemberPrompts(ps, i, At(tri), m.stype.Tristate? && tri == YES)
      {
        var x := ValueOpt(ps[i], At(tri));
        if m.stype.Tristate? && x == MOD && tri == YES {
          x := NO;
        }
        t := Ap(Or, t, x);
        i := i + 1;
      }
      if t == MOD && (!m.stype.Tristate? || Modules() == NO) {
        t := YES;
      }
      visible := visible[m := t];
    }

    // sym_choice_default
    method GetDefault() returns (r: Option<Symbol>)
      requires WellFormed()
      ensures r == DefaultMember(defaults, members, visible, At(tri))
      ensures ByDefault(defaults, members, visible, At(tri), r)
    {
      hide ByDefault, At;
      DefaultMemberExact(defaults, members, visible, At(tri));
      var i := 0;
      while i < |defaults|
        invariant 0 <= i <= |defaults|
        invariant FirstDefaultMember(defaults, visible, At(tri), 0) == FirstDefaultMember(defaults, visible, At(tri), i)
      {
        if ValueOpt(defaults[i].visible, At(tri)) != NO {
          if visible[defaults[i].sym] != NO {
            return Some(defaults[i].sym);
          }
        }
        i := i + 1;
      }
      i := 0;
      while i < |members|
        invariant 0 <= i <= |members| && FirstVisible(members, visible, 0) == FirstVisible(members, visible, i)
      {
        if visible[members[i]] != NO {
          return Some(members[i]);
        }
        i := i + 1;
      }
      r := None;
    }

    // All choice values as visible as the choice being t makes them.
    ghost predicate Seen(t: Tri)
      reads this
    {
      forall m | m in members :: m in visible && visible[m] == VisibleAt(m, t)
    }

    // Calculates all visibilities; are all visible values set by the user?
    method SeeMembers() returns (allSet: bool)
      requires WellFormed() && tri == YES
      modifies `visible
      ensures WellFormed() && Seen(YES)
      ensures allSet <==> forall m | m in members && VisibleAt(m, YES) != NO :: m in hasUser
    {
      hide VisibleAt;
      allSet := true;
      var i := 0;
      while i < |members|
        invariant 0 <= i <= |members| && WellFormed()
        invariant forall j | 0 <= j < i :: visible[members[j]] == VisibleAt(members[j], YES)
        invariant allSet <==> forall j | 0 <= j < i && VisibleAt(members[j], YES) != NO :: members[j] in hasUser
      {
        CalcVisibility(members[i]);
        if visible[members[i]] != NO {
          allSet := allSet && members[i] in hasUser;
        }
        i := i + 1;
      }
    }

    // The user's choice is visible while the choice is y.
    predicate UserVisible()
      reads `userChosen
    {
      userChosen.Some? && VisibleAt(userChosen.value, YES) != NO
    }

    // The chosen symbol follows from the default lines and the visible members.
    ghost predicate Defaulted()
      reads `chosen
    {
      (forall d | d in defaults :: d.sym in members) && ByDefault(defaults, members, SeenAs(YES), At(YES), chosen)
    }

    function SeenAs(t: Tri): map<Symbol, Tri> {
      map m | m in members :: VisibleAt(m, t)
    }

    lemma SeenDefault(r: Option<Symbol>)
      requires WellFormed() && Seen(YES) && ByDefault(defaults, members, visible, At(YES), r)
      ensures ByDefault(defaults, members, SeenAs(YES), At(YES), r)
    {
      hide VisibleAt, At;
      var w := SeenAs(YES);
      forall m | m in members ensures w[m] == visible[m] { }
      forall i | 0 <= i < |defaults|
        ensures Applies(defaults[i], w, At(YES)) == Applies(defaults[i], visible, At(YES))
      {
        assert defaults[i] in defaults;
      }
      forall i | IsFirstDefault(defaults, w, At(YES), i) ensures IsFirstDefault(defaults, visible, At(YES), i) { }
      forall k | IsFirstVisible(members, w, k) ensures IsFirstVisible(members, visible, k) { }
    }

    // The user's choice if it is visible, else the default; without one the
    // choice is reset to n.
    method Pick()
      requires WellFormed() && tri == YES && Seen(YES)
      modifies `tri, `chosen
      ensures WellFormed() && tri == if chosen.None? then NO else YES
      ensures chosen.Some? ==> chosen.value in members && VisibleAt(chosen.value, YES) == YES
      ensures chosen.None? <==> forall m | m in members :: VisibleAt(m, YES) == NO
      ensures userChosen.Some? && VisibleAt(userChosen.value, YES) != NO ==> chosen == userChosen
      ensures !UserVisible() ==> Defaulted()
    {
      hide VisibleAt, DefaultMember;
      if userChosen.Some? && visible[userChosen.value] != NO {
        chosen := userChosen;
      } else {
        DefaultMemberSound(defaults, members, visible, At(tri));
        chosen := GetDefault();
        SeenDefault(chosen);
        if chosen.None? {
          tri := NO;
        }
      }
      if chosen.Some? { SeenIsYesOrNo(chosen.value); }
    }

    // sym_calc_choice, while the choice is y.  The choice counts as set by the
    // user only if all its visible values do.
    method CalcChoice()
      requires WellFormed() && tri == YES
      modifies `visible, `hasUser, `tri, `chosen
      ensures WellFormed() && Seen(YES) && tri == if chosen.None? then NO else YES
      ensures chosen.Some? ==> chosen.value in members && VisibleAt(chosen.value, YES) == YES
      ensures chosen.None? <==> forall m | m in members :: VisibleAt(m, YES) == NO
      ensures userChosen.Some? && VisibleAt(userChosen.value, YES) != NO ==> chosen == userChosen
      ensures !UserVisible() ==> Defaulted()
      ensures var allSet := forall m | m in members && VisibleAt(m, YES) != NO :: m in old(hasUser);
        hasUser == if allSet then old(hasUser) else old(hasUser) - {sym}
    {
      hide VisibleAt;
      var allSet := SeeMembers();
      if !allSet {
        hasUser := hasUser - {sym};
      }
      Pick();
    }

    lemma {:induction false} NoModPrompts(ps: seq<Option<Expr>>, n: nat, v: Valuation)
      requires n <= |ps|
      ensures MemberPrompts(ps, n, v, true) != MOD
    {
      if n > 0 { NoModPrompts(ps, n - 1, v); }
    }

    // While the choice is y, a choice value is visible or not, never as m only.
    lemma SeenIsYesOrNo(m: Symbol)
      ensures VisibleAt(m, YES) != MOD
    {
      NoModPrompts(DefOf(c, m).prompts, |DefOf(c, m).prompts|, At(YES));
    }

    lemma {:induction false} BoundedPrompts(ps: seq<Option<Expr>>, n: nat, v: Valuation, noMod: bool)
      requires n <= |ps| && forall i | 0 <= i < n :: ValueOpt(ps[i], v) == NO
      ensures MemberPrompts(ps, n, v, noMod) == NO
    {
      if n > 0 { BoundedPrompts(ps, n - 1, v, noMod); }
    }

    lemma {:induction false} NoDefault(ds: seq<DefaultProp>, i: nat, v: Valuation)
      requires i <= |ds| && forall j | i <= j < |ds| :: ValueOpt(ds[j].visible, v) == NO
      ensures FirstDefault(ds, i, v) == None
      decreases |ds| - i
    {
      if i < |ds| { NoDefault(ds, i + 1, v); }
    }

    // While the choice is n, its values are not visible and no default applies.
    lemma HiddenWithChoice(m: Symbol)
      requires Bounded() && m in members
      ensures VisibleAt(m, NO) == NO && DefaultAt(m, NO) == NO
    {
      hide TypeOf, At;
      var ps, ds := DefOf(c, m).prompts, DefOf(c, m).defaults;
      assert Possible(NO);
      forall i | 0 <= i < |ps| ensures ValueOpt(ps[i], At(NO)) == NO { assert BoundedAt(m, ps[i], NO); }
      forall i | 0 <= i < |ds| ensures ValueOpt(ds[i].visible, At(NO)) == NO {
        assert BoundedAt(m, ds[i].visible, NO);
      }
      BoundedPrompts(ps, |ps|, At(NO), false);
      NoDefault(ds, 0, At(NO));
    }

    // What sym_calc_visibility makes of the prompts and dependencies of the
    // choice itself.
    function OwnLimits(): Limits {
      CalcLimits(c, sym, outer)
    }

    // The value of the choice before a chosen symbol is looked for, with or
    // without its user value: a choice takes neither default nor implied value.
    function OwnValue(withUser: bool): Tri
      reads `userTri
    {
      var limits := OwnLimits();
      var own := if limits.visible != NO && withUser then Ap(And, userTri, limits.visible) else NO;
      Promote(Ap(Or, own, limits.revDep), TypeOf(sym, Modules()).Boolean? || limits.implied == YES)
    }

    // The user value counts up to the visibility, rev_dep is the least value, and
    // m becomes y for a bool, without modules, or if y is implied.
    lemma OwnValueExact(withUser: bool)
      requires IsLogic(sym)
      ensures var lim := CalcLimits(c, sym, outer);
        var own := if lim.visible == NO || !withUser then NO
                   else if userTri < lim.visible then userTri else lim.visible;
        var x := if own < lim.revDep then lim.revDep else own;
        OwnValue(withUser)
        == if x == MOD && (sym.stype.Boolean? || outer(c.modules).tri == NO || lim.implied == YES) then YES else x
    {
      hide CalcLimits;
    }

    // A choice that is y would be y with its user value, and one that is m has
    // that value.
    ghost predicate Consistent()
      reads this
    {
      (tri == YES ==> OwnValue(true) == YES) && (tri == MOD ==> OwnValue(sym in hasUser) == MOD)
    }

    // sym_calc_value of the choice
    method CalcSelf()
      requires WellFormed()
      modifies `visible, `hasUser, `tri, `chosen
      ensures WellFormed() && Consistent()
      ensures var newval := old(OwnValue(sym in hasUser));
        if newval == YES then Seen(YES) && tri == if chosen.None? then NO else YES
        else tri == newval && chosen.None? && hasUser == old(hasUser)
      ensures old(OwnValue(sym in hasUser)) == YES ==>
        (chosen.None? <==> forall m | m in members :: VisibleAt(m, YES) == NO)
      ensures chosen.Some? ==> chosen.value in members && VisibleAt(chosen.value, YES) == YES && tri == YES
      ensures tri == YES && userChosen.Some? && VisibleAt(userChosen.value, YES) != NO ==> chosen == userChosen
      ensures old(OwnValue(sym in hasUser)) == YES && !UserVisible() ==> Defaulted()
      ensures hasUser - {sym} == old(hasUser) - {sym}
    {
      hide VisibleAt, Seen, CalcLimits, Defaulted;
      var newval := NO;
      var limits := OwnLimits();
      if limits.visible != NO && sym in hasUser {
        newval := Ap(And, userTri, limits.visible);
      }
      newval := Ap(Or, newval, limits.revDep);
      if newval == MOD && (TypeOf(sym, Modules()).Boolean? || limits.implied == YES) {
        newval := YES;
      }
      tri, chosen := newval, None;
      if newval == YES {
        CalcChoice();
      }
    }

    // What the defaults of a choice value give while the choice is t.
    function DefaultAt(m: Symbol, t: Tri): Tri {
      var v := At(t);
      Promote(DefaultTri(FirstDefault(DefOf(c, m).defaults, 0, v), v), TypeOf(m, Modules()).Boolean?)
    }

    function Lesser(a: Tri, b: Tri): Tri {
      if a < b then a else b
    }

    // m becomes y for a bool or without modules.
    function AsMember(m: Symbol, t: Tri): Tri {
      if t == MOD && (m.stype.Boolean? || outer(c.modules).tri == NO) then YES else t
    }

    // The first default whose condition is not n counts, up to its condition.
    lemma DefaultAtExact(m: Symbol, t: Tri, i: nat)
      requires m in members && IsLogic(m)
      requires i <= |DefOf(c, m).defaults|
      requires forall j | 0 <= j < i :: ValueOpt(DefOf(c, m).defaults[j].visible, At(t)) == NO
      ensures var ds := DefOf(c, m).defaults;
        if i == |ds| then DefaultAt(m, t) == NO
        else ValueOpt(ds[i].visible, At(t)) != NO ==>
          DefaultAt(m, t) == AsMember(m, Lesser(Value(ds[i].expr, At(t)), ValueOpt(ds[i].visible, At(t))))
    {
      hide At;
      FirstDefaultSkips(DefOf(c, m).defaults, 0, i, At(t));
    }

    // The value of a choice value, once the choice is calculated.
    function MemberValue(m: Symbol): Tri
      requires m in user
      reads `tri, `chosen, `hasUser, `user
    {
      var vis := VisibleAt(m, tri);
      if vis == YES then if chosen == Some(m) then YES else NO
      else if vis != NO && m in hasUser then Promote(Ap(And, user[m], vis), TypeOf(m, Modules()).Boolean?)
      else DefaultAt(m, tri)
    }

    lemma VisibleAsMod(m: Symbol, t: Tri)
      requires IsLogic(m)
      ensures VisibleAt(m, t) == MOD ==> !TypeOf(m, Modules()).Boolean?
    {
    }

    // sym_calc_value of a choice value.  Its rev_dep and implied stay n, because
    // sym_calc_visibility does not calculate them for a choice value.
    method CalcMember(m: Symbol)
      requires WellFormed() && m in members
      modifies `visible, `value
      ensures WellFormed() && visible == old(visible)[m := VisibleAt(m, tri)]
      ensures value == old(value)[m := MemberValue(m)]
      ensures visible[m] == YES ==> (value[m] == YES <==> chosen == Some(m)) && value[m] != MOD
      ensures visible[m] == NO ==> value[m] == DefaultAt(m, tri)
      ensures visible[m] == MOD ==> value[m] == if m in hasUser then Ap(And, user[m], MOD) else DefaultAt(m, tri)
    {
      hide VisibleAt, FirstDefault;
      CalcVisibility(m);
      VisibleAsMod(m, tri);
      var newval := NO;
      if visible[m] == YES {
        newval := if chosen == Some(m) then YES else NO;
      } else if visible[m] != NO && m in hasUser {
        newval := Ap(And, user[m], visible[m]);
      } else {
        var p := FirstDefault(DefOf(c, m).defaults, 0, At(tri));
        if p.Some? {
          newval := Ap(And, Value(p.value.expr, At(tri)), ValueOpt(p.value.visible, At(tri)));
        }
      }
      if newval == MOD && TypeOf(m, Modules()).Boolean? {
        newval := YES;
      }
      value := value[m := newval];
    }

    method CalcMembers(order: seq<Symbol>)
      requires WellFormed() && forall m | m in order :: m in members
      modifies `visible, `value
      ensures WellFormed()
      ensures forall m | m in order :: visible[m] == VisibleAt(m, tri) && value[m] == MemberValue(m)
    {
      hide VisibleAt, MemberValue;
      var i := 0;
      while i < |order|
        invariant 0 <= i <= |order| && WellFormed()
        invariant forall j | 0 <= j < i :: visible[order[j]] == VisibleAt(order[j], tri)
        invariant forall j | 0 <= j < i :: value[order[j]] == MemberValue(order[j])
      {
        CalcMember(order[i]);
        i := i + 1;
      }
    }

    // The choice is y: one visible value is y, and no other value is.
    ghost predicate OneChosen()
      reads this
    {
      && chosen.Some? && chosen.value in members
      && forall m | m in members :: ValueOfChosen(m)
    }

    ghost predicate ValueOfChosen(m: Symbol)
      reads this
    {
      && m in visible && m in value && value[m] == (if chosen == Some(m) then YES else NO)
      && (value[m] == YES ==> visible[m] == YES)
    }

    ghost predicate NoneChosen()
      reads this
    {
      forall m | m in members :: m in visible && m in value && visible[m] == NO && value[m] == NO
    }

    // The choice and its values are calculated.
    ghost predicate Evaluated()
      reads this
    {
      && Consistent() && (forall m | m in members :: ValueSet(m))
      && (tri == YES ==> ChosenVisible()) && (tri == NO ==> NoneChosen())
    }

    ghost predicate ChosenVisible()
      reads this
    {
      chosen.Some? && chosen.value in members && VisibleAt(chosen.value, YES) == YES
    }

    // No value that is not visible has a default other than n.
    ghost predicate Quiet(t: Tri) {
      forall m | m in members && VisibleAt(m, t) == NO :: DefaultAt(m, t) == NO
    }

    // Exactly the chosen value is y, and the others are n, exactly if no value
    // that is not visible has a default other than n.
    lemma OneChosenExact()
      requires WellFormed() && Evaluated() && tri == YES
      ensures OneChosen() <==> Quiet(YES)
    {
      hide VisibleAt, DefaultAt, Consistent;
      forall m | m in members
        ensures ValueOfChosen(m) <==> VisibleAt(m, YES) == NO ==> DefaultAt(m, YES) == NO
      {
        assert ValueSet(m);
        SeenIsYesOrNo(m);
      }
    }

    ghost predicate ValueSet(m: Symbol)
      reads this
    {
      m in visible && m in value && m in user && visible[m] == VisibleAt(m, tri) && value[m] == MemberValue(m)
    }

    // The choice and then its values, in any order.  A choice that gets y stays
    // y exactly if a value is visible.
    method Evaluate(order: seq<Symbol>)
      requires WellFormed() && Bounded() && forall m :: m in order <==> m in members
      modifies `visible, `hasUser, `tri, `chosen, `value
      ensures WellFormed() && Evaluated() && (tri == YES ==> (OneChosen() <==> Quiet(YES)))
      ensures var newval := old(OwnValue(sym in hasUser));
        tri == if newval != YES then newval else if exists m :: m in members && VisibleAt(m, YES) != NO then YES else NO
      ensures tri == YES && userChosen.Some? && VisibleAt(userChosen.value, YES) != NO ==> chosen == userChosen
      ensures old(OwnValue(sym in hasUser)) == YES && !UserVisible() ==> Defaulted()
      ensures hasUser - {sym} == old(hasUser) - {sym}
      ensures tri == MOD ==> hasUser == old(hasUser)
    {
      hide VisibleAt, OwnValue, Bounded, DefaultAt;
      CalcSelf();
      CalcMembers(order);
      forall m | m in members ensures ValueSet(m) { assert m in order; }
      forall m | m in members && tri == NO ensures visible[m] == NO && value[m] == NO { HiddenWithChoice(m); }
      if tri == YES { OneChosenExact(); }
    }

    // sym_tristate_within_range, of a choice value; nothing selects or implies it
    method WithinRange(m: Symbol, val: Tri) returns (ok: bool)
      requires m in visible
      ensures ok == InRange(m, val)
    {
      if visible[m] == NO {
        return false;
      }
      if TypeOf(m, Modules()).Boolean? && val == MOD {
        return false;
      }
      if visible[m] == YES {
        return val == YES;
      }
      return val <= visible[m];
    }

    // A value visible as y takes y only, and one visible as m takes n or m.
    predicate InRange(m: Symbol, val: Tri)
      requires m in visible
      reads `visible
    {
      && visible[m] != NO && !(TypeOf(m, Modules()).Boolean? && val == MOD)
      && if visible[m] == YES then val == YES else val <= visible[m]
    }

    lemma InRangeExact(m: Symbol, val: Tri)
      requires m in members && m in visible && IsLogic(m) && visible[m] == VisibleAt(m, tri)
      ensures InRange(m, val) <==> (visible[m] == YES && val == YES) || (visible[m] == MOD && val != YES)
    {
      hide VisibleAt;
      VisibleAsMod(m, tri);
    }

    // The part of sym_set_tristate_value for y: the value becomes the user's
    // choice, and no visible value counts as new any more.
    method Choose(m: Symbol)
      requires WellFormed() && m in members
      modifies `userChosen, `hasUser
      ensures WellFormed() && userChosen == Some(m)
      ensures forall x: Symbol :: x in hasUser <==>
        x in old(hasUser) || x == sym || (x in members && visible[x] != NO)
    {
      userChosen := Some(m);
      hasUser := hasUser + {sym};
      var i := 0;
      while i < |members|
        invariant 0 <= i <= |members|
        invariant forall x: Symbol :: x in hasUser <==>
          x in old(hasUser) || x == sym || exists j :: 0 <= j < i && members[j] == x && visible[x] != NO
        modifies `hasUser
      {
        if visible[members[i]] != NO {
          hasUser := hasUser + {members[i]};
        }
        i := i + 1;
      }
    }

    // While a value is visible as y the choice is y.
    lemma VisibleNeedsYes(m: Symbol, t: Tri)
      requires Bounded() && m in members && VisibleAt(m, t) == YES
      requires Possible(t)
      ensures t == YES
    {
      if t == NO {
        HiddenWithChoice(m);
      } else if t == MOD {
        ModPrompts(m, |DefOf(c, m).prompts|);
      }
    }

    lemma {:induction false} ModPrompts(m: Symbol, n: nat)
      requires Bounded() && m in members && n <= |DefOf(c, m).prompts| && Possible(MOD)
      ensures MemberPrompts(DefOf(c, m).prompts, n, At(MOD), false) <= if m.stype.Tristate? then MOD else NO
    {
      if n > 0 {
        ModPrompts(m, n - 1);
        assert BoundedAt(m, DefOf(c, m).prompts[n - 1], MOD);
      }
    }

    lemma OwnMod(withUser: bool)
      requires IsLogic(sym) && OwnValue(withUser) == MOD
      ensures Possible(MOD) && sym.stype.Tristate? && Modules() != NO
    {
    }

    // What an accepted new value says about the choice: y needs the choice to be
    // y, and n or m can be chosen only while it is m.
    lemma ChoiceOfNew(m: Symbol, val: Tri)
      requires WellFormed() && Bounded() && Evaluated() && m in members && InRange(m, val) && value[m] != val
      ensures val == YES ==> tri == YES && VisibleAt(m, YES) == YES && OwnValue(true) == YES
      ensures val != YES ==> tri == MOD && OwnValue(sym in hasUser) == MOD
      ensures val != YES ==> VisibleAt(m, MOD) == MOD && m.stype.Tristate? && Modules() != NO
    {
      assert ValueSet(m);
      if tri == MOD { OwnMod(sym in hasUser); }
      if visible[m] == YES {
        VisibleNeedsYes(m, tri);
      } else {
        SeenIsYesOrNo(m);
      }
    }

    // The user's part of sym_set_tristate_value.
    method Record(m: Symbol, val: Tri)
      requires WellFormed() && m in members
      modifies `userChosen, `hasUser, `user
      ensures WellFormed() && user == old(user)[m := val] && m in hasUser
      ensures if val == YES then userChosen == Some(m) && sym in hasUser
              else userChosen == old(userChosen) && hasUser == old(hasUser) + {m}
    {
      hasUser := hasUser + {m};
      if val == YES {
        Choose(m);
      }
      user := user[m := val];
    }

    method RecordAndEvaluate(m: Symbol, val: Tri, order: seq<Symbol>)
      requires WellFormed() && Bounded() && Evaluated() && m in members && InRange(m, val) && value[m] != val
      requires forall x :: x in order <==> x in members
      modifies `userChosen, `hasUser, `user, `visible, `tri, `chosen, `value
      ensures WellFormed() && Evaluated() && user == old(user)[m := val]
      ensures value[m] == val && tri == old(tri) && (val == YES ==> chosen == Some(m))
    {
      hide VisibleAt, OwnValue, Bounded, InRange, DefaultAt, OneChosen, Quiet;
      ChoiceOfNew(m, val);
      Record(m, val);
      Evaluate(order);
      assert ValueSet(m);
      if val == YES { assert ValueOfChosen(m); }
    }

    // sym_set_tristate_value of a choice value, and evaluation: an accepted
    // value is the one it has afterwards.
    method SetTristateValue(m: Symbol, val: Tri, order: seq<Symbol>) returns (ok: bool)
      requires WellFormed() && Bounded() && Evaluated() && m in members
      requires forall x :: x in order <==> x in members
      modifies `userChosen, `hasUser, `user, `visible, `tri, `chosen, `value
      ensures WellFormed()
      ensures ok == (old(value[m]) == val || old(InRange(m, val)))
      ensures !ok ==> value == old(value) && tri == old(tri)
      ensures !ok ==> user == old(user) && hasUser == old(hasUser) && userChosen == old(userChosen)
      ensures ok ==> value[m] == val && user == old(user)[m := val]
      ensures old(value[m]) == val ==> value == old(value) && tri == old(tri)
      ensures ok && old(value[m]) != val ==> Evaluated() && tri == old(tri) && (val == YES ==> chosen == Some(m))
    {
      hide VisibleAt, OwnValue, Bounded, InRange;
      assert ValueSet(m);
      if value[m] == val {
        Record(m, val);
        return true;
      }
      ok := WithinRange(m, val);
      if ok {
        RecordAndEvaluate(m, val, order);
      }
    }
  }
}
