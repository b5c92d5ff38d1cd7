// The meaning of a configuration: the value of every symbol by plain recursion
// along an acyclic dependency relation, without a cache, and what it promises
// about selects, user values and modules (support/kconfig/symbol.c).

module SymbolEval {
  import opened Wrappers
  import opened Expressions
  import opened SymbolValue
  import MenuDeps

  // ------------------------------------------------------------ dependencies

  function DefaultOperands(ds: seq<DefaultProp>, i: nat): set<Symbol>
    requires i <= |ds|
    decreases |ds| - i
  {
    if i == |ds| then {}
    else SymbolsOpt(ds[i].visible) + Symbols(ds[i].expr) + DefaultOperands(ds, i + 1)
  }

  function RangeOperands(rs: seq<RangeProp>, i: nat): set<Symbol>
    requires i <= |rs|
    decreases |rs| - i
  {
    if i == |rs| then {} else SymbolsOpt(rs[i].visible) + {rs[i].lo, rs[i].hi} + RangeOperands(rs, i + 1)
  }

  // Every symbol that occurs in the definition of s.
  function Operands(c: Config, s: Symbol): set<Symbol> {
    var d := DefOf(c, s);
    PromptSymbols(d.prompts, |d.prompts|) + SymbolsOpt(d.dirDep) + SymbolsOpt(d.revDep) + SymbolsOpt(d.implied)
    + DefaultOperands(d.defaults, 0) + RangeOperands(d.ranges, 0)
  }

  lemma {:induction false} DefaultOperandsWithin(ds: seq<DefaultProp>, i: nat, j: nat)
    requires i <= j < |ds|
    ensures SymbolsOpt(ds[j].visible) + Symbols(ds[j].expr) <= DefaultOperands(ds, i)
    decreases |ds| - i
  {
    if i < j { DefaultOperandsWithin(ds, i + 1, j); }
  }

  lemma {:induction false} RangeOperandsWithin(rs: seq<RangeProp>, i: nat, j: nat)
    requires i <= j < |rs|
    ensures SymbolsOpt(rs[j].visible) + {rs[j].lo, rs[j].hi} <= RangeOperands(rs, i)
    decreases |rs| - i
  {
    if i < j { RangeOperandsWithin(rs, i + 1, j); }
  }

  type Rank = Symbol -> nat

  // The dependencies of a symbol come before it, and the modules symbol comes
  // before every tristate, so nothing it depends on is a tristate.
  ghost predicate Acyclic(c: Config, rank: Rank) {
    && (forall s, t: Symbol | IsTyped(s) && t in Operands(c, s) :: rank(t) < rank(s))
    && (forall s: Symbol | s.stype.Tristate? :: rank(c.modules) < rank(s))
  }

  lemma {:induction false} DefaultReadsWithin(ds: seq<DefaultProp>, i: nat, v: Valuation)
    requires i <= |ds|
    ensures DefaultReads(ds, i, v) <= DefaultOperands(ds, i)
    ensures FirstDefault(ds, i, v).Some? ==> Symbols(FirstDefault(ds, i, v).value.expr) <= DefaultOperands(ds, i)
    decreases |ds| - i
  {
    if i < |ds| { DefaultReadsWithin(ds, i + 1, v); }
  }

  lemma {:induction false} RangeReadsWithin(rs: seq<RangeProp>, i: nat, v: Valuation)
    requires i <= |rs|
    ensures RangeReads(rs, i, v) <= RangeOperands(rs, i)
    ensures var r := FirstRange(rs, i, v); r.Some? ==> {r.value.lo, r.value.hi} <= RangeOperands(rs, i)
    decreases |rs| - i
  {
    if i < |rs| { RangeReadsWithin(rs, i + 1, v); }
  }

  lemma ReadsBelow(c: Config, rank: Rank, u: User, s: Symbol, st: State, t: Symbol)
    requires Acyclic(c, rank) && t in Reads(c, u, s, st)
    ensures rank(t) < rank(s)
  {
    var d, v := DefOf(c, s), Readings(c, st);
    DefaultReadsWithin(d.defaults, 0, v);
    RangeReadsWithin(d.ranges, 0, v);
    var r := LimitReads(c, s, st) + ValueReads(c, u, s, st) + BoundReads(c, u, s, st);
    assert r <= Operands(c, s);
    if t !in r && !s.stype.Tristate? {
      var x :| x in r && x.stype.Tristate?;
      assert rank(c.modules) < rank(x) < rank(s);
    }
  }

  // -------------------------------------------------------------- evaluation

  ghost function Eval(c: Config, rank: Rank, u: User, s: Symbol): SymVal
    decreases rank(s)
  {
    Calc(c, u, s, (t: Symbol) => if rank(t) < rank(s) then Eval(c, rank, u, t) else SymVal("", NO))
  }

  ghost function EvalState(c: Config, rank: Rank, u: User): State {
    (s: Symbol) => Eval(c, rank, u, s)
  }

  lemma CalcNoBoolMod(c: Config, u: User, s: Symbol, st: State)
    ensures s.stype.Boolean? ==> Calc(c, u, s, st).tri != MOD
  {
  }

  lemma EvalNoBoolMod(c: Config, rank: Rank, u: User)
    ensures NoBoolMod(EvalState(c, rank, u))
  {
    forall s: Symbol | s.stype.Boolean? ensures EvalState(c, rank, u)(s).tri != MOD {
      CalcNoBoolMod(c, u, s, (t: Symbol) => if rank(t) < rank(s) then Eval(c, rank, u, t) else SymVal("", NO));
    }
  }

  // The recursion equation.
  lemma EvalUnfold(c: Config, rank: Rank, u: User, s: Symbol)
    requires Acyclic(c, rank)
    ensures Eval(c, rank, u, s) == Calc(c, u, s, EvalState(c, rank, u))
  {
    var st := EvalState(c, rank, u);
    var below: State := (t: Symbol) => if rank(t) < rank(s) then Eval(c, rank, u, t) else SymVal("", NO);
    EvalNoBoolMod(c, rank, u);
    forall t | t in Reads(c, u, s, st) ensures st(t) == below(t) {
      ReadsBelow(c, rank, u, s, st, t);
    }
    CalcAgrees(c, u, s, st, below);
  }

  // A set of symbols that read only each other and hold what they calculate
  // holds the evaluated values.
  lemma {:induction false} ClosedIsEval(c: Config, rank: Rank, u: User, known: set<Symbol>, st: State, s: Symbol)
    requires Acyclic(c, rank) && NoBoolMod(st) && s in known
    requires forall t | t in known :: Reads(c, u, t, st) <= known && st(t) == Calc(c, u, t, st)
    ensures st(s) == Eval(c, rank, u, s)
    decreases rank(s)
  {
    var ev := EvalState(c, rank, u);
    EvalNoBoolMod(c, rank, u);
    forall t | t in Reads(c, u, s, st) ensures st(t) == ev(t) {
      ReadsBelow(c, rank, u, s, st, t);
      ClosedIsEval(c, rank, u, known, st, t);
    }
    CalcAgrees(c, u, s, st, ev);
    EvalUnfold(c, rank, u, s);
  }

  // Only user values at or below a symbol matter to it.
  lemma {:induction false} EvalSameUser(c: Config, rank: Rank, u: User, u': User, s: Symbol)
    requires Acyclic(c, rank) && forall t: Symbol | rank(t) < rank(s) || t == s :: SameUser(u, u', t)
    ensures Eval(c, rank, u, s) == Eval(c, rank, u', s)
    decreases rank(s)
  {
    var st, st' := EvalState(c, rank, u), EvalState(c, rank, u');
    EvalNoBoolMod(c, rank, u);
    EvalNoBoolMod(c, rank, u');
    forall t | t in Reads(c, u, s, st) ensures st(t) == st'(t) {
      ReadsBelow(c, rank, u, s, st, t);
      EvalSameUser(c, rank, u, u', t);
    }
    EvalUnfold(c, rank, u, s);
    EvalUnfold(c, rank, u', s);
    CalcAgrees(c, u, s, st, st');
    CalcSameUser(c, u, u', s, st');
  }

  // The limits of a symbol depend on symbols below it only.
  lemma LimitsSameUser(c: Config, rank: Rank, u: User, u': User, s: Symbol)
    requires Acyclic(c, rank) && IsTyped(s)
    requires forall t: Symbol | rank(t) < rank(s) :: Eval(c, rank, u, t) == Eval(c, rank, u', t)
    ensures CalcLimits(c, s, EvalState(c, rank, u)) == CalcLimits(c, s, EvalState(c, rank, u'))
  {
    var st, st' := EvalState(c, rank, u), EvalState(c, rank, u');
    EvalNoBoolMod(c, rank, u);
    EvalNoBoolMod(c, rank, u');
    forall t | t in Reads(c, u, s, st) ensures st(t) == st'(t) { ReadsBelow(c, rank, u, s, st, t); }
    CalcAgrees(c, u, s, st, st');
  }

  // --------------------------------------------------- m, letters and parsing

  // Nothing holds m without modules.
  lemma NoModWithoutModules(c: Config, rank: Rank, u: User, s: Symbol)
    requires Acyclic(c, rank) && IsLogic(s) && Eval(c, rank, u, c.modules).tri == NO
    ensures Eval(c, rank, u, s).tri != MOD
  {
    EvalUnfold(c, rank, u, s);
  }

  // strtoll accepts none of the letters, and what is not S_OTHER parses somehow.
  ghost predicate OrdinaryNumbers(c: Config) {
    && (forall t :: c.numbers.parse("n", t).Text? && c.numbers.parse("m", t).Text? && c.numbers.parse("y", t).Text?)
    && (forall str, t :: !c.numbers.parse(str, t).Invalid?)
  }

  lemma CalcLogic(c: Config, u: User, s: Symbol, st: State)
    requires IsLogic(s)
    ensures Calc(c, u, s, st).tri == CalcTri(
      s, u, CalcLimits(c, s, st), FirstDefault(DefOf(c, s).defaults, 0, Readings(c, st)), Readings(c, st),
      st(c.modules).tri)
  {
  }

  lemma ReadSane(c: Config, s: Symbol, x: SymVal, modules: Tri)
    requires OrdinaryNumbers(c)
    requires IsLogic(s) ==> x.tri != MOD || (modules != NO && s.stype.Tristate?)
    requires IsLetter(s) ==> x == SymVal(s.name, if s == SYM_YES then YES else if s == SYM_MOD then MOD else NO)
    ensures SaneReading(s, Read(c, s, x, modules))
  {
  }

  // The evaluated values make a sane valuation, which is what the expression
  // simplifier relies on.
  lemma EvalSane(c: Config, rank: Rank, u: User)
    requires Acyclic(c, rank) && OrdinaryNumbers(c)
    ensures Sane(Readings(c, EvalState(c, rank, u)))
  {
    var st := EvalState(c, rank, u);
    var v := Readings(c, st);
    EvalNoBoolMod(c, rank, u);
    forall s: Symbol ensures SaneReading(s, v(s)) {
      if IsLogic(s) && st(c.modules).tri == NO { NoModWithoutModules(c, rank, u, s); }
      if IsLetter(s) { EvalUnfold(c, rank, u, s); }
      ReadSane(c, s, st(s), st(c.modules).tri);
    }
  }

  // ----------------------------------------------------------------- selects

  // A bool or tristate is at least its rev_dep.
  lemma AtLeastRevDep(c: Config, rank: Rank, u: User, t: Symbol)
    requires Acyclic(c, rank) && IsLogic(t)
    ensures Eval(c, rank, u, t).tri >= OrNo(DefOf(c, t).revDep, Readings(c, EvalState(c, rank, u)))
  {
    var st := EvalState(c, rank, u);
    var lim, v := CalcLimits(c, t, st), Readings(c, st);
    EvalUnfold(c, rank, u, t);
    CalcLogic(c, u, t, st);
    CalcTriAtLeast(t, u, lim, FirstDefault(DefOf(c, t).defaults, 0, v), v, st(c.modules).tri);
  }

  lemma CalcTriAtLeast(s: Symbol, u: User, lim: Limits, p: Option<DefaultProp>, v: Valuation, modules: Tri)
    ensures CalcTri(s, u, lim, p, v, modules) >= lim.revDep
  {
  }

  // Every select is honoured: with the rev_deps accumulated over the menu
  // nodes, a target is at least the minimum of selector and condition.
  lemma SelectHonoured(
    c: Config, rank: Rank, u: User, rev: map<Symbol, Expr>, entries: seq<MenuDeps.Entry>, i: int, j: int)
    requires Acyclic(c, rank) && MenuDeps.EntriesAdded(map[], rev, entries, true)
    requires forall t: Symbol | IsLogic(t) :: DefOf(c, t).revDep == if t in rev then Some(rev[t]) else None
    requires 0 <= i < |entries| && 0 <= j < |entries[i].props|
    requires entries[i].sym.Some? && entries[i].props[j].kind.Select? && IsLogic(entries[i].props[j].kind.target)
    ensures var st := EvalState(c, rank, u);
      var p := entries[i].props[j];
      st(p.kind.target).tri >= Ap(And, st(entries[i].sym.value).tri, ValueOpt(p.visible, Readings(c, st)))
  {
    var v := Readings(c, EvalState(c, rank, u));
    var t := entries[i].props[j].kind.target;
    MenuDeps.ContributionReaches(entries, i, j, MenuDeps.Select(t), v);
    assert MenuDeps.Wanted(true, t) == MenuDeps.Select(t);
    assert MenuDeps.Reverse(rev, t, v) == OrNo(DefOf(c, t).revDep, v);
    assert MenuDeps.Reverse(rev, t, v)
      == Ap(Or, MenuDeps.Reverse(map[], t, v), MenuDeps.EntriesContribution(entries, MenuDeps.Wanted(true, t), v));
    AtLeastRevDep(c, rank, u, t);
  }

  // ------------------------------------------------------------ set, then get

  // sym_tristate_within_range, outside choices.
  predicate WithinRange(s: Symbol, lim: Limits, modules: Tri, val: Tri) {
    var t := TypeOf(s, modules);
    && lim.visible != NO
    && (t.Boolean? || t.Tristate?)
    && !(t.Boolean? && val == MOD)
    && lim.visible > lim.revDep
    && !(lim.implied == YES && val == MOD)
    && lim.revDep <= val <= lim.visible
  }

  // Setting s changes neither its limits nor the modules it sees.
  lemma SetKeepsLimits(c: Config, rank: Rank, u: User, s: Symbol, x: SymVal)
    requires Acyclic(c, rank) && IsLogic(s)
    ensures CalcLimits(c, s, EvalState(c, rank, u[s := x])) == CalcLimits(c, s, EvalState(c, rank, u))
    ensures s.stype.Tristate? ==> Eval(c, rank, u[s := x], c.modules) == Eval(c, rank, u, c.modules)
  {
    var u' := u[s := x];
    forall t: Symbol | rank(t) < rank(s) ensures Eval(c, rank, u, t) == Eval(c, rank, u', t) {
      EvalSameUser(c, rank, u, u', t);
    }
    LimitsSameUser(c, rank, u, u', s);
  }

  // An accepted value comes back unchanged.
  lemma SetThenGet(c: Config, rank: Rank, u: User, s: Symbol, x: SymVal)
    requires Acyclic(c, rank) && IsLogic(s)
    requires WithinRange(s, CalcLimits(c, s, EvalState(c, rank, u)), Eval(c, rank, u, c.modules).tri, x.tri)
    ensures Eval(c, rank, u[s := x], s).tri == x.tri
  {
    var u' := u[s := x];
    var st' := EvalState(c, rank, u');
    var lim, v', m := CalcLimits(c, s, st'), Readings(c, st'), st'(c.modules).tri;
    SetKeepsLimits(c, rank, u, s, x);
    EvalUnfold(c, rank, u', s);
    CalcLogic(c, u', s, st');
    WithinRangeModules(s, lim, Eval(c, rank, u, c.modules).tri, m, x.tri);
    CalcTriWithin(s, u', lim, FirstDefault(DefOf(c, s).defaults, 0, v'), v', m);
  }

  lemma WithinRangeModules(s: Symbol, lim: Limits, m: Tri, m': Tri, val: Tri)
    requires s.stype.Tristate? ==> m == m'
    ensures WithinRange(s, lim, m, val) == WithinRange(s, lim, m', val)
  {
  }

  lemma CalcTriWithin(s: Symbol, u: User, lim: Limits, p: Option<DefaultProp>, v: Valuation, modules: Tri)
    requires s in u && WithinRange(s, lim, modules, u[s].tri)
    ensures CalcTri(s, u, lim, p, v, modules) == u[s].tri
  {
  }

  // y implies the symbol, which is visible as m only: the user value y comes
  // back although it lies above the visibility.
  predicate RefusedInVain(lim: Limits, val: Tri) {
    lim.implied == YES && lim.visible == MOD && lim.revDep == NO && val == YES
  }

  // The test accepts exactly the values that come back, of a symbol the user
  // can change, if and only if it does not refuse in vain.
  lemma WithinRangeExact(s: Symbol, u: User, lim: Limits, p: Option<DefaultProp>, v: Valuation, modules: Tri)
    requires IsLogic(s) && s in u
    requires TypeOf(s, modules).Boolean? ==> lim.visible != MOD && lim.revDep != MOD
    ensures var ok := lim.visible > lim.revDep && CalcTri(s, u, lim, p, v, modules) == u[s].tri;
      (WithinRange(s, lim, modules, u[s].tri) <==> ok) <==> !RefusedInVain(lim, u[s].tri)
    ensures WithinRange(s, lim, modules, u[s].tri) ==> !RefusedInVain(lim, u[s].tri)
  {
  }

  // In an evaluated configuration, for every user value.
  lemma RangeTestExact(c: Config, rank: Rank, u: User, s: Symbol)
    requires Acyclic(c, rank) && IsLogic(s) && s in u
    ensures var lim, modules := CalcLimits(c, s, EvalState(c, rank, u)), Eval(c, rank, u, c.modules).tri;
      (WithinRange(s, lim, modules, u[s].tri) <==> lim.visible > lim.revDep && Eval(c, rank, u, s).tri == u[s].tri)
      <==> !RefusedInVain(lim, u[s].tri)
  {
    var st := EvalState(c, rank, u);
    EvalUnfold(c, rank, u, s);
    CalcLogic(c, u, s, st);
    LimitsOfBool(c, s, st);
    WithinRangeExact(
      s, u, CalcLimits(c, s, st), FirstDefault(DefOf(c, s).defaults, 0, Readings(c, st)), Readings(c, st),
      st(c.modules).tri);
  }

  lemma LimitsOfBool(c: Config, s: Symbol, st: State)
    ensures TypeOf(s, st(c.modules).tri).Boolean? ==>
      CalcLimits(c, s, st).visible != MOD && CalcLimits(c, s, st).revDep != MOD
  {
  }
}
