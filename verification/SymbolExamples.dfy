// Small configurations on which a property that fails in general fails.

module SymbolExamples {
  import opened Wrappers
  import opened Expressions
  import opened SymbolValue
  import opened SymbolEval

  // MODULES is y by default; T is visible as m, and perhaps selected as m, y by
  // default, or implied by y.
  const MODULES := Symbol(3, "MODULES", Boolean, false)
  const T := Symbol(4, "T", Tristate, false)

  const BY_DEFAULT := DefaultProp(Sym(SYM_YES), None)

  function Example(selected: bool, byDefault: bool, implied: bool, numbers: Numbers): Config {
    var t := Definition(
      [Some(Sym(SYM_MOD))], if byDefault then [BY_DEFAULT] else [], [], None,
      if selected then Some(Sym(SYM_MOD)) else None, if implied then Some(Sym(SYM_YES)) else None);
    Config(map[MODULES := NO_PROPERTIES.(defaults := [BY_DEFAULT]), T := t], MODULES, numbers)
  }

  const RANK: Rank := (s: Symbol) => if s.stype.Tristate? then 2 else if s == MODULES then 1 else 0

  lemma ExampleOperands(c: Config, selected: bool, byDefault: bool, implied: bool, s: Symbol)
    requires c == Example(selected, byDefault, implied, c.numbers)
    ensures Operands(c, s) <= {SYM_MOD, SYM_YES}
    ensures s != T && s != MODULES ==> Operands(c, s) == {}
  {
    var d := DefOf(c, s);
    assert PromptSymbols(d.prompts, |d.prompts|) <= {SYM_MOD};
    assert DefaultOperands(d.defaults, 0) <= {SYM_YES};
  }

  lemma ExampleAcyclic(c: Config, selected: bool, byDefault: bool, implied: bool)
    requires c == Example(selected, byDefault, implied, c.numbers)
    ensures Acyclic(c, RANK)
  {
    forall s, t: Symbol | IsTyped(s) && t in Operands(c, s) ensures RANK(t) < RANK(s) {
      ExampleOperands(c, selected, byDefault, implied, s);
    }
  }

  lemma ExampleConstants(c: Config, selected: bool, byDefault: bool, implied: bool, u: User)
    requires c == Example(selected, byDefault, implied, c.numbers) && MODULES !in u
    ensures var st := EvalState(c, RANK, u); st(SYM_MOD).tri == MOD && st(SYM_YES).tri == YES && st(MODULES).tri == YES
  {
    ExampleAcyclic(c, selected, byDefault, implied);
    EvalUnfold(c, RANK, u, SYM_MOD);
    EvalUnfold(c, RANK, u, SYM_YES);
    EvalUnfold(c, RANK, u, MODULES);
    CalcLogic(c, u, MODULES, EvalState(c, RANK, u));
  }

  lemma ExampleLimits(c: Config, selected: bool, byDefault: bool, implied: bool, st: State)
    requires c == Example(selected, byDefault, implied, c.numbers)
    requires st(SYM_MOD).tri == MOD && st(SYM_YES).tri == YES && st(MODULES).tri == YES
    ensures CalcLimits(c, T, st) == Limits(MOD, YES, if selected then MOD else NO, if implied then YES else NO)
  {
    var d, v := DefOf(c, T), Readings(c, st);
    assert d.prompts == [Some(Sym(SYM_MOD))];
    assert PromptMax(d.prompts, 0, v) == NO;
    assert PromptMax(d.prompts, 1, v) == MOD;
  }

  lemma ExampleDefault(c: Config, selected: bool, byDefault: bool, implied: bool, st: State)
    requires c == Example(selected, byDefault, implied, c.numbers) && st(SYM_YES).tri == YES
    ensures DefaultTri(FirstDefault(DefOf(c, T).defaults, 0, Readings(c, st)), Readings(c, st))
      == if byDefault then YES else NO
  {
    var ds := DefOf(c, T).defaults;
    assert ds == if byDefault then [BY_DEFAULT] else [];
    if byDefault { assert FirstDefault(ds, 0, Readings(c, st)) == Some(ds[0]); }
  }

  function ValueOfT(selected: bool, byDefault: bool, implied: bool, u: User): Tri {
    var own := if T in u then Ap(And, u[T].tri, MOD) else if byDefault || implied then YES else NO;
    Promote(Ap(Or, own, if selected then MOD else NO), implied)
  }

  // The limits of T, and its value as the definition combines them.
  lemma ExampleValue(c: Config, selected: bool, byDefault: bool, implied: bool, u: User)
    requires c == Example(selected, byDefault, implied, c.numbers) && MODULES !in u
    ensures Acyclic(c, RANK) && Eval(c, RANK, u, MODULES).tri == YES
    ensures CalcLimits(c, T, EvalState(c, RANK, u))
      == Limits(MOD, YES, if selected then MOD else NO, if implied then YES else NO)
    ensures Eval(c, RANK, u, T).tri == ValueOfT(selected, byDefault, implied, u)
  {
    hide Operands;
    var st := EvalState(c, RANK, u);
    ExampleAcyclic(c, selected, byDefault, implied);
    ExampleConstants(c, selected, byDefault, implied, u);
    ExampleLimits(c, selected, byDefault, implied, st);
    ExampleDefault(c, selected, byDefault, implied, st);
    EvalUnfold(c, RANK, u, T);
    CalcLogic(c, u, T, st);
  }

  // Implied by y: the range test refuses y, although setting y gives y.
  lemma RefusedExample(numbers: Numbers)
    ensures var c, u := Example(false, false, true, numbers), map[T := SymVal("", YES)];
      && Acyclic(c, RANK)
      && RefusedInVain(CalcLimits(c, T, EvalState(c, RANK, u)), YES)
      && !WithinRange(T, CalcLimits(c, T, EvalState(c, RANK, u)), Eval(c, RANK, u, c.modules).tri, YES)
      && Eval(c, RANK, u, T).tri == YES
  {
    ExampleValue(Example(false, false, true, numbers), false, false, true, map[T := SymVal("", YES)]);
  }
}
