// The value of a symbol as a function of the values it depends on: what
// sym_calc_visibility, sym_calc_value and sym_validate_range of
// support/kconfig/symbol.c compute for symbols outside choices.
//
// SymbolTable.dfy computes these values in place and with a cache.

module SymbolValue {
  import opened Wrappers
  import opened Expressions

  // curr.val and curr.tri, or def[S_DEF_USER]
  datatype SymVal = SymVal(val: string, tri: Tri)

  datatype DefaultProp = DefaultProp(expr: Expr, visible: Option<Expr>)

  datatype RangeProp = RangeProp(lo: Symbol, hi: Symbol, visible: Option<Expr>)

  // The properties of a symbol: the conditions of its prompts, its defaults and
  // its ranges, in order, and the three dependencies.
  datatype Definition = Definition(
    prompts: seq<Option<Expr>>, defaults: seq<DefaultProp>, ranges: seq<RangeProp>,
    dirDep: Option<Expr>, revDep: Option<Expr>, implied: Option<Expr>)

  // expr_parse_string on types other than bool and tristate, strtoll, and
  // sprintf of "%lld" and "0x%llx".
  datatype Numbers = Numbers(
    parse: (string, SymbolType) -> Parsed, toNumber: (string, int) -> int, fromNumber: (int, bool) -> string)

  datatype Config = Config(defs: map<Symbol, Definition>, modules: Symbol, numbers: Numbers)

  // The user values: the symbols with SYMBOL_DEF_USER.
  type User = map<Symbol, SymVal>

  type State = Symbol -> SymVal

  const NO_PROPERTIES := Definition([], [], [], None, None, None)

  function DefOf(c: Config, s: Symbol): Definition {
    if s in c.defs then c.defs[s] else NO_PROPERTIES
  }

  predicate IsNumber(s: Symbol) {
    s.stype.Int? || s.stype.Hex?
  }

  predicate IsText(s: Symbol) {
    s.stype.Str? || IsNumber(s)
  }

  // ---------------------------------------------------------------- readings

  function ParseString(c: Config, str: string, t: SymbolType): Parsed {
    match t
    case Boolean => ParseLetter(str)
    case Tristate => ParseLetter(str)
    case Other => Invalid
    case _ => c.numbers.parse(str, t)
  }

  function ParseLetter(str: string): Parsed {
    Signed(if str == "n" then 0 else if str == "m" then 1 else if str == "y" then 2 else -1)
  }

  // sym_get_string_value
  function StringOf(s: Symbol, x: SymVal, modules: Tri): string {
    if IsLogic(s) then
      if x.tri == MOD && modules == NO then "n" else Letter(x.tri)
    else x.val
  }

  function Read(c: Config, s: Symbol, x: SymVal, modules: Tri): Reading {
    var str := StringOf(s, x, modules);
    Reading(x.tri, str, ParseString(c, str, s.stype))
  }

  function Readings(c: Config, st: State): Valuation {
    (s: Symbol) => Read(c, s, st(s), st(c.modules).tri)
  }

  // ------------------------------------------------------------- visibility

  function Promote(t: Tri, toYes: bool): Tri {
    if t == MOD && toYes then YES else t
  }

  // sym_get_type
  function TypeOf(s: Symbol, modules: Tri): SymbolType {
    if s.stype.Tristate? && modules == NO then Boolean else s.stype
  }

  // The first n prompts.
  function PromptMax(ps: seq<Option<Expr>>, n: nat, v: Valuation): Tri
    requires n <= |ps|
  {
    if n == 0 then NO else Ap(Or, PromptMax(ps, n - 1, v), ValueOpt(ps[n - 1], v))
  }

  datatype Limits = Limits(visible: Tri, dirDep: Tri, revDep: Tri, implied: Tri)

  const NO_LIMITS := Limits(NO, NO, NO, NO)

  function OrNo(e: Option<Expr>, v: Valuation): Tri {
    if e.None? then NO else Value(e.value, v)
  }

  // sym_calc_visibility
  function CalcLimits(c: Config, s: Symbol, st: State): Limits {
    var d, v, modules := DefOf(c, s), Readings(c, st), st(c.modules).tri;
    var isBool := TypeOf(s, modules).Boolean?;
    var dir := Promote(ValueOpt(d.dirDep, v), isBool);
    Limits(
      Promote(PromptMax(d.prompts, |d.prompts|, v), !s.stype.Tristate? || modules == NO),
      dir,
      Promote(OrNo(d.revDep, v), isBool),
      Promote(if dir != NO then OrNo(d.implied, v) else NO, isBool))
  }

  // ----------------------------------------------------------------- values

  // sym_get_default_prop, from the i-th default on.
  function FirstDefault(ds: seq<DefaultProp>, i: nat, v: Valuation): Option<DefaultProp>
    requires i <= |ds|
    decreases |ds| - i
  {
    if i == |ds| then None
    else if ValueOpt(ds[i].visible, v) != NO then Some(ds[i])
    else FirstDefault(ds, i + 1, v)
  }

  // Defaults whose condition is n are passed over.
  lemma {:induction false} FirstDefaultSkips(ds: seq<DefaultProp>, i: nat, n: nat, v: Valuation)
    requires i <= n <= |ds| && forall j | i <= j < n :: ValueOpt(ds[j].visible, v) == NO
    ensures FirstDefault(ds, i, v) == FirstDefault(ds, n, v)
    decreases n - i
  {
    if i < n { FirstDefaultSkips(ds, i + 1, n, v); }
  }

  // sym_get_range_prop, from the i-th range on.
  function FirstRange(rs: seq<RangeProp>, i: nat, v: Valuation): Option<RangeProp>
    requires i <= |rs|
    decreases |rs| - i
  {
    if i == |rs| then None
    else if ValueOpt(rs[i].visible, v) != NO then Some(rs[i])
    else FirstRange(rs, i + 1, v)
  }

  lemma {:induction false} FirstRangeSkips(rs: seq<RangeProp>, i: nat, n: nat, v: Valuation)
    requires i <= n <= |rs| && forall j | i <= j < n :: ValueOpt(rs[j].visible, v) == NO
    ensures FirstRange(rs, i, v) == FirstRange(rs, n, v)
    decreases n - i
  {
    if i < n { FirstRangeSkips(rs, i + 1, n, v); }
  }

  predicate UsesUser(s: Symbol, u: User, lim: Limits) {
    lim.visible != NO && s in u
  }

  // The value of a default, limited by its condition.
  function DefaultTri(p: Option<DefaultProp>, v: Valuation): Tri {
    if p.None? then NO else Ap(And, Value(p.value.expr, v), ValueOpt(p.value.visible, v))
  }

  // The tristate cases of sym_calc_value.
  function CalcTri(s: Symbol, u: User, lim: Limits, p: Option<DefaultProp>, v: Valuation, modules: Tri): Tri {
    var own := if UsesUser(s, u, lim) then Ap(And, u[s].tri, lim.visible)
               else Ap(Or, DefaultTri(p, v), lim.implied);
    Promote(Ap(Or, own, lim.revDep), TypeOf(s, modules).Boolean? || lim.implied == YES)
  }

  // prop_get_symbol
  function DefaultSymbol(p: Option<DefaultProp>): Option<Symbol> {
    if p.Some? && p.value.expr.Sym? then Some(p.value.expr.sym) else None
  }

  // The string cases of sym_calc_value.
  function CalcText(s: Symbol, u: User, lim: Limits, p: Option<DefaultProp>, st: State): string {
    if UsesUser(s, u, lim) then u[s].val
    else match DefaultSymbol(p)
      case None => ""
      case Some(ds) => st(ds).val
  }

  // The string before the range is applied.
  function TextOf(c: Config, u: User, s: Symbol, st: State): string {
    CalcText(s, u, CalcLimits(c, s, st), FirstDefault(DefOf(c, s).defaults, 0, Readings(c, st)), st)
  }

  function Base(s: Symbol, base: int): int {
    if s.stype.Int? then 10 else if s.stype.Hex? then 16 else base
  }

  // sym_get_range_val
  function RangeValue(c: Config, bound: Symbol, base: int, st: State): int {
    c.numbers.toNumber(st(bound).val, Base(bound, base))
  }

  // sym_validate_range: a value below the range becomes its low end, any other
  // value outside its high end.
  function Clamp(c: Config, s: Symbol, val: string, r: Option<RangeProp>, st: State): string {
    if !IsNumber(s) || r.None? then val
    else
      var base := Base(s, 0);
      var x, lo, hi :=
        c.numbers.toNumber(val, base), RangeValue(c, r.value.lo, base, st), RangeValue(c, r.value.hi, base, st);
      if lo <= x <= hi then val else c.numbers.fromNumber(if x < lo then lo else hi, s.stype.Hex?)
  }

  // sym_calc_value
  function Calc(c: Config, u: User, s: Symbol, st: State): SymVal {
    var d, v := DefOf(c, s), Readings(c, st);
    var lim := CalcLimits(c, s, st);
    var p := FirstDefault(d.defaults, 0, v);
    if IsLetter(s) then SymVal(s.name, if s == SYM_YES then YES else if s == SYM_MOD then MOD else NO)
    else if IsLogic(s) then SymVal("n", CalcTri(s, u, lim, p, v, st(c.modules).tri))
    else if IsText(s) then SymVal(Clamp(c, s, TextOf(c, u, s, st), FirstRange(d.ranges, 0, v), st), NO)
    else SymVal(s.name, NO)
  }

  // Is SYMBOL_WRITE set by sym_calc_value?
  predicate Writes(c: Config, u: User, s: Symbol, st: State) {
    var lim := CalcLimits(c, s, st);
    var v := Readings(c, st);
    var p := FirstDefault(DefOf(c, s).defaults, 0, v);
    || lim.visible != NO
    || (IsLogic(s) && (lim.revDep != NO || lim.implied != NO || DefaultTri(p, v) != NO))
    || (IsText(s) && DefaultSymbol(p).Some?)
  }

  // sym_get_string_default
  function StringDefault(c: Config, s: Symbol, st: State): string {
    var lim, v := CalcLimits(c, s, st), Readings(c, st);
    var p := FirstDefault(DefOf(c, s).defaults, 0, v);
    if IsLogic(s) then
      var x := Promote(Ap(Or, DefaultTri(p, v), lim.revDep), st(c.modules).tri == NO || s.stype.Boolean?);
      Letter(Ap(Or, x, lim.implied))
    else
      match DefaultSymbol(p)
      case None => ""
      case Some(ds) => if IsText(s) then st(ds).val else ""
  }

  // -------------------------------------------------------- what it depends on

  function SymbolsOpt(e: Option<Expr>): set<Symbol> {
    if e.None? then {} else Symbols(e.value)
  }

  function PromptSymbols(ps: seq<Option<Expr>>, n: nat): set<Symbol>
    requires n <= |ps|
  {
    if n == 0 then {} else PromptSymbols(ps, n - 1) + SymbolsOpt(ps[n - 1])
  }

  // The conditions of the defaults tried, up to the one that applies.
  function DefaultReads(ds: seq<DefaultProp>, i: nat, v: Valuation): set<Symbol>
    requires i <= |ds|
    decreases |ds| - i
  {
    if i == |ds| then {}
    else SymbolsOpt(ds[i].visible) + if ValueOpt(ds[i].visible, v) != NO then {} else DefaultReads(ds, i + 1, v)
  }

  function RangeReads(rs: seq<RangeProp>, i: nat, v: Valuation): set<Symbol>
    requires i <= |rs|
    decreases |rs| - i
  {
    if i == |rs| then {}
    else SymbolsOpt(rs[i].visible) + if ValueOpt(rs[i].visible, v) != NO then {} else RangeReads(rs, i + 1, v)
  }

  function LimitReads(c: Config, s: Symbol, st: State): set<Symbol> {
    var d := DefOf(c, s);
    PromptSymbols(d.prompts, |d.prompts|) + SymbolsOpt(d.dirDep) + SymbolsOpt(d.revDep)
    + if CalcLimits(c, s, st).dirDep != NO then SymbolsOpt(d.implied) else {}
  }

  function ValueReads(c: Config, u: User, s: Symbol, st: State): set<Symbol> {
    var d, v := DefOf(c, s), Readings(c, st);
    if UsesUser(s, u, CalcLimits(c, s, st)) then {}
    else
      var p := FirstDefault(d.defaults, 0, v);
      DefaultReads(d.defaults, 0, v)
      + if p.Some? && (IsLogic(s) || p.value.expr.Sym?) then Symbols(p.value.expr) else {}
  }

  // The high end of a range is looked at only if the value reaches the low end.
  function BoundReads(c: Config, u: User, s: Symbol, st: State): set<Symbol> {
    var d, v := DefOf(c, s), Readings(c, st);
    var r := FirstRange(d.ranges, 0, v);
    if !IsNumber(s) then {}
    else
      RangeReads(d.ranges, 0, v)
      + if r.None? then {}
        else if c.numbers.toNumber(TextOf(c, u, s, st), Base(s, 0)) < RangeValue(c, r.value.lo, Base(s, 0), st) then
          {r.value.lo}
        else {r.value.lo, r.value.hi}
  }

  predicate IsTyped(s: Symbol) {
    (IsLogic(s) || IsText(s)) && !IsLetter(s)
  }

  // The symbols whose values are looked at, short-circuits included.  The
  // modules symbol is looked at for a tristate, and with every tristate.
  function Reads(c: Config, u: User, s: Symbol, st: State): set<Symbol> {
    if !IsTyped(s) then {}
    else
      var r := LimitReads(c, s, st) + ValueReads(c, u, s, st) + BoundReads(c, u, s, st);
      if s.stype.Tristate? || exists t :: t in r && t.stype.Tristate? then r + {c.modules} else r
  }

  // A bool never holds m.
  ghost predicate NoBoolMod(st: State) {
    forall s: Symbol {:trigger st(s)} | s.stype.Boolean? :: st(s).tri != MOD
  }

  ghost predicate AgreeOn(c: Config, r: set<Symbol>, st: State, st': State) {
    && (forall s | s in r :: st(s) == st'(s))
    && ((exists s :: s in r && s.stype.Tristate?) ==> st(c.modules) == st'(c.modules))
  }

  lemma ReadingsAgree(c: Config, r: set<Symbol>, st: State, st': State, s: Symbol)
    requires NoBoolMod(st) && NoBoolMod(st') && AgreeOn(c, r, st, st') && s in r
    ensures Readings(c, st)(s) == Readings(c, st')(s)
  {
    assert st(s) == st'(s);
    if s.stype.Tristate? { assert st(c.modules) == st'(c.modules); }
  }

  lemma ValuesAgree(c: Config, e: Option<Expr>, st: State, st': State)
    requires NoBoolMod(st) && NoBoolMod(st') && AgreeOn(c, SymbolsOpt(e), st, st')
    ensures ValueOpt(e, Readings(c, st)) == ValueOpt(e, Readings(c, st'))
    ensures OrNo(e, Readings(c, st)) == OrNo(e, Readings(c, st'))
  {
    if e.Some? {
      forall s | s in Symbols(e.value) ensures Readings(c, st)(s) == Readings(c, st')(s) {
        ReadingsAgree(c, Symbols(e.value), st, st', s);
      }
      ValueCongruence(e.value, Readings(c, st), Readings(c, st'));
    }
  }

  lemma {:induction false} PromptsAgree(c: Config, ps: seq<Option<Expr>>, n: nat, st: State, st': State)
    requires n <= |ps| && NoBoolMod(st) && NoBoolMod(st') && AgreeOn(c, PromptSymbols(ps, n), st, st')
    ensures PromptMax(ps, n, Readings(c, st)) == PromptMax(ps, n, Readings(c, st'))
  {
    if n > 0 {
      ValuesAgree(c, ps[n - 1], st, st');
      PromptsAgree(c, ps, n - 1, st, st');
    }
  }

  lemma {:induction false} DefaultsAgree(c: Config, ds: seq<DefaultProp>, i: nat, st: State, st': State)
    requires i <= |ds| && NoBoolMod(st) && NoBoolMod(st')
    requires AgreeOn(c, DefaultReads(ds, i, Readings(c, st)), st, st')
    ensures FirstDefault(ds, i, Readings(c, st)) == FirstDefault(ds, i, Readings(c, st'))
    ensures DefaultReads(ds, i, Readings(c, st)) == DefaultReads(ds, i, Readings(c, st'))
    decreases |ds| - i
  {
    if i < |ds| {
      ValuesAgree(c, ds[i].visible, st, st');
      if ValueOpt(ds[i].visible, Readings(c, st)) == NO { DefaultsAgree(c, ds, i + 1, st, st'); }
    }
  }

  lemma {:induction false} RangesAgree(c: Config, rs: seq<RangeProp>, i: nat, st: State, st': State)
    requires i <= |rs| && NoBoolMod(st) && NoBoolMod(st')
    requires AgreeOn(c, RangeReads(rs, i, Readings(c, st)), st, st')
    ensures FirstRange(rs, i, Readings(c, st)) == FirstRange(rs, i, Readings(c, st'))
    ensures RangeReads(rs, i, Readings(c, st)) == RangeReads(rs, i, Readings(c, st'))
    decreases |rs| - i
  {
    if i < |rs| {
      ValuesAgree(c, rs[i].visible, st, st');
      if ValueOpt(rs[i].visible, Readings(c, st)) == NO { RangesAgree(c, rs, i + 1, st, st'); }
    }
  }

  lemma LimitsAgree(c: Config, s: Symbol, st: State, st': State)
    requires NoBoolMod(st) && NoBoolMod(st') && AgreeOn(c, LimitReads(c, s, st), st, st')
    requires s.stype.Tristate? ==> st(c.modules) == st'(c.modules)
    ensures CalcLimits(c, s, st) == CalcLimits(c, s, st')
    ensures LimitReads(c, s, st) == LimitReads(c, s, st')
  {
    var d := DefOf(c, s);
    PromptsAgree(c, d.prompts, |d.prompts|, st, st');
    ValuesAgree(c, d.dirDep, st, st');
    ValuesAgree(c, d.revDep, st, st');
    if CalcLimits(c, s, st).dirDep != NO { ValuesAgree(c, d.implied, st, st'); }
  }

  ghost predicate SameUser(u: User, u': User, s: Symbol) {
    (s in u <==> s in u') && (s in u ==> u[s] == u'[s])
  }

  lemma DefaultAgrees(c: Config, p: DefaultProp, st: State, st': State)
    requires NoBoolMod(st) && NoBoolMod(st')
    requires AgreeOn(c, Symbols(p.expr), st, st') && AgreeOn(c, SymbolsOpt(p.visible), st, st')
    ensures DefaultTri(Some(p), Readings(c, st)) == DefaultTri(Some(p), Readings(c, st'))
  {
    ValuesAgree(c, Some(p.expr), st, st');
    ValuesAgree(c, p.visible, st, st');
  }

  // The condition of the default that applies is among those tried.
  lemma {:induction false} FirstDefaultRead(ds: seq<DefaultProp>, i: nat, v: Valuation)
    requires i <= |ds| && FirstDefault(ds, i, v).Some?
    ensures SymbolsOpt(FirstDefault(ds, i, v).value.visible) <= DefaultReads(ds, i, v)
    decreases |ds| - i
  {
    if ValueOpt(ds[i].visible, v) == NO { FirstDefaultRead(ds, i + 1, v); }
  }

  lemma SubAgree(c: Config, big: set<Symbol>, small: set<Symbol>, st: State, st': State)
    requires AgreeOn(c, big, st, st') && small <= big
    ensures AgreeOn(c, small, st, st')
  {
  }

  // Without the user value, the default decides.
  lemma OwnAgrees(c: Config, u: User, s: Symbol, st: State, st': State)
    requires NoBoolMod(st) && NoBoolMod(st') && AgreeOn(c, ValueReads(c, u, s, st), st, st')
    requires !UsesUser(s, u, CalcLimits(c, s, st))
    ensures var ds, v, v' := DefOf(c, s).defaults, Readings(c, st), Readings(c, st');
      && FirstDefault(ds, 0, v) == FirstDefault(ds, 0, v')
      && DefaultReads(ds, 0, v) == DefaultReads(ds, 0, v')
      && (IsLogic(s) ==> DefaultTri(FirstDefault(ds, 0, v), v) == DefaultTri(FirstDefault(ds, 0, v'), v'))
      && (DefaultSymbol(FirstDefault(ds, 0, v)).Some? ==>
            var t := DefaultSymbol(FirstDefault(ds, 0, v)).value; st(t) == st'(t))
  {
    var ds, v, r := DefOf(c, s).defaults, Readings(c, st), ValueReads(c, u, s, st);
    SubAgree(c, r, DefaultReads(ds, 0, v), st, st');
    DefaultsAgree(c, ds, 0, st, st');
    var p := FirstDefault(ds, 0, v);
    if p.Some? {
      FirstDefaultRead(ds, 0, v);
      SubAgree(c, r, SymbolsOpt(p.value.visible), st, st');
      if IsLogic(s) {
        SubAgree(c, r, Symbols(p.value.expr), st, st');
        DefaultAgrees(c, p.value, st, st');
      }
    }
  }

  lemma BoundsAgree(c: Config, u: User, s: Symbol, st: State, st': State)
    requires NoBoolMod(st) && NoBoolMod(st') && AgreeOn(c, BoundReads(c, u, s, st), st, st') && IsNumber(s)
    requires TextOf(c, u, s, st) == TextOf(c, u, s, st')
    ensures BoundReads(c, u, s, st) == BoundReads(c, u, s, st')
    ensures FirstRange(DefOf(c, s).ranges, 0, Readings(c, st)) == FirstRange(DefOf(c, s).ranges, 0, Readings(c, st'))
    ensures Clamp(c, s, TextOf(c, u, s, st), FirstRange(DefOf(c, s).ranges, 0, Readings(c, st)), st)
      == Clamp(c, s, TextOf(c, u, s, st), FirstRange(DefOf(c, s).ranges, 0, Readings(c, st)), st')
  {
    var rs, v := DefOf(c, s).ranges, Readings(c, st);
    SubAgree(c, BoundReads(c, u, s, st), RangeReads(rs, 0, v), st, st');
    RangesAgree(c, rs, 0, st, st');
  }

  // The symbol reads only what Reads says.
  lemma ReadsAgree(c: Config, u: User, s: Symbol, st: State, st': State)
    requires IsTyped(s) && forall t | t in Reads(c, u, s, st) :: st(t) == st'(t)
    ensures AgreeOn(c, LimitReads(c, s, st), st, st')
    ensures AgreeOn(c, ValueReads(c, u, s, st), st, st')
    ensures AgreeOn(c, BoundReads(c, u, s, st), st, st')
    ensures s.stype.Tristate? ==> st(c.modules) == st'(c.modules)
  {
    var r := LimitReads(c, s, st) + ValueReads(c, u, s, st) + BoundReads(c, u, s, st);
    if exists t :: t in r && t.stype.Tristate? {
      assert c.modules in Reads(c, u, s, st);
    }
    assert AgreeOn(c, r, st, st');
    SubAgree(c, r, LimitReads(c, s, st), st, st');
    SubAgree(c, r, ValueReads(c, u, s, st), st, st');
    SubAgree(c, r, BoundReads(c, u, s, st), st, st');
  }

  lemma PartsAgree(c: Config, u: User, s: Symbol, st: State, st': State)
    requires IsTyped(s) && NoBoolMod(st) && NoBoolMod(st') && forall t | t in Reads(c, u, s, st) :: st(t) == st'(t)
    ensures CalcLimits(c, s, st) == CalcLimits(c, s, st') && LimitReads(c, s, st) == LimitReads(c, s, st')
    ensures ValueReads(c, u, s, st) == ValueReads(c, u, s, st')
    ensures BoundReads(c, u, s, st) == BoundReads(c, u, s, st')
    ensures TextOf(c, u, s, st) == TextOf(c, u, s, st')
  {
    ReadsAgree(c, u, s, st, st');
    LimitsAgree(c, s, st, st');
    if !UsesUser(s, u, CalcLimits(c, s, st)) { OwnAgrees(c, u, s, st, st'); }
    if IsNumber(s) { BoundsAgree(c, u, s, st, st'); }
  }

  // The value depends on nothing but the symbols read.
  lemma CalcAgrees(c: Config, u: User, s: Symbol, st: State, st': State)
    requires NoBoolMod(st) && NoBoolMod(st') && forall t | t in Reads(c, u, s, st) :: st(t) == st'(t)
    ensures Calc(c, u, s, st) == Calc(c, u, s, st') && Reads(c, u, s, st) == Reads(c, u, s, st')
    ensures IsTyped(s) ==> CalcLimits(c, s, st) == CalcLimits(c, s, st')
  {
    if IsTyped(s) {
      ReadsAgree(c, u, s, st, st');
      PartsAgree(c, u, s, st, st');
      if IsLogic(s) {
        TriAgrees(c, u, s, st, st');
      } else if IsNumber(s) {
        BoundsAgree(c, u, s, st, st');
      }
    }
  }

  lemma TriAgrees(c: Config, u: User, s: Symbol, st: State, st': State)
    requires IsLogic(s) && IsTyped(s) && NoBoolMod(st) && NoBoolMod(st')
    requires AgreeOn(c, ValueReads(c, u, s, st), st, st') && CalcLimits(c, s, st) == CalcLimits(c, s, st')
    requires s.stype.Tristate? ==> st(c.modules) == st'(c.modules)
    ensures Calc(c, u, s, st) == Calc(c, u, s, st')
  {
    if !UsesUser(s, u, CalcLimits(c, s, st)) { OwnAgrees(c, u, s, st, st'); }
  }

  // ... and the symbol's own user value.
  lemma CalcSameUser(c: Config, u: User, u': User, s: Symbol, st: State)
    requires SameUser(u, u', s)
    ensures Calc(c, u, s, st) == Calc(c, u', s, st) && Reads(c, u, s, st) == Reads(c, u', s, st)
  {
    assert TextOf(c, u, s, st) == TextOf(c, u', s, st);
    assert ValueReads(c, u, s, st) == ValueReads(c, u', s, st);
    assert BoundReads(c, u, s, st) == BoundReads(c, u', s, st);
  }
}
