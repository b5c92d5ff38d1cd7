// What the value of a symbol is, said of the properties themselves: by the
// prompts, the dependencies, the default that applies and the range that
// applies (support/kconfig/symbol.c), for every evaluated configuration.

module SymbolLaws {
  import opened Wrappers
  import opened Expressions
  import opened SymbolValue
  import opened SymbolEval

  function Least(a: Tri, b: Tri): Tri {
    if a < b then a else b
  }

  function Greatest(a: Tri, b: Tri): Tri {
    if a < b then b else a
  }

  // m counts as y for whatever cannot be m.
  function AsType(s: Symbol, t: Tri, modules: Tri): Tri {
    if t == MOD && (!s.stype.Tristate? || modules == NO) then YES else t
  }

  // What expressions see of a symbol: a letter, where m without modules reads as
  // n; a string, which reads as a number if it parses as one for its type.
  lemma ReadingExact(c: Config, s: Symbol, st: State)
    ensures var r, x := Readings(c, st)(s), st(s);
      && r.tri == x.tri
      && (IsLogic(s) && !(x.tri == MOD && st(c.modules).tri == NO) ==>
            r.str == Letter(x.tri) && r.num == Signed(x.tri as int))
      && (IsLogic(s) && x.tri == MOD && st(c.modules).tri == NO ==> r.str == "n" && r.num == Signed(0))
      && (IsText(s) || s.stype.Unknown? ==> r.str == x.val && r.num == c.numbers.parse(x.val, s.stype))
      && (s.stype.Other? ==> r.str == x.val && r.num == Invalid)
  {
  }

  // ------------------------------------------------------------- the limits

  lemma {:induction false} PromptMaxExact(ps: seq<Option<Expr>>, n: nat, v: Valuation)
    requires n <= |ps|
    ensures forall i | 0 <= i < n :: ValueOpt(ps[i], v) <= PromptMax(ps, n, v)
    ensures n > 0 ==> exists i :: 0 <= i < n && ValueOpt(ps[i], v) == PromptMax(ps, n, v)
    ensures n == 0 ==> PromptMax(ps, n, v) == NO
  {
    if n > 0 {
      PromptMaxExact(ps, n - 1, v);
      assert ValueOpt(ps[n - 1], v) <= PromptMax(ps, n, v);
      if ValueOpt(ps[n - 1], v) != PromptMax(ps, n, v) {
        var i :| 0 <= i < n - 1 && ValueOpt(ps[i], v) == PromptMax(ps, n - 1, v);
      }
    }
  }

  // A symbol is as visible as its best prompt: not at all without a prompt whose
  // condition holds.
  lemma VisibleExact(c: Config, s: Symbol, st: State)
    ensures var ps, v, x := DefOf(c, s).prompts, Readings(c, st), CalcLimits(c, s, st).visible;
      && (forall i | 0 <= i < |ps| :: AsType(s, ValueOpt(ps[i], v), st(c.modules).tri) <= x)
      && (x == NO || exists i :: 0 <= i < |ps| && AsType(s, ValueOpt(ps[i], v), st(c.modules).tri) == x)
  {
    hide Readings;
    PromptMaxExact(DefOf(c, s).prompts, |DefOf(c, s).prompts|, Readings(c, st));
  }

  // Without its own dependency a symbol may be y, without a selecting or
  // implying one it need not be anything; and nothing is implied where the own
  // dependency is n.
  lemma DependenciesExact(c: Config, s: Symbol, st: State)
    requires IsLogic(s)
    ensures var d, v, lim := DefOf(c, s), Readings(c, st), CalcLimits(c, s, st);
      && lim.dirDep == (if d.dirDep.None? then YES else AsType(s, Value(d.dirDep.value, v), st(c.modules).tri))
      && lim.revDep == (if d.revDep.None? then NO else AsType(s, Value(d.revDep.value, v), st(c.modules).tri))
      && lim.implied
         == if d.implied.None? || (d.dirDep.Some? && Value(d.dirDep.value, v) == NO) then NO
            else AsType(s, Value(d.implied.value, v), st(c.modules).tri)
  {
    hide Readings, PromptMax;
  }

  // ---------------------------------------------------------- bools, tristates

  // The i-th default is the first whose condition is not n.
  ghost predicate IsFirst(conditions: seq<Option<Expr>>, i: int, v: Valuation) {
    && 0 <= i < |conditions| && ValueOpt(conditions[i], v) != NO
    && forall j | 0 <= j < i :: ValueOpt(conditions[j], v) == NO
  }

  function DefaultConditions(ds: seq<DefaultProp>): seq<Option<Expr>> {
    seq(|ds|, i requires 0 <= i < |ds| => ds[i].visible)
  }

  function RangeConditions(rs: seq<RangeProp>): seq<Option<Expr>> {
    seq(|rs|, i requires 0 <= i < |rs| => rs[i].visible)
  }

  ghost predicate NoneHolds(conditions: seq<Option<Expr>>, v: Valuation) {
    forall j | 0 <= j < |conditions| :: ValueOpt(conditions[j], v) == NO
  }

  lemma DefaultTaken(ds: seq<DefaultProp>, i: int, v: Valuation)
    ensures IsFirst(DefaultConditions(ds), i, v) ==> FirstDefault(ds, 0, v) == Some(ds[i])
    ensures NoneHolds(DefaultConditions(ds), v) ==> FirstDefault(ds, 0, v) == None
  {
    var cs := DefaultConditions(ds);
    if IsFirst(cs, i, v) {
      forall j | 0 <= j < i ensures ValueOpt(ds[j].visible, v) == NO { assert cs[j] == ds[j].visible; }
      FirstDefaultSkips(ds, 0, i, v);
    }
    if NoneHolds(cs, v) {
      forall j | 0 <= j < |ds| ensures ValueOpt(ds[j].visible, v) == NO { assert cs[j] == ds[j].visible; }
      FirstDefaultSkips(ds, 0, |ds|, v);
    }
  }

  lemma RangeTaken(rs: seq<RangeProp>, i: int, v: Valuation)
    ensures IsFirst(RangeConditions(rs), i, v) ==> FirstRange(rs, 0, v) == Some(rs[i])
    ensures NoneHolds(RangeConditions(rs), v) ==> FirstRange(rs, 0, v) == None
  {
    var cs := RangeConditions(rs);
    if IsFirst(cs, i, v) {
      forall j | 0 <= j < i ensures ValueOpt(rs[j].visible, v) == NO { assert cs[j] == rs[j].visible; }
      FirstRangeSkips(rs, 0, i, v);
    }
    if NoneHolds(cs, v) {
      forall j | 0 <= j < |rs| ensures ValueOpt(rs[j].visible, v) == NO { assert cs[j] == rs[j].visible; }
      FirstRangeSkips(rs, 0, |rs|, v);
    }
  }

  // m becomes y for a bool, without modules, and where y is implied.
  function Settled(s: Symbol, t: Tri, lim: Limits, modules: Tri): Tri {
    if t == MOD && lim.implied == YES then YES else AsType(s, t, modules)
  }

  // With a visible user value: that value, up to the visibility and at least as
  // selected.
  lemma UserDecides(c: Config, rank: Rank, u: User, s: Symbol)
    requires Acyclic(c, rank) && IsLogic(s) && s in u
    requires CalcLimits(c, s, EvalState(c, rank, u)).visible != NO
    ensures var st := EvalState(c, rank, u);
      var lim := CalcLimits(c, s, st);
      st(s).tri == Settled(s, Greatest(Least(u[s].tri, lim.visible), lim.revDep), lim, st(c.modules).tri)
  {
    hide CalcLimits, Readings;
    EvalUnfold(c, rank, u, s);
    CalcLogic(c, u, s, EvalState(c, rank, u));
  }

  // The user value does not count.
  predicate Unset(c: Config, u: User, s: Symbol, st: State) {
    s !in u || CalcLimits(c, s, st).visible == NO
  }

  // Without one: the first default whose condition is not n, up to that
  // condition, and at least as implied and selected.
  lemma DefaultDecides(c: Config, rank: Rank, u: User, s: Symbol, i: int)
    requires Acyclic(c, rank) && IsLogic(s) && Unset(c, u, s, EvalState(c, rank, u))
    requires IsFirst(DefaultConditions(DefOf(c, s).defaults), i, Readings(c, EvalState(c, rank, u)))
    ensures var st, d := EvalState(c, rank, u), DefOf(c, s).defaults[i];
      var v, lim := Readings(c, st), CalcLimits(c, s, st);
      var own := Least(Value(d.expr, v), ValueOpt(d.visible, v));
      st(s).tri == Settled(s, Greatest(Greatest(own, lim.implied), lim.revDep), lim, st(c.modules).tri)
  {
    hide CalcLimits, Readings, IsFirst;
    var st := EvalState(c, rank, u);
    EvalUnfold(c, rank, u, s);
    CalcLogic(c, u, s, st);
    DefaultTaken(DefOf(c, s).defaults, i, Readings(c, st));
    assert UsesUser(s, u, CalcLimits(c, s, st)) == false;
  }

  // Without a default that applies: as implied and selected.
  lemma NothingDecides(c: Config, rank: Rank, u: User, s: Symbol)
    requires Acyclic(c, rank) && IsLogic(s) && Unset(c, u, s, EvalState(c, rank, u))
    requires NoneHolds(DefaultConditions(DefOf(c, s).defaults), Readings(c, EvalState(c, rank, u)))
    ensures var st := EvalState(c, rank, u);
      var lim := CalcLimits(c, s, st);
      st(s).tri == Settled(s, Greatest(lim.implied, lim.revDep), lim, st(c.modules).tri)
  {
    hide CalcLimits, Readings, NoneHolds;
    var st := EvalState(c, rank, u);
    EvalUnfold(c, rank, u, s);
    CalcLogic(c, u, s, st);
    DefaultTaken(DefOf(c, s).defaults, 0, Readings(c, st));
    assert UsesUser(s, u, CalcLimits(c, s, st)) == false;
  }

  // ------------------------------------------------------- strings and numbers

  // The string before the range is applied: the visible user's, else that of the
  // symbol named by the first default that applies, else none.
  lemma TextDecides(c: Config, u: User, s: Symbol, st: State, i: int)
    ensures s in u && CalcLimits(c, s, st).visible != NO ==> TextOf(c, u, s, st) == u[s].val
    ensures Unset(c, u, s, st) && IsFirst(DefaultConditions(DefOf(c, s).defaults), i, Readings(c, st)) ==>
      var e := DefOf(c, s).defaults[i].expr;
      TextOf(c, u, s, st) == if e.Sym? then st(e.sym).val else ""
    ensures Unset(c, u, s, st) && NoneHolds(DefaultConditions(DefOf(c, s).defaults), Readings(c, st)) ==>
      TextOf(c, u, s, st) == ""
  {
    hide CalcLimits, Readings, IsFirst, NoneHolds;
    DefaultTaken(DefOf(c, s).defaults, i, Readings(c, st));
  }

  // The end of a range is read to the base of its own type, or of the symbol's
  // if it is not a number.
  function End(c: Config, s: Symbol, bound: Symbol, st: State): int {
    var t := if IsNumber(bound) then bound.stype else s.stype;
    c.numbers.toNumber(st(bound).val, if t.Hex? then 16 else 10)
  }

  // The string of a symbol is that one; a number outside its first range that
  // applies is replaced by the low end if it is below it, else by the high end.
  lemma RangeDecides(c: Config, rank: Rank, u: User, s: Symbol, i: int)
    requires Acyclic(c, rank) && IsText(s)
    ensures var st := EvalState(c, rank, u);
      var text, v, rs := TextOf(c, u, s, st), Readings(c, st), DefOf(c, s).ranges;
      && (s.stype.Str? || NoneHolds(RangeConditions(rs), v) ==> st(s).val == text)
      && (IsNumber(s) && IsFirst(RangeConditions(rs), i, v) ==>
            var x := c.numbers.toNumber(text, if s.stype.Hex? then 16 else 10);
            var lo, hi := End(c, s, rs[i].lo, st), End(c, s, rs[i].hi, st);
            st(s).val == if x < lo then c.numbers.fromNumber(lo, s.stype.Hex?)
                         else if x > hi then c.numbers.fromNumber(hi, s.stype.Hex?) else text)
  {
    hide CalcLimits, Readings, IsFirst, NoneHolds, TextOf, Clamp, RangeConditions, End, Acyclic;
    var st := EvalState(c, rank, u);
    EvalUnfold(c, rank, u, s);
    TextCalculated(c, u, s, st);
    var r := FirstRange(DefOf(c, s).ranges, 0, Readings(c, st));
    hide Calc, Eval, FirstRange;
    RangeTaken(DefOf(c, s).ranges, i, Readings(c, st));
    Clamped(c, s, TextOf(c, u, s, st), r, st);
  }

  lemma TextCalculated(c: Config, u: User, s: Symbol, st: State)
    requires IsText(s)
    ensures Calc(c, u, s, st).val
      == Clamp(c, s, TextOf(c, u, s, st), FirstRange(DefOf(c, s).ranges, 0, Readings(c, st)), st)
  {
    hide CalcLimits, Readings, TextOf, Clamp, FirstRange;
  }

  lemma Clamped(c: Config, s: Symbol, text: string, r: Option<RangeProp>, st: State)
    requires IsText(s)
    ensures s.stype.Str? || r.None? ==> Clamp(c, s, text, r, st) == text
    ensures IsNumber(s) && r.Some? ==>
      var x := c.numbers.toNumber(text, if s.stype.Hex? then 16 else 10);
      var lo, hi := End(c, s, r.value.lo, st), End(c, s, r.value.hi, st);
      Clamp(c, s, text, r, st)
      == if x < lo then c.numbers.fromNumber(lo, s.stype.Hex?)
         else if x > hi then c.numbers.fromNumber(hi, s.stype.Hex?) else text
  {
  }

  // Without a visible prompt a symbol is written only if something else gives it
  // a value: a selecting or implying symbol or a default.
  lemma WrittenExact(c: Config, u: User, s: Symbol, st: State, i: int)
    requires IsLogic(s) || IsText(s)
    ensures var lim, ds, v := CalcLimits(c, s, st), DefOf(c, s).defaults, Readings(c, st);
      && (lim.visible != NO ==> Writes(c, u, s, st))
      && (lim.visible == NO && IsFirst(DefaultConditions(ds), i, v) ==>
            (Writes(c, u, s, st) <==>
               if IsText(s) then ds[i].expr.Sym?
               else lim.revDep != NO || lim.implied != NO || Value(ds[i].expr, v) != NO))
      && (lim.visible == NO && NoneHolds(DefaultConditions(ds), v) ==>
            (Writes(c, u, s, st) <==> IsLogic(s) && (lim.revDep != NO || lim.implied != NO)))
  {
    hide CalcLimits, Readings, IsFirst, NoneHolds;
    var ds, v := DefOf(c, s).defaults, Readings(c, st);
    DefaultTaken(ds, i, v);
    if IsFirst(DefaultConditions(ds), i, v) { FirstHolds(ds, i, v); }
  }

  lemma FirstHolds(ds: seq<DefaultProp>, i: int, v: Valuation)
    requires IsFirst(DefaultConditions(ds), i, v)
    ensures ValueOpt(ds[i].visible, v) != NO
  {
    assert DefaultConditions(ds)[i] == ds[i].visible;
  }

  // Constants and symbols without a type have their names.
  lemma NamesDecide(c: Config, rank: Rank, u: User, s: Symbol)
    requires Acyclic(c, rank) && (s.stype.Unknown? || s.stype.Other?)
    ensures Eval(c, rank, u, s)
      == SymVal(s.name, if s == SYM_YES then YES else if s == SYM_MOD then MOD else NO)
  {
    EvalUnfold(c, rank, u, s);
  }
}
