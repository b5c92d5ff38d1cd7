// Symbols evaluated in place and cached: sym_calc_value, sym_calc_visibility,
// sym_validate_range, sym_set_tristate_value, sym_clear_all_valid and
// sym_get_string_default of support/kconfig/symbol.c and expr_calc_value of
// expr.c, for symbols outside choices.

module SymbolTables {
  import opened Wrappers
  import opened Expressions
  import opened SymbolValue
  import opened SymbolEval
  import opened SymbolCache
  import opened SymbolExamples

  datatype Action = Get(sym: Symbol) | Set(sym: Symbol, val: Tri)

  class SymbolTable {
    const c: Config
    ghost const rank: Rank
    var user: User
    var cache: Cache
    // the valid symbols whose SYMBOL_WRITE a writer has taken away
    ghost var cleared: set<Symbol>

    // The state between two steps, while the symbols `active` are calculated.
    ghost predicate Ok(active: set<Symbol>)
      reads this
    {
      && Acyclic(c, rank) && Sound(c, user, cache, active, cleared) && cleared <= cache.valid
      && ModulesDefined(c)
    }

    // A symbol of rank below n may be calculated: the active ones wait for it,
    // and the modules symbol is known if it is a tristate.
    ghost predicate Ready(n: nat, active: set<Symbol>)
      reads this
    {
      && (forall a | a in active :: n <= rank(a))
      && (c.modules in cache.valid - active || n <= rank(c.modules) + 1)
    }

    ghost predicate Under(r: set<Symbol>, n: nat) {
      forall x | x in r :: rank(x) < n
    }

    function Vals(): Valuation
      reads this
    {
      Readings(c, St(cache))
    }

    // ------------------------------------------------------- expr_calc_value

    method CalcExpr(e: Expr, ghost n: nat, ghost active: set<Symbol>) returns (t: Tri)
      requires Ok(active) && Ready(n, active) && Under(Symbols(e), n)
      modifies `cache
      ensures Ok(active) && Extends(c, old(cache), cache)
      ensures Symbols(e) <= cache.valid - active && t == Value(e, Vals())
      decreases n, 1, e
    {
      hide Settled, Reads, Writes, Calc;
      match e {
        case Sym(s) =>
          CalcValue(s, active);
          t := St(cache)(s).tri;
        case Not(a) =>
          t := CalcExpr(a, n, active);
          t := 2 - t;
        case Bin(op, l, r) =>
          var x := CalcExpr(l, n, active);
          ghost var k := cache;
          var y := CalcExpr(r, n, active);
          ValueKept(c, user, k, cache, active, cleared, Some(l));
          ExtendsTrans(c, old(cache), k, cache);
          t := Ap(op, x, y);
        case Cmp(rel, l, r) =>
          assert l in Symbols(e) && r in Symbols(e);
          t := CalcCompare(rel, l, r, n, active);
      }
    }

    // A missing condition is y.
    method CalcOpt(e: Option<Expr>, ghost n: nat, ghost active: set<Symbol>) returns (t: Tri)
      requires Ok(active) && Ready(n, active) && Under(SymbolsOpt(e), n)
      modifies `cache
      ensures Ok(active) && Extends(c, old(cache), cache)
      ensures SymbolsOpt(e) <= cache.valid - active && t == ValueOpt(e, Vals())
      decreases n, 2
    {
      if e.None? {
        t := YES;
      } else {
        t := CalcExpr(e.value, n, active);
      }
    }

    // A missing reverse dependency is n.
    method CalcOrNo(e: Option<Expr>, ghost n: nat, ghost active: set<Symbol>) returns (t: Tri)
      requires Ok(active) && Ready(n, active) && Under(SymbolsOpt(e), n)
      modifies `cache
      ensures Ok(active) && Extends(c, old(cache), cache)
      ensures SymbolsOpt(e) <= cache.valid - active && t == OrNo(e, Vals())
      decreases n, 2
    {
      if e.None? {
        t := NO;
      } else {
        t := CalcExpr(e.value, n, active);
      }
    }

    // sym_get_string_value, of a valid symbol
    method StringValue(s: Symbol, ghost n: nat, ghost active: set<Symbol>) returns (str: string)
      requires Ok(active) && Ready(n, active) && rank(s) < n && s in cache.valid - active
      modifies `cache
      ensures Ok(active) && Extends(c, old(cache), cache)
      ensures str == Vals()(s).str
      decreases n, 0, 0
    {
      var x := St(cache)(s);
      if IsLogic(s) {
        if x.tri == MOD {
          CalcValue(c.modules, active);
          assert SameAt(old(cache), cache, s);
          str := if St(cache)(c.modules).tri == NO then "n" else "m";
        } else {
          str := Letter(x.tri);
        }
      } else {
        str := x.val;
      }
    }

    method CalcPair(l: Symbol, r: Symbol, ghost n: nat, ghost active: set<Symbol>)
      requires Ok(active) && Ready(n, active) && rank(l) < n && rank(r) < n
      modifies `cache
      ensures Ok(active) && Extends(c, old(cache), cache)
      ensures l in cache.valid - active && r in cache.valid - active
      decreases n, 0, 0
    {
      CalcValue(l, active);
      ghost var k := cache;
      CalcValue(r, active);
      ExtendsTrans(c, old(cache), k, cache);
    }

    // The strings of both operands.
    method StringPair(l: Symbol, r: Symbol, ghost n: nat, ghost active: set<Symbol>)
      returns (str1: string, str2: string)
      requires Ok(active) && Ready(n, active) && rank(l) < n && rank(r) < n
      requires l in cache.valid - active && r in cache.valid - active
      modifies `cache
      ensures Ok(active) && Extends(c, old(cache), cache)
      ensures str1 == Vals()(l).str && str2 == Vals()(r).str
      decreases n, 0, 1
    {
      hide Settled, Reads, Writes, Calc;
      str1 := StringValue(l, n, active);
      ghost var k := cache;
      str2 := StringValue(r, n, active);
      ExtendsTrans(c, old(cache), k, cache);
      ReadingKept(c, user, k, cache, active, cleared, l);
    }

    method CalcCompare(rel: Rel, l: Symbol, r: Symbol, ghost n: nat, ghost active: set<Symbol>) returns (t: Tri)
      requires Ok(active) && Ready(n, active) && rank(l) < n && rank(r) < n
      modifies `cache
      ensures Ok(active) && Extends(c, old(cache), cache)
      ensures l in cache.valid - active && r in cache.valid - active && t == CmpValue(rel, l, r, Vals())
      decreases n, 0, 2
    {
      CalcPair(l, r, n, active);
      ghost var k := cache;
      var str1, str2 := StringPair(l, r, n, active);
      ExtendsTrans(c, old(cache), k, cache);
      t := Compare(rel, l, r, str1, str2);
    }

    method Compare(rel: Rel, l: Symbol, r: Symbol, str1: string, str2: string) returns (t: Tri)
      requires str1 == Vals()(l).str && str2 == Vals()(r).str
      ensures t == CmpValue(rel, l, r, Vals())
    {
      var k1, k2 := Text, Text;
      if !l.stype.Str? || !r.stype.Str? {
        k1 := ParseString(c, str1, l.stype);
        k2 := ParseString(c, str2, r.stype);
      }
      var res;
      if k1.Text? || k2.Text? {
        res := Strcmp(str1, str2);
      } else if k1.Invalid? || k2.Invalid? {
        if !rel.Eq? && !rel.Ne? {
          return NO;
        }
        res := Strcmp(str1, str2);
      } else if k1.Unsigned? || k2.Unsigned? {
        res := Sign(AsUnsigned(k1) - AsUnsigned(k2));
      } else {
        res := Sign(k1.s - k2.s);
      }
      t := if Holds(rel, res) then YES else NO;
    }

    // ------------------------------------------------- fields of one symbol

    // A step that changes the fields of s alone, while s is calculated.
    lemma StepOk(k: Cache, k': Cache, active: set<Symbol>, s: Symbol)
      requires Acyclic(c, rank) && Sound(c, user, k, active, cleared) && s in active && s in k.valid
      requires k'.valid == k.valid && k'.modulesVal == k.modulesVal
      requires s.stype.Boolean? ==> St(k')(s).tri != MOD
      requires forall t | t != s :: SameAt(k, k', t)
      ensures Sound(c, user, k', active, cleared) && ExtendsBut(c, k, k', s)
    {
      assert active + {s} == active && k'.valid == k.valid + {s};
      forall t: Symbol | t.stype.Boolean? ensures St(k')(t).tri != MOD {
        if t != s { assert SameAt(k, k', t); }
      }
      SoundWhileActive(c, user, k, k', active, cleared, s);
    }

    method SetLimits(s: Symbol, lim: Limits, ghost active: set<Symbol>)
      requires Ok(active) && s in active && s in cache.valid
      modifies `cache
      ensures Ok(active) && ExtendsBut(c, old(cache), cache, s)
      ensures cache == old(cache).(limits := old(cache).limits[s := lim])
    {
      ghost var k := cache;
      cache := cache.(limits := cache.limits[s := lim]);
      StepOk(k, cache, active, s);
    }

    method SetCurr(s: Symbol, x: SymVal, ghost active: set<Symbol>)
      requires Ok(active) && s in active && s in cache.valid && IsTyped(s)
      requires s.stype.Boolean? ==> x.tri != MOD
      modifies `cache
      ensures Ok(active) && ExtendsBut(c, old(cache), cache, s)
      ensures cache.valid == old(cache).valid && St(cache)(s) == x && OnlyCurr(old(cache), cache, s)
    {
      ghost var k := cache;
      cache := cache.(curr := cache.curr[s := x]);
      StepOk(k, cache, active, s);
    }

    // The final value.
    method Store(s: Symbol, x: SymVal, ghost active: set<Symbol>)
      requires Calculating(s, active) && AllRead(c, user, cache, active, s)
      requires x == Calc(c, user, s, St(cache))
      modifies `cache
      ensures Calculating(s, active) && ExtendsBut(c, old(cache), cache, s)
      ensures Finished(c, user, cache, active, s)
    {
      CalcNoBoolMod(c, user, s, St(cache));
      SetCurr(s, x, active);
      StoreFinished(c, user, old(cache), cache, active, cleared, s);
    }

    method SetWrite(s: Symbol, on: bool, ghost active: set<Symbol>)
      requires Ok(active) && s in active && s in cache.valid
      modifies `cache
      ensures Ok(active) && ExtendsBut(c, old(cache), cache, s)
      ensures cache == old(cache).(write := if on then old(cache).write + {s} else old(cache).write)
    {
      ghost var k := cache;
      if on {
        cache := cache.(write := cache.write + {s});
      }
      StepOk(k, cache, active, s);
    }

    // ------------------------------------------------------ sym_calc_visibility

    ghost predicate PromptsDone(ps: seq<Option<Expr>>, i: nat, active: set<Symbol>, t: Tri)
      requires i <= |ps|
      reads this
    {
      PromptSymbols(ps, i) <= cache.valid - active && t == PromptMax(ps, i, Vals())
    }

    method CalcPrompt(ps: seq<Option<Expr>>, i: nat, t: Tri, ghost n: nat, ghost active: set<Symbol>)
      returns (t': Tri)
      requires Ok(active) && Ready(n, active) && i < |ps| && Under(SymbolsOpt(ps[i]), n)
      requires PromptsDone(ps, i, active, t)
      modifies `cache
      ensures Ok(active) && Extends(c, old(cache), cache)
      ensures PromptsDone(ps, i + 1, active, t')
      decreases n, 3
    {
      var x := CalcOpt(ps[i], n, active);
      PromptsKept(old(cache), cache, active, ps, i);
      t' := Ap(Or, t, x);
    }

    method CalcPrompts(ps: seq<Option<Expr>>, ghost n: nat, ghost active: set<Symbol>) returns (t: Tri)
      requires Ok(active) && Ready(n, active) && forall i | 0 <= i < |ps| :: Under(SymbolsOpt(ps[i]), n)
      modifies `cache
      ensures Ok(active) && Extends(c, old(cache), cache)
      ensures PromptsDone(ps, |ps|, active, t)
      decreases n, 4
    {
      t := NO;
      var i := 0;
      while i < |ps|
        invariant 0 <= i <= |ps| && Ok(active) && Ready(n, active) && Extends(c, old(cache), cache)
        invariant PromptsDone(ps, i, active, t)
      {
        ghost var k := cache;
        t := CalcPrompt(ps, i, t, n, active);
        ExtendsTrans(c, old(cache), k, cache);
        i := i + 1;
      }
    }

    lemma PromptsKept(k: Cache, k': Cache, active: set<Symbol>, ps: seq<Option<Expr>>, i: nat)
      requires Sound(c, user, k, active, cleared) && Extends(c, k, k') && NoBoolMod(St(k'))
      requires i <= |ps| && PromptSymbols(ps, i) <= k.valid - active
      ensures PromptMax(ps, i, Readings(c, St(k))) == PromptMax(ps, i, Readings(c, St(k')))
      ensures PromptSymbols(ps, i) <= k'.valid - active
    {
      Kept(c, user, k, k', active, cleared, SYM_NO, PromptSymbols(ps, i));
      PromptsAgree(c, ps, i, St(k), St(k'));
    }

    // Between two steps of the calculation of s.
    ghost predicate Calculating(s: Symbol, active: set<Symbol>)
      reads this
    {
      && Ok(active) && Ready(rank(s), active) && s in active && s in cache.valid && IsTyped(s)
      && ModulesKnown(c, cache, active, s)
    }

    // Its operands have lower rank.
    lemma OperandsUnder(s: Symbol)
      requires Acyclic(c, rank) && IsTyped(s)
      ensures var d := DefOf(c, s);
        && (forall i | 0 <= i < |d.prompts| :: Under(SymbolsOpt(d.prompts[i]), rank(s)))
        && Under(SymbolsOpt(d.dirDep), rank(s)) && Under(SymbolsOpt(d.revDep), rank(s))
        && Under(SymbolsOpt(d.implied), rank(s))
    {
      var d := DefOf(c, s);
      forall i | 0 <= i < |d.prompts| ensures Under(SymbolsOpt(d.prompts[i]), rank(s)) {
        PromptWithin(d.prompts, |d.prompts|, i);
        assert SymbolsOpt(d.prompts[i]) <= Operands(c, s);
      }
    }

    method CalcVisible(s: Symbol, ghost active: set<Symbol>)
      requires Calculating(s, active)
      modifies `cache
      ensures Calculating(s, active) && ExtendsBut(c, old(cache), cache, s) && OnlyLimits(old(cache), cache, s)
      ensures VisibleDone(c, cache, active, s)
      decreases rank(s), 5
    {
      OperandsUnder(s);
      var tri := CalcPrompts(DefOf(c, s).prompts, rank(s), active);
      ghost var k := cache;
      tri := Promote(tri, !s.stype.Tristate? || cache.modulesVal == NO);
      SetLimits(s, LimitsOf(cache, s).(visible := tri), active);
      ExtendsButTrans(c, old(cache), k, cache, s);
    }

    method CalcDirDep(s: Symbol, ghost active: set<Symbol>)
      requires Calculating(s, active) && VisibleDone(c, cache, active, s)
      modifies `cache
      ensures Calculating(s, active) && ExtendsBut(c, old(cache), cache, s) && OnlyLimits(old(cache), cache, s)
      ensures VisibleDone(c, cache, active, s) && DirDone(c, cache, active, s)
      decreases rank(s), 5
    {
      OperandsUnder(s);
      var tri := CalcOpt(DefOf(c, s).dirDep, rank(s), active);
      ghost var k := cache;
      PartsKept(c, user, old(cache), k, active, cleared, s);
      tri := Promote(tri, TypeOf(s, cache.modulesVal).Boolean?);
      SetLimits(s, LimitsOf(cache, s).(dirDep := tri), active);
      ExtendsButTrans(c, old(cache), k, cache, s);
    }

    method CalcRevDep(s: Symbol, ghost active: set<Symbol>)
      requires Calculating(s, active) && VisibleDone(c, cache, active, s) && DirDone(c, cache, active, s)
      modifies `cache
      ensures Calculating(s, active) && ExtendsBut(c, old(cache), cache, s) && OnlyLimits(old(cache), cache, s)
      ensures VisibleDone(c, cache, active, s) && DirDone(c, cache, active, s) && RevDone(c, cache, active, s)
      decreases rank(s), 5
    {
      OperandsUnder(s);
      var tri := CalcOrNo(DefOf(c, s).revDep, rank(s), active);
      ghost var k := cache;
      PartsKept(c, user, old(cache), k, active, cleared, s);
      tri := Promote(tri, TypeOf(s, cache.modulesVal).Boolean?);
      SetLimits(s, LimitsOf(cache, s).(revDep := tri), active);
      ExtendsButTrans(c, old(cache), k, cache, s);
    }

    // implied counts only if the direct dependency is not n.
    method ImpliedValue(s: Symbol, ghost active: set<Symbol>) returns (tri: Tri)
      requires Calculating(s, active)
      modifies `cache
      ensures Calculating(s, active) && Extends(c, old(cache), cache)
      ensures if LimitsOf(cache, s).dirDep == NO then tri == NO
              else SymbolsOpt(DefOf(c, s).implied) <= cache.valid - active && tri == OrNo(DefOf(c, s).implied, Vals())
      decreases rank(s), 4
    {
      hide Settled;
      OperandsUnder(s);
      tri := NO;
      if LimitsOf(cache, s).dirDep != NO {
        tri := CalcOrNo(DefOf(c, s).implied, rank(s), active);
        assert SameAt(old(cache), cache, s);
      }
    }

    method CalcImplied(s: Symbol, ghost active: set<Symbol>)
      requires Calculating(s, active)
      requires VisibleDone(c, cache, active, s) && DirDone(c, cache, active, s) && RevDone(c, cache, active, s)
      modifies `cache
      ensures Calculating(s, active) && ExtendsBut(c, old(cache), cache, s) && OnlyLimits(old(cache), cache, s)
      ensures LimitsDone(c, cache, active, s)
      decreases rank(s), 5
    {
      var tri := ImpliedValue(s, active);
      ghost var k := cache;
      PartsKept(c, user, old(cache), k, active, cleared, s);
      tri := Promote(tri, TypeOf(s, cache.modulesVal).Boolean?);
      SetLimits(s, LimitsOf(cache, s).(implied := tri), active);
      ExtendsButTrans(c, old(cache), k, cache, s);
    }

    method CalcVisibility(s: Symbol, ghost active: set<Symbol>)
      requires Calculating(s, active)
      modifies `cache
      ensures Calculating(s, active) && ExtendsBut(c, old(cache), cache, s) && OnlyLimits(old(cache), cache, s)
      ensures LimitsDone(c, cache, active, s)
      decreases rank(s), 6
    {
      ghost var k0 := cache;
      CalcVisible(s, active);
      ghost var k1 := cache;
      CalcDirDep(s, active);
      ghost var k2 := cache;
      ExtendsButTrans(c, k0, k1, k2, s);
      CalcRevDep(s, active);
      ghost var k3 := cache;
      ExtendsButTrans(c, k0, k2, k3, s);
      CalcImplied(s, active);
      ExtendsButTrans(c, k0, k3, cache, s);
    }

    // ------------------------------------------------------ properties in turn

    lemma PropertiesUnder(s: Symbol)
      requires Acyclic(c, rank) && IsTyped(s)
      ensures var d := DefOf(c, s);
        && (forall i | 0 <= i < |d.defaults| ::
              Under(SymbolsOpt(d.defaults[i].visible), rank(s)) && Under(Symbols(d.defaults[i].expr), rank(s)))
        && (forall i | 0 <= i < |d.ranges| :: Under(SymbolsOpt(d.ranges[i].visible), rank(s))
              && Under({d.ranges[i].lo, d.ranges[i].hi}, rank(s)))
    {
      var d := DefOf(c, s);
      forall i | 0 <= i < |d.defaults|
        ensures SymbolsOpt(d.defaults[i].visible) <= Operands(c, s) && Symbols(d.defaults[i].expr) <= Operands(c, s)
      {
        DefaultOperandsWithin(d.defaults, 0, i);
      }
      forall i | 0 <= i < |d.ranges|
        ensures SymbolsOpt(d.ranges[i].visible) <= Operands(c, s) && {d.ranges[i].lo, d.ranges[i].hi} <= Operands(c, s)
      {
        RangeOperandsWithin(d.ranges, 0, i);
      }
    }

    method TryDefault(ds: seq<DefaultProp>, i: nat, ghost n: nat, ghost active: set<Symbol>) returns (vis: Tri)
      requires Ok(active) && Ready(n, active) && i < |ds| && Under(SymbolsOpt(ds[i].visible), n)
      requires DefaultsSkipped(c, cache, active, ds, i)
      modifies `cache
      ensures Ok(active) && Extends(c, old(cache), cache)
      ensures if vis == NO then DefaultsSkipped(c, cache, active, ds, i + 1)
              else DefaultFound(c, cache, active, ds, Some(ds[i]), vis)
      decreases n, 4
    {
      vis := CalcOpt(ds[i].visible, n, active);
      DefaultsSkippedKept(c, user, old(cache), cache, active, cleared, ds, i);
      DefaultsFrom(c, cache, active, ds, i);
    }

    // sym_get_default_prop: the first default whose condition is not n
    method GetDefaultProp(ds: seq<DefaultProp>, ghost n: nat, ghost active: set<Symbol>)
      returns (p: Option<DefaultProp>, vis: Tri)
      requires Ok(active) && Ready(n, active) && forall i | 0 <= i < |ds| :: Under(SymbolsOpt(ds[i].visible), n)
      modifies `cache
      ensures Ok(active) && Extends(c, old(cache), cache)
      ensures DefaultFound(c, cache, active, ds, p, vis)
      decreases n, 5
    {
      hide Settled, Reads, Writes, Calc;
      var i := 0;
      while i < |ds|
        invariant 0 <= i <= |ds| && Ok(active) && Ready(n, active) && Extends(c, old(cache), cache)
        invariant DefaultsSkipped(c, cache, active, ds, i)
      {
        ghost var k := cache;
        vis := TryDefault(ds, i, n, active);
        ExtendsTrans(c, old(cache), k, cache);
        if vis != NO {
          return Some(ds[i]), vis;
        }
        i := i + 1;
      }
      DefaultsFrom(c, cache, active, ds, i);
      p, vis := None, NO;
    }

    method TryRange(rs: seq<RangeProp>, i: nat, ghost n: nat, ghost active: set<Symbol>) returns (vis: Tri)
      requires Ok(active) && Ready(n, active) && i < |rs| && Under(SymbolsOpt(rs[i].visible), n)
      requires RangesSkipped(c, cache, active, rs, i)
      modifies `cache
      ensures Ok(active) && Extends(c, old(cache), cache)
      ensures if vis == NO then RangesSkipped(c, cache, active, rs, i + 1)
              else RangeFound(c, cache, active, rs, Some(rs[i]))
      decreases n, 4
    {
      vis := CalcOpt(rs[i].visible, n, active);
      RangesSkippedKept(c, user, old(cache), cache, active, cleared, rs, i);
      RangesFrom(c, cache, active, rs, i);
    }

    // sym_get_range_prop
    method GetRangeProp(rs: seq<RangeProp>, ghost n: nat, ghost active: set<Symbol>) returns (p: Option<RangeProp>)
      requires Ok(active) && Ready(n, active) && forall i | 0 <= i < |rs| :: Under(SymbolsOpt(rs[i].visible), n)
      modifies `cache
      ensures Ok(active) && Extends(c, old(cache), cache)
      ensures RangeFound(c, cache, active, rs, p)
      decreases n, 5
    {
      hide Settled, Reads, Writes, Calc;
      var i := 0;
      while i < |rs|
        invariant 0 <= i <= |rs| && Ok(active) && Ready(n, active) && Extends(c, old(cache), cache)
        invariant RangesSkipped(c, cache, active, rs, i)
      {
        ghost var k := cache;
        var vis := TryRange(rs, i, n, active);
        ExtendsTrans(c, old(cache), k, cache);
        if vis != NO {
          return Some(rs[i]);
        }
        i := i + 1;
      }
      RangesFrom(c, cache, active, rs, i);
      p := None;
    }

    // ----------------------------------------------------------- sym_calc_value

    // The default of a bool or tristate, limited by its condition.
    method CalcDefault(s: Symbol, ghost active: set<Symbol>) returns (t: Tri)
      requires Ok(active) && Ready(rank(s), active) && IsTyped(s) && IsLogic(s)
      modifies `cache
      ensures Ok(active) && Extends(c, old(cache), cache)
      ensures DefaultDone(c, cache, active, s, t)
      decreases rank(s), 6
    {
      hide Settled, Reads, Writes, Calc;
      PropertiesUnder(s);
      var p, vis := GetDefaultProp(DefOf(c, s).defaults, rank(s), active);
      t := NO;
      if p.Some? {
        ghost var k := cache;
        DefaultFoundIn(c, k, DefOf(c, s).defaults, p);
        var x := CalcExpr(p.value.expr, rank(s), active);
        DefaultFoundKept(c, user, k, cache, active, cleared, DefOf(c, s).defaults, p, vis);
        ExtendsTrans(c, old(cache), k, cache);
        t := Ap(And, x, vis);
      }
    }

    // A bool or tristate: the user value if it can be set, else the default or
    // what is implied; and at least what selects it.
    method CalcOwnTri(s: Symbol, ghost active: set<Symbol>) returns (t: Tri)
      requires Calculating(s, active) && IsLogic(s) && LimitsDone(c, cache, active, s)
      requires s in cache.write <==> LimitsOf(cache, s).visible != NO
      modifies `cache
      ensures Calculating(s, active) && ExtendsBut(c, old(cache), cache, s) && LimitsDone(c, cache, active, s)
      ensures OwnDone(c, user, cache, active, s) && t == TriOf(c, user, s, St(cache))
      decreases rank(s), 8
    {
      var lim := LimitsOf(cache, s);
      var own;
      if lim.visible != NO && s in user {
        own := Ap(And, user[s].tri, lim.visible);
        OwnFromUser(c, user, cache, active, s);
      } else {
        own := CalcOwnDefault(s, active);
        OwnFromDefault(c, user, cache, active, s, own);
        own := Ap(Or, own, lim.implied);
      }
      t := Ap(Or, own, lim.revDep);
      t := Promote(t, TypeOf(s, cache.modulesVal).Boolean? || lim.implied == YES);
      ModulesRead(c, user, cache, active, cleared, s);
    }

    method CalcOwnDefault(s: Symbol, ghost active: set<Symbol>) returns (t: Tri)
      requires Calculating(s, active) && IsLogic(s) && LimitsDone(c, cache, active, s)
      requires s in cache.write <==> LimitsOf(cache, s).visible != NO
      modifies `cache
      ensures Calculating(s, active) && ExtendsBut(c, old(cache), cache, s) && LimitsDone(c, cache, active, s)
      ensures LimitsOf(cache, s) == old(LimitsOf(cache, s)) && DefaultDone(c, cache, active, s, t)
      ensures s in cache.write <==> var lim := LimitsOf(cache, s);
        lim.visible != NO || lim.revDep != NO || lim.implied != NO || t != NO
      decreases rank(s), 7
    {
      hide Settled, Reads, Writes, Calc, CalcLimits, LimitReads;
      t := CalcDefault(s, active);
      ghost var k := cache;
      LimitsKept(c, user, old(cache), k, active, cleared, s);
      var lim := LimitsOf(cache, s);
      SetWrite(s, lim.revDep != NO || t != NO || lim.implied != NO, active);
      ExtendsButTrans(c, old(cache), k, cache, s);
    }

    // The text of the default, if it is a symbol.
    method CalcDefaultText(s: Symbol, ghost active: set<Symbol>) returns (val: string, found: bool)
      requires Ok(active) && Ready(rank(s), active) && IsTyped(s) && IsText(s)
      modifies `cache
      ensures Ok(active) && Extends(c, old(cache), cache)
      ensures DefaultTextDone(c, cache, active, s, val, found)
      decreases rank(s), 6
    {
      hide Settled, Reads, Writes, Calc;
      PropertiesUnder(s);
      var p, vis := GetDefaultProp(DefOf(c, s).defaults, rank(s), active);
      val, found := "", false;
      var ds := DefaultSymbol(p);
      if ds.Some? {
        ghost var k := cache;
        DefaultFoundIn(c, k, DefOf(c, s).defaults, p);
        assert ds.value in Symbols(p.value.expr);
        CalcValue(ds.value, active);
        DefaultFoundKept(c, user, k, cache, active, cleared, DefOf(c, s).defaults, p, vis);
        ExtendsTrans(c, old(cache), k, cache);
        val, found := St(cache)(ds.value).val, true;
      }
    }

    // A string or number: the user value if it can be set, else the default.
    method CalcOwnText(s: Symbol, ghost active: set<Symbol>) returns (val: string)
      requires Calculating(s, active) && IsText(s) && LimitsDone(c, cache, active, s)
      requires s in cache.write <==> LimitsOf(cache, s).visible != NO
      modifies `cache
      ensures Calculating(s, active) && ExtendsBut(c, old(cache), cache, s) && LimitsDone(c, cache, active, s)
      ensures OwnDone(c, user, cache, active, s) && val == TextOf(c, user, s, St(cache))
      decreases rank(s), 7
    {
      hide Settled, Reads, Writes, Calc, CalcLimits, LimitReads, TextOf, ValueReads;
      if LimitsOf(cache, s).visible != NO && s in user {
        val := user[s].val;
        TextFromUser(c, user, cache, active, s);
      } else {
        var found;
        val, found := CalcDefaultText(s, active);
        ghost var k := cache;
        LimitsKept(c, user, old(cache), k, active, cleared, s);
        SetWrite(s, found, active);
        ExtendsButTrans(c, old(cache), k, cache, s);
        TextFromDefault(c, user, cache, active, s, val, found);
      }
    }

    // The range that applies.
    method FindRange(s: Symbol, ghost active: set<Symbol>) returns (p: Option<RangeProp>)
      requires Calculating(s, active) && IsNumber(s) && TextHeld(c, user, cache, active, s)
      modifies `cache
      ensures Calculating(s, active) && Extends(c, old(cache), cache) && TextHeld(c, user, cache, active, s)
      ensures RangeFound(c, cache, active, DefOf(c, s).ranges, p)
      ensures p.Some? ==> Under({p.value.lo, p.value.hi}, rank(s))
      decreases rank(s), 6
    {
      hide Settled, Reads, Writes, Calc;
      PropertiesUnder(s);
      p := GetRangeProp(DefOf(c, s).ranges, rank(s), active);
      TextHeldKept(c, user, old(cache), cache, active, cleared, s);
      if p.Some? {
        RangeFoundIn(c, cache, DefOf(c, s).ranges, p);
      }
    }

    // sym_get_range_val
    method GetRangeVal(s: Symbol, base: int, ghost n: nat, ghost active: set<Symbol>) returns (val: int)
      requires Ok(active) && Ready(n, active) && rank(s) < n
      modifies `cache
      ensures Ok(active) && Extends(c, old(cache), cache)
      ensures s in cache.valid - active && val == RangeValue(c, s, base, St(cache))
      decreases n, 0, 0
    {
      CalcValue(s, active);
      val := c.numbers.toNumber(St(cache)(s).val, Base(s, base));
    }

    // What to replace the number by, if it is out of range.
    method CheckRange(s: Symbol, r: RangeProp, ghost active: set<Symbol>) returns (bound: Option<int>)
      requires Calculating(s, active) && IsNumber(s) && Under({r.lo, r.hi}, rank(s))
      modifies `cache
      ensures Calculating(s, active) && Extends(c, old(cache), cache)
      ensures RangeChecked(c, cache, active, s, r, bound)
      decreases rank(s), 6
    {
      assert r.lo in {r.lo, r.hi} && r.hi in {r.lo, r.hi};
      var base := Base(s, 0);
      var val := c.numbers.toNumber(St(cache)(s).val, base);
      var val2 := GetRangeVal(r.lo, base, rank(s), active);
      assert SameAt(old(cache), cache, s);
      if val >= val2 {
        ghost var k := cache;
        val2 := GetRangeVal(r.hi, base, rank(s), active);
        assert SameAt(k, cache, s) && SameAt(k, cache, r.lo);
        ExtendsTrans(c, old(cache), k, cache);
        if val <= val2 {
          return None;
        }
      }
      bound := Some(val2);
    }

    method FindBound(s: Symbol, r: RangeProp, ghost active: set<Symbol>) returns (bound: Option<int>)
      requires Calculating(s, active) && IsNumber(s) && TextHeld(c, user, cache, active, s)
      requires Under({r.lo, r.hi}, rank(s)) && RangeFound(c, cache, active, DefOf(c, s).ranges, Some(r))
      modifies `cache
      ensures Calculating(s, active) && Extends(c, old(cache), cache)
      ensures AllRead(c, user, cache, active, s) && Calc(c, user, s, St(cache))
        == if bound.None? then St(cache)(s) else SymVal(c.numbers.fromNumber(bound.value, s.stype.Hex?), NO)
      decreases rank(s), 7
    {
      hide Settled, Reads, Writes, CalcLimits, LimitReads;
      bound := CheckRange(s, r, active);
      RangeFoundKept(c, user, old(cache), cache, active, cleared, DefOf(c, s).ranges, Some(r));
      TextHeldKept(c, user, old(cache), cache, active, cleared, s);
      BoundClamps(c, user, cache, active, s, r, bound);
    }

    method ApplyRange(s: Symbol, r: RangeProp, ghost active: set<Symbol>)
      requires Calculating(s, active) && IsNumber(s) && TextHeld(c, user, cache, active, s)
      requires Under({r.lo, r.hi}, rank(s)) && RangeFound(c, cache, active, DefOf(c, s).ranges, Some(r))
      modifies `cache
      ensures Calculating(s, active) && ExtendsBut(c, old(cache), cache, s)
      ensures Finished(c, user, cache, active, s)
      decreases rank(s), 8
    {
      var bound := FindBound(s, r, active);
      if bound.Some? {
        ghost var k := cache;
        Store(s, SymVal(c.numbers.fromNumber(bound.value, s.stype.Hex?), NO), active);
        ExtendsButTrans(c, old(cache), k, cache, s);
      }
    }

    // sym_validate_range; the number is already in curr
    method ValidateRange(s: Symbol, ghost active: set<Symbol>)
      requires Calculating(s, active) && IsText(s) && TextHeld(c, user, cache, active, s)
      modifies `cache
      ensures Calculating(s, active) && ExtendsBut(c, old(cache), cache, s)
      ensures Finished(c, user, cache, active, s)
      decreases rank(s), 9
    {
      if !IsNumber(s) {
        NoRangeFinished(c, user, cache, active, s);
        return;
      }
      var p := FindRange(s, active);
      if p.None? {
        NoRangeFinished(c, user, cache, active, s);
        return;
      }
      ghost var k := cache;
      ApplyRange(s, p.value, active);
      ExtendsButTrans(c, old(cache), k, cache, s);
    }

    method CalcLogic(s: Symbol, ghost active: set<Symbol>)
      requires Calculating(s, active) && IsLogic(s) && LimitsDone(c, cache, active, s)
      requires s in cache.write <==> LimitsOf(cache, s).visible != NO
      modifies `cache
      ensures Calculating(s, active) && ExtendsBut(c, old(cache), cache, s)
      ensures Finished(c, user, cache, active, s)
      decreases rank(s), 9
    {
      var t := CalcOwnTri(s, active);
      ghost var k := cache;
      CalcIsTri(c, user, cache, active, s);
      Store(s, SymVal("n", t), active);
      ExtendsButTrans(c, old(cache), k, cache, s);
    }

    method CalcText(s: Symbol, ghost active: set<Symbol>)
      requires Calculating(s, active) && IsText(s) && LimitsDone(c, cache, active, s)
      requires s in cache.write <==> LimitsOf(cache, s).visible != NO
      modifies `cache
      ensures Calculating(s, active) && ExtendsBut(c, old(cache), cache, s)
      ensures Finished(c, user, cache, active, s)
      decreases rank(s), 10
    {
      hide Settled, Reads, Writes, Calc, CalcLimits, LimitReads, TextOf, ValueReads;
      var val := CalcOwnText(s, active);
      ghost var k := cache;
      SetCurr(s, SymVal(val, NO), active);
      ghost var k' := cache;
      ExtendsButTrans(c, old(cache), k, k', s);
      TextIsHeld(c, user, k, k', active, cleared, s, val);
      ValidateRange(s, active);
      ExtendsButTrans(c, old(cache), k', cache, s);
    }

    // SYMBOL_VALID is set and SYMBOL_WRITE cleared before anything is calculated.
    method Begin(s: Symbol, ghost active: set<Symbol>)
      requires Ok(active) && Ready(rank(s) + 1, active) && s !in cache.valid && IsTyped(s)
      modifies `cache
      ensures Calculating(s, active + {s}) && ExtendsBut(c, old(cache), cache, s)
      ensures St(cache)(s) == St(old(cache))(s) && cache.modulesVal == old(cache).modulesVal && s !in cache.write
    {
      hide Settled, Reads, Writes, Calc;
      ghost var k := cache;
      cache := cache.(valid := cache.valid + {s}, write := cache.write - {s});
      assert forall t: Symbol | t != s :: SameAt(k, cache, t);
      SoundWhileActive(c, user, k, cache, active, cleared, s);
    }

    // Visibility first, then the value.
    method CalcTyped(s: Symbol, ghost active: set<Symbol>)
      requires Calculating(s, active) && s !in cache.write
      modifies `cache
      ensures Calculating(s, active) && ExtendsBut(c, old(cache), cache, s)
      ensures Finished(c, user, cache, active, s)
      decreases rank(s), 11
    {
      CalcVisibility(s, active);
      ghost var k1 := cache;
      SetWrite(s, LimitsOf(cache, s).visible != NO, active);
      ghost var k2 := cache;
      ExtendsButTrans(c, old(cache), k1, k2, s);
      if IsLogic(s) {
        CalcLogic(s, active);
      } else {
        CalcText(s, active);
      }
      ExtendsButTrans(c, old(cache), k2, cache, s);
    }

    // The last step: modules_val follows the modules symbol.
    method Finish(s: Symbol, oldval: SymVal, ghost active: set<Symbol>)
      requires Calculating(s, active + {s}) && s !in active && s !in cleared
      requires Finished(c, user, cache, active + {s}, s)
      requires s == c.modules ==> cache.modulesVal == oldval.tri
      modifies `cache
      ensures Ok(active) && s in cache.valid
      ensures cache == old(cache).(modulesVal := if s == c.modules then St(cache)(s).tri else old(cache).modulesVal)
    {
      ghost var k := cache;
      if St(cache)(s) != oldval && s == c.modules {
        cache := cache.(modulesVal := St(cache)(s).tri);
      }
      FinishedIsSettled(c, user, k, active + {s}, cleared, s);
      SoundWhenDone(c, user, k, cache, active, cleared, s);
    }

    lemma UntypedOk(k: Cache, k': Cache, active: set<Symbol>, s: Symbol)
      requires Sound(c, user, k, active, cleared) && ModulesDefined(c)
      requires s !in k.valid && !IsTyped(s) && !IsLetter(s) && s !in active
      requires k' == k.(valid := k.valid + {s}, curr := k.curr[s := SymVal(s.name, NO)])
      ensures Sound(c, user, k', active, cleared) && Extends(c, k, k')
    {
      assert forall t: Symbol | t != s :: SameAt(k, k', t);
      SoundWhileActive(c, user, k, k', active, cleared, s);
      assert Defined(c.modules);
      SoundWhenDone(c, user, k', k', active, cleared, s);
    }

    // Neither bool, tristate, string nor number: the value is the name.
    method CalcUntyped(s: Symbol, ghost active: set<Symbol>)
      requires Ok(active) && Ready(rank(s) + 1, active) && s !in cache.valid && !IsTyped(s)
      modifies `cache
      ensures Ok(active) && Extends(c, old(cache), cache) && s in cache.valid - active
    {
      ghost var k := cache;
      cache := cache.(valid := cache.valid + {s}, curr := cache.curr[s := SymVal(s.name, NO)]);
      UntypedOk(k, cache, active, s);
    }

    method CalcNew(s: Symbol, ghost active: set<Symbol>)
      requires Ok(active) && Ready(rank(s) + 1, active) && s !in cache.valid && IsTyped(s) && s !in active
      modifies `cache
      ensures Ok(active) && Extends(c, old(cache), cache) && s in cache.valid
      decreases rank(s), 12
    {
      hide Settled, Reads, Writes, Calc, CalcLimits;
      var oldval := St(cache)(s);
      Begin(s, active);
      ghost var k := cache;
      CalcTyped(s, active + {s});
      ghost var k' := cache;
      ExtendsButTrans(c, old(cache), k, k', s);
      Finish(s, oldval, active);
      FinishExtends(c, old(cache), k', cache, s);
    }

    // sym_calc_value
    method CalcValue(s: Symbol, ghost active: set<Symbol>)
      requires Ok(active) && Ready(rank(s) + 1, active)
      modifies `cache
      ensures Ok(active) && Extends(c, old(cache), cache)
      ensures s in cache.valid - active
      decreases rank(s), 13
    {
      if s !in cache.valid {
        if IsTyped(s) {
          CalcNew(s, active);
        } else {
          CalcUntyped(s, active);
        }
      }
    }

    // ------------------------------------------------- between calculations

    // Nothing is being calculated, and the modules symbol is known.
    ghost predicate Valid()
      reads this
    {
      Ok({}) && c.modules in cache.valid
    }

    // What a table must hold before anything is valid in it.
    ghost predicate Blank()
      reads this
    {
      && Acyclic(c, rank) && ModulesDefined(c) && NoBoolMod(St(cache))
      && cache.modulesVal == St(cache)(c.modules).tri
    }

    constructor (c: Config, ghost rank: Rank)
      requires Acyclic(c, rank) && ModulesDefined(c)
      ensures Blank() && this.c == c && this.rank == rank && user == map[]
    {
      this.c, this.rank, user := c, rank, map[];
      cache, cleared := Cache({}, {}, map[], map[], NO), {};
      new;
      assert Defined(c.modules);
    }

    // sym_clear_all_valid: the constant symbols stay valid
    method ClearAllValid()
      requires Blank()
      modifies this
      ensures Valid() && user == old(user) && cleared == {}
    {
      cache := cache.(valid := LETTERS);
      cleared := {};
      LettersSettled(c, user, cache);
      CalcValue(c.modules, {});
    }

    // sym_calc_value, called from outside: the value is the one that the
    // definition by plain recursion gives, whatever was calculated before.
    method Calculate(s: Symbol)
      requires Valid()
      modifies `cache
      ensures Valid() && Extends(c, old(cache), cache) && s in cache.valid
      ensures St(cache)(s) == Eval(c, rank, user, s)
    {
      CalcValue(s, {});
      SoundIsEval(c, rank, user, cache, cleared, s);
    }

    // In any order.
    method CalculateAll(order: seq<Symbol>)
      requires Blank()
      modifies this
      ensures Valid() && user == old(user)
      ensures forall s | s in order :: s in cache.valid && St(cache)(s) == Eval(c, rank, user, s)
    {
      hide Settled, Acyclic, Eval;
      ClearAllValid();
      var i := 0;
      while i < |order|
        invariant 0 <= i <= |order| && Valid() && user == old(user)
        invariant forall j | 0 <= j < i :: order[j] in cache.valid
      {
        Calculate(order[i]);
        i := i + 1;
      }
      forall s | s in order ensures s in cache.valid && St(cache)(s) == Eval(c, rank, user, s) {
        SoundIsEval(c, rank, user, cache, cleared, s);
      }
    }

    // sym_tristate_within_range, on the fields as they are
    method TristateWithinRange(s: Symbol, val: Tri) returns (ok: bool)
      ensures ok == WithinRange(s, LimitsOf(cache, s), cache.modulesVal, val)
    {
      var lim, t := LimitsOf(cache, s), TypeOf(s, cache.modulesVal);
      if lim.visible == NO {
        return false;
      }
      if !t.Boolean? && !t.Tristate? {
        return false;
      }
      if t.Boolean? && val == MOD {
        return false;
      }
      if lim.visible <= lim.revDep {
        return false;
      }
      if lim.implied == YES && val == MOD {
        return false;
      }
      return val >= lim.revDep && val <= lim.visible;
    }

    // sym_set_tristate_value.  When the value does not change nothing is
    // cleared, and the cache is still right exactly if it is not capped.
    method SetTristateValue(s: Symbol, val: Tri) returns (ok: bool)
      requires Valid() && IsLogic(s) && IsTyped(s)
      modifies this
      ensures ok == (St(old(cache))(s).tri == val
                     || WithinRange(s, LimitsOf(old(cache), s), old(cache).modulesVal, val))
      ensures Blank()
      ensures !ok ==> cache == old(cache) && user == old(user) && Valid()
      ensures ok ==> user == SetUser(old(user), s, val)
      ensures St(old(cache))(s).tri == val ==> cache == old(cache)
      ensures ok && (St(old(cache))(s).tri != val || s !in old(cache).valid) ==> Valid()
      ensures ok && St(old(cache))(s).tri == val && s in old(cache).valid ==>
        (Valid() <==> !Capped(LimitsOf(old(cache), s), val))
    {
      var oldval := St(cache)(s).tri;
      if oldval != val {
        ok := TristateWithinRange(s, val);
        if !ok {
          return;
        }
      }
      ghost var u := user;
      user := SetUser(user, s, val);
      if oldval != val {
        ClearAllValid();
      } else {
        KeptBySet(c, u, cache, cleared, s, val);
      }
      ok := true;
    }

    // Set, forget everything, and look again: the value set is what one gets,
    // exactly if it is not capped.  A new value never is.
    method SetThenGet(s: Symbol, val: Tri) returns (ok: bool, got: Tri)
      requires Valid() && IsLogic(s) && IsTyped(s) && s in cache.valid
      modifies this
      ensures Valid() && got == Eval(c, rank, user, s).tri
      ensures !ok ==> user == old(user)
      ensures ok ==> (got == val <==> !Capped(LimitsOf(old(cache), s), val))
    {
      hide Settled, Reads, Writes, Calc, CalcLimits, Eval, WithinRange;
      ghost var k, u := cache, user;
      SetOutcome(c, rank, u, k, cleared, s, val);
      ok := SetTristateValue(s, val);
      ClearAllValid();
      Calculate(s);
      got := St(cache)(s).tri;
    }

    // No run of calculations and of settings of bools leaves a valid bit on a
    // stale value.
    method Run(actions: seq<Action>)
      requires Valid() && forall a | a in actions && a.Set? :: a.sym.stype.Boolean? && IsTyped(a.sym)
      modifies this
      ensures Valid() && forall s | s in cache.valid :: St(cache)(s) == Eval(c, rank, user, s)
    {
      var i := 0;
      while i < |actions|
        invariant 0 <= i <= |actions| && Valid()
      {
        match actions[i] {
          case Get(s) =>
            Calculate(s);
          case Set(s, val) =>
            if s in cache.valid {
              BoolNotCapped(c, user, cache, cleared, s);
            }
            var _ := SetTristateValue(s, val);
        }
        i := i + 1;
      }
      forall s | s in cache.valid ensures St(cache)(s) == Eval(c, rank, user, s) {
        SoundIsEval(c, rank, user, cache, cleared, s);
      }
    }

    // ----------------------------------------------- what a writer looks at

    // The writer takes SYMBOL_WRITE away from a symbol it has seen.
    method ClearWrite(s: Symbol)
      requires Valid() && s in cache.valid
      modifies `cache, `cleared
      ensures Valid() && cleared == old(cleared) + {s}
      ensures cache == old(cache).(write := old(cache).write - {s})
    {
      ClearedSound(c, user, cache, cache.(write := cache.write - {s}), cleared, s);
      cache := cache.(write := cache.write - {s});
      cleared := cleared + {s};
    }

    // sym_get_string_value
    method GetStringValue(s: Symbol) returns (str: string)
      requires Valid() && s in cache.valid
      modifies `cache
      ensures Valid() && Extends(c, old(cache), cache)
      ensures str == StringOf(s, Eval(c, rank, user, s), Eval(c, rank, user, c.modules).tri)
    {
      SoundIsEval(c, rank, user, cache, cleared, s);
      SoundIsEval(c, rank, user, cache, cleared, c.modules);
      str := StringValue(s, rank(s) + 1, {});
      ReadingKept(c, user, old(cache), cache, {}, cleared, s);
    }

    // The four limits of a valid symbol, calculated once more.
    method SeeVisible(s: Symbol) returns (tri: Tri)
      requires Valid() && s in cache.valid && IsTyped(s)
      modifies `cache
      ensures Valid() && Extends(c, old(cache), cache) && tri == LimitsOf(cache, s).visible
    {
      hide Writes, Calc;
      OperandsUnder(s);
      tri := CalcPrompts(DefOf(c, s).prompts, rank(s), {});
      tri := Promote(tri, !s.stype.Tristate? || cache.modulesVal == NO);
      assert Settled(c, user, cache, {}, cleared, s);
    }

    method SeeDirDep(s: Symbol) returns (tri: Tri)
      requires Valid() && s in cache.valid && IsTyped(s)
      modifies `cache
      ensures Valid() && Extends(c, old(cache), cache) && tri == LimitsOf(cache, s).dirDep
    {
      hide Writes, Calc;
      OperandsUnder(s);
      tri := CalcOpt(DefOf(c, s).dirDep, rank(s), {});
      tri := Promote(tri, TypeOf(s, cache.modulesVal).Boolean?);
      assert Settled(c, user, cache, {}, cleared, s);
    }

    method SeeRevDep(s: Symbol) returns (tri: Tri)
      requires Valid() && s in cache.valid && IsTyped(s)
      modifies `cache
      ensures Valid() && Extends(c, old(cache), cache) && tri == LimitsOf(cache, s).revDep
    {
      hide Writes, Calc;
      OperandsUnder(s);
      tri := CalcOrNo(DefOf(c, s).revDep, rank(s), {});
      tri := Promote(tri, TypeOf(s, cache.modulesVal).Boolean?);
      assert Settled(c, user, cache, {}, cleared, s);
    }

    method SeeImplied(s: Symbol, dirDep: Tri) returns (tri: Tri)
      requires Valid() && s in cache.valid && IsTyped(s) && dirDep == LimitsOf(cache, s).dirDep
      modifies `cache
      ensures Valid() && Extends(c, old(cache), cache) && tri == LimitsOf(cache, s).implied
    {
      hide Writes, Calc;
      OperandsUnder(s);
      assert Settled(c, user, cache, {}, cleared, s);
      tri := NO;
      if dirDep != NO {
        tri := CalcOrNo(DefOf(c, s).implied, rank(s), {});
      }
      tri := Promote(tri, TypeOf(s, cache.modulesVal).Boolean?);
      assert Settled(c, user, cache, {}, cleared, s);
    }

    // sym_calc_visibility, of a valid symbol: the fields are set to what they
    // are.
    method SeeAgain(s: Symbol)
      requires Valid() && s in cache.valid && IsTyped(s)
      modifies `cache
      ensures Valid() && Extends(c, old(cache), cache)
    {
      hide Sound, Acyclic, SameAt;
      var visible := SeeVisible(s);
      ghost var k1 := cache;
      var dirDep := SeeDirDep(s);
      ghost var k2 := cache;
      ExtendsTrans(c, old(cache), k1, k2);
      var revDep := SeeRevDep(s);
      ghost var k3 := cache;
      ExtendsTrans(c, old(cache), k2, k3);
      SameLimits(c, k2, k3, s);
      var implied := SeeImplied(s, dirDep);
      ghost var k4 := cache;
      ExtendsTrans(c, old(cache), k3, k4);
      SameLimits(c, k3, k4, s);
      SameLimits(c, k1, k2, s);
      RewriteLimits(s, Limits(visible, dirDep, revDep, implied));
      ExtendsTrans(c, old(cache), k4, cache);
    }

    method RewriteLimits(s: Symbol, lim: Limits)
      requires Valid() && lim == LimitsOf(cache, s)
      modifies `cache
      ensures Valid() && Extends(c, old(cache), cache)
    {
      RewrittenSound(c, user, cache, cache.(limits := cache.limits[s := lim]), cleared, s);
      cache := cache.(limits := cache.limits[s := lim]);
    }

    // sym_get_string_default
    method GetStringDefault(s: Symbol) returns (str: string)
      requires Valid() && s in cache.valid && IsTyped(s)
      modifies `cache
      ensures Valid() && Extends(c, old(cache), cache)
      ensures str == StringDefault(c, s, EvalState(c, rank, user))
    {
      SeeAgain(s);
      ghost var k := cache;
      if IsLogic(s) {
        str := GetLetterDefault(s);
      } else {
        str := GetTextDefault(s);
      }
      ExtendsTrans(c, old(cache), k, cache);
    }

    method GetTextDefault(s: Symbol) returns (str: string)
      requires Valid() && s in cache.valid && IsTyped(s) && IsText(s)
      modifies `cache
      ensures Valid() && Extends(c, old(cache), cache)
      ensures str == StringDefault(c, s, EvalState(c, rank, user))
    {
      var found;
      str, found := CalcDefaultText(s, {});
      DefaultTextIsEval(c, rank, user, cache, cleared, s, str, found);
    }

    method GetLetterDefault(s: Symbol) returns (str: string)
      requires Valid() && s in cache.valid && IsTyped(s) && IsLogic(s)
      modifies `cache
      ensures Valid() && Extends(c, old(cache), cache)
      ensures str == StringDefault(c, s, EvalState(c, rank, user))
    {
      hide Settled, Reads, Writes, Calc, CalcLimits, StringDefault;
      CalcValue(c.modules, {});
      ghost var k := cache;
      var val := CalcDefault(s, {});
      ExtendsTrans(c, old(cache), k, cache);
      str := LimitDefault(val, LimitsOf(cache, s), St(cache)(c.modules).tri, s.stype.Boolean?);
      LetterDefaultIsEval(c, rank, user, cache, cleared, s, val);
    }

    static method LimitDefault(t: Tri, lim: Limits, modules: Tri, isBool: bool) returns (str: string)
      ensures str == Letter(Ap(Or, Promote(Ap(Or, t, lim.revDep), modules == NO || isBool), lim.implied))
    {
      var val := Ap(Or, t, lim.revDep);
      if val == MOD && modules == NO {
        val := YES;
      }
      if isBool && val == MOD {
        val := YES;
      }
      if val < lim.implied {
        val := lim.implied;
      }
      str := Letter(val);
    }
  }

  // A table without user values, in which s is cached.
  method CacheOne(c: Config, ghost rank: Rank, s: Symbol) returns (t: SymbolTable)
    requires Acyclic(c, rank) && ModulesDefined(c)
    ensures fresh(t) && t.c == c && t.rank == rank && t.user == map[]
    ensures t.Valid() && s in t.cache.valid && St(t.cache)(s) == Eval(c, rank, map[], s)
  {
    hide Acyclic, ModulesDefined, Eval;
    t := new SymbolTable(c, rank);
    t.ClearAllValid();
    t.Calculate(s);
  }

  // T is cached as y and then set to y.
  method CacheCapped(numbers: Numbers) returns (t: SymbolTable)
    ensures fresh(t) && t.c == Example(false, true, false, numbers) && t.rank == RANK
    ensures t.Blank() && t.user == SetUser(map[], T, YES) && St(t.cache)(T).tri == YES
  {
    CappedExample(numbers);
    var c := Example(false, true, false, numbers);
    assert ModulesDefined(c) && IsLogic(T) && IsTyped(T);
    hide Example, WithinRange, Capped, CalcLimits, SetUser, Acyclic, ModulesDefined, Eval, Sound, IsTyped, IsLogic;
    t := CacheOne(c, RANK, T);
    var _ := t.SetTristateValue(T, YES);
  }

  // A stale cache: after setting T to the y it has, T is cached as y, and m
  // once the cache is cleared.
  method SetCapped(numbers: Numbers) returns (cached: Tri, recalculated: Tri)
    ensures cached == YES && recalculated == MOD
  {
    CappedExample(numbers);
    hide Example, Capped, CalcLimits, SetUser, Sound, Acyclic, ModulesDefined, Eval;
    var t := CacheCapped(numbers);
    cached := St(t.cache)(T).tri;
    t.ClearAllValid();
    t.Calculate(T);
    recalculated := St(t.cache)(T).tri;
  }
}
