// The calculated fields of all symbols as one value, when they are sound, and
// what a step of the calculation keeps.  SymbolTable.dfy takes the steps.

module SymbolCache {
  import opened Wrappers
  import opened Expressions
  import opened SymbolValue
  import opened SymbolEval
  import opened SymbolExamples

  // The calculated part of all symbols: who carries SYMBOL_VALID and
  // SYMBOL_WRITE, curr, and visible, dir_dep.tri, rev_dep.tri, implied.tri;
  // and the variable modules_val.
  datatype Cache = Cache(
    valid: set<Symbol>, write: set<Symbol>, curr: map<Symbol, SymVal>, limits: map<Symbol, Limits>, modulesVal: Tri)

  const LETTERS: set<Symbol> := {SYM_NO, SYM_MOD, SYM_YES}

  function LetterValue(s: Symbol): SymVal {
    SymVal(s.name, if s == SYM_YES then YES else if s == SYM_MOD then MOD else NO)
  }

  function Current(curr: map<Symbol, SymVal>): State {
    (s: Symbol) => if IsLetter(s) then LetterValue(s) else if s in curr then curr[s] else SymVal("", NO)
  }

  function St(k: Cache): State {
    Current(k.curr)
  }

  function LimitsOf(k: Cache, s: Symbol): Limits {
    if s in k.limits then k.limits[s] else NO_LIMITS
  }

  // A valid symbol holds what it calculates from other valid symbols.
  // `active` are the symbols being calculated, `cleared` those whose
  // SYMBOL_WRITE was taken away by a writer.
  ghost predicate Settled(c: Config, u: User, k: Cache, active: set<Symbol>, cleared: set<Symbol>, s: Symbol) {
    && Reads(c, u, s, St(k)) <= k.valid - active
    && St(k)(s) == Calc(c, u, s, St(k))
    && (IsTyped(s) ==>
          && LimitsOf(k, s) == CalcLimits(c, s, St(k))
          && (s in k.write <==> Writes(c, u, s, St(k)) && s !in cleared))
  }

  ghost predicate Sound(c: Config, u: User, k: Cache, active: set<Symbol>, cleared: set<Symbol>) {
    && LETTERS <= k.valid && LETTERS !! active
    && NoBoolMod(St(k))
    && (c.modules !in active ==> k.modulesVal == St(k)(c.modules).tri)
    && (forall s | s in k.valid && s !in active :: Settled(c, u, k, active, cleared, s))
  }

  predicate Defined(s: Symbol) {
    IsTyped(s) || s == SYM_NO
  }

  // modules_sym is the symbol with the modules option, or n.
  ghost predicate ModulesDefined(c: Config) {
    forall s: Symbol {:trigger Defined(s)} | s == c.modules :: Defined(s)
  }

  ghost predicate SameAt(k: Cache, k': Cache, s: Symbol) {
    && St(k)(s) == St(k')(s) && LimitsOf(k, s) == LimitsOf(k', s) && (s in k.write <==> s in k'.write)
  }

  // Calculating more symbols leaves the valid ones alone.
  ghost predicate Extends(c: Config, k: Cache, k': Cache) {
    && k.valid <= k'.valid
    && (forall s | s in k.valid :: SameAt(k, k', s))
    && (c.modules in k.valid ==> k.modulesVal == k'.modulesVal)
  }

  lemma ExtendsTrans(c: Config, k: Cache, k': Cache, k'': Cache)
    requires Extends(c, k, k') && Extends(c, k', k'')
    ensures Extends(c, k, k'')
  {
    forall s | s in k.valid ensures SameAt(k, k'', s) {
      assert SameAt(k, k', s) && SameAt(k', k'', s);
    }
  }

  // The values of evaluated expressions stay.
  lemma ValueKept(c: Config, u: User, k: Cache, k': Cache, active: set<Symbol>, cleared: set<Symbol>, e: Option<Expr>)
    requires Sound(c, u, k, active, cleared) && Extends(c, k, k') && NoBoolMod(St(k'))
    requires SymbolsOpt(e) <= k.valid - active
    ensures ValueOpt(e, Readings(c, St(k))) == ValueOpt(e, Readings(c, St(k')))
    ensures OrNo(e, Readings(c, St(k))) == OrNo(e, Readings(c, St(k')))
  {
    var r := SymbolsOpt(e);
    forall s | s in r ensures St(k)(s) == St(k')(s) { assert SameAt(k, k', s); }
    forall s | s in r && s.stype.Tristate? ensures St(k)(c.modules) == St(k')(c.modules) {
      assert Settled(c, u, k, active, cleared, s);
      assert c.modules in Reads(c, u, s, St(k));
      assert SameAt(k, k', c.modules);
    }
    ValuesAgree(c, e, St(k), St(k'));
  }

  lemma ReadingKept(c: Config, u: User, k: Cache, k': Cache, active: set<Symbol>, cleared: set<Symbol>, s: Symbol)
    requires Sound(c, u, k, active, cleared) && Extends(c, k, k') && NoBoolMod(St(k'))
    requires s in k.valid - active
    ensures Readings(c, St(k))(s) == Readings(c, St(k'))(s)
  {
    assert SameAt(k, k', s);
    if s.stype.Tristate? {
      assert Settled(c, u, k, active, cleared, s);
      assert c.modules in Reads(c, u, s, St(k));
      assert SameAt(k, k', c.modules);
    }
  }

  // A change that touches only symbols nobody settled has read.
  lemma SettledKept(
    c: Config, u: User, k: Cache, k': Cache, active: set<Symbol>, active': set<Symbol>, cleared: set<Symbol>, s: Symbol)
    requires Settled(c, u, k, active, cleared, s) && SameAt(k, k', s)
    requires NoBoolMod(St(k)) && NoBoolMod(St(k'))
    requires k.valid - active <= k'.valid - active'
    requires forall t | t in k.valid - active :: St(k)(t) == St(k')(t)
    ensures Settled(c, u, k', active', cleared, s)
  {
    CalcAgrees(c, u, s, St(k), St(k'));
    if IsTyped(s) { WritesAgree(c, u, s, St(k), St(k')); }
  }

  lemma WritesAgree(c: Config, u: User, s: Symbol, st: State, st': State)
    requires IsTyped(s) && NoBoolMod(st) && NoBoolMod(st') && forall t | t in Reads(c, u, s, st) :: st(t) == st'(t)
    requires CalcLimits(c, s, st) == CalcLimits(c, s, st')
    ensures Writes(c, u, s, st) == Writes(c, u, s, st')
  {
    ReadsAgree(c, u, s, st, st');
    if !UsesUser(s, u, CalcLimits(c, s, st)) { OwnAgrees(c, u, s, st, st'); }
  }

  // Setting SYMBOL_VALID on s, and calculating the fields of s step by step.
  lemma SoundWhileActive(c: Config, u: User, k: Cache, k': Cache, active: set<Symbol>, cleared: set<Symbol>, s: Symbol)
    requires Sound(c, u, k, active, cleared) && !IsLetter(s)
    requires s !in k.valid || s in active
    requires k'.valid == k.valid + {s} && NoBoolMod(St(k'))
    requires forall t | t != s :: SameAt(k, k', t)
    requires k'.modulesVal == k.modulesVal
    ensures Sound(c, u, k', active + {s}, cleared)
  {
    forall t | t in k'.valid && t !in active + {s} ensures Settled(c, u, k', active + {s}, cleared, t) {
      assert SameAt(k, k', t);
      forall x | x in k.valid - active ensures St(k)(x) == St(k')(x) { assert SameAt(k, k', x); }
      SettledKept(c, u, k, k', active, active + {s}, cleared, t);
    }
    if c.modules !in active + {s} { assert SameAt(k, k', c.modules); }
  }

  // s is done.
  lemma SoundWhenDone(
    c: Config, u: User, k: Cache, k': Cache, active: set<Symbol>, cleared: set<Symbol>, s: Symbol)
    requires Sound(c, u, k, active + {s}, cleared) && s in k.valid && s !in active && !IsLetter(s)
    requires k'.valid == k.valid && NoBoolMod(St(k')) && (forall t | t != s :: SameAt(k, k', t))
    requires Settled(c, u, k', active + {s}, cleared, s)
    requires if c.modules == s then k'.modulesVal == St(k')(s).tri else k'.modulesVal == k.modulesVal
    ensures Sound(c, u, k', active, cleared)
  {
    forall t | t in k'.valid && t !in active ensures Settled(c, u, k', active, cleared, t) {
      if t != s {
        assert SameAt(k, k', t);
        forall x | x in k.valid - (active + {s}) ensures St(k)(x) == St(k')(x) { assert SameAt(k, k', x); }
        SettledKept(c, u, k, k', active + {s}, active, cleared, t);
      }
    }
    if c.modules !in active && c.modules != s { assert SameAt(k, k', c.modules); }
  }

  // A sound cache holds the values of the cache-free definition.
  lemma SoundIsEval(c: Config, rank: Rank, u: User, k: Cache, cleared: set<Symbol>, s: Symbol)
    requires Acyclic(c, rank) && Sound(c, u, k, {}, cleared) && s in k.valid
    ensures St(k)(s) == Eval(c, rank, u, s)
  {
    forall t | t in k.valid ensures Reads(c, u, t, St(k)) <= k.valid && St(k)(t) == Calc(c, u, t, St(k)) {
      assert Settled(c, u, k, {}, cleared, t);
    }
    ClosedIsEval(c, rank, u, k.valid, St(k), s);
  }

  // ------------------------------------------- steps of the calculation of s

  // Everything but s stays, and more may be valid.
  ghost predicate ExtendsBut(c: Config, k: Cache, k': Cache, s: Symbol) {
    && k.valid <= k'.valid
    && (forall t | t in k.valid && t != s :: SameAt(k, k', t))
    && (c.modules in k.valid ==> k.modulesVal == k'.modulesVal)
  }

  lemma ExtendsButTrans(c: Config, k: Cache, k': Cache, k'': Cache, s: Symbol)
    requires ExtendsBut(c, k, k', s) && ExtendsBut(c, k', k'', s)
    ensures ExtendsBut(c, k, k'', s)
  {
    forall t | t in k.valid && t != s ensures SameAt(k, k'', t) {
      assert SameAt(k, k', t) && SameAt(k', k'', t);
    }
  }

  // Only the limits of s differ.
  ghost predicate OnlyLimits(k: Cache, k': Cache, s: Symbol) {
    St(k)(s) == St(k')(s) && (s in k.write <==> s in k'.write)
  }

  // modules_val may follow s when s is done.
  lemma FinishExtends(c: Config, k: Cache, k': Cache, k'': Cache, s: Symbol)
    requires ExtendsBut(c, k, k', s) && s !in k.valid
    requires k'' == k'.(modulesVal := k''.modulesVal) && (s != c.modules ==> k''.modulesVal == k'.modulesVal)
    ensures Extends(c, k, k'')
  {
    forall t | t in k.valid ensures SameAt(k, k'', t) {
      assert SameAt(k, k', t);
    }
  }

  // What has been read from settled symbols still reads the same.
  lemma Kept(
    c: Config, u: User, k: Cache, k': Cache, active: set<Symbol>, cleared: set<Symbol>, s: Symbol, r: set<Symbol>)
    requires Sound(c, u, k, active, cleared) && ExtendsBut(c, k, k', s) && (s in active || Extends(c, k, k'))
    requires r <= k.valid - active
    ensures AgreeOn(c, r, St(k), St(k')) && r <= k'.valid - active
  {
    forall x | x in k.valid - active ensures St(k)(x) == St(k')(x) {
      if x != s { assert SameAt(k, k', x); }
    }
    forall x | x in r && x.stype.Tristate? ensures St(k)(c.modules) == St(k')(c.modules) {
      assert Settled(c, u, k, active, cleared, x);
      assert c.modules in Reads(c, u, x, St(k));
    }
  }

  lemma {:induction false} PromptWithin(ps: seq<Option<Expr>>, n: nat, i: nat)
    requires i < n <= |ps|
    ensures SymbolsOpt(ps[i]) <= PromptSymbols(ps, n)
  {
    if i < n - 1 { PromptWithin(ps, n - 1, i); }
  }

  // The limits of s, in the order sym_calc_visibility sets them.
  ghost predicate VisibleDone(c: Config, k: Cache, active: set<Symbol>, s: Symbol) {
    && PromptSymbols(DefOf(c, s).prompts, |DefOf(c, s).prompts|) <= k.valid - active
    && LimitsOf(k, s).visible == CalcLimits(c, s, St(k)).visible
  }

  ghost predicate DirDone(c: Config, k: Cache, active: set<Symbol>, s: Symbol) {
    && SymbolsOpt(DefOf(c, s).dirDep) <= k.valid - active
    && LimitsOf(k, s).dirDep == CalcLimits(c, s, St(k)).dirDep
  }

  ghost predicate RevDone(c: Config, k: Cache, active: set<Symbol>, s: Symbol) {
    && SymbolsOpt(DefOf(c, s).revDep) <= k.valid - active
    && LimitsOf(k, s).revDep == CalcLimits(c, s, St(k)).revDep
  }

  ghost predicate ModulesKnown(c: Config, k: Cache, active: set<Symbol>, s: Symbol) {
    s.stype.Tristate? ==> c.modules in k.valid - active
  }

  lemma PartsKept(c: Config, u: User, k: Cache, k': Cache, active: set<Symbol>, cleared: set<Symbol>, s: Symbol)
    requires Sound(c, u, k, active, cleared) && ExtendsBut(c, k, k', s) && s in active && NoBoolMod(St(k'))
    requires ModulesKnown(c, k, active, s)
    ensures VisibleDone(c, k, active, s) && LimitsOf(k', s).visible == LimitsOf(k, s).visible ==>
      VisibleDone(c, k', active, s)
    ensures DirDone(c, k, active, s) && LimitsOf(k', s).dirDep == LimitsOf(k, s).dirDep ==> DirDone(c, k', active, s)
    ensures RevDone(c, k, active, s) && LimitsOf(k', s).revDep == LimitsOf(k, s).revDep ==> RevDone(c, k', active, s)
  {
    var d := DefOf(c, s);
    if s.stype.Tristate? { assert SameAt(k, k', c.modules); }
    if VisibleDone(c, k, active, s) {
      Kept(c, u, k, k', active, cleared, s, PromptSymbols(d.prompts, |d.prompts|));
      PromptsAgree(c, d.prompts, |d.prompts|, St(k), St(k'));
    }
    if DirDone(c, k, active, s) {
      Kept(c, u, k, k', active, cleared, s, SymbolsOpt(d.dirDep));
      ValuesAgree(c, d.dirDep, St(k), St(k'));
    }
    if RevDone(c, k, active, s) {
      Kept(c, u, k, k', active, cleared, s, SymbolsOpt(d.revDep));
      ValuesAgree(c, d.revDep, St(k), St(k'));
    }
  }

  // The limits of s are calculated.
  ghost predicate LimitsDone(c: Config, k: Cache, active: set<Symbol>, s: Symbol) {
    && LimitsOf(k, s) == CalcLimits(c, s, St(k))
    && LimitReads(c, s, St(k)) <= k.valid - active
    && ModulesKnown(c, k, active, s)
  }

  lemma LimitsKept(
    c: Config, u: User, k: Cache, k': Cache, active: set<Symbol>, cleared: set<Symbol>, s: Symbol)
    requires Sound(c, u, k, active, cleared) && ExtendsBut(c, k, k', s) && s in active && NoBoolMod(St(k'))
    requires LimitsDone(c, k, active, s) && LimitsOf(k', s) == LimitsOf(k, s)
    ensures LimitsDone(c, k', active, s)
  {
    Kept(c, u, k, k', active, cleared, s, LimitReads(c, s, St(k)));
    if s.stype.Tristate? { assert SameAt(k, k', c.modules); }
    LimitsAgree(c, s, St(k), St(k'));
  }

  // The user value or the default of s is calculated.
  ghost predicate OwnDone(c: Config, u: User, k: Cache, active: set<Symbol>, s: Symbol) {
    && ValueReads(c, u, s, St(k)) <= k.valid - active
    && (s in k.write <==> Writes(c, u, s, St(k)))
  }

  function TriOf(c: Config, u: User, s: Symbol, st: State): Tri {
    var v := Readings(c, st);
    CalcTri(s, u, CalcLimits(c, s, st), FirstDefault(DefOf(c, s).defaults, 0, v), v, st(c.modules).tri)
  }

  lemma OwnStates(c: Config, u: User, s: Symbol, st: State, st': State)
    requires NoBoolMod(st) && NoBoolMod(st') && AgreeOn(c, ValueReads(c, u, s, st), st, st')
    requires CalcLimits(c, s, st) == CalcLimits(c, s, st') && (s.stype.Tristate? ==> st(c.modules) == st'(c.modules))
    ensures ValueReads(c, u, s, st) == ValueReads(c, u, s, st')
    ensures TextOf(c, u, s, st) == TextOf(c, u, s, st')
    ensures Writes(c, u, s, st) == Writes(c, u, s, st')
    ensures IsLogic(s) ==> TriOf(c, u, s, st) == TriOf(c, u, s, st')
  {
    if !UsesUser(s, u, CalcLimits(c, s, st)) { OwnAgrees(c, u, s, st, st'); }
  }

  lemma OwnKept(
    c: Config, u: User, k: Cache, k': Cache, active: set<Symbol>, cleared: set<Symbol>, s: Symbol)
    requires Sound(c, u, k, active, cleared) && ExtendsBut(c, k, k', s) && s in active && NoBoolMod(St(k'))
    requires LimitsDone(c, k, active, s) && LimitsDone(c, k', active, s) && LimitsOf(k', s) == LimitsOf(k, s)
    requires OwnDone(c, u, k, active, s) && (s in k.write <==> s in k'.write)
    ensures OwnDone(c, u, k', active, s)
    ensures TextOf(c, u, s, St(k)) == TextOf(c, u, s, St(k'))
    ensures IsLogic(s) ==> TriOf(c, u, s, St(k)) == TriOf(c, u, s, St(k'))
  {
    Kept(c, u, k, k', active, cleared, s, ValueReads(c, u, s, St(k)));
    if s.stype.Tristate? { assert SameAt(k, k', c.modules); }
    OwnStates(c, u, s, St(k), St(k'));
  }

  // Everything s reads is settled.
  ghost predicate AllRead(c: Config, u: User, k: Cache, active: set<Symbol>, s: Symbol) {
    && LimitsDone(c, k, active, s) && OwnDone(c, u, k, active, s)
    && BoundReads(c, u, s, St(k)) <= k.valid - active
  }

  lemma AllReadReads(c: Config, u: User, k: Cache, active: set<Symbol>, cleared: set<Symbol>, s: Symbol)
    requires Sound(c, u, k, active, cleared) && IsTyped(s) && AllRead(c, u, k, active, s)
    ensures Reads(c, u, s, St(k)) <= k.valid - active
  {
    var r := LimitReads(c, s, St(k)) + ValueReads(c, u, s, St(k)) + BoundReads(c, u, s, St(k));
    if t :| t in r && t.stype.Tristate? {
      assert Settled(c, u, k, active, cleared, t);
      assert c.modules in Reads(c, u, t, St(k));
    }
  }

  // Everything sym_calc_value calculates about s is in place.
  ghost predicate Finished(c: Config, u: User, k: Cache, active: set<Symbol>, s: Symbol) {
    AllRead(c, u, k, active, s) && St(k)(s) == Calc(c, u, s, St(k))
  }

  lemma FinishedIsSettled(c: Config, u: User, k: Cache, active: set<Symbol>, cleared: set<Symbol>, s: Symbol)
    requires Sound(c, u, k, active, cleared) && IsTyped(s) && s !in cleared && Finished(c, u, k, active, s)
    ensures Settled(c, u, k, active, cleared, s)
  {
    AllReadReads(c, u, k, active, cleared, s);
  }

  // -------------------------------------------------- properties tried in turn

  // The first i defaults do not apply.
  ghost predicate DefaultsSkipped(c: Config, k: Cache, active: set<Symbol>, ds: seq<DefaultProp>, i: nat)
    requires i <= |ds|
  {
    forall j | 0 <= j < i ::
      SymbolsOpt(ds[j].visible) <= k.valid - active && ValueOpt(ds[j].visible, Readings(c, St(k))) == NO
  }

  lemma {:induction false} DefaultsFrom(c: Config, k: Cache, active: set<Symbol>, ds: seq<DefaultProp>, i: nat)
    requires i <= |ds| && DefaultsSkipped(c, k, active, ds, i)
    ensures FirstDefault(ds, 0, Readings(c, St(k))) == FirstDefault(ds, i, Readings(c, St(k)))
    ensures DefaultReads(ds, 0, Readings(c, St(k))) <= (k.valid - active) + DefaultReads(ds, i, Readings(c, St(k)))
  {
    if i > 0 {
      DefaultsFrom(c, k, active, ds, i - 1);
      assert ValueOpt(ds[i - 1].visible, Readings(c, St(k))) == NO;
    }
  }

  lemma DefaultsSkippedKept(
    c: Config, u: User, k: Cache, k': Cache, active: set<Symbol>, cleared: set<Symbol>, ds: seq<DefaultProp>, i: nat)
    requires Sound(c, u, k, active, cleared) && Extends(c, k, k') && NoBoolMod(St(k'))
    requires i <= |ds| && DefaultsSkipped(c, k, active, ds, i)
    ensures DefaultsSkipped(c, k', active, ds, i)
  {
    forall j | 0 <= j < i
      ensures SymbolsOpt(ds[j].visible) <= k'.valid - active && ValueOpt(ds[j].visible, Readings(c, St(k'))) == NO
    {
      ValueKept(c, u, k, k', active, cleared, ds[j].visible);
    }
  }

  ghost predicate RangesSkipped(c: Config, k: Cache, active: set<Symbol>, rs: seq<RangeProp>, i: nat)
    requires i <= |rs|
  {
    forall j | 0 <= j < i ::
      SymbolsOpt(rs[j].visible) <= k.valid - active && ValueOpt(rs[j].visible, Readings(c, St(k))) == NO
  }

  lemma {:induction false} RangesFrom(c: Config, k: Cache, active: set<Symbol>, rs: seq<RangeProp>, i: nat)
    requires i <= |rs| && RangesSkipped(c, k, active, rs, i)
    ensures FirstRange(rs, 0, Readings(c, St(k))) == FirstRange(rs, i, Readings(c, St(k)))
    ensures RangeReads(rs, 0, Readings(c, St(k))) <= (k.valid - active) + RangeReads(rs, i, Readings(c, St(k)))
  {
    if i > 0 {
      RangesFrom(c, k, active, rs, i - 1);
      assert ValueOpt(rs[i - 1].visible, Readings(c, St(k))) == NO;
    }
  }

  lemma RangesSkippedKept(
    c: Config, u: User, k: Cache, k': Cache, active: set<Symbol>, cleared: set<Symbol>, rs: seq<RangeProp>, i: nat)
    requires Sound(c, u, k, active, cleared) && Extends(c, k, k') && NoBoolMod(St(k'))
    requires i <= |rs| && RangesSkipped(c, k, active, rs, i)
    ensures RangesSkipped(c, k', active, rs, i)
  {
    forall j | 0 <= j < i
      ensures SymbolsOpt(rs[j].visible) <= k'.valid - active && ValueOpt(rs[j].visible, Readings(c, St(k'))) == NO
    {
      ValueKept(c, u, k, k', active, cleared, rs[j].visible);
    }
  }

  // What sym_get_default_prop and sym_get_range_prop return.
  ghost predicate DefaultFound(
    c: Config, k: Cache, active: set<Symbol>, ds: seq<DefaultProp>, p: Option<DefaultProp>, vis: Tri)
  {
    && p == FirstDefault(ds, 0, Readings(c, St(k))) && DefaultReads(ds, 0, Readings(c, St(k))) <= k.valid - active
    && (p.Some? ==> vis == ValueOpt(p.value.visible, Readings(c, St(k))))
  }

  ghost predicate RangeFound(c: Config, k: Cache, active: set<Symbol>, rs: seq<RangeProp>, p: Option<RangeProp>) {
    p == FirstRange(rs, 0, Readings(c, St(k))) && RangeReads(rs, 0, Readings(c, St(k))) <= k.valid - active
  }

  lemma DefaultFoundKept(
    c: Config, u: User, k: Cache, k': Cache, active: set<Symbol>, cleared: set<Symbol>, ds: seq<DefaultProp>,
    p: Option<DefaultProp>, vis: Tri)
    requires Sound(c, u, k, active, cleared) && Extends(c, k, k') && NoBoolMod(St(k'))
    requires DefaultFound(c, k, active, ds, p, vis)
    ensures DefaultFound(c, k', active, ds, p, vis)
  {
    Kept(c, u, k, k', active, cleared, SYM_NO, DefaultReads(ds, 0, Readings(c, St(k))));
    DefaultsAgree(c, ds, 0, St(k), St(k'));
    if p.Some? {
      FirstDefaultRead(ds, 0, Readings(c, St(k)));
      ValueKept(c, u, k, k', active, cleared, p.value.visible);
    }
  }

  lemma RangeFoundKept(
    c: Config, u: User, k: Cache, k': Cache, active: set<Symbol>, cleared: set<Symbol>, rs: seq<RangeProp>,
    p: Option<RangeProp>)
    requires Sound(c, u, k, active, cleared) && Extends(c, k, k') && NoBoolMod(St(k'))
    requires RangeFound(c, k, active, rs, p)
    ensures RangeFound(c, k', active, rs, p)
  {
    Kept(c, u, k, k', active, cleared, SYM_NO, RangeReads(rs, 0, Readings(c, St(k))));
    RangesAgree(c, rs, 0, St(k), St(k'));
  }

  lemma DefaultFoundIn(c: Config, k: Cache, ds: seq<DefaultProp>, p: Option<DefaultProp>)
    requires p.Some? && p == FirstDefault(ds, 0, Readings(c, St(k)))
    ensures exists i :: 0 <= i < |ds| && ds[i] == p.value
  {
    var i := FirstDefaultIndex(ds, 0, Readings(c, St(k)));
  }

  lemma {:induction false} FirstDefaultIndex(ds: seq<DefaultProp>, i: nat, v: Valuation) returns (j: nat)
    requires i <= |ds| && FirstDefault(ds, i, v).Some?
    ensures i <= j < |ds| && FirstDefault(ds, i, v).value == ds[j]
    decreases |ds| - i
  {
    if ValueOpt(ds[i].visible, v) == NO { j := FirstDefaultIndex(ds, i + 1, v); } else { j := i; }
  }

  ghost predicate DefaultDone(c: Config, k: Cache, active: set<Symbol>, s: Symbol, t: Tri) {
    var ds, v := DefOf(c, s).defaults, Readings(c, St(k));
    var p := FirstDefault(ds, 0, v);
    && t == DefaultTri(p, v)
    && DefaultReads(ds, 0, v) <= k.valid - active
    && (p.Some? ==> Symbols(p.value.expr) <= k.valid - active)
  }

  // The user value of s, or its default and what is implied.
  function OwnOf(c: Config, u: User, s: Symbol, st: State): Tri {
    var lim, v := CalcLimits(c, s, st), Readings(c, st);
    if UsesUser(s, u, lim) then Ap(And, u[s].tri, lim.visible)
    else Ap(Or, DefaultTri(FirstDefault(DefOf(c, s).defaults, 0, v), v), lim.implied)
  }

  lemma OwnFromUser(c: Config, u: User, k: Cache, active: set<Symbol>, s: Symbol)
    requires IsLogic(s) && LimitsDone(c, k, active, s) && LimitsOf(k, s).visible != NO && s in u && s in k.write
    ensures OwnDone(c, u, k, active, s) && OwnOf(c, u, s, St(k)) == Ap(And, u[s].tri, LimitsOf(k, s).visible)
  {
  }

  lemma OwnFromDefault(c: Config, u: User, k: Cache, active: set<Symbol>, s: Symbol, t: Tri)
    requires IsLogic(s) && LimitsDone(c, k, active, s) && !UsesUser(s, u, LimitsOf(k, s))
    requires DefaultDone(c, k, active, s, t)
    requires s in k.write <==> var lim := LimitsOf(k, s);
      lim.visible != NO || lim.revDep != NO || lim.implied != NO || t != NO
    ensures OwnDone(c, u, k, active, s) && OwnOf(c, u, s, St(k)) == Ap(Or, t, LimitsOf(k, s).implied)
  {
  }

  lemma ModulesRead(c: Config, u: User, k: Cache, active: set<Symbol>, cleared: set<Symbol>, s: Symbol)
    requires Sound(c, u, k, active, cleared) && IsLogic(s) && LimitsDone(c, k, active, s)
    ensures TriOf(c, u, s, St(k)) == Promote(
      Ap(Or, OwnOf(c, u, s, St(k)), LimitsOf(k, s).revDep),
      TypeOf(s, k.modulesVal).Boolean? || LimitsOf(k, s).implied == YES)
  {
  }

  ghost predicate DefaultTextDone(c: Config, k: Cache, active: set<Symbol>, s: Symbol, val: string, found: bool) {
    var ds, v := DefOf(c, s).defaults, Readings(c, St(k));
    var t := DefaultSymbol(FirstDefault(ds, 0, v));
    && DefaultReads(ds, 0, v) <= k.valid - active
    && found == t.Some?
    && if t.Some? then t.value in k.valid - active && val == St(k)(t.value).val else val == ""
  }

  lemma TextFromUser(c: Config, u: User, k: Cache, active: set<Symbol>, s: Symbol)
    requires IsText(s) && LimitsDone(c, k, active, s) && LimitsOf(k, s).visible != NO && s in u && s in k.write
    ensures OwnDone(c, u, k, active, s) && TextOf(c, u, s, St(k)) == u[s].val
  {
  }

  lemma TextFromDefault(c: Config, u: User, k: Cache, active: set<Symbol>, s: Symbol, val: string, found: bool)
    requires IsText(s) && LimitsDone(c, k, active, s) && !UsesUser(s, u, LimitsOf(k, s))
    requires DefaultTextDone(c, k, active, s, val, found)
    requires s in k.write <==> LimitsOf(k, s).visible != NO || found
    ensures OwnDone(c, u, k, active, s) && TextOf(c, u, s, St(k)) == val
  {
  }

  // -------------------------------------------------------------- the range

  // curr holds the string the range is applied to.
  ghost predicate TextHeld(c: Config, u: User, k: Cache, active: set<Symbol>, s: Symbol) {
    && LimitsDone(c, k, active, s) && OwnDone(c, u, k, active, s)
    && St(k)(s) == SymVal(TextOf(c, u, s, St(k)), NO)
  }

  lemma TextHeldKept(
    c: Config, u: User, k: Cache, k': Cache, active: set<Symbol>, cleared: set<Symbol>, s: Symbol)
    requires Sound(c, u, k, active, cleared) && Extends(c, k, k') && s in active && s in k.valid && NoBoolMod(St(k'))
    requires TextHeld(c, u, k, active, s)
    ensures TextHeld(c, u, k', active, s)
  {
    assert SameAt(k, k', s);
    LimitsKept(c, u, k, k', active, cleared, s);
    OwnKept(c, u, k, k', active, cleared, s);
  }

  lemma RangeFoundIn(c: Config, k: Cache, rs: seq<RangeProp>, p: Option<RangeProp>)
    requires p.Some? && p == FirstRange(rs, 0, Readings(c, St(k)))
    ensures exists i :: 0 <= i < |rs| && rs[i] == p.value
  {
    var i := FirstRangeIndex(rs, 0, Readings(c, St(k)));
  }

  lemma {:induction false} FirstRangeIndex(rs: seq<RangeProp>, i: nat, v: Valuation) returns (j: nat)
    requires i <= |rs| && FirstRange(rs, i, v).Some?
    ensures i <= j < |rs| && FirstRange(rs, i, v).value == rs[j]
    decreases |rs| - i
  {
    if ValueOpt(rs[i].visible, v) == NO { j := FirstRangeIndex(rs, i + 1, v); } else { j := i; }
  }

  ghost predicate RangeChecked(
    c: Config, k: Cache, active: set<Symbol>, s: Symbol, r: RangeProp, bound: Option<int>)
  {
    var base := Base(s, 0);
    var x := c.numbers.toNumber(St(k)(s).val, base);
    var lo, hi := RangeValue(c, r.lo, base, St(k)), RangeValue(c, r.hi, base, St(k));
    && r.lo in k.valid - active
    && (lo <= x ==> r.hi in k.valid - active)
    && bound == if x < lo then Some(lo) else if x <= hi then None else Some(hi)
  }

  lemma NoRangeFinished(c: Config, u: User, k: Cache, active: set<Symbol>, s: Symbol)
    requires IsText(s) && TextHeld(c, u, k, active, s)
    requires IsNumber(s) ==> RangeFound(c, k, active, DefOf(c, s).ranges, None)
    ensures Finished(c, u, k, active, s)
  {
  }

  // What the bound found makes of the string.
  lemma BoundClamps(c: Config, u: User, k: Cache, active: set<Symbol>, s: Symbol, r: RangeProp, bound: Option<int>)
    requires IsNumber(s) && TextHeld(c, u, k, active, s)
    requires RangeFound(c, k, active, DefOf(c, s).ranges, Some(r)) && RangeChecked(c, k, active, s, r, bound)
    ensures AllRead(c, u, k, active, s)
    ensures Calc(c, u, s, St(k))
      == if bound.None? then St(k)(s) else SymVal(c.numbers.fromNumber(bound.value, s.stype.Hex?), NO)
  {
  }

  ghost predicate OnlyCurr(k: Cache, k': Cache, s: Symbol) {
    LimitsOf(k, s) == LimitsOf(k', s) && (s in k.write <==> s in k'.write)
  }

  lemma CalcIsTri(c: Config, u: User, k: Cache, active: set<Symbol>, s: Symbol)
    requires IsLogic(s) && !IsLetter(s) && LimitsDone(c, k, active, s) && OwnDone(c, u, k, active, s)
    ensures AllRead(c, u, k, active, s) && Calc(c, u, s, St(k)) == SymVal("n", TriOf(c, u, s, St(k)))
  {
  }

  // The final value is stored.
  lemma StoreFinished(
    c: Config, u: User, k: Cache, k': Cache, active: set<Symbol>, cleared: set<Symbol>, s: Symbol)
    requires Sound(c, u, k, active, cleared) && ExtendsBut(c, k, k', s) && s in active && NoBoolMod(St(k'))
    requires IsTyped(s) && AllRead(c, u, k, active, s) && OnlyCurr(k, k', s)
    requires St(k')(s) == Calc(c, u, s, St(k))
    ensures Finished(c, u, k', active, s)
  {
    AllReadReads(c, u, k, active, cleared, s);
    Kept(c, u, k, k', active, cleared, s, Reads(c, u, s, St(k)));
    PartsAgree(c, u, s, St(k), St(k'));
    CalcAgrees(c, u, s, St(k), St(k'));
    LimitsKept(c, u, k, k', active, cleared, s);
    OwnKept(c, u, k, k', active, cleared, s);
  }

  lemma TextIsHeld(
    c: Config, u: User, k: Cache, k': Cache, active: set<Symbol>, cleared: set<Symbol>, s: Symbol, val: string)
    requires Sound(c, u, k, active, cleared) && ExtendsBut(c, k, k', s) && s in active && NoBoolMod(St(k'))
    requires IsText(s) && LimitsDone(c, k, active, s) && OwnDone(c, u, k, active, s)
    requires val == TextOf(c, u, s, St(k)) && OnlyCurr(k, k', s) && St(k')(s) == SymVal(val, NO)
    ensures TextHeld(c, u, k', active, s)
  {
    LimitsKept(c, u, k, k', active, cleared, s);
    OwnKept(c, u, k, k', active, cleared, s);
  }

  // ------------------------------------------------------- setting a value

  lemma LettersSettled(c: Config, u: User, k: Cache)
    requires k.valid == LETTERS && NoBoolMod(St(k)) && k.modulesVal == St(k)(c.modules).tri
    ensures Sound(c, u, k, {}, {})
  {
  }

  function SetUser(u: User, s: Symbol, val: Tri): User {
    u[s := SymVal(if s in u then u[s].val else "", val)]
  }

  lemma SetUserElsewhere(u: User, s: Symbol, val: Tri)
    ensures var u' := SetUser(u, s, val);
      s in u' && u'[s].tri == val && u' == u[s := u'[s]] && forall t: Symbol | t != s :: SameUser(u, u', t)
  {
  }

  // The symbol is visible as m only, and y neither selects nor implies it: a
  // user value y would be cut down to m.
  predicate Capped(lim: Limits, val: Tri) {
    lim.visible == MOD && val == YES && lim.revDep != YES && lim.implied != YES
  }

  // The value a symbol has, given as user value, comes back unless it is
  // capped.
  lemma CalcTriSet(
    s: Symbol, u: User, u': User, lim: Limits, p: Option<DefaultProp>, p': Option<DefaultProp>, v: Valuation,
    v': Valuation, m: Tri, m': Tri)
    requires s in u' && u'[s].tri == CalcTri(s, u, lim, p, v, m) && (s.stype.Tristate? ==> m == m')
    requires TypeOf(s, m).Boolean? ==> lim.visible != MOD
    requires lim.visible == NO ==> CalcTri(s, u, lim, p, v, m) == CalcTri(s, u', lim, p', v', m')
    ensures CalcTri(s, u', lim, p', v', m') == u'[s].tri <==> !Capped(lim, u'[s].tri)
  {
  }

  // Giving s the user value that equals its cached value leaves the cache
  // right exactly if s is not cached or not capped.
  lemma KeptBySet(c: Config, u: User, k: Cache, cleared: set<Symbol>, s: Symbol, val: Tri)
    requires Sound(c, u, k, {}, cleared) && IsLogic(s) && IsTyped(s) && val == St(k)(s).tri && c.modules in k.valid
    ensures s !in k.valid || !Capped(LimitsOf(k, s), val) <==> Sound(c, SetUser(u, s, val), k, {}, cleared)
  {
    var u' := SetUser(u, s, val);
    forall t | t in k.valid && t != s ensures Settled(c, u', k, {}, cleared, t) {
      assert Settled(c, u, k, {}, cleared, t);
      CalcSameUser(c, u, u', t, St(k));
    }
    if s in k.valid {
      assert Settled(c, u, k, {}, cleared, s);
      SetSettled(c, u, k, cleared, s, val);
    }
  }

  lemma SetSettled(c: Config, u: User, k: Cache, cleared: set<Symbol>, s: Symbol, val: Tri)
    requires Settled(c, u, k, {}, cleared, s) && IsLogic(s) && IsTyped(s) && val == St(k)(s).tri
    requires k.modulesVal == St(k)(c.modules).tri
    ensures !Capped(LimitsOf(k, s), val) <==> Settled(c, SetUser(u, s, val), k, {}, cleared, s)
  {
  }

  // A bool is never capped.
  lemma BoolNotCapped(c: Config, u: User, k: Cache, cleared: set<Symbol>, s: Symbol)
    requires s.stype.Boolean? && !IsLetter(s) && Sound(c, u, k, {}, cleared) && s in k.valid
    ensures !Capped(LimitsOf(k, s), St(k)(s).tri)
  {
    assert Settled(c, u, k, {}, cleared, s);
  }

  // A capped tristate: visible as m, and y by default.  Setting it to the y it
  // has makes it m.
  lemma CappedExample(numbers: Numbers)
    ensures var c := Example(false, true, false, numbers);
      && Acyclic(c, RANK)
      && Eval(c, RANK, map[], T).tri == YES && Capped(CalcLimits(c, T, EvalState(c, RANK, map[])), YES)
      && Eval(c, RANK, SetUser(map[], T, YES), T).tri == MOD
  {
    var c := Example(false, true, false, numbers);
    ExampleValue(c, false, true, false, map[]);
    ExampleValue(c, false, true, false, SetUser(map[], T, YES));
  }

  // The cached limits are those of the definition.
  lemma CachedLimits(c: Config, rank: Rank, u: User, k: Cache, cleared: set<Symbol>, s: Symbol)
    requires Acyclic(c, rank) && Sound(c, u, k, {}, cleared) && s in k.valid && c.modules in k.valid && IsTyped(s)
    ensures LimitsOf(k, s) == CalcLimits(c, s, EvalState(c, rank, u)) && St(k)(s) == Eval(c, rank, u, s)
    ensures k.modulesVal == Eval(c, rank, u, c.modules).tri
  {
    var ev := EvalState(c, rank, u);
    assert Settled(c, u, k, {}, cleared, s);
    forall t | t in Reads(c, u, s, St(k)) ensures St(k)(t) == ev(t) { SoundIsEval(c, rank, u, k, cleared, t); }
    EvalNoBoolMod(c, rank, u);
    CalcAgrees(c, u, s, St(k), ev);
    SoundIsEval(c, rank, u, k, cleared, s);
    SoundIsEval(c, rank, u, k, cleared, c.modules);
  }

  // A symbol that is not visible ignores its user value.
  lemma SameWithoutUser(c: Config, rank: Rank, u: User, u': User, s: Symbol)
    requires Acyclic(c, rank) && IsLogic(s) && IsTyped(s) && forall t: Symbol | t != s :: SameUser(u, u', t)
    requires CalcLimits(c, s, EvalState(c, rank, u)).visible == NO
    ensures Eval(c, rank, u', s) == Eval(c, rank, u, s)
  {
    var st, st' := EvalState(c, rank, u), EvalState(c, rank, u');
    EvalNoBoolMod(c, rank, u);
    EvalNoBoolMod(c, rank, u');
    forall t | t in Reads(c, u, s, st) ensures st(t) == st'(t) {
      ReadsBelow(c, rank, u, s, st, t);
      EvalSameUser(c, rank, u, u', t);
    }
    CalcAgrees(c, u, s, st, st');
    EvalUnfold(c, rank, u, s);
    EvalUnfold(c, rank, u', s);
  }

  // The value it has, set by the user, is kept exactly if it is not capped.
  lemma SetSame(c: Config, rank: Rank, u: User, s: Symbol, val: Tri)
    requires Acyclic(c, rank) && IsLogic(s) && IsTyped(s) && val == Eval(c, rank, u, s).tri
    ensures Eval(c, rank, SetUser(u, s, val), s).tri == val <==> !Capped(CalcLimits(c, s, EvalState(c, rank, u)), val)
  {
    hide Calc, CalcLimits, Capped, Acyclic, SetUser;
    var u', st, st' := SetUser(u, s, val), EvalState(c, rank, u), EvalState(c, rank, SetUser(u, s, val));
    SetUserElsewhere(u, s, val);
    if CalcLimits(c, s, st).visible == NO { SameWithoutUser(c, rank, u, u', s); }
    SetKeepsLimits(c, rank, u, s, u'[s]);
    EvalUnfold(c, rank, u, s);
    EvalUnfold(c, rank, u', s);
    SameStates(c, u, u', s, st, st', val);
  }

  lemma SameStates(c: Config, u: User, u': User, s: Symbol, st: State, st': State, val: Tri)
    requires IsLogic(s) && IsTyped(s) && val == Calc(c, u, s, st).tri && s in u' && u'[s].tri == val
    requires CalcLimits(c, s, st') == CalcLimits(c, s, st) && (s.stype.Tristate? ==> st(c.modules) == st'(c.modules))
    requires CalcLimits(c, s, st).visible == NO ==> Calc(c, u', s, st').tri == val
    ensures Calc(c, u', s, st').tri == val <==> !Capped(CalcLimits(c, s, st), val)
  {
    hide CalcTri, CalcLimits, Capped, FirstDefault;
    var d, v, v' := DefOf(c, s), Readings(c, st), Readings(c, st');
    CalcLogic(c, u, s, st);
    CalcLogic(c, u', s, st');
    LimitsOfBool(c, s, st);
    CalcTriSet(
      s, u, u', CalcLimits(c, s, st), FirstDefault(d.defaults, 0, v), FirstDefault(d.defaults, 0, v'), v, v',
      st(c.modules).tri, st'(c.modules).tri);
  }

  // An accepted value is kept in any case.
  lemma SetNew(c: Config, rank: Rank, u: User, s: Symbol, val: Tri)
    requires Acyclic(c, rank) && IsLogic(s)
    requires WithinRange(s, CalcLimits(c, s, EvalState(c, rank, u)), Eval(c, rank, u, c.modules).tri, val)
    ensures Eval(c, rank, SetUser(u, s, val), s).tri == val
  {
    SetThenGet(c, rank, u, s, SetUser(u, s, val)[s]);
  }

  lemma SetOutcome(c: Config, rank: Rank, u: User, k: Cache, cleared: set<Symbol>, s: Symbol, val: Tri)
    requires Acyclic(c, rank) && Sound(c, u, k, {}, cleared) && s in k.valid && c.modules in k.valid
    requires IsLogic(s) && IsTyped(s)
    ensures St(k)(s).tri == val || WithinRange(s, LimitsOf(k, s), k.modulesVal, val) ==>
      (Eval(c, rank, SetUser(u, s, val), s).tri == val <==> !Capped(LimitsOf(k, s), val))
  {
    hide Sound, CalcLimits, Eval, Acyclic;
    CachedLimits(c, rank, u, k, cleared, s);
    if St(k)(s).tri == val {
      SetSame(c, rank, u, s, val);
    } else if WithinRange(s, LimitsOf(k, s), k.modulesVal, val) {
      SetNew(c, rank, u, s, val);
    }
  }

  // ------------------------------------------------------ what a writer sees

  lemma ClearedSound(c: Config, u: User, k: Cache, k': Cache, cleared: set<Symbol>, s: Symbol)
    requires Sound(c, u, k, {}, cleared) && s in k.valid && k' == k.(write := k.write - {s})
    ensures Sound(c, u, k', {}, cleared + {s})
  {
    forall t | t in k'.valid ensures Settled(c, u, k', {}, cleared + {s}, t) {
      assert Settled(c, u, k, {}, cleared, t);
    }
  }

  lemma SameLimits(c: Config, k: Cache, k': Cache, s: Symbol)
    requires Extends(c, k, k') && s in k.valid
    ensures LimitsOf(k, s) == LimitsOf(k', s)
  {
    assert SameAt(k, k', s);
  }

  // Setting the limits of s to what they are changes nothing.
  lemma RewrittenSound(c: Config, u: User, k: Cache, k': Cache, cleared: set<Symbol>, s: Symbol)
    requires Sound(c, u, k, {}, cleared) && k' == k.(limits := k.limits[s := LimitsOf(k, s)])
    ensures Sound(c, u, k', {}, cleared) && Extends(c, k, k')
  {
    forall t | t in k'.valid ensures Settled(c, u, k', {}, cleared, t) {
      assert Settled(c, u, k, {}, cleared, t);
    }
  }

  lemma ValidIsEval(c: Config, rank: Rank, u: User, k: Cache, cleared: set<Symbol>, r: set<Symbol>)
    requires Acyclic(c, rank) && Sound(c, u, k, {}, cleared) && r <= k.valid && c.modules in k.valid
    ensures AgreeOn(c, r, St(k), EvalState(c, rank, u))
  {
    forall t | t in r + {c.modules} ensures St(k)(t) == Eval(c, rank, u, t) {
      SoundIsEval(c, rank, u, k, cleared, t);
    }
  }

  lemma DefaultIsEval(c: Config, rank: Rank, u: User, k: Cache, cleared: set<Symbol>, s: Symbol, t: Tri)
    requires Acyclic(c, rank) && Sound(c, u, k, {}, cleared) && c.modules in k.valid && DefaultDone(c, k, {}, s, t)
    ensures var v := Readings(c, EvalState(c, rank, u)); t == DefaultTri(FirstDefault(DefOf(c, s).defaults, 0, v), v)
  {
    var st, ds, v := EvalState(c, rank, u), DefOf(c, s).defaults, Readings(c, St(k));
    EvalNoBoolMod(c, rank, u);
    ValidIsEval(c, rank, u, k, cleared, DefaultReads(ds, 0, v));
    DefaultsAgree(c, ds, 0, St(k), st);
    var p := FirstDefault(ds, 0, v);
    if p.Some? {
      FirstDefaultRead(ds, 0, v);
      ValidIsEval(c, rank, u, k, cleared, Symbols(p.value.expr));
      ValidIsEval(c, rank, u, k, cleared, SymbolsOpt(p.value.visible));
      DefaultAgrees(c, p.value, St(k), st);
    }
  }

  lemma LetterDefaultIsEval(c: Config, rank: Rank, u: User, k: Cache, cleared: set<Symbol>, s: Symbol, t: Tri)
    requires Acyclic(c, rank) && Sound(c, u, k, {}, cleared) && c.modules in k.valid && s in k.valid
    requires IsLogic(s) && IsTyped(s) && DefaultDone(c, k, {}, s, t)
    ensures StringDefault(c, s, EvalState(c, rank, u)) == Letter(
      Ap(Or,
         Promote(Ap(Or, t, LimitsOf(k, s).revDep), St(k)(c.modules).tri == NO || s.stype.Boolean?),
         LimitsOf(k, s).implied))
  {
    CachedLimits(c, rank, u, k, cleared, s);
    SoundIsEval(c, rank, u, k, cleared, c.modules);
    DefaultIsEval(c, rank, u, k, cleared, s, t);
  }

  lemma FirstDefaultIsEval(c: Config, rank: Rank, u: User, k: Cache, cleared: set<Symbol>, s: Symbol)
    requires Acyclic(c, rank) && Sound(c, u, k, {}, cleared) && c.modules in k.valid
    requires DefaultReads(DefOf(c, s).defaults, 0, Readings(c, St(k))) <= k.valid
    ensures FirstDefault(DefOf(c, s).defaults, 0, Readings(c, St(k)))
      == FirstDefault(DefOf(c, s).defaults, 0, Readings(c, EvalState(c, rank, u)))
  {
    EvalNoBoolMod(c, rank, u);
    ValidIsEval(c, rank, u, k, cleared, DefaultReads(DefOf(c, s).defaults, 0, Readings(c, St(k))));
    DefaultsAgree(c, DefOf(c, s).defaults, 0, St(k), EvalState(c, rank, u));
  }

  lemma DefaultTextIsEval(
    c: Config, rank: Rank, u: User, k: Cache, cleared: set<Symbol>, s: Symbol, val: string, found: bool)
    requires Acyclic(c, rank) && Sound(c, u, k, {}, cleared) && c.modules in k.valid && IsText(s)
    requires DefaultTextDone(c, k, {}, s, val, found)
    ensures val == StringDefault(c, s, EvalState(c, rank, u))
  {
    FirstDefaultIsEval(c, rank, u, k, cleared, s);
    var t := DefaultSymbol(FirstDefault(DefOf(c, s).defaults, 0, Readings(c, St(k))));
    if t.Some? { SoundIsEval(c, rank, u, k, cleared, t.value); }
  }

  // SYMBOL_WRITE is set as defined, until a writer takes it away.
  lemma WriteIsEval(c: Config, rank: Rank, u: User, k: Cache, cleared: set<Symbol>, s: Symbol)
    requires Acyclic(c, rank) && Sound(c, u, k, {}, cleared) && s in k.valid && c.modules in k.valid && IsTyped(s)
    ensures s in k.write <==> Writes(c, u, s, EvalState(c, rank, u)) && s !in cleared
  {
    var ev := EvalState(c, rank, u);
    assert Settled(c, u, k, {}, cleared, s);
    ValidIsEval(c, rank, u, k, cleared, Reads(c, u, s, St(k)));
    EvalNoBoolMod(c, rank, u);
    CalcAgrees(c, u, s, St(k), ev);
    WritesAgree(c, u, s, St(k), ev);
  }
}
