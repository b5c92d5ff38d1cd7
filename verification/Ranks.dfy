// From the search for cycles to the rank that evaluation needs: what
// sym_check_deps (support/kconfig/symbol.c) follows of a configuration, and what
// it would have to follow so that a search without reports yields a rank.

module Ranks {
  import opened Wrappers
  import opened Expressions
  import opened SymbolValue
  import opened SymbolEval
  import opened DepCheck

  // ------------------------------------------------- what the search follows

  function PromptProps(ps: seq<Option<Expr>>): seq<Property> {
    if ps == [] then [] else PromptProps(ps[..|ps| - 1]) + [Property(Plain, ps[|ps| - 1], None)]
  }

  function DefaultProps(ds: seq<DefaultProp>): seq<Property> {
    if ds == [] then []
    else [Property(CheckKind.Default, ds[0].visible, Some(ds[0].expr))] + DefaultProps(ds[1..])
  }

  // The conditions of the ranges, but not their ends.
  function RangeProps(rs: seq<RangeProp>): seq<Property> {
    if rs == [] then [] else [Property(Plain, rs[0].visible, None)] + RangeProps(rs[1..])
  }

  function SearchedProps(d: Definition): seq<Property> {
    PromptProps(d.prompts) + (DefaultProps(d.defaults) + RangeProps(d.ranges))
  }

  // The configuration as the search sees it.
  function Searched(c: Config): Checkables {
    map s | s in c.defs :: Checkable(c.defs[s].revDep, SearchedProps(c.defs[s]))
  }

  // -------------------------------------------------- what it does not follow

  function RangeEnds(rs: seq<RangeProp>): seq<Property> {
    if rs == [] then [] else [Property(Plain, Some(Cmp(Eq, rs[0].lo, rs[0].hi)), None)] + RangeEnds(rs[1..])
  }

  // The symbols that imply s, its own dependency, the ends of its ranges, and
  // for a tristate the modules symbol.
  function Unsearched(c: Config, s: Symbol): seq<Property> {
    var d := DefOf(c, s);
    [Property(Plain, d.implied, None), Property(Plain, d.dirDep, None)]
    + (RangeEnds(d.ranges) + if s.stype.Tristate? then [Property(Plain, Some(Sym(c.modules)), None)] else [])
  }

  // All that evaluating one of these symbols may look at.
  function Completed(c: Config, all: set<Symbol>): Checkables {
    map s | s in all :: CompletedOne(c, s)
  }

  function CompletedOne(c: Config, s: Symbol): Checkable {
    if IsTyped(s) then Checkable(DefOf(c, s).revDep, SearchedProps(DefOf(c, s)) + Unsearched(c, s))
    else Checkable(None, [])
  }

  lemma {:induction false} DepsConcat(a: seq<Property>, b: seq<Property>)
    ensures PropertiesDeps(a + b, |a + b|) == PropertiesDeps(a, |a|) + PropertiesDeps(b, |b|)
  {
    if b == [] {
      assert a + b == a;
    } else {
      var n := |b| - 1;
      DepsConcat(a, b[..n]);
      assert a + b == (a + b[..n]) + [b[n]];
      DepsPrefix(a + b[..n], [b[n]], |a + b[..n]|);
      DepsPrefix(b[..n], [b[n]], n);
      assert b == b[..n] + [b[n]];
    }
  }

  lemma {:induction false} DepsPrefix(a: seq<Property>, b: seq<Property>, n: nat)
    requires n <= |a|
    ensures PropertiesDeps(a + b, n) == PropertiesDeps(a, n)
  {
    if n > 0 { DepsPrefix(a, b, n - 1); }
  }

  lemma DepsOne(p: Property)
    ensures PropertiesDeps([p], 1) == PropertyDeps(p)
  {
    assert PropertiesDeps([p], 0) == {};
  }

  lemma {:induction false} PromptDeps(ps: seq<Option<Expr>>, n: nat)
    requires n <= |ps|
    ensures PropertiesDeps(PromptProps(ps[..n]), |PromptProps(ps[..n])|) == PromptSymbols(ps, n)
  {
    if n > 0 {
      PromptDeps(ps, n - 1);
      assert ps[..n][..n - 1] == ps[..n - 1];
      var p := Property(Plain, ps[n - 1], None);
      DepsConcat(PromptProps(ps[..n - 1]), [p]);
      DepsOne(p);
    }
  }

  lemma {:induction false} DefaultDeps(ds: seq<DefaultProp>, i: nat)
    requires i <= |ds|
    ensures PropertiesDeps(DefaultProps(ds[i..]), |DefaultProps(ds[i..])|) == DefaultOperands(ds, i)
    decreases |ds| - i
  {
    if i < |ds| {
      DefaultDeps(ds, i + 1);
      assert ds[i..][1..] == ds[i + 1..];
      var p := Property(CheckKind.Default, ds[i].visible, Some(ds[i].expr));
      DepsConcat([p], DefaultProps(ds[i + 1..]));
      DepsOne(p);
    }
  }

  lemma {:induction false} RangeDeps(rs: seq<RangeProp>, i: nat)
    requires i <= |rs|
    ensures PropertiesDeps(RangeProps(rs[i..]), |RangeProps(rs[i..])|)
         + PropertiesDeps(RangeEnds(rs[i..]), |RangeEnds(rs[i..])|) == RangeOperands(rs, i)
    decreases |rs| - i
  {
    if i < |rs| {
      RangeDeps(rs, i + 1);
      assert rs[i..][1..] == rs[i + 1..];
      var p, q := Property(Plain, rs[i].visible, None), Property(Plain, Some(Cmp(Eq, rs[i].lo, rs[i].hi)), None);
      DepsConcat([p], RangeProps(rs[i + 1..]));
      DepsConcat([q], RangeEnds(rs[i + 1..]));
      DepsOne(p);
      DepsOne(q);
    }
  }

  function AllDeps(ps: seq<Property>): set<Symbol> {
    PropertiesDeps(ps, |ps|)
  }

  lemma SearchedDeps(d: Definition)
    ensures AllDeps(SearchedProps(d))
      == PromptSymbols(d.prompts, |d.prompts|) + DefaultOperands(d.defaults, 0) + AllDeps(RangeProps(d.ranges))
  {
    hide PropertiesDeps;
    DepsConcat(DefaultProps(d.defaults), RangeProps(d.ranges));
    DepsConcat(PromptProps(d.prompts), DefaultProps(d.defaults) + RangeProps(d.ranges));
    PromptDeps(d.prompts, |d.prompts|);
    DefaultDeps(d.defaults, 0);
    assert d.prompts[..|d.prompts|] == d.prompts && d.defaults[0..] == d.defaults;
  }

  // The modules symbol, for a tristate.
  function ModulesRead(c: Config, s: Symbol): set<Symbol> {
    if s.stype.Tristate? then {c.modules} else {}
  }

  lemma UnsearchedDeps(c: Config, s: Symbol)
    ensures AllDeps(Unsearched(c, s))
      == SymbolsOpt(DefOf(c, s).implied) + SymbolsOpt(DefOf(c, s).dirDep) + AllDeps(RangeEnds(DefOf(c, s).ranges))
         + ModulesRead(c, s)
  {
    hide PropertiesDeps;
    var d := DefOf(c, s);
    var p, q, m := Property(Plain, d.implied, None), Property(Plain, d.dirDep, None),
                   Property(Plain, Some(Sym(c.modules)), None);
    var ms := if s.stype.Tristate? then [m] else [];
    assert AllDeps(ms) == ModulesRead(c, s) by {
      if s.stype.Tristate? { DepsOne(m); } else { DepsNone(); }
    }
    DepsConcat(RangeEnds(d.ranges), ms);
    assert [p, q] == [p] + [q];
    DepsConcat([p], [q]);
    DepsOne(p);
    DepsOne(q);
    DepsConcat([p, q], RangeEnds(d.ranges) + ms);
  }

  lemma DepsNone()
    ensures PropertiesDeps([], 0) == {}
  {
  }

  // The completed definitions have exactly the operands of the symbol, and the
  // modules symbol for a tristate.
  lemma CompletedDeps(c: Config, all: set<Symbol>, s: Symbol)
    requires s in all
    ensures Deps(Completed(c, all), s) == if IsTyped(s) then Operands(c, s) + ModulesRead(c, s) else {}
  {
    hide PropertiesDeps, PromptSymbols, DefaultOperands, RangeOperands;
    if IsTyped(s) {
      var d := DefOf(c, s);
      SearchedDeps(d);
      UnsearchedDeps(c, s);
      RangeDeps(d.ranges, 0);
      assert d.ranges[0..] == d.ranges;
      DepsConcat(SearchedProps(d), Unsearched(c, s));
    } else {
      DepsNone();
    }
  }

  // ------------------------------------------------------------ the rank

  // The symbols include all that are defined or looked at.
  ghost predicate Closed(c: Config, all: set<Symbol>) {
    && c.modules in all && c.defs.Keys <= all
    && forall s | s in all && IsTyped(s) :: Operands(c, s) <= all
  }

  lemma DescendingIsAcyclic(c: Config, all: set<Symbol>, rank: Rank)
    requires Closed(c, all) && Descending(Completed(c, all), all, rank)
    ensures exists r: Rank :: Acyclic(c, r)
  {
    hide Operands, Completed;
    var r: Rank := s => if s in all then rank(s) else if s.stype.Tristate? then rank(c.modules) + 1 else 0;
    forall s, t: Symbol | IsTyped(s) && t in Operands(c, s) ensures r(t) < r(s) {
      if s in all {
        CompletedDeps(c, all, s);
        assert Edge(Completed(c, all), s, t);
      } else {
        NoOperands(c, s);
      }
    }
    forall s: Symbol | s.stype.Tristate? ensures r(c.modules) < r(s) {
      if s in all {
        CompletedDeps(c, all, s);
        assert IsTyped(s) && Edge(Completed(c, all), s, c.modules);
      }
    }
    assert Acyclic(c, r);
  }

  lemma NoOperands(c: Config, s: Symbol)
    requires s !in c.defs
    ensures Operands(c, s) == {}
  {
  }

  lemma AcyclicIsDescending(c: Config, all: set<Symbol>, rank: Rank)
    requires Acyclic(c, rank)
    ensures Descending(Completed(c, all), all, rank)
  {
    hide Operands, Completed;
    forall s, t | s in all && Edge(Completed(c, all), s, t) ensures rank(t) < rank(s) {
      CompletedDeps(c, all, s);
    }
  }

  lemma {:induction false} TrailDescends(defs: Checkables, all: set<Symbol>, rank: Rank, k: Stack)
    requires k.Push? && IsTrail(defs, k) && Members(k) <= all && Descending(defs, all, rank)
    ensures rank(k.top) <= rank(Lowest(k))
  {
    if k.prev.Push? {
      assert k.prev.top in Members(k);
      TrailDescends(defs, all, rank, k.prev);
    }
  }

  lemma RankHasNoCycle(defs: Checkables, all: set<Symbol>, rank: Rank, k: Stack)
    requires Descending(defs, all, rank) && Members(k) <= all
    ensures !IsCycle(defs, k)
  {
    if IsCycle(defs, k) {
      assert k.top in Members(k);
      TrailDescends(defs, all, rank, k);
    }
  }

  lemma CycleExcludesRank(c: Config, all: set<Symbol>, k: Stack)
    requires IsCycle(Completed(c, all), k) && Members(k) <= all
    ensures !exists rank: Rank :: Acyclic(c, rank)
  {
    hide Completed, Acyclic;
    forall rank: Rank ensures !Acyclic(c, rank) {
      if Acyclic(c, rank) {
        AcyclicIsDescending(c, all, rank);
        RankHasNoCycle(Completed(c, all), all, rank, k);
      }
    }
  }

  // With the definitions completed, the search reports nothing exactly if there
  // is a rank along which the configuration can be evaluated.
  method CheckCompleted(c: Config, all: set<Symbol>, order: seq<Symbol>) returns (reports: nat)
    requires Closed(c, all) && forall s :: s in order <==> s in all
    ensures reports == 0 <==> exists rank: Rank :: Acyclic(c, rank)
  {
    hide Operands, Completed, Acyclic;
    var defs := Completed(c, all);
    forall s {:trigger Deps(defs, s)} | s in all ensures Deps(defs, s) <= all { CompletedDeps(c, all, s); }
    var checker := new Checker(defs, all);
    var results := checker.CheckAll(order);
    reports := |checker.reports|;
    if reports == 0 {
      ghost var rank: Symbol -> nat :| Descending(defs, all, rank);
      DescendingIsAcyclic(c, all, rank);
    } else {
      ghost var k :| IsCycle(defs, k) && Members(k) <= all;
      CycleExcludesRank(c, all, k);
    }
  }

  // The definitions as they are do as well if they name everything that the
  // search does not follow.
  ghost predicate NothingUnsearched(c: Config, all: set<Symbol>) {
    forall s | s in all && IsTyped(s) :: AllDeps(Unsearched(c, s)) <= Deps(Searched(c), s)
  }

  lemma SearchedIsEnough(c: Config, all: set<Symbol>, rank: Rank)
    requires Closed(c, all) && NothingUnsearched(c, all) && Descending(Searched(c), all, rank)
    ensures exists r: Rank :: Acyclic(c, r)
  {
    hide Unsearched, SearchedProps, PropertiesDeps;
    forall s, t | s in all && Edge(Completed(c, all), s, t) ensures rank(t) < rank(s) {
      if IsTyped(s) {
        DepsConcat(SearchedProps(DefOf(c, s)), Unsearched(c, s));
        SearchedWithin(c, s);
        assert Edge(Searched(c), s, t);
      } else {
        CompletedDeps(c, all, s);
      }
    }
    DescendingIsAcyclic(c, all, rank);
  }

  lemma SearchedWithin(c: Config, s: Symbol)
    ensures OperandsOf(DefOf(c, s).revDep) + AllDeps(SearchedProps(DefOf(c, s))) == Deps(Searched(c), s)
  {
    if s !in c.defs { assert SearchedProps(NO_PROPERTIES) == []; }
  }

  // --------------------------------------------------------- an unseen cycle

  // B depends on A and implies it.
  function Implied(numbers: Numbers): Config {
    Config(
      map[A := NO_PROPERTIES.(implied := Some(Sym(B))), B := NO_PROPERTIES.(prompts := [Some(Sym(A))])],
      SYM_NO, numbers)
  }

  lemma ImpliedDeps(c: Config)
    requires c == Implied(c.numbers)
    ensures Deps(Searched(c), A) == {} && Deps(Searched(c), B) == {A} && Deps(Searched(c), SYM_NO) == {}
    ensures B in Operands(c, A) && A in Operands(c, B)
  {
    var p := Property(Plain, Some(Sym(A)), None);
    assert SearchedProps(NO_PROPERTIES) == [];
    assert PromptProps([Some(Sym(A))][..0]) == [];
    assert SearchedProps(c.defs[B]) == [p];
    DepsNone();
    DepsOne(p);
    assert PromptSymbols([Some(Sym(A))], 0) == {};
  }

  lemma OperandBefore(c: Config, rank: Rank, s: Symbol, t: Symbol)
    requires Acyclic(c, rank) && IsTyped(s) && t in Operands(c, s)
    ensures rank(t) < rank(s)
  {
    hide Operands;
  }

  // The search finds no cycle, and still no rank exists.
  lemma ImpliedUnseen(numbers: Numbers)
    ensures var c, all := Implied(numbers), {A, B, SYM_NO};
      && !(exists k :: IsCycle(Searched(c), k) && Members(k) <= all)
      && !exists rank: Rank :: Acyclic(c, rank)
  {
    hide Operands, Searched;
    var c, all := Implied(numbers), {A, B, SYM_NO};
    ImpliedDeps(c);
    var rank: Rank := (s: Symbol) => s.id;
    assert Descending(Searched(c), all, rank);
    forall k | Members(k) <= all ensures !IsCycle(Searched(c), k) { RankHasNoCycle(Searched(c), all, rank, k); }
    forall r: Rank ensures !Acyclic(c, r) {
      if Acyclic(c, r) {
        OperandBefore(c, r, A, B);
        OperandBefore(c, r, B, A);
      }
    }
  }
}
