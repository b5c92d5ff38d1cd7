// The detector of recursive dependencies: sym_check_deps and its helpers in
// support/kconfig/symbol.c, for symbols outside choices.

module DepCheck {
  import opened Wrappers
  import opened Expressions

  datatype CheckKind = Choice | Select | Default | Plain

  datatype Property = Property(kind: CheckKind, visible: Option<Expr>, expr: Option<Expr>)

  datatype Checkable = Checkable(revDep: Option<Expr>, props: seq<Property>)

  type Checkables = map<Symbol, Checkable>

  // ------------------------------------------------- the checked relation

  function OperandsOf(e: Option<Expr>): set<Symbol> {
    if e.None? then {} else Symbols(e.value)
  }

  predicate Followed(p: Property) {
    !p.kind.Choice? && !p.kind.Select?
  }

  function PropertyDeps(p: Property): set<Symbol> {
    if !Followed(p) then {}
    else OperandsOf(p.visible) + if p.kind.Default? then OperandsOf(p.expr) else {}
  }

  // The first n properties.
  function PropertiesDeps(ps: seq<Property>, n: nat): set<Symbol>
    requires n <= |ps|
  {
    if n == 0 then {} else PropertiesDeps(ps, n - 1) + PropertyDeps(ps[n - 1])
  }

  // The symbols that s is followed to: those of its rev_dep, of the conditions
  // of its properties, and of its default values.
  function Deps(defs: Checkables, s: Symbol): set<Symbol> {
    if s !in defs then {}
    else OperandsOf(defs[s].revDep) + PropertiesDeps(defs[s].props, |defs[s].props|)
  }

  predicate Edge(defs: Checkables, a: Symbol, b: Symbol) {
    b in Deps(defs, a)
  }

  predicate OccursIn(x: Symbol, e: Option<Expr>) {
    e.Some? && x in Symbols(e.value)
  }

  // x occurs in the condition of the property or in the value of a default, and
  // the property is neither a choice nor a select.
  predicate OccursInProperty(x: Symbol, p: Property) {
    && p.kind != CheckKind.Choice && p.kind != CheckKind.Select
    && (OccursIn(x, p.visible) || (p.kind == CheckKind.Default && OccursIn(x, p.expr)))
  }

  lemma {:induction false} PropertiesDepsExact(ps: seq<Property>, n: nat, x: Symbol)
    requires n <= |ps|
    ensures x in PropertiesDeps(ps, n) <==> exists i :: 0 <= i < n && OccursInProperty(x, ps[i])
  {
    if n > 0 { PropertiesDepsExact(ps, n - 1, x); }
  }

  // What is followed: rev_dep, the conditions of all properties but choices and
  // selects, and the values of defaults.
  lemma DepsExact(defs: Checkables, s: Symbol, x: Symbol)
    ensures x in Deps(defs, s) <==>
      s in defs && (OccursIn(x, defs[s].revDep) || exists p :: p in defs[s].props && OccursInProperty(x, p))
  {
    if s in defs {
      var ps := defs[s].props;
      PropertiesDepsExact(ps, |ps|, x);
      if exists p :: p in ps && OccursInProperty(x, p) {
        var p :| p in ps && OccursInProperty(x, p);
        var i :| 0 <= i < |ps| && ps[i] == p;
      }
    }
  }

  // defs with one more property of s, anywhere among the others.
  function WithProperty(defs: Checkables, s: Symbol, j: nat, p: Property): Checkables
    requires s in defs && j <= |defs[s].props|
  {
    defs[s := Checkable(defs[s].revDep, defs[s].props[..j] + [p] + defs[s].props[j..])]
  }

  // A select or choice more or less changes no edge and no cycle, and so neither
  // whether something is reported.
  lemma SelectIgnored(defs: Checkables, s: Symbol, j: nat, p: Property, k: Stack)
    requires s in defs && j <= |defs[s].props|
    requires p.kind == CheckKind.Choice || p.kind == CheckKind.Select
    ensures forall a, b :: Edge(WithProperty(defs, s, j, p), a, b) <==> Edge(defs, a, b)
    ensures IsCycle(WithProperty(defs, s, j, p), k) <==> IsCycle(defs, k)
  {
    var defs' := WithProperty(defs, s, j, p);
    forall a, b ensures Edge(defs', a, b) <==> Edge(defs, a, b) {
      DepsExact(defs, a, b);
      DepsExact(defs', a, b);
      if a == s {
        assert forall q :: q in defs'[s].props <==> q in defs[s].props || q == p;
      }
    }
    SameTrails(defs, defs', k);
  }

  lemma {:induction false} SameTrails(defs: Checkables, defs': Checkables, k: Stack)
    requires forall a, b :: Edge(defs', a, b) <==> Edge(defs, a, b)
    ensures IsTrail(defs', k) <==> IsTrail(defs, k)
  {
    hide Edge;
    if k.Push? { SameTrails(defs, defs', k.prev); }
  }

  // The dep_stack: top is the latest symbol.
  datatype Stack = Bottom | Push(top: Symbol, prev: Stack)

  function Members(k: Stack): set<Symbol> {
    match k
    case Bottom => {}
    case Push(s, prev) => {s} + Members(prev)
  }

  function Lowest(k: Stack): Symbol
    requires k.Push?
  {
    if k.prev.Bottom? then k.top else Lowest(k.prev)
  }

  // Each symbol is a dependency of the one below it.
  predicate IsTrail(defs: Checkables, k: Stack) {
    k.Push? && k.prev.Push? ==> Edge(defs, k.prev.top, k.top) && IsTrail(defs, k.prev)
  }

  // A path whose top depends on its lowest symbol in turn.
  predicate IsCycle(defs: Checkables, k: Stack) {
    k.Push? && IsTrail(defs, k) && Edge(defs, k.top, Lowest(k))
  }

  // Everything a symbol depends on lies below it.
  predicate InOrder(defs: Checkables, k: Stack) {
    k.Push? ==> Deps(defs, k.top) <= Members(k.prev) && InOrder(defs, k.prev)
  }

  lemma {:induction false} DepsBelow(defs: Checkables, k: Stack, x: Symbol)
    requires InOrder(defs, k) && x in Members(k)
    ensures Deps(defs, x) <= Members(k.prev)
  {
    if x != k.top { DepsBelow(defs, k.prev, x); }
  }

  // Whatever is on a cycle is a dependency of something on it.
  lemma {:induction false} HasUser(defs: Checkables, c: Stack, x: Symbol) returns (user: Symbol)
    requires IsTrail(defs, c) && x in Members(c)
    ensures user in Members(c) && (x == Lowest(c) || Edge(defs, user, x))
  {
    if c.prev.Bottom? {
      user := x;
    } else if x == c.top {
      user := c.prev.top;
    } else {
      user := HasUser(defs, c.prev, x);
    }
  }

  // No cycle fits into an ordered stack: its top is a dependency of nothing in
  // it.
  lemma {:induction false} OrderedIsAcyclic(defs: Checkables, k: Stack, c: Stack)
    requires InOrder(defs, k) && Members(c) <= Members(k)
    ensures !IsCycle(defs, c)
  {
    if IsCycle(defs, c) {
      assert k.Push? by { assert c.top in Members(k); }
      forall x | x in Members(c) ensures x in Members(k.prev) {
        var user := HasUser(defs, c, x);
        if x == Lowest(c) { user := c.top; }
        DepsBelow(defs, k, user);
      }
      OrderedIsAcyclic(defs, k.prev, c);
    }
  }

  // How far up an ordered stack a symbol stands.
  function Position(k: Stack, s: Symbol): nat {
    if k.Bottom? then 0 else if s in Members(k.prev) then Position(k.prev, s) else Depth(k)
  }

  function Depth(k: Stack): nat {
    if k.Bottom? then 0 else 1 + Depth(k.prev)
  }

  lemma {:induction false} PositionWithin(k: Stack, s: Symbol)
    ensures Position(k, s) <= Depth(k)
  {
    if k.Push? { PositionWithin(k.prev, s); }
  }

  lemma {:induction false} PositionDescends(defs: Checkables, k: Stack, s: Symbol, t: Symbol)
    requires InOrder(defs, k) && s in Members(k) && Edge(defs, s, t)
    ensures Position(k, t) < Position(k, s)
  {
    if s in Members(k.prev) {
      PositionDescends(defs, k.prev, s, t);
      DepsBelow(defs, k.prev, s);
    } else {
      DepsBelow(defs, k, s);
      PositionWithin(k.prev, t);
    }
  }

  ghost predicate Descending(defs: Checkables, all: set<Symbol>, rank: Symbol -> nat) {
    forall s, t | s in all && Edge(defs, s, t) :: rank(t) < rank(s)
  }

  // The order in which the symbols were finished ranks them.
  lemma OrderedDescends(defs: Checkables, k: Stack, all: set<Symbol>)
    requires InOrder(defs, k) && all <= Members(k)
    ensures exists rank: Symbol -> nat :: Descending(defs, all, rank)
  {
    var rank: Symbol -> nat := s => Position(k, s);
    forall s, t | s in all && Edge(defs, s, t) ensures rank(t) < rank(s) {
      PositionDescends(defs, k, s, t);
    }
    assert Descending(defs, all, rank);
  }

  // ------------------------------------------------------------ the search

  // A symbol that may be reported: one on the stack, and only after a report.
  predicate Blamed(r: Option<Symbol>, check: set<Symbol>, reports: seq<Stack>) {
    r.Some? ==> r.value in check && reports != []
  }

  // Unless something was reported, these symbols are done.
  predicate Done(r: Option<Symbol>, reports: seq<Stack>, finished: set<Symbol>, deps: set<Symbol>) {
    r.None? && reports == [] ==> deps <= finished
  }

  lemma {:induction false} PropertyDepsWithin(ps: seq<Property>, i: nat, n: nat)
    requires i < n <= |ps|
    ensures PropertyDeps(ps[i]) <= PropertiesDeps(ps, n)
  {
    if i < n - 1 { PropertyDepsWithin(ps, i, n - 1); }
  }

  // The part of the stack from s upward.
  function Upward(k: Stack, s: Symbol): Stack
    requires s in Members(k)
  {
    if k.top == s then Push(s, Bottom) else Push(k.top, Upward(k.prev, s))
  }

  lemma {:induction false} UpwardIsTrail(defs: Checkables, k: Stack, s: Symbol)
    requires IsTrail(defs, k) && s in Members(k)
    ensures IsTrail(defs, Upward(k, s)) && Upward(k, s).top == k.top && Lowest(Upward(k, s)) == s
    ensures Members(Upward(k, s)) <= Members(k)
  {
    if k.top != s { UpwardIsTrail(defs, k.prev, s); }
  }

  lemma NewlyMarked(
    all: set<Symbol>, check: set<Symbol>, checked: set<Symbol>, m: set<Symbol>, f: set<Symbol>, s: Symbol)
    requires check == m && checked == check + f && checked <= all && s in all && s !in checked
    ensures check + {s} == {s} + m && checked + {s} == (check + {s}) + f
    ensures all - (checked + {s}) < all - checked
  {
    assert s in all - checked;
  }

  lemma Unmarked(check: set<Symbol>, checked: set<Symbol>, m: set<Symbol>, f: set<Symbol>, s: Symbol)
    requires check == {s} + m && s !in m && checked == check + f
    ensures check - {s} == m && checked == (check - {s}) + ({s} + f)
  {
  }

  class Checker {
    const defs: Checkables
    // All symbols; the dependencies stay inside.
    const all: set<Symbol>

    var check: set<Symbol>      // SYMBOL_CHECK
    var checked: set<Symbol>    // SYMBOL_CHECKED
    var stack: Stack            // check_top
    // The cycles printed by sym_check_print_recursive.
    var reports: seq<Stack>
    // The symbols whose SYMBOL_CHECK has been cleared again, the latest on top.
    ghost var finished: Stack

    constructor (defs: Checkables, all: set<Symbol>)
      requires forall s {:trigger Deps(defs, s)} | s in all :: Deps(defs, s) <= all
      ensures this.defs == defs && this.all == all
      ensures Valid() && check == {} && checked == {} && stack == Bottom && reports == [] && finished == Bottom
    {
      this.defs, this.all := defs, all;
      check, checked, stack, reports, finished := {}, {}, Bottom, [], Bottom;
    }

    // SYMBOL_CHECK is set exactly on the stack, which is a path of
    // dependencies; SYMBOL_CHECKED moreover on what is finished; every report
    // is a cycle; and without reports the finished symbols are in order.
    ghost predicate Valid()
      reads this
    {
      && (forall s {:trigger Deps(defs, s)} | s in all :: Deps(defs, s) <= all)
      && check == Members(stack) && checked == check + Members(finished) && checked <= all
      && IsTrail(defs, stack)
      && (forall i | 0 <= i < |reports| :: IsCycle(defs, reports[i]) && Members(reports[i]) <= all)
      && (reports == [] ==> InOrder(defs, finished))
    }

    // Nothing is forgotten between two states.
    ghost predicate Grown(checked0: set<Symbol>, reports0: seq<Stack>, finished0: Stack)
      reads this
    {
      && checked0 <= checked
      && |reports0| <= |reports| && Members(finished0) <= Members(finished)
    }

    // sym_check_print_recursive
    method PrintRecursive(s: Symbol)
      requires Valid() && s in check && Edge(defs, stack.top, s)
      modifies this`reports
      ensures Valid() && reports == old(reports) + [Upward(stack, s)]
      ensures IsCycle(defs, Upward(stack, s)) && Lowest(Upward(stack, s)) == s
    {
      UpwardIsTrail(defs, stack, s);
      reports := reports + [Upward(stack, s)];
    }

    // sym_check_deps
    method CheckDeps(s: Symbol) returns (r: Option<Symbol>)
      requires Valid() && s in all && (stack.Push? ==> Edge(defs, stack.top, s))
      modifies this
      ensures Valid() && stack == old(stack)
      ensures Grown(old(checked), old(reports), old(finished))
      ensures Blamed(r, check, reports) && Done(r, reports, Members(finished), {s})
      decreases all - checked, 0, 0
    {
      if s in check {
        PrintRecursive(s);
        return Some(s);
      }
      if s in checked {
        return None;
      }
      r := Explore(s);
      if r == Some(s) {
        r := None;
      }
    }

    // A symbol met for the first time.
    method Explore(s: Symbol) returns (r: Option<Symbol>)
      requires Valid() && s in all && s !in checked && (stack.Push? ==> Edge(defs, stack.top, s))
      modifies this
      ensures Valid() && stack == old(stack)
      ensures Grown(old(checked), old(reports), old(finished))
      ensures Blamed(r, check + {s}, reports) && Done(r, reports, Members(finished), {s})
      decreases all - checked, 0, 0, 0
    {
      NewlyMarked(all, check, checked, Members(stack), Members(finished), s);
      check := check + {s};
      checked := checked + {s};
      stack := Push(s, stack);
      r := CheckDefinition(s);
      Unmarked(check, checked, Members(stack.prev), Members(finished), s);
      check := check - {s};
      stack := stack.prev;
      finished := Push(s, finished);
    }

    // sym_check_sym_deps, between dep_stack_insert and dep_stack_remove:
    // rev_dep, then the properties.
    method CheckDefinition(s: Symbol) returns (r: Option<Symbol>)
      requires Valid() && stack.Push? && stack.top == s
      modifies this
      ensures Valid() && stack == old(stack)
      ensures Grown(old(checked), old(reports), old(finished))
      ensures Blamed(r, check, reports) && Done(r, reports, Members(finished), Deps(defs, s))
      decreases all - checked, 3, 0
    {
      if s !in defs {
        return None;
      }
      r := CheckExprDeps(s, defs[s].revDep);
      if r.None? {
        r := CheckProps(s, defs[s].props);
      }
    }

    method CheckProps(s: Symbol, props: seq<Property>) returns (r: Option<Symbol>)
      requires Valid() && stack.Push? && stack.top == s && PropertiesDeps(props, |props|) <= Deps(defs, s)
      modifies this
      ensures Valid() && stack == old(stack)
      ensures Grown(old(checked), old(reports), old(finished))
      ensures Blamed(r, check, reports) && Done(r, reports, Members(finished), PropertiesDeps(props, |props|))
      decreases all - checked, 2, 0
    {
      r := None;
      var i := 0;
      while i < |props| && r.None?
        invariant 0 <= i <= |props|
        invariant Valid() && stack == old(stack)
        invariant Grown(old(checked), old(reports), old(finished))
        invariant Blamed(r, check, reports) && Done(r, reports, Members(finished), PropertiesDeps(props, i))
      {
        PropertyDepsWithin(props, i, |props|);
        r := CheckPropDeps(s, props[i]);
        i := i + 1;
      }
    }

    // The condition of a property, then a default value.
    method CheckPropDeps(s: Symbol, p: Property) returns (r: Option<Symbol>)
      requires Valid() && stack.Push? && stack.top == s && PropertyDeps(p) <= Deps(defs, s)
      modifies this
      ensures Valid() && stack == old(stack)
      ensures Grown(old(checked), old(reports), old(finished))
      ensures Blamed(r, check, reports) && Done(r, reports, Members(finished), PropertyDeps(p))
      decreases all - checked, 1, 0
    {
      r := None;
      if Followed(p) {
        r := CheckExprDeps(s, p.visible);
        if r.None? && p.kind.Default? {
          r := CheckExprDeps(s, p.expr);
        }
      }
    }

    // sym_check_expr_deps, for an expression of the symbol on top of the stack.
    method CheckExprDeps(s: Symbol, e: Option<Expr>) returns (r: Option<Symbol>)
      requires Valid() && stack.Push? && stack.top == s && OperandsOf(e) <= Deps(defs, s)
      modifies this
      ensures Valid() && stack == old(stack)
      ensures Grown(old(checked), old(reports), old(finished))
      ensures Blamed(r, check, reports) && Done(r, reports, Members(finished), OperandsOf(e))
      decreases all - checked, 0, if e.None? then 0 else Size(e.value)
    {
      match e
      case None => r := None;
      case Some(Bin(_, a, b)) =>
        r := CheckExprDeps(s, Some(a));
        if r.None? { r := CheckExprDeps(s, Some(b)); }
      case Some(Not(a)) =>
        r := CheckExprDeps(s, Some(a));
      case Some(Cmp(_, a, b)) =>
        r := CheckDeps(a);
        if r.None? { r := CheckDeps(b); }
      case Some(Sym(a)) =>
        r := CheckDeps(a);
    }

    // The sweep over all symbols, with what sym_check_deps returned for each.
    // It returns NULL every time, whatever the graph, so that the caller counts
    // no error; what tells is whether a report was made.
    method CheckAll(order: seq<Symbol>) returns (results: seq<Option<Symbol>>)
      requires Valid() && stack == Bottom && reports == [] && (forall i | 0 <= i < |order| :: order[i] in all)
      requires forall s | s in all :: s in order
      modifies this
      ensures Valid() && stack == Bottom && check == {}
      ensures reports == [] <==> !exists c :: IsCycle(defs, c) && Members(c) <= all
      ensures forall i | 0 <= i < |reports| :: IsCycle(defs, reports[i])
      ensures |results| == |order| && forall i | 0 <= i < |results| :: results[i].None?
      ensures reports == [] ==> exists rank: Symbol -> nat :: Descending(defs, all, rank)
    {
      results := [];
      for i := 0 to |order|
        invariant Valid() && stack == Bottom
        invariant |results| == i && forall j | 0 <= j < i :: results[j].None?
        invariant reports == [] ==> forall j | 0 <= j < i :: order[j] in Members(finished)
      {
        var r := CheckDeps(order[i]);
        results := results + [r];
      }
      if reports == [] {
        forall c | Members(c) <= all ensures !IsCycle(defs, c) {
          OrderedIsAcyclic(defs, finished, c);
        }
        OrderedDescends(defs, finished, all);
      } else {
        assert IsCycle(defs, reports[0]);
      }
    }
  }

  // ---------------------------------------------------- a cycle of two symbols

  const A := Symbol(3, "A", Boolean, false)
  const B := Symbol(4, "B", Boolean, false)

  // A depends on B, and B on A.
  const TWO: Checkables := map[
    A := Checkable(None, [Property(Plain, Some(Sym(B)), None)]),
    B := Checkable(None, [Property(Plain, Some(Sym(A)), None)])]

  lemma TwoDepend()
    ensures Deps(TWO, A) == {B} && Deps(TWO, B) == {A}
    ensures IsCycle(TWO, Push(B, Push(A, Bottom))) && Members(Push(B, Push(A, Bottom))) == {A, B}
  {
    assert PropertiesDeps(TWO[A].props, 0) == {} && PropertiesDeps(TWO[B].props, 0) == {};
    assert PropertiesDeps(TWO[A].props, 1) == {B} && PropertiesDeps(TWO[B].props, 1) == {A};
    assert Lowest(Push(B, Push(A, Bottom))) == A;
  }

  // The cycle is reported, and both results are NULL.
  method CheckTwo() returns (reports: nat, results: seq<Option<Symbol>>)
    ensures reports > 0 && results == [None, None]
  {
    TwoDepend();
    var checker := new Checker(TWO, {A, B});
    results := checker.CheckAll([A, B]);
    reports := |checker.reports|;
  }
}
