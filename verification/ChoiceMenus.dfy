// From the menu to a choice: menu_finalize (support/kconfig/menu.c) makes the
// choice an upper bound on the conditions of its values, which is what the
// evaluation of the choice relies on.

module ChoiceMenus {
  import opened Wrappers
  import opened Expressions
  import opened SymbolValue
  import opened SymbolEval
  import opened MenuDeps
  import opened Choices

  // -------------------------------------------------------- the upper bound

  // The expression is worth no more than the choice.
  ghost predicate Below(choice: Symbol, e: Option<Expr>) {
    forall v: Valuation | Sane(v) :: ValueOpt(e, v) <= v(choice).tri
  }

  // The condition of a property at a node below the choice: without the choice
  // it is n, and that of a tristate is worth no more than the choice.
  ghost predicate Limited(choice: Symbol, sym: Option<Symbol>, e: Option<Expr>) {
    && (KeepsMod(sym) ==> Below(choice, e))
    && forall v: Valuation | Sane(v) :: v(choice).tri == NO ==> ValueOpt(e, v) == NO
  }

  ghost predicate EntryLimited(choice: Symbol, e: Entry) {
    && Good(e.dep) && Below(choice, e.dep)
    && forall p | p in e.props :: Good(p.visible) && Limited(choice, e.sym, p.visible)
  }

  // Lists stand only below menus and `if` blocks.
  predicate PlainForest(f: Forest) {
    f.Cons? ==> (f.kids.Cons? ==> f.entry.sym.None?) && PlainForest(f.kids) && PlainForest(f.rest)
  }

  lemma DepBelow(choice: Symbol, upper: Option<Expr>, modules: Symbol, e: Entry, d: Entry)
    requires Below(choice, upper) && EntryDone(upper, modules, e, d)
    ensures Below(choice, d.dep)
  {
    forall v: Valuation | Sane(v) ensures ValueOpt(d.dep, v) <= v(choice).tri {
      assert ValueOpt(upper, v) <= v(choice).tri;
    }
  }

  lemma DoneLimited(choice: Symbol, upper: Option<Expr>, modules: Symbol, e: Entry, d: Entry)
    requires Below(choice, upper) && EntryDone(upper, modules, e, d)
    ensures EntryLimited(choice, d)
  {
    DepBelow(choice, upper, modules, e, d);
    forall p | p in d.props ensures Good(p.visible) && Limited(choice, d.sym, p.visible) {
      var i :| 0 <= i < |d.props| && d.props[i] == p;
      assert PropDone(e.sym, d.dep, modules, e.props[i], p);
      forall v: Valuation | Sane(v)
        ensures KeepsMod(d.sym) ==> ValueOpt(p.visible, v) <= v(choice).tri
        ensures v(choice).tri == NO ==> ValueOpt(p.visible, v) == NO
      {
        assert ValueOpt(d.dep, v) <= v(choice).tri;
      }
    }
  }

  lemma {:induction false} HandedDownBelow(choice: Symbol, d: Entry, n: nat)
    requires EntryLimited(choice, d) && d.sym.None? && n <= |d.props|
    ensures Below(choice, HandedDown(d, n))
  {
    if n > 0 {
      if d.props[n - 1].kind.Prompt? {
        assert d.props[n - 1] in d.props;
      } else {
        HandedDownBelow(choice, d, n - 1);
      }
    }
  }

  // The nodes of a list after `if` blocks and other nodes without a prompt have
  // given their lists up.
  function Flat(f: Forest): seq<Entry> {
    match f
    case Nil => []
    case Cons(e, kids, rest) => [e] + (if HasPrompt(e) then [] else Flat(kids)) + Flat(rest)
  }

  // A node comes to stand in the list if it does already or its parents, up to
  // the list, have no prompt.
  predicate Surfaces(e: Entry, f: Forest) {
    && f.Cons?
    && (e == f.entry || Surfaces(e, f.rest)
        || ((forall p | p in f.entry.props :: !p.kind.Prompt?) && Surfaces(e, f.kids)))
  }

  lemma {:induction false} FlatExact(f: Forest, e: Entry)
    ensures e in Flat(f) <==> Surfaces(e, f)
  {
    if f.Cons? {
      FlatExact(f.kids, e);
      FlatExact(f.rest, e);
    }
  }

  predicate HasPrompt(e: Entry) {
    exists p :: p in e.props && p.kind.Prompt?
  }

  lemma {:induction false} FlatLimited(choice: Symbol, upper: Option<Expr>, modules: Symbol, f: Forest, done: Forest)
    requires Below(choice, upper) && PlainForest(f) && ForestDone(upper, modules, f, done)
    ensures forall e | e in Flat(done) :: EntryLimited(choice, e)
    decreases f
  {
    hide EntryDone, EntryLimited, Below;
    if f.Cons? {
      var d := done.entry;
      DoneLimited(choice, upper, modules, f.entry, d);
      if f.kids.Cons? {
        assert d.sym.None? by { KeepsSymbol(upper, modules, f.entry, d); }
        HandedDownBelow(choice, d, |d.props|);
        FlatLimited(choice, HandedDown(d, |d.props|), modules, f.kids, done.kids);
      }
      FlatLimited(choice, upper, modules, f.rest, done.rest);
    }
  }

  lemma KeepsSymbol(upper: Option<Expr>, modules: Symbol, e: Entry, d: Entry)
    requires EntryDone(upper, modules, e, d)
    ensures d.sym == e.sym
  {
  }

  // ---------------------------------------------------- the values of a choice

  // The expression is worth no more than the choice, and nothing while the
  // choice is m if it belongs to a value that is not tristate.
  ghost predicate Bounds(choice: Symbol, sym: Symbol, e: Option<Expr>) {
    Below(choice, e)
    && (!sym.stype.Tristate? ==> forall v: Valuation | Sane(v) :: v(choice).tri == MOD ==> ValueOpt(e, v) == NO)
  }

  // Values of a tristate choice that are not tristate moreover need it to be y.
  function NeedYes(choice: Symbol, e: Option<Expr>): Option<Expr> {
    Alloc(And, Some(Cmp(Eq, choice, SYM_YES)), e)
  }

  lemma NeedYesMeaning(choice: Symbol, e: Option<Expr>, v: Valuation)
    requires Sane(v) && IsLogic(choice)
    ensures ValueOpt(NeedYes(choice, e), v) == if v(choice).tri == YES then ValueOpt(e, v) else NO
  {
    CmpLetter(Eq, choice, SYM_YES, v);
    assert SaneReading(SYM_YES, v(SYM_YES));
    assert Value(Cmp(Eq, choice, SYM_YES), v) == CmpValue(Eq, choice, SYM_YES, v);
  }

  lemma NeedYesBounds(choice: Symbol, sym: Symbol, e: Option<Expr>)
    requires IsLogic(choice)
    ensures Bounds(choice, sym, NeedYes(choice, e))
  {
    forall v: Valuation | Sane(v)
      ensures ValueOpt(NeedYes(choice, e), v) <= v(choice).tri
      ensures v(choice).tri == MOD ==> ValueOpt(NeedYes(choice, e), v) == NO
    {
      NeedYesMeaning(choice, e, v);
    }
  }

  lemma LimitedBounds(choice: Symbol, sym: Symbol, e: Option<Expr>)
    requires IsLogic(choice) && Limited(choice, Some(sym), e) && (choice.stype.Tristate? ==> sym.stype.Tristate?)
    ensures Bounds(choice, sym, e)
  {
    forall v: Valuation | Sane(v)
      ensures ValueOpt(e, v) <= v(choice).tri
      ensures !sym.stype.Tristate? && v(choice).tri == MOD ==> ValueOpt(e, v) == NO
    {
      assert SaneReading(choice, v(choice));
      if KeepsMod(Some(sym)) { assert ValueOpt(e, v) <= v(choice).tri; }
    }
  }

  // A node that makes its symbol a value of the choice: the symbol is not a
  // value of any choice yet.
  predicate IsNew(marked: set<Symbol>, es: seq<Entry>, i: nat)
    requires i < |es|
  {
    && es[i].sym.Some? && es[i].sym.value !in marked
    && forall j | 0 <= j < i :: es[j].sym != es[i].sym
  }

  ghost predicate EntryBounds(choice: Symbol, e: Entry) {
    e.sym.Some? && forall p | p in e.props :: Bounds(choice, e.sym.value, p.visible)
  }

  // The condition afterwards: n unless a tristate choice is y, for a value that
  // is not tristate; else as it was.
  ghost predicate Narrowed(choice: Symbol, m: Symbol, before: Option<Expr>, after: Option<Expr>) {
    forall v: Valuation | Sane(v) ::
      ValueOpt(after, v)
      == if choice.stype.Tristate? && !m.stype.Tristate? && v(choice).tri != YES then NO else ValueOpt(before, v)
  }

  ghost predicate Made(choice: Symbol, before: Entry, after: Entry) {
    && before.sym.Some? && after.sym == before.sym && |after.props| == |before.props|
    && Narrowed(choice, before.sym.value, before.dep, after.dep)
    && (forall j | 0 <= j < |before.props| :: after.props[j].kind == before.props[j].kind)
    && (forall j | 0 <= j < |before.props| ::
          Narrowed(choice, before.sym.value, before.props[j].visible, after.props[j].visible))
  }

  lemma NeedYesNarrows(choice: Symbol, m: Symbol, e: Option<Expr>)
    requires IsLogic(choice) && choice.stype.Tristate? && !m.stype.Tristate?
    ensures Narrowed(choice, m, e, NeedYes(choice, e))
  {
    forall v: Valuation | Sane(v)
      ensures ValueOpt(NeedYes(choice, e), v) == if v(choice).tri != YES then NO else ValueOpt(e, v)
    {
      NeedYesMeaning(choice, e, v);
    }
  }

  lemma SameNarrows(choice: Symbol, m: Symbol, e: Option<Expr>)
    requires !choice.stype.Tristate? || m.stype.Tristate?
    ensures Narrowed(choice, m, e, e)
  {
  }

  // The conditions of one node, once its symbol becomes a value.
  method MakeValue(choice: Symbol, e: Entry) returns (d: Entry)
    requires IsLogic(choice) && e.sym.Some? && EntryLimited(choice, e)
    ensures EntryBounds(choice, d) && Made(choice, e, d) && d.sym == e.sym
  {
    hide Bounds, Limited, Narrowed;
    d := e;
    var m := e.sym.value;
    if choice.stype.Tristate? && !m.stype.Tristate? {
      var props: seq<Prop> := [];
      for j := 0 to |e.props|
        invariant |props| == j && forall i | 0 <= i < j :: props[i].kind == e.props[i].kind
        invariant forall i | 0 <= i < j :: Narrowed(choice, m, e.props[i].visible, props[i].visible)
        invariant forall p | p in props :: Bounds(choice, m, p.visible)
      {
        NeedYesBounds(choice, m, e.props[j].visible);
        NeedYesNarrows(choice, m, e.props[j].visible);
        props := props + [Prop(e.props[j].kind, NeedYes(choice, e.props[j].visible))];
      }
      NeedYesNarrows(choice, m, e.dep);
      d := Entry(e.sym, NeedYes(choice, e.dep), props);
    } else {
      forall x: Option<Expr> ensures Narrowed(choice, m, x, x) { SameNarrows(choice, m, x); }
      forall p | p in e.props ensures Bounds(choice, m, p.visible) { LimitedBounds(choice, m, p.visible); }
    }
  }

  // The values among the first n nodes, in order.
  function Values(marked: set<Symbol>, es: seq<Entry>, n: nat): seq<Symbol>
    requires n <= |es|
  {
    if n == 0 then []
    else
      var values := Values(marked, es, n - 1);
      var s := es[n - 1].sym;
      if s.Some? && s.value !in marked && s.value !in values then values + [s.value] else values
  }

  // A symbol becomes a value once, at the first node it has there.
  lemma {:induction false} ValuesExact(marked: set<Symbol>, es: seq<Entry>, n: nat, m: Symbol)
    requires n <= |es|
    ensures m in Values(marked, es, n) <==> m !in marked && exists i :: 0 <= i < n && es[i].sym == Some(m)
  {
    if n > 0 { ValuesExact(marked, es, n - 1, m); }
  }

  lemma NewIsNext(marked: set<Symbol>, es: seq<Entry>, i: nat)
    requires i < |es|
    ensures IsNew(marked, es, i)
      <==> es[i].sym.Some? && es[i].sym.value !in marked && es[i].sym.value !in Values(marked, es, i)
    ensures Values(marked, es, i + 1)
      == Values(marked, es, i) + if IsNew(marked, es, i) then [es[i].sym.value] else []
  {
    if es[i].sym.Some? { ValuesExact(marked, es, i, es[i].sym.value); }
  }

  lemma NoValues(marked: set<Symbol>, es: seq<Entry>)
    ensures Values(marked, es, 0) == []
  {
  }

  ghost predicate SameSymbols(es: seq<Entry>, es': seq<Entry>) {
    |es| == |es'| && forall i | 0 <= i < |es| :: es[i].sym == es'[i].sym
  }

  lemma {:induction false} ValuesSame(marked: set<Symbol>, es: seq<Entry>, es': seq<Entry>, n: nat)
    requires SameSymbols(es, es') && n <= |es|
    ensures Values(marked, es, n) == Values(marked, es', n)
  {
    if n > 0 { ValuesSame(marked, es, es', n - 1); }
  }

  // Exactly the nodes that make a value change, and only as they should.
  ghost predicate AllMade(choice: Symbol, marked: set<Symbol>, nodes: seq<Entry>, out: seq<Entry>) {
    |out| == |nodes| && forall i: nat | i < |nodes| :: MadeAt(choice, marked, nodes, i, out[i])
  }

  ghost predicate MadeAt(choice: Symbol, marked: set<Symbol>, nodes: seq<Entry>, i: nat, after: Entry)
    requires i < |nodes|
  {
    if IsNew(marked, nodes, i) then Made(choice, nodes[i], after) else after == nodes[i]
  }

  // The loop over the nodes below the choice; `marked` are the values of choices
  // so far.
  method MakeValues(choice: Symbol, nodes: seq<Entry>, marked: set<Symbol>)
    returns (out: seq<Entry>, values: seq<Symbol>)
    requires IsLogic(choice) && forall e | e in nodes :: EntryLimited(choice, e)
    ensures SameSymbols(nodes, out) && values == Values(marked, nodes, |nodes|)
    ensures forall i: nat | i < |nodes| && IsNew(marked, nodes, i) :: EntryBounds(choice, out[i])
    ensures AllMade(choice, marked, nodes, out)
  {
    hide EntryLimited, EntryBounds, IsNew, Values, Made;
    assert Values(marked, nodes, 0) == [] by { NoValues(marked, nodes); }
    out, values := [], [];
    for k := 0 to |nodes|
      invariant |out| == k && forall i | 0 <= i < k :: out[i].sym == nodes[i].sym
      invariant values == Values(marked, nodes, k)
      invariant forall i: nat | i < k && IsNew(marked, nodes, i) :: EntryBounds(choice, out[i])
      invariant forall i: nat | i < k :: MadeAt(choice, marked, nodes, i, out[i])
    {
      var e := nodes[k];
      NewIsNext(marked, nodes, k);
      if e.sym.Some? && e.sym.value !in marked && e.sym.value !in values {
        values := values + [e.sym.value];
        e := MakeValue(choice, e);
      }
      out := out + [e];
    }
  }

  // menu_finalize for a choice: dependencies first, then the values in turn.
  method FinalizeChoice(deps: Dependencies, choice: Symbol, f: Forest, marked: set<Symbol>)
    returns (out: seq<Entry>, values: seq<Symbol>, done: Forest)
    requires IsLogic(choice) && ValidForest(f) && PlainForest(f)
    modifies deps
    ensures ForestDone(Some(Sym(choice)), deps.modules, f, done) && AllMade(choice, marked, Flat(done), out)
    ensures EntriesAdded(old(deps.revDep), deps.revDep, All(done), true)
    ensures EntriesAdded(old(deps.implied), deps.implied, All(done), false)
    ensures values == Values(marked, out, |out|) && Bounded(choice, out, marked)
  {
    hide EntryLimited, EntryBounds, IsNew, MadeAt;
    done := deps.FinalizeForest(Some(Sym(choice)), f);
    FlatLimited(choice, Some(Sym(choice)), deps.modules, f, done);
    var nodes := Flat(done);
    out, values := MakeValues(choice, nodes, marked);
    ValuesSame(marked, nodes, out, |out|);
    forall i: nat | i < |out| && IsNew(marked, out, i) ensures EntryBounds(choice, out[i]) {
      NewSame(marked, nodes, out, i);
    }
  }

  lemma NewSame(marked: set<Symbol>, es: seq<Entry>, es': seq<Entry>, i: nat)
    requires SameSymbols(es, es') && i < |es|
    ensures IsNew(marked, es, i) == IsNew(marked, es', i)
  {
  }

  // The choice bounds all conditions of the nodes that make the values.
  ghost predicate Bounded(choice: Symbol, es: seq<Entry>, marked: set<Symbol>) {
    forall i: nat | i < |es| && IsNew(marked, es, i) :: EntryBounds(choice, es[i])
  }

  // ---------------------------------------------------------- the evaluation

  // The condition is that of a property at the node that made m a value.
  ghost predicate Located(es: seq<Entry>, marked: set<Symbol>, m: Symbol, e: Option<Expr>) {
    exists i: nat, j: nat :: IsPlace(es, marked, m, e, i, j)
  }

  predicate IsPlace(es: seq<Entry>, marked: set<Symbol>, m: Symbol, e: Option<Expr>, i: nat, j: nat) {
    && i < |es| && IsNew(marked, es, i) && es[i].sym == Some(m)
    && j < |es[i].props| && es[i].props[j].visible == e
  }

  // The prompts and defaults of the values stand below the choice.
  ghost predicate AllLocated(ch: Choice, es: seq<Entry>, marked: set<Symbol>) {
    forall m | m in ch.members ::
      && (forall i | 0 <= i < |DefOf(ch.c, m).prompts| :: Located(es, marked, m, DefOf(ch.c, m).prompts[i]))
      && (forall i | 0 <= i < |DefOf(ch.c, m).defaults| :: Located(es, marked, m, DefOf(ch.c, m).defaults[i].visible))
  }

  // With the symbols outside evaluated, what is read while the choice is t is a
  // sane valuation.
  lemma AtSane(ch: Choice, t: Tri)
    requires ch.WellFormed() && ch.Possible(t) && OrdinaryNumbers(ch.c) && Sane(Readings(ch.c, ch.outer))
    ensures Sane(ch.At(t)) && ch.At(t)(ch.sym).tri == t
  {
    hide OrdinaryNumbers;
    var v, w := ch.At(t), Readings(ch.c, ch.outer);
    assert v(ch.sym) == Read(ch.c, ch.sym, SymVal("", t), ch.Modules());
    forall s: Symbol ensures SaneReading(s, v(s)) {
      if s == ch.sym {
        ReadSane(ch.c, s, SymVal("", t), ch.Modules());
      } else {
        assert v(s) == w(s) && SaneReading(s, w(s));
      }
    }
  }

  lemma LocatedBounded(ch: Choice, es: seq<Entry>, marked: set<Symbol>, m: Symbol, e: Option<Expr>, t: Tri)
    requires Bounded(ch.sym, es, marked) && Located(es, marked, m, e)
    requires Sane(ch.At(t)) && ch.At(t)(ch.sym).tri == t
    ensures ch.BoundedAt(m, e, t)
  {
    var i: nat, j: nat :| IsPlace(es, marked, m, e, i, j);
    assert EntryBounds(ch.sym, es[i]) && es[i].props[j] in es[i].props;
    assert Bounds(ch.sym, m, e);
  }

  // So the choice bounds the conditions of its values, as its evaluation needs.
  lemma ChoiceIsBounded(ch: Choice, es: seq<Entry>, marked: set<Symbol>)
    requires ch.WellFormed() && OrdinaryNumbers(ch.c) && Sane(Readings(ch.c, ch.outer))
    requires Bounded(ch.sym, es, marked) && AllLocated(ch, es, marked)
    ensures ch.Bounded()
  {
    hide Bounded, Located, OrdinaryNumbers, Sane;
    forall m, t: Tri | m in ch.members && ch.Possible(t)
      ensures forall i | 0 <= i < |DefOf(ch.c, m).prompts| :: ch.BoundedAt(m, DefOf(ch.c, m).prompts[i], t)
      ensures forall i | 0 <= i < |DefOf(ch.c, m).defaults| :: ch.BoundedAt(m, DefOf(ch.c, m).defaults[i].visible, t)
    {
      AtSane(ch, t);
      forall i | 0 <= i < |DefOf(ch.c, m).prompts| ensures ch.BoundedAt(m, DefOf(ch.c, m).prompts[i], t) {
        LocatedBounded(ch, es, marked, m, DefOf(ch.c, m).prompts[i], t);
      }
      forall i | 0 <= i < |DefOf(ch.c, m).defaults|
        ensures ch.BoundedAt(m, DefOf(ch.c, m).defaults[i].visible, t)
      {
        LocatedBounded(ch, es, marked, m, DefOf(ch.c, m).defaults[i].visible, t);
      }
    }
  }

  // ------------------------------------------------------ mandatory choices

  // The rev_dep of a choice that is not optional: it is selected as m under the
  // condition of its prompt.
  function Mandatory(rev: Option<Expr>, prompt: Option<Expr>): Option<Expr> {
    Alloc(Or, rev, Alloc(And, prompt, Some(Sym(SYM_MOD))))
  }

  lemma MandatoryValue(rev: Option<Expr>, prompt: Option<Expr>, v: Valuation)
    requires v(SYM_MOD).tri == MOD
    ensures Mandatory(rev, prompt).Some?
    ensures Value(Mandatory(rev, prompt).value, v) == Ap(Or, OrNo(rev, v), Ap(And, ValueOpt(prompt, v), MOD))
  {
    var m := Some(Sym(SYM_MOD));
    assert Value(m.value, v) == MOD;
    var cond := Alloc(And, prompt, m);
    assert Value(cond.value, v) == Ap(And, ValueOpt(prompt, v), MOD);
  }

  // Such a choice does not calculate to n while its prompt is visible, whatever
  // the user asked for.
  lemma MandatoryNotNo(ch: Choice, rev: Option<Expr>, prompt: Option<Expr>, withUser: bool)
    requires DefOf(ch.c, ch.sym).revDep == Mandatory(rev, prompt) && Sane(Readings(ch.c, ch.outer))
    requires ValueOpt(prompt, Readings(ch.c, ch.outer)) != NO
    ensures ch.OwnValue(withUser) != NO
  {
    var v := Readings(ch.c, ch.outer);
    assert SaneReading(SYM_MOD, v(SYM_MOD));
    MandatoryValue(rev, prompt, v);
    hide Mandatory;
    assert OrNo(DefOf(ch.c, ch.sym).revDep, v) != NO;
  }
}
