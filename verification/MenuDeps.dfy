// Dependencies in the menu tree: how menu_finalize (support/kconfig/menu.c)
// hands the dependency of a menu node down to its children and their
// properties, accumulates select and imply, and decides which items belong
// into the automatic submenu of a symbol.

module MenuDeps {
  import opened Wrappers
  import opened Expressions
  import opened ExprEquality
  import opened ExprTransform
  import opened ExprPaths
  import opened ExprSlots

  // A dependency that has been through the simplifier.
  predicate Good(e: Option<Expr>) {
    e.Some? ==> Proper(e.value) && Normal(e.value)
  }

  predicate ProperOpt(e: Option<Expr>) {
    e.Some? ==> Proper(e.value)
  }

  // The value a child ends up with: its own dependency, with m limited by the
  // modules symbol, under what the parent demands.
  function Inherited(upper: Option<Expr>, dep: Option<Expr>, modules: Symbol, v: Valuation): Tri {
    Ap(And, ValueOpt(upper, v), ValueOpt(dep, LimitedMod(v, modules)))
  }

  // ------------------------------------------------------------ propagation

  method Simplify(dep: Option<Expr>, modules: Symbol) returns (r: Option<Expr>)
    requires ProperOpt(dep)
    ensures r.Some? <==> dep.Some?
    ensures r.Some? ==> r.value == Transform(RewriteM(dep.value, modules))
  {
    match dep
    case None => r := None;
    case Some(e) =>
      var cell := new ExprVar(e);
      cell.RewriteMAt([], modules);
      cell.TransformAt([]);
      r := Some(cell.tree);
  }

  // rewrite_m, expr_transform, expr_alloc_and with the upper dependency, then
  // expr_eliminate_dups.
  method Propagate(upper: Option<Expr>, dep: Option<Expr>, modules: Symbol) returns (r: Option<Expr>)
    requires Good(upper) && ProperOpt(dep)
    ensures Good(r)
    ensures r.Some? ==> Deduped(r.value)
    ensures forall v: Valuation | Sane(v) :: ValueOpt(r, v) == Inherited(upper, dep, modules, v)
  {
    var own := Simplify(dep, modules);
    r := Alloc(And, upper, own);
    PropagatedMeaning(upper, dep, modules);
    match r
    case None =>
    case Some(e) =>
      var cell := new ExprVar(e);
      cell.EliminateDups();
      r := Some(cell.tree);
  }

  lemma PropagatedMeaning(upper: Option<Expr>, dep: Option<Expr>, modules: Symbol)
    requires Good(upper) && ProperOpt(dep)
    ensures var own := if dep.None? then None else Some(Transform(RewriteM(dep.value, modules)));
      && Good(Alloc(And, upper, own))
      && forall v: Valuation | Sane(v) :: ValueOpt(Alloc(And, upper, own), v) == Inherited(upper, dep, modules, v)
  {
    match dep
    case None =>
    case Some(e) =>
      var m := RewriteM(e, modules);
      RewriteMMeaning(e, modules, _ => Reading(NO, "", Text));
      TransformNormal(m);
      forall v: Valuation | Sane(v) ensures Value(Transform(m), v) == Value(e, LimitedMod(v, modules)) {
        RewriteMMeaning(e, modules, v);
        TransformMeaning(m, v);
      }
  }

  // ------------------------------------------------- properties and selects

  datatype PropKind = Prompt | Default | Range | Select(target: Symbol) | Imply(target: Symbol)

  // A property of the symbol of a menu node that is located at that node.
  datatype Prop = Prop(kind: PropKind, visible: Option<Expr>)

  // A child menu node.  Nodes without a symbol carry at most a prompt.
  datatype Entry = Entry(sym: Option<Symbol>, dep: Option<Expr>, props: seq<Prop>)

  predicate ValidEntry(e: Entry) {
    && ProperOpt(e.dep)
    && (forall p | p in e.props :: ProperOpt(p.visible))
    && (e.sym.None? ==> forall p | p in e.props :: p.kind.Prompt?)
  }

  // Only the visibility of a tristate, or of a node without symbol, has to
  // distinguish m from y.
  predicate KeepsMod(sym: Option<Symbol>) {
    sym.None? || sym.value.stype.Tristate?
  }

  ghost predicate PropDone(sym: Option<Symbol>, basedep: Option<Expr>, modules: Symbol, before: Prop, after: Prop) {
    && after.kind == before.kind
    && Good(after.visible)
    && (forall v: Valuation | Sane(v) ::
          (ValueOpt(after.visible, v) == NO <==> Inherited(basedep, before.visible, modules, v) == NO))
    && (KeepsMod(sym) ==> forall v: Valuation | Sane(v) ::
          ValueOpt(after.visible, v) == Inherited(basedep, before.visible, modules, v))
    && (!KeepsMod(sym) && after.visible.Some? ==> !TestsTristate(after.visible.value))
  }

  ghost predicate EntryDone(upper: Option<Expr>, modules: Symbol, before: Entry, after: Entry) {
    && after.sym == before.sym
    && Good(after.dep)
    && (forall v: Valuation | Sane(v) :: ValueOpt(after.dep, v) == Inherited(upper, before.dep, modules, v))
    && |after.props| == |before.props|
    && (forall i | 0 <= i < |before.props| ::
          PropDone(before.sym, after.dep, modules, before.props[i], after.props[i]))
  }

  // What selecting (or implying) t contributes to t: the strongest
  // `selector && condition`.
  function Contribution(sym: Option<Symbol>, p: Prop, wanted: PropKind, v: Valuation): Tri {
    if sym.Some? && p.kind == wanted then Ap(And, v(sym.value).tri, ValueOpt(p.visible, v)) else NO
  }

  function PropsContribution(sym: Option<Symbol>, ps: seq<Prop>, wanted: PropKind, v: Valuation): Tri {
    if ps == [] then NO
    else Ap(Or, PropsContribution(sym, ps[..|ps| - 1], wanted, v), Contribution(sym, ps[|ps| - 1], wanted, v))
  }

  function EntriesContribution(es: seq<Entry>, wanted: PropKind, v: Valuation): Tri {
    if es == [] then NO
    else
      var last := es[|es| - 1];
      Ap(Or, EntriesContribution(es[..|es| - 1], wanted, v), PropsContribution(last.sym, last.props, wanted, v))
  }

  // rev_dep or implied of a symbol; NULL is n.
  function Reverse(m: map<Symbol, Expr>, t: Symbol, v: Valuation): Tri {
    if t in m then Value(m[t], v) else NO
  }

  function Wanted(select: bool, t: Symbol): PropKind {
    if select then Select(t) else Imply(t)
  }

  // Every symbol gains exactly what these properties (of these nodes) contribute.
  ghost predicate PropsAdded(
    before: map<Symbol, Expr>, after: map<Symbol, Expr>, sym: Option<Symbol>, ps: seq<Prop>, select: bool)
  {
    forall t: Symbol, v: Valuation ::
      Reverse(after, t, v) == Ap(Or, Reverse(before, t, v), PropsContribution(sym, ps, Wanted(select, t), v))
  }

  ghost predicate EntriesAdded(before: map<Symbol, Expr>, after: map<Symbol, Expr>, es: seq<Entry>, select: bool) {
    forall t: Symbol, v: Valuation ::
      Reverse(after, t, v) == Ap(Or, Reverse(before, t, v), EntriesContribution(es, Wanted(select, t), v))
  }

  lemma AddReverseMeaning(m: map<Symbol, Expr>, t: Symbol, sym: Symbol, dep: Option<Expr>, u: Symbol, v: Valuation)
    ensures Reverse(Dependencies.AddReverse(m, t, sym, dep), u, v)
      == Ap(Or, Reverse(m, u, v), if u == t then Ap(And, v(sym).tri, ValueOpt(dep, v)) else NO)
  {
    var cond := Alloc(And, Some(Sym(sym)), dep).value;
    assert Value(cond, v) == Ap(And, v(sym).tri, ValueOpt(dep, v)) by { assert Value(Sym(sym), v) == v(sym).tri; }
  }

  // One more property.
  lemma PropAdded(
    before: map<Symbol, Expr>, m: map<Symbol, Expr>, sym: Option<Symbol>, ps: seq<Prop>, p: Prop, select: bool)
    requires PropsAdded(before, m, sym, ps, select)
    requires sym.None? ==> p.kind.Prompt?
    ensures
      var after := match p.kind
        case Select(t) => if select then Dependencies.AddReverse(m, t, sym.value, p.visible) else m
        case Imply(t) => if select then m else Dependencies.AddReverse(m, t, sym.value, p.visible)
        case _ => m;
      PropsAdded(before, after, sym, ps + [p], select)
  {
    assert (ps + [p])[..|ps|] == ps;
    var after := match p.kind
      case Select(t) => if select then Dependencies.AddReverse(m, t, sym.value, p.visible) else m
      case Imply(t) => if select then m else Dependencies.AddReverse(m, t, sym.value, p.visible)
      case _ => m;
    forall t: Symbol, v: Valuation
      ensures Reverse(after, t, v) == Ap(Or, Reverse(m, t, v), Contribution(sym, p, Wanted(select, t), v))
    {
      if p.kind.Select? { AddReverseMeaning(m, p.kind.target, sym.value, p.visible, t, v); }
      if p.kind.Imply? { AddReverseMeaning(m, p.kind.target, sym.value, p.visible, t, v); }
    }
  }

  // One more node.
  lemma EntryAdded(
    before: map<Symbol, Expr>, m: map<Symbol, Expr>, after: map<Symbol, Expr>, es: seq<Entry>, e: Entry, select: bool)
    requires EntriesAdded(before, m, es, select) && PropsAdded(m, after, e.sym, e.props, select)
    ensures EntriesAdded(before, after, es + [e], select)
  {
    assert (es + [e])[..|es|] == es;
  }

  class Dependencies {
    const modules: Symbol
    var revDep: map<Symbol, Expr>
    var implied: map<Symbol, Expr>

    constructor (modules: Symbol)
      ensures this.modules == modules && revDep == map[] && implied == map[]
    {
      this.modules := modules;
      revDep, implied := map[], map[];
    }

    // What t had, or sym under its condition.
    static function AddReverse(m: map<Symbol, Expr>, t: Symbol, sym: Symbol, dep: Option<Expr>): map<Symbol, Expr> {
      var have := if t in m then Some(m[t]) else None;
      m[t := Alloc(Or, have, Alloc(And, Some(Sym(sym)), dep)).value]
    }

    // The condition of one property.
    method PropCondition(sym: Option<Symbol>, basedep: Option<Expr>, p: Prop) returns (q: Prop)
      requires Good(basedep) && ProperOpt(p.visible)
      ensures PropDone(sym, basedep, modules, p, q)
    {
      var dep := Propagate(basedep, p.visible, modules);
      if sym.Some? && !sym.value.stype.Tristate? && dep.Some? {
        var cell := new ExprVar(dep.value);
        cell.TransBoolAt([]);
        TransBoolRemoves(dep.value);
        ghost var sane: Valuation := SomeSane;
        SomeSaneIsSane();
        TransBoolKeepsNo(dep.value, sane);
        forall v: Valuation | Sane(v) ensures Value(cell.tree, v) == NO <==> ValueOpt(dep, v) == NO {
          TransBoolKeepsNo(dep.value, v);
        }
        dep := Some(cell.tree);
      }
      q := Prop(p.kind, dep);
    }

    // The loop over the properties of one child.
    method FinalizeProps(sym: Option<Symbol>, basedep: Option<Expr>, props: seq<Prop>) returns (out: seq<Prop>)
      requires Good(basedep) && (forall p | p in props :: ProperOpt(p.visible))
      requires sym.None? ==> forall p | p in props :: p.kind.Prompt?
      modifies this
      ensures |out| == |props|
      ensures forall i | 0 <= i < |props| :: PropDone(sym, basedep, modules, props[i], out[i])
      ensures PropsAdded(old(revDep), revDep, sym, out, true)
      ensures PropsAdded(old(implied), implied, sym, out, false)
    {
      out := [];
      for k := 0 to |props|
        invariant |out| == k
        invariant forall i | 0 <= i < k :: PropDone(sym, basedep, modules, props[i], out[i])
        invariant PropsAdded(old(revDep), revDep, sym, out, true)
        invariant PropsAdded(old(implied), implied, sym, out, false)
      {
        assert props[k] in props;
        var done := PropCondition(sym, basedep, props[k]);
        ghost var rev0, imp0 := revDep, implied;
        match done.kind {
          case Select(t) => revDep := AddReverse(revDep, t, sym.value, done.visible);
          case Imply(t) => implied := AddReverse(implied, t, sym.value, done.visible);
          case _ =>
        }
        PropAdded(old(revDep), rev0, sym, out, done, true);
        PropAdded(old(implied), imp0, sym, out, done, false);
        out := out + [done];
      }
    }

    method FinalizeChild(upper: Option<Expr>, e: Entry) returns (done: Entry)
      requires Good(upper) && ValidEntry(e)
      modifies this
      ensures EntryDone(upper, modules, e, done)
      ensures PropsAdded(old(revDep), revDep, done.sym, done.props, true)
      ensures PropsAdded(old(implied), implied, done.sym, done.props, false)
    {
      var basedep := Propagate(upper, e.dep, modules);
      var props := FinalizeProps(e.sym, basedep, e.props);
      done := Entry(e.sym, basedep, props);
    }

    // The loop over the children of a menu node.  `upper` is the dependency the
    // parent hands down: the choice itself, the prompt's condition, or the
    // parent's own dependency.
    method FinalizeChildren(upper: Option<Expr>, entries: seq<Entry>) returns (out: seq<Entry>)
      requires Good(upper) && (forall e | e in entries :: ValidEntry(e))
      modifies this
      ensures EntriesDone(upper, modules, entries, out)
      ensures EntriesAdded(old(revDep), revDep, out, true)
      ensures EntriesAdded(old(implied), implied, out, false)
    {
      out := [];
      for k := 0 to |entries|
        invariant |out| == k
        invariant forall i | 0 <= i < k :: EntryDone(upper, modules, entries[i], out[i])
        invariant EntriesAdded(old(revDep), revDep, out, true)
        invariant EntriesAdded(old(implied), implied, out, false)
      {
        assert entries[k] in entries;
        ghost var rev0, imp0 := revDep, implied;
        var done := FinalizeChild(upper, entries[k]);
        EntryAdded(old(revDep), rev0, revDep, out, done, true);
        EntryAdded(old(implied), imp0, implied, out, done, false);
        out := out + [done];
      }
    }

    // menu_finalize, over all lists: the children of a node in turn, and then
    // each child with what it hands down.
    method FinalizeForest(upper: Option<Expr>, f: Forest) returns (done: Forest)
      requires Good(upper) && ValidForest(f)
      modifies this
      ensures ForestDone(upper, modules, f, done)
      ensures EntriesAdded(old(revDep), revDep, All(done), true)
      ensures EntriesAdded(old(implied), implied, All(done), false)
      decreases f, 1
    {
      SiblingsValid(f);
      var out := FinalizeChildren(upper, Siblings(f));
      ghost var rev, imp := revDep, implied;
      done := FinalizeBelow(upper, f, out);
      AddedConcat(old(revDep), rev, revDep, out, Below(done), true);
      AddedConcat(old(implied), imp, implied, out, Below(done), false);
    }

    method FinalizeBelow(ghost upper: Option<Expr>, f: Forest, out: seq<Entry>) returns (done: Forest)
      requires ValidForest(f) && EntriesDone(upper, modules, Siblings(f), out)
      modifies this
      ensures ForestDone(upper, modules, f, done) && Siblings(done) == out
      ensures EntriesAdded(old(revDep), revDep, Below(done), true)
      ensures EntriesAdded(old(implied), implied, Below(done), false)
      decreases f, 0
    {
      hide EntryDone, EntriesDone, EntriesAdded, ValidEntry, HandedDown;
      match f {
        case Nil =>
          NoneDone(upper, modules, out);
          NothingAdded(revDep, true);
          NothingAdded(implied, false);
          done := Nil;
        case Cons(e, kids, rest) =>
          FirstDone(upper, modules, e, Siblings(rest), out);
          HandedDownGood(upper, modules, e, out[0], |out[0].props|);
          var kids' := FinalizeForest(HandedDown(out[0], |out[0].props|), kids);
          ghost var rev, imp := revDep, implied;
          var rest' := FinalizeBelow(upper, rest, out[1..]);
          AddedConcat(old(revDep), rev, revDep, All(kids'), Below(rest'), true);
          AddedConcat(old(implied), imp, implied, All(kids'), Below(rest'), false);
          done := Cons(out[0], kids', rest');
      }
    }
  }

  // -------------------------------------------------------- the whole tree

  lemma {:induction false} ContributionConcat(a: seq<Entry>, b: seq<Entry>, wanted: PropKind, v: Valuation)
    ensures EntriesContribution(a + b, wanted, v)
      == Ap(Or, EntriesContribution(a, wanted, v), EntriesContribution(b, wanted, v))
  {
    if b == [] {
      assert a + b == a;
    } else {
      ContributionConcat(a, b[..|b| - 1], wanted, v);
      assert (a + b)[..|a + b| - 1] == a + b[..|b| - 1];
    }
  }

  lemma NothingAdded(m: map<Symbol, Expr>, select: bool)
    ensures EntriesAdded(m, m, [], select)
  {
  }

  // What two lists add, one after the other.
  lemma AddedConcat(
    m0: map<Symbol, Expr>, m1: map<Symbol, Expr>, m2: map<Symbol, Expr>, a: seq<Entry>, b: seq<Entry>, select: bool)
    requires EntriesAdded(m0, m1, a, select) && EntriesAdded(m1, m2, b, select)
    ensures EntriesAdded(m0, m2, a + b, select)
  {
    forall t: Symbol, v: Valuation
      ensures Reverse(m2, t, v) == Ap(Or, Reverse(m0, t, v), EntriesContribution(a + b, Wanted(select, t), v))
    {
      ContributionConcat(a, b, Wanted(select, t), v);
    }
  }

  // A list of menu nodes, each with the list below it.
  datatype Forest = Nil | Cons(entry: Entry, kids: Forest, rest: Forest)

  // The nodes of a list, and all nodes below them, in the order in which
  // menu_finalize gets to them.
  function Siblings(f: Forest): seq<Entry> {
    match f
    case Nil => []
    case Cons(e, _, rest) => [e] + Siblings(rest)
  }

  function Below(f: Forest): seq<Entry>
    decreases f, 0
  {
    match f
    case Nil => []
    case Cons(_, kids, rest) => All(kids) + Below(rest)
  }

  function All(f: Forest): seq<Entry>
    decreases f, 1
  {
    Siblings(f) + Below(f)
  }

  predicate ValidForest(f: Forest) {
    f.Cons? ==> ValidEntry(f.entry) && ValidForest(f.kids) && ValidForest(f.rest)
  }

  // What a finalised node hands down: the condition of its prompt, if it has
  // one, else its own dependency.
  function HandedDown(e: Entry, n: nat): Option<Expr>
    requires n <= |e.props|
  {
    if n == 0 then e.dep else if e.props[n - 1].kind.Prompt? then e.props[n - 1].visible else HandedDown(e, n - 1)
  }

  ghost predicate ForestDone(upper: Option<Expr>, modules: Symbol, before: Forest, after: Forest)
    decreases before
  {
    match (before, after)
    case (Nil, Nil) => true
    case (Cons(e, kids, rest), Cons(d, kids', rest')) =>
      && EntryDone(upper, modules, e, d)
      && ForestDone(HandedDown(d, |d.props|), modules, kids, kids')
      && ForestDone(upper, modules, rest, rest')
    case _ => false
  }

  ghost predicate EntriesDone(upper: Option<Expr>, modules: Symbol, before: seq<Entry>, after: seq<Entry>) {
    && |after| == |before|
    && (forall i | 0 <= i < |before| :: EntryDone(upper, modules, before[i], after[i]))
  }

  lemma NoneDone(upper: Option<Expr>, modules: Symbol, after: seq<Entry>)
    requires EntriesDone(upper, modules, [], after)
    ensures after == []
  {
  }

  lemma FirstDone(upper: Option<Expr>, modules: Symbol, e: Entry, rest: seq<Entry>, after: seq<Entry>)
    requires EntriesDone(upper, modules, [e] + rest, after)
    ensures |after| > 0 && EntryDone(upper, modules, e, after[0]) && EntriesDone(upper, modules, rest, after[1..])
    ensures [after[0]] + after[1..] == after
  {
    assert ([e] + rest)[0] == e;
    forall i | 0 <= i < |rest| ensures EntryDone(upper, modules, rest[i], after[1..][i]) {
      assert rest[i] == ([e] + rest)[i + 1];
    }
  }

  lemma {:induction false} HandedDownGood(upper: Option<Expr>, modules: Symbol, e: Entry, d: Entry, n: nat)
    requires EntryDone(upper, modules, e, d) && n <= |d.props|
    ensures Good(HandedDown(d, n))
  {
    if n > 0 && !d.props[n - 1].kind.Prompt? {
      HandedDownGood(upper, modules, e, d, n - 1);
    } else if n > 0 {
      assert PropDone(e.sym, d.dep, modules, e.props[n - 1], d.props[n - 1]);
    }
  }

  lemma {:induction false} SiblingsValid(f: Forest)
    requires ValidForest(f)
    ensures forall e | e in Siblings(f) :: ValidEntry(e)
  {
    if f.Cons? { SiblingsValid(f.rest); }
  }

  // Some valuation is sane.
  function SomeSane(s: Symbol): Reading {
    if s == SYM_YES then Reading(YES, "y", Text)
    else if s == SYM_MOD then Reading(MOD, "m", Text)
    else if s == SYM_NO then Reading(NO, "n", Text)
    else if IsLogic(s) then Reading(NO, "n", Signed(NO))
    else Reading(NO, "", if s.stype.Other? then Invalid else Text)
  }

  lemma SomeSaneIsSane()
    ensures Sane(SomeSane)
  {
    var v: Valuation := SomeSane;
    forall s: Symbol ensures SaneReading(s, v(s)) { }
  }

  // Every select reaches its target through the accumulated disjunction.
  lemma {:induction false} ContributionReaches(es: seq<Entry>, i: int, j: int, wanted: PropKind, v: Valuation)
    requires 0 <= i < |es| && 0 <= j < |es[i].props| && es[i].sym.Some? && es[i].props[j].kind == wanted
    ensures EntriesContribution(es, wanted, v) >= Ap(And, v(es[i].sym.value).tri, ValueOpt(es[i].props[j].visible, v))
  {
    if i == |es| - 1 {
      PropReaches(es[i].sym, es[i].props, j, wanted, v);
    } else {
      ContributionReaches(es[..|es| - 1], i, j, wanted, v);
    }
  }

  lemma {:induction false} PropReaches(sym: Option<Symbol>, ps: seq<Prop>, j: int, wanted: PropKind, v: Valuation)
    requires 0 <= j < |ps| && sym.Some? && ps[j].kind == wanted
    ensures PropsContribution(sym, ps, wanted, v) >= Ap(And, v(sym.value).tri, ValueOpt(ps[j].visible, v))
  {
    if j < |ps| - 1 { PropReaches(sym, ps[..|ps| - 1], j, wanted, v); }
  }

  // Nothing else is in it: the disjunction is n or one of the contributions.
  lemma {:induction false} ContributionAttained(es: seq<Entry>, wanted: PropKind, v: Valuation)
    requires wanted.Select? || wanted.Imply?
    ensures EntriesContribution(es, wanted, v) == NO || exists i, j :: Attained(es, i, j, wanted, v)
  {
    if es != [] {
      var n := |es| - 1;
      ContributionAttained(es[..n], wanted, v);
      PropAttained(es[n].sym, es[n].props, wanted, v);
      if EntriesContribution(es, wanted, v) == NO {
      } else if EntriesContribution(es, wanted, v) == EntriesContribution(es[..n], wanted, v) {
        var i, j :| Attained(es[..n], i, j, wanted, v);
        assert Attained(es, i, j, wanted, v);
      } else {
        var j :| 0 <= j < |es[n].props| && IsContribution(es[n].sym, es[n].props[j], wanted, v,
          PropsContribution(es[n].sym, es[n].props, wanted, v));
        assert Attained(es, n, j, wanted, v);
      }
    }
  }

  // The j-th property of the i-th node is of that kind, and the minimum of the
  // symbol and the condition is the whole disjunction.
  ghost predicate Attained(es: seq<Entry>, i: int, j: int, wanted: PropKind, v: Valuation) {
    && 0 <= i < |es| && 0 <= j < |es[i].props|
    && IsContribution(es[i].sym, es[i].props[j], wanted, v, EntriesContribution(es, wanted, v))
  }

  predicate IsContribution(sym: Option<Symbol>, p: Prop, wanted: PropKind, v: Valuation, t: Tri) {
    && sym.Some? && p.kind == wanted
    && t == if v(sym.value).tri < ValueOpt(p.visible, v) then v(sym.value).tri else ValueOpt(p.visible, v)
  }

  lemma {:induction false} PropAttained(sym: Option<Symbol>, ps: seq<Prop>, wanted: PropKind, v: Valuation)
    requires wanted.Select? || wanted.Imply?
    ensures PropsContribution(sym, ps, wanted, v) == NO
      || exists j :: 0 <= j < |ps| && IsContribution(sym, ps[j], wanted, v, PropsContribution(sym, ps, wanted, v))
  {
    if ps != [] {
      var n := |ps| - 1;
      PropAttained(sym, ps[..n], wanted, v);
      var t := PropsContribution(sym, ps, wanted, v);
      if t != NO && t == PropsContribution(sym, ps[..n], wanted, v) {
        var j :| 0 <= j < n && IsContribution(sym, ps[..n][j], wanted, v, t);
        assert IsContribution(sym, ps[j], wanted, v, t);
      } else if t != NO {
        assert IsContribution(sym, ps[n], wanted, v, t);
      }
    }
  }

  // A node hands down the condition of its prompt, and without a prompt its own
  // dependency.
  lemma {:induction false} HandedDownExact(e: Entry, n: nat, j: int)
    requires n <= |e.props|
    ensures 0 <= j < n && e.props[j].kind.Prompt? && (forall k | j < k < n :: !e.props[k].kind.Prompt?) ==>
      HandedDown(e, n) == e.props[j].visible
    ensures (forall k | 0 <= k < n :: !e.props[k].kind.Prompt?) ==> HandedDown(e, n) == e.dep
  {
    if n > 0 { HandedDownExact(e, n - 1, j); }
  }

  // ------------------------------------------------ items of a submenu

  // expr_contains_symbol
  predicate Contains(dep: Expr, s: Symbol) {
    match dep
    case Bin(_, l, r) => Contains(l, s) || Contains(r, s)
    case Sym(t) => t == s
    case Cmp(_, l, r) => l == s || r == s
    case Not(a) => Contains(a, s)
  }

  // One of the operands of e as a chain of &&.
  predicate IsConjunct(e: Expr, x: Expr) {
    if IsBin(And, e) then IsConjunct(e.left, x) || IsConjunct(e.right, x) else x == e
  }

  predicate NeedsSymbol(x: Expr, s: Symbol) {
    x == Sym(s) || x == Cmp(Eq, s, SYM_YES) || x == Cmp(Eq, s, SYM_MOD) || x == Cmp(Ne, s, SYM_NO)
  }

  // expr_depends_symbol
  predicate Depends(dep: Expr, s: Symbol) {
    match dep
    case Bin(op, l, r) => op.And? && (Depends(l, s) || Depends(r, s))
    case Sym(t) => t == s
    case Cmp(rel, l, r) =>
      l == s && ((rel.Eq? && (r == SYM_YES || r == SYM_MOD)) || (rel.Ne? && r == SYM_NO))
    case Not(_) => false
  }

  lemma {:induction false} ContainsExact(dep: Expr, s: Symbol)
    ensures Contains(dep, s) <==> s in Symbols(dep)
  {
    match dep
    case Bin(_, l, r) => ContainsExact(l, s); ContainsExact(r, s);
    case Not(a) => ContainsExact(a, s);
    case _ =>
  }

  // Depending absolutely is having such an operand.
  lemma {:induction false} DependsExact(dep: Expr, s: Symbol)
    ensures Depends(dep, s) <==> exists x :: IsConjunct(dep, x) && NeedsSymbol(x, s)
  {
    if IsBin(And, dep) {
      DependsExact(dep.left, s);
      DependsExact(dep.right, s);
      forall x ensures IsConjunct(dep, x) <==> IsConjunct(dep.left, x) || IsConjunct(dep.right, x) { }
    } else {
      assert forall x :: IsConjunct(dep, x) <==> x == dep;
      assert Depends(dep, s) <==> NeedsSymbol(dep, s);
    }
  }

  // An item that depends absolutely on s is n when s is n.
  lemma {:induction false} DependsSound(dep: Expr, s: Symbol, v: Valuation)
    requires Sane(v) && IsLogic(s) && Depends(dep, s) && Value(dep, v) != NO
    ensures v(s).tri != NO
  {
    match dep
    case Bin(_, l, r) => if Depends(l, s) { DependsSound(l, s, v); } else { DependsSound(r, s, v); }
    case Sym(_) =>
    case Cmp(rel, l, r) =>
      CmpLetter(rel, l, r, v);
      assert SaneReading(r, v(r));
  }

  // The conditions under which inserting comparisons is exact.
  predicate Comparable(e: Option<Expr>, v: Valuation) {
    e.Some? ==> LogicLeaves(e.value) && NoModBelowNot(e.value, v)
  }

  lemma TransCompareOptExact(e: Option<Expr>, v: Valuation)
    requires Sane(v) && Comparable(e, v)
    ensures Value(TransCompareOpt(e, Ne, SYM_NO), v) == if ValueOpt(e, v) != NO then YES else NO
  {
    assert SaneReading(SYM_NO, v(SYM_NO));
    if e.Some? { TransCompareExact(e.value, Ne, SYM_NO, v); }
  }

  // If taking the common factor out leaves y of the symbol's condition, the
  // item's dependency is at least as strong.
  lemma SupersetSound(dep: Option<Expr>, cond: Option<Expr>, d: Expr, c: Expr, v: Valuation)
    requires Sane(v) && Comparable(dep, v) && Comparable(cond, v)
    requires Equivalent(d, TransCompareOpt(dep, Ne, SYM_NO))
    requires Equivalent(c, TransCompareOpt(cond, Ne, SYM_NO))
    requires EliminateEq(d, c).1 == Sym(SYM_YES)
    requires ValueOpt(dep, v) != NO
    ensures ValueOpt(cond, v) != NO
  {
    TransCompareOptExact(dep, v);
    TransCompareOptExact(cond, v);
    assert SaneReading(SYM_YES, v(SYM_YES));
    var op, k := EliminateEqFactor(d, c);
  }

  // The condition of the symbol, prepared for the superset test.
  method SubmenuCondition(cond: Option<Expr>) returns (c: Expr)
    requires ProperOpt(cond)
    ensures Equivalent(c, TransCompareOpt(cond, Ne, SYM_NO)) && Deduped(c) && Normal(c)
  {
    var e := TransCompareOpt(cond, Ne, SYM_NO);
    assert Proper(e) by { if cond.Some? { TransCompareProper(cond.value, Ne, SYM_NO); } }
    TransformEquivalent(e);
    TransformNormal(e);
    var cell := new ExprVar(e);
    cell.TransformAt([]);
    cell.EliminateDups();
    c := cell.tree;
  }

  // The superset test: d and c stand for the item's dependency and for the
  // symbol's condition, and taking out what they share leaves y of c.
  ghost predicate Superset(dep: Option<Expr>, cond: Option<Expr>, d: Expr, c: Expr) {
    && Equivalent(d, TransCompareOpt(dep, Ne, SYM_NO)) && Deduped(d) && Normal(d)
    && Equivalent(c, TransCompareOpt(cond, Ne, SYM_NO)) && Deduped(c) && Normal(c)
  }

  // Does an item with dependency `dep` go below symbol `sym`, whose prompt has
  // condition `cond`?
  method BelongsBelow(sym: Symbol, cond: Option<Expr>, dep: Option<Expr>)
    returns (below: bool, ghost d: Expr, ghost c: Expr)
    requires ProperOpt(cond) && ProperOpt(dep)
    ensures dep.None? || sym !in Symbols(dep.value) ==> !below
    ensures dep.Some? && Depends(dep.value, sym) ==> below
    ensures dep.Some? && sym in Symbols(dep.value) && !Depends(dep.value, sym) ==>
      Superset(dep, cond, d, c) && (below <==> EliminateEq(d, c).1 == Sym(SYM_YES))
    ensures below && dep.Some? && !Depends(dep.value, sym) ==>
      forall v: Valuation | Sane(v) && Comparable(dep, v) && Comparable(cond, v) ::
        ValueOpt(dep, v) != NO ==> ValueOpt(cond, v) != NO
  {
    d, c := Sym(SYM_YES), Sym(SYM_YES);
    if dep.None? {
      below := false;
      return;
    }
    ContainsExact(dep.value, sym);
    DependsContains(dep.value, sym);
    if !Contains(dep.value, sym) {
      below := false;
      return;
    }
    if Depends(dep.value, sym) {
      below := true;
      return;
    }
    var dep1 := SubmenuCondition(dep);
    var dep2 := SubmenuCondition(cond);
    d, c := dep1, dep2;
    var first := new ExprVar(dep1);
    var second := new ExprVar(dep2);
    first.EliminateEqWith(second);
    below := second.tree == Sym(SYM_YES);
    if below {
      forall v: Valuation | Sane(v) && Comparable(dep, v) && Comparable(cond, v) && ValueOpt(dep, v) != NO
        ensures ValueOpt(cond, v) != NO
      {
        SupersetSound(dep, cond, d, c, v);
      }
    }
  }

  lemma {:induction false} DependsContains(dep: Expr, s: Symbol)
    ensures Depends(dep, s) ==> Contains(dep, s)
  {
    if dep.Bin? { DependsContains(dep.left, s); DependsContains(dep.right, s); }
  }
}
