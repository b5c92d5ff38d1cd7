// What a place in the finished menu says: menu_finalize (support/kconfig/menu.c)
// on the links, with the dependency test on the expressions of the nodes.

module Submenus {
  import opened Wrappers
  import opened Expressions
  import opened ExprEquality
  import opened ExprTransform
  import opened MenuTree
  import opened MenuDeps

  // ------------------------------------------------ how a node got its place

  // One step down in the source: to a child, or to an item that belongs below.
  type Relation = (Id, Id) -> bool

  // A sequence of such steps.
  ghost predicate IsWay(step: Relation, way: seq<Id>) {
    |way| >= 2 && forall i | 0 <= i < |way| - 1 :: step(way[i], way[i + 1])
  }

  ghost predicate Reaches(step: Relation, p: Id, x: Id) {
    exists way :: IsWay(step, way) && way[0] == p && way[|way| - 1] == x
  }

  lemma StepReaches(step: Relation, p: Id, x: Id)
    requires step(p, x)
    ensures Reaches(step, p, x)
  {
    assert IsWay(step, [p, x]);
  }

  lemma ReachesFurther(step: Relation, p: Id, x: Id, y: Id)
    requires Reaches(step, p, x) && Reaches(step, x, y)
    ensures Reaches(step, p, y)
  {
    var a :| IsWay(step, a) && a[0] == p && a[|a| - 1] == x;
    var b :| IsWay(step, b) && b[0] == x && b[|b| - 1] == y;
    var way := a + b[1..];
    forall i | 0 <= i < |way| - 1 ensures step(way[i], way[i + 1]) {
      if i < |a| - 1 {
        assert way[i] == a[i] && way[i + 1] == a[i + 1];
      } else {
        assert way[i] == b[i - |a| + 1] && way[i + 1] == b[i - |a| + 2];
      }
    }
    assert IsWay(step, way);
  }

  // Every node of the list below p, and below its nodes in turn, can be reached
  // from the node it stands below.
  ghost predicate Placed(step: Relation, p: Id, m: Menu)
    decreases m
  {
    m.Cons? ==> Reaches(step, p, m.id) && Placed(step, m.id, m.kids) && Placed(step, p, m.rest)
  }

  // The nodes of the list are children of p, and so on below them.
  ghost predicate Children(step: Relation, p: Id, m: Menu)
    decreases m
  {
    m.Cons? ==> step(p, m.id) && Children(step, m.id, m.kids) && Children(step, p, m.rest)
  }

  ghost predicate BelongingIsStep(g: Rules, step: Relation) {
    forall p, x | g.isSymbol(p) && g.belongs(p, x) :: step(p, x)
  }

  lemma {:induction false} RaisedPlaced(step: Relation, p: Id, x: Id, m: Menu)
    requires Reaches(step, p, x) && Placed(step, x, m)
    ensures Placed(step, p, m)
  {
    if m.Cons? {
      ReachesFurther(step, p, x, m.id);
      RaisedPlaced(step, p, x, m.rest);
    }
  }

  lemma {:induction false} AppendPlaced(step: Relation, p: Id, a: Menu, b: Menu)
    requires Placed(step, p, a) && Placed(step, p, b)
    ensures Placed(step, p, Append(a, b))
  {
    if a.Cons? { AppendPlaced(step, p, a.rest, b); }
  }

  lemma {:induction false} FlattenedPlaced(g: Rules, step: Relation, p: Id, m: Menu)
    requires Placed(step, p, m)
    ensures Placed(step, p, Flattened(g, m))
    decreases Count(m)
  {
    if m.Cons? {
      var after := Lifted(g, m).1;
      if m.kids.Cons? && !g.hasText(m.id) {
        RaisedPlaced(step, p, m.id, m.kids);
        AppendPlaced(step, p, m.kids, m.rest);
      }
      FlattenedPlaced(g, step, p, after);
    }
  }

  // Finalising node id, whose siblings are children of q, moves nothing below a
  // node that it cannot be reached from.
  lemma {:induction false} FinalizedPlaced(g: Rules, step: Relation, q: Id, id: Id, kids: Menu, rest: Menu)
    requires BelongingIsStep(g, step) && Children(step, id, kids) && Children(step, q, rest)
    ensures var (sub, after) := Finalized(g, id, kids, rest); Placed(step, id, sub) && Children(step, q, after)
    decreases Count(kids) + Count(rest), 1
  {
    if kids.Cons? {
      FinalizedAllPlaced(g, step, id, kids);
      FlattenedPlaced(g, step, id, FinalizedAll(g, kids));
    } else if g.isSymbol(id) {
      SubmenuPlaced(g, step, q, id, rest);
      FlattenedPlaced(g, step, id, Submenu(g, id, rest).0);
    }
  }

  lemma {:induction false} FinalizedAllPlaced(g: Rules, step: Relation, p: Id, m: Menu)
    requires BelongingIsStep(g, step) && Children(step, p, m)
    ensures Placed(step, p, FinalizedAll(g, m))
    decreases Count(m), 0
  {
    if m.Cons? {
      StepReaches(step, p, m.id);
      FinalizedPlaced(g, step, p, m.id, m.kids, m.rest);
      FinalizedAllPlaced(g, step, p, Finalized(g, m.id, m.kids, m.rest).1);
    }
  }

  lemma {:induction false} SubmenuPlaced(g: Rules, step: Relation, q: Id, id: Id, rest: Menu)
    requires BelongingIsStep(g, step) && Children(step, q, rest) && g.isSymbol(id)
    ensures var (sub, after) := Submenu(g, id, rest); Placed(step, id, sub) && Children(step, q, after)
    decreases Count(rest), 0
  {
    if rest.Cons? && g.belongs(id, rest.id) {
      StepReaches(step, id, rest.id);
      FinalizedPlaced(g, step, q, rest.id, rest.kids, rest.rest);
      SubmenuPlaced(g, step, q, id, Finalized(g, rest.id, rest.kids, rest.rest).1);
    }
  }

  // ----------------------------------------- the decisions on the expressions

  // A menu node after the dependencies were handed down: its symbol, the
  // condition of its prompt if it has one, and its own dependency.
  datatype Item = Item(sym: Option<Symbol>, prompt: Option<Option<Expr>>, dep: Option<Expr>)

  // What the node demands, seen from a symbol before it.
  function Demand(x: Item): Option<Expr> {
    if x.prompt.Some? then x.prompt.value else x.dep
  }

  // The condition of the prompt of the symbol.
  function Condition(p: Item): Option<Expr> {
    if p.prompt.Some? then p.prompt.value else None
  }

  // A prompt counts before the own dependency; a symbol without a prompt has no
  // condition.
  lemma DemandExact(sym: Option<Symbol>, prompt: Option<Expr>, dep: Option<Expr>)
    ensures Demand(Item(sym, Some(prompt), dep)) == prompt && Demand(Item(sym, None, dep)) == dep
    ensures Condition(Item(sym, Some(prompt), dep)) == prompt && Condition(Item(sym, None, dep)) == None
  {
  }

  predicate ValidItem(x: Item) {
    ProperOpt(Demand(x)) && ProperOpt(Condition(x))
  }

  // The demand of x mentions the symbol of p; and whenever it is met, that
  // symbol is not n if x depends on it absolutely, and else the prompt of p is
  // visible.
  ghost predicate Needs(p: Item, x: Item) {
    && p.sym.Some? && Demand(x).Some? && p.sym.value in Symbols(Demand(x).value)
    && forall v: Valuation | Sane(v) && ValueOpt(Demand(x), v) != NO :: MetAt(p, x, v)
  }

  ghost predicate MetAt(p: Item, x: Item, v: Valuation)
    requires p.sym.Some? && Demand(x).Some?
  {
    if Depends(Demand(x).value, p.sym.value) then IsLogic(p.sym.value) ==> v(p.sym.value).tri != NO
    else
      Comparable(Demand(x), v) && Comparable(Condition(p), v) ==> ValueOpt(Condition(p), v) != NO
  }

  // What the test for item x after the symbol of p says: yes to every absolute
  // dependency, never to an item without need of the symbol, and else what
  // remains of the condition of p without what both share.
  ghost predicate Decision(p: Item, x: Item, below: bool) {
    && (below ==> Needs(p, x))
    && (p.sym.Some? && Demand(x).Some? && p.sym.value in Symbols(Demand(x).value) ==>
          if Depends(Demand(x).value, p.sym.value) then below
          else exists d, c :: BySuperset(p, x, below, d, c))
  }

  ghost predicate BySuperset(p: Item, x: Item, below: bool, d: Expr, c: Expr) {
    Superset(Demand(x), Condition(p), d, c) && (below <==> EliminateEq(d, c).1 == Sym(SYM_YES))
  }

  method Decide(p: Item, x: Item) returns (below: bool)
    requires ValidItem(p) && ValidItem(x)
    ensures Decision(p, x, below)
  {
    if p.sym.None? {
      return false;
    }
    var dep, sym := Demand(x), p.sym.value;
    ghost var d, c;
    below, d, c := BelongsBelow(sym, Condition(p), dep);
    if dep.Some? && sym in Symbols(dep.value) && !Depends(dep.value, sym) { assert BySuperset(p, x, below, d, c); }
    if below {
      forall v: Valuation | Sane(v) && ValueOpt(dep, v) != NO ensures MetAt(p, x, v) {
        if Depends(dep.value, sym) && IsLogic(sym) { DependsSound(dep.value, sym, v); }
      }
    }
  }

  type Decisions = map<(Id, Id), bool>

  ghost predicate Decided(items: map<Id, Item>, table: Decisions, p: Id, x: Id)
    requires p in items && x in items
  {
    (p, x) in table && Decision(items[p], items[x], table[(p, x)])
  }

  method DecideRow(items: map<Id, Item>, p: Id, order: seq<Id>, table0: Decisions) returns (table: Decisions)
    requires p in items && (forall x | x in order :: x in items) && forall x | x in items :: ValidItem(items[x])
    ensures forall x | x in order :: Decided(items, table, p, x)
    ensures forall q, x | q != p && q in items && x in items && Decided(items, table0, q, x) ::
      Decided(items, table, q, x)
  {
    hide Decision;
    table := table0;
    for i := 0 to |order|
      invariant forall j | 0 <= j < i :: Decided(items, table, p, order[j])
      invariant forall q, x | q != p && q in items && x in items && Decided(items, table0, q, x) ::
        Decided(items, table, q, x)
    {
      var below := Decide(items[p], items[order[i]]);
      table := table[(p, order[i]) := below];
    }
  }

  // All decisions; the nodes are in any order.
  method DecideAll(items: map<Id, Item>, order: seq<Id>) returns (table: Decisions)
    requires (forall x | x in order :: x in items) && forall x | x in items :: ValidItem(items[x])
    ensures forall p, x | p in order && x in order :: Decided(items, table, p, x)
  {
    hide Decided;
    table := map[];
    for i := 0 to |order|
      invariant forall j, x | 0 <= j < i && x in order :: Decided(items, table, order[j], x)
    {
      ghost var before := table;
      table := DecideRow(items, order[i], order, table);
      forall j, x | 0 <= j <= i && x in order ensures Decided(items, table, order[j], x) {
        if order[j] != order[i] { assert Decided(items, before, order[j], x); }
      }
    }
  }

  // --------------------------------------------------------------- the menu

  // The pairs of parent and child.
  function Edges(p: Id, m: Menu): set<(Id, Id)>
    decreases m
  {
    match m
    case Nil => {}
    case Cons(id, kids, rest) => {(p, id)} + Edges(id, kids) + Edges(p, rest)
  }

  // x is a child of p in the source, or needs it.
  ghost function StepDown(items: map<Id, Item>, edges: set<(Id, Id)>): Relation {
    (p: Id, x: Id) => (p, x) in edges || (p in items && x in items && Needs(items[p], items[x]))
  }

  lemma {:induction false} EdgesAreSteps(items: map<Id, Item>, edges: set<(Id, Id)>, p: Id, m: Menu)
    requires Edges(p, m) <= edges
    ensures Children(StepDown(items, edges), p, m)
    decreases m
  {
    if m.Cons? {
      assert (p, m.id) in Edges(p, m);
      EdgesAreSteps(items, edges, m.id, m.kids);
      EdgesAreSteps(items, edges, p, m.rest);
    }
  }

  function RulesOf(items: map<Id, Item>, text: set<Id>, table: Decisions): Rules {
    Rules(
      (id: Id) => id in items && items[id].sym.Some?,
      (id: Id) => id in text,
      (p: Id, x: Id) => p in items && x in items && (p, x) in table && table[(p, x)])
  }

  lemma DecisionNeeds(p: Item, x: Item)
    requires Decision(p, x, true)
    ensures Needs(p, x)
  {
  }

  // menu_finalize from the root on, with the decisions that the expressions of
  // the nodes give: every node ends up below a node it can be reached from by
  // steps to a child or to an item that needs the symbol it follows, and what is
  // due below a node with a prompt text is there.
  method FinalizeMenu(
    items: map<Id, Item>, order: seq<Id>, text: set<Id>, next: Link, list: Link, parent: Link, root: Id,
    ghost kids: Menu)
    returns (links: MenuLinks, ghost below: Menu)
    requires (forall x :: x in order <==> x in items) && forall x | x in items :: ValidItem(items[x])
    requires Chain(next, list, parent, Get(list, root), None, root, kids)
    requires root !in next && Distinct(Menu.Cons(root, kids, Menu.Nil))
    ensures links.Spells(Get(links.list, root), None, root, below)
    ensures Preorder(below) == Preorder(kids) && OnlyTextHasKids(links.rules, below)
    ensures AllDue(links.rules, kids, below) && forall id :: links.rules.hasText(id) <==> id in text
    ensures forall id :: links.rules.isSymbol(id) <==> id in items && items[id].sym.Some?
    ensures forall p, x | p in items && x in items :: Decision(items[p], items[x], links.rules.belongs(p, x))
    ensures Placed(StepDown(items, Edges(root, kids)), root, below)
  {
    hide Chain, Distinct, Decision;
    var table := DecideAll(items, order);
    var rules := RulesOf(items, text, table);
    links := new MenuLinks(rules, next, list, parent);
    below := links.FinalizeRoot(root, kids);
    ghost var step := StepDown(items, Edges(root, kids));
    forall p, x | rules.isSymbol(p) && rules.belongs(p, x) ensures step(p, x) {
      assert p in order && x in order && Decided(items, table, p, x);
      DecisionNeeds(items[p], items[x]);
    }
    forall p, x | p in items && x in items ensures Decision(items[p], items[x], rules.belongs(p, x)) {
      assert p in order && x in order && Decided(items, table, p, x);
    }
    EdgesAreSteps(items, Edges(root, kids), root, kids);
    FinalizedPlaced(rules, step, root, root, kids, Menu.Nil);
  }
}
