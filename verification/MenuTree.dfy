// The links of the menu tree: how menu_finalize (support/kconfig/menu.c)
// re-links next, list and parent to build automatic submenus and to flatten
// `if` blocks, and the stackless walk of the configuration writers (confdata.c).
//
// A menu node is a number and the three pointers are maps; an absent key is
// NULL.  The links are compared with a Menu: the forest they spell out.

module MenuTree {
  import opened Wrappers

  type Id = nat

  // A list of siblings, each with the list below it.
  datatype Menu = Nil | Cons(id: Id, kids: Menu, rest: Menu)

  function Preorder(m: Menu): seq<Id> {
    match m
    case Nil => []
    case Cons(id, kids, rest) => [id] + (Preorder(kids) + Preorder(rest))
  }

  function Count(m: Menu): nat {
    match m
    case Nil => 0
    case Cons(_, kids, rest) => 1 + Count(kids) + Count(rest)
  }

  function Append(a: Menu, b: Menu): (m: Menu)
    ensures Count(m) == Count(a) + Count(b)
  {
    match a
    case Nil => b
    case Cons(id, kids, rest) => Cons(id, kids, Append(rest, b))
  }

  lemma AppendAssoc(a: Menu, b: Menu, c: Menu)
    ensures Append(Append(a, b), c) == Append(a, Append(b, c))
    ensures Append(a, Nil) == a
  {
  }

  // ---------------------------------------- menu_finalize on whole forests

  // What the decisions of menu_finalize depend on: whether the node has a
  // symbol, whether its prompt has a text, and the dependency test between a
  // symbol and an item after it (MenuDeps.BelongsBelow).
  datatype Rules = Rules(isSymbol: Id -> bool, hasText: Id -> bool, belongs: (Id, Id) -> bool)

  // Finalising node id, with the list below it and the siblings after it.
  function Finalized(g: Rules, id: Id, kids: Menu, rest: Menu): (r: (Menu, Menu))
    ensures Count(r.0) + Count(r.1) == Count(kids) + Count(rest)
    decreases Count(kids) + Count(rest), 1
  {
    if kids.Cons? then
      (Flattened(g, FinalizedAll(g, kids)), rest)
    else if g.isSymbol(id) then
      var (sub, after) := Submenu(g, id, rest);
      (Flattened(g, sub), after)
    else
      (Nil, rest)
  }

  // All nodes of a list in turn; a node may take nodes after it.
  function FinalizedAll(g: Rules, m: Menu): (r: Menu)
    ensures Count(r) == Count(m)
    decreases Count(m), 0
  {
    match m
    case Nil => Nil
    case Cons(id, kids, rest) =>
      var (sub, after) := Finalized(g, id, kids, rest);
      Cons(id, sub, FinalizedAll(g, after))
  }

  // The items that go below symbol id, and those that stay after it.
  function Submenu(g: Rules, id: Id, rest: Menu): (r: (Menu, Menu))
    ensures Count(r.0) + Count(r.1) == Count(rest)
    decreases Count(rest), 0
  {
    if rest.Nil? || !g.belongs(id, rest.id) then (Nil, rest)
    else
      var (sub, after) := Finalized(g, rest.id, rest.kids, rest.rest);
      var (more, left) := Submenu(g, id, after);
      (Cons(rest.id, sub, more), left)
  }

  // The list below the first node of m, and what follows the node, after the
  // list of a node without a prompt text has moved up behind it.
  function Lifted(g: Rules, m: Menu): (Menu, Menu)
    requires m.Cons?
  {
    if m.kids.Cons? && !g.hasText(m.id) then (Nil, Append(m.kids, m.rest)) else (m.kids, m.rest)
  }

  function Flattened(g: Rules, m: Menu): (r: Menu)
    ensures Count(r) == Count(m)
    decreases Count(m)
  {
    match m
    case Nil => Nil
    case Cons(id, _, _) =>
      var (sub, after) := Lifted(g, m);
      Cons(id, sub, Flattened(g, after))
  }

  // ------------------------------------------------------ preorder is kept

  lemma {:induction false} AppendPreorder(a: Menu, b: Menu)
    ensures Preorder(Append(a, b)) == Preorder(a) + Preorder(b)
  {
    if a.Cons? {
      AppendPreorder(a.rest, b);
      Regroup([a.id], Preorder(a.kids), Preorder(a.rest), Preorder(b));
    }
  }

  lemma Regroup(a: seq<Id>, b: seq<Id>, c: seq<Id>, d: seq<Id>)
    ensures (a + (b + c)) + d == a + (b + (c + d))
  {
  }

  lemma Assoc(a: seq<Id>, b: seq<Id>, c: seq<Id>)
    ensures (a + b) + c == a + (b + c)
  {
  }

  lemma {:induction false} FlattenedPreorder(g: Rules, m: Menu)
    ensures Preorder(Flattened(g, m)) == Preorder(m)
    decreases Count(m)
  {
    if m.Cons? {
      if m.kids.Cons? && !g.hasText(m.id) {
        FlattenedPreorder(g, Append(m.kids, m.rest));
        AppendPreorder(m.kids, m.rest);
      } else {
        FlattenedPreorder(g, m.rest);
      }
    }
  }

  // Submenu creation and flattening lose, duplicate and reorder no node.
  lemma {:induction false} FinalizedPreorder(g: Rules, id: Id, kids: Menu, rest: Menu)
    ensures var (sub, after) := Finalized(g, id, kids, rest);
      Preorder(sub) + Preorder(after) == Preorder(kids) + Preorder(rest)
    decreases Count(kids) + Count(rest), 1
  {
    if kids.Cons? {
      FinalizedAllPreorder(g, kids);
      FlattenedPreorder(g, FinalizedAll(g, kids));
    } else if g.isSymbol(id) {
      SubmenuPreorder(g, id, rest);
      FlattenedPreorder(g, Submenu(g, id, rest).0);
    }
  }

  lemma {:induction false} FinalizedAllPreorder(g: Rules, m: Menu)
    ensures Preorder(FinalizedAll(g, m)) == Preorder(m)
    decreases Count(m), 0
  {
    if m.Cons? {
      FinalizedPreorder(g, m.id, m.kids, m.rest);
      FinalizedAllPreorder(g, Finalized(g, m.id, m.kids, m.rest).1);
    }
  }

  lemma {:induction false} SubmenuPreorder(g: Rules, id: Id, rest: Menu)
    ensures var (sub, after) := Submenu(g, id, rest); Preorder(sub) + Preorder(after) == Preorder(rest)
    decreases Count(rest), 0
  {
    if rest.Cons? && g.belongs(id, rest.id) {
      FinalizedPreorder(g, rest.id, rest.kids, rest.rest);
      var (sub, after) := Finalized(g, rest.id, rest.kids, rest.rest);
      SubmenuPreorder(g, id, after);
      var (more, left) := Submenu(g, id, after);
      Regroup([rest.id], Preorder(sub), Preorder(more), Preorder(left));
    }
  }

  // ------------------------------------------------ what the result looks like

  // Every node with a list below it has a prompt text.
  predicate OnlyTextHasKids(g: Rules, m: Menu) {
    match m
    case Nil => true
    case Cons(id, kids, rest) =>
      (kids.Cons? ==> g.hasText(id)) && OnlyTextHasKids(g, kids) && OnlyTextHasKids(g, rest)
  }

  lemma {:induction false} AppendOnlyText(g: Rules, a: Menu, b: Menu)
    ensures OnlyTextHasKids(g, Append(a, b)) <==> OnlyTextHasKids(g, a) && OnlyTextHasKids(g, b)
  {
    if a.Cons? { AppendOnlyText(g, a.rest, b); }
  }

  // The lists below the nodes of m are in order already.
  predicate KidsInOrder(g: Rules, m: Menu) {
    m.Cons? ==> OnlyTextHasKids(g, m.kids) && KidsInOrder(g, m.rest)
  }

  lemma {:induction false} AppendKidsInOrder(g: Rules, a: Menu, b: Menu)
    requires OnlyTextHasKids(g, a) && KidsInOrder(g, b)
    ensures KidsInOrder(g, Append(a, b))
  {
    if a.Cons? { AppendKidsInOrder(g, a.rest, b); }
  }

  lemma {:induction false} FlattenedInOrder(g: Rules, m: Menu)
    requires KidsInOrder(g, m)
    ensures OnlyTextHasKids(g, Flattened(g, m))
    decreases Count(m)
  {
    if m.Cons? {
      if m.kids.Cons? && !g.hasText(m.id) {
        AppendKidsInOrder(g, m.kids, m.rest);
        FlattenedInOrder(g, Append(m.kids, m.rest));
      } else {
        FlattenedInOrder(g, m.rest);
      }
    }
  }

  // No node below a finalised node has a list without having a prompt text,
  // and the first item left after it does not belong below it.
  lemma {:induction false} FinalizedInOrder(g: Rules, id: Id, kids: Menu, rest: Menu)
    ensures OnlyTextHasKids(g, Finalized(g, id, kids, rest).0)
    ensures kids.Nil? && g.isSymbol(id) ==>
      var left := Finalized(g, id, kids, rest).1; left.Cons? ==> !g.belongs(id, left.id)
    decreases Count(kids) + Count(rest), 1
  {
    if kids.Cons? {
      FinalizedAllInOrder(g, kids);
      FlattenedInOrder(g, FinalizedAll(g, kids));
    } else if g.isSymbol(id) {
      SubmenuInOrder(g, id, rest);
      FlattenedInOrder(g, Submenu(g, id, rest).0);
    }
  }

  lemma {:induction false} FinalizedAllInOrder(g: Rules, m: Menu)
    ensures KidsInOrder(g, FinalizedAll(g, m))
    decreases Count(m), 0
  {
    if m.Cons? {
      FinalizedInOrder(g, m.id, m.kids, m.rest);
      var (sub, after) := Finalized(g, m.id, m.kids, m.rest);
      FinalizedAllInOrder(g, after);
    }
  }

  lemma {:induction false} SubmenuInOrder(g: Rules, id: Id, rest: Menu)
    ensures KidsInOrder(g, Submenu(g, id, rest).0)
    ensures var left := Submenu(g, id, rest).1; left.Cons? ==> !g.belongs(id, left.id)
    decreases Count(rest), 0
  {
    if rest.Cons? && g.belongs(id, rest.id) {
      FinalizedInOrder(g, rest.id, rest.kids, rest.rest);
      var (sub, after) := Finalized(g, rest.id, rest.kids, rest.rest);
      SubmenuInOrder(g, id, after);
    }
  }

  // ------------------------------------------------------------------ links

  type Link = map<Id, Id>

  function Get(l: Link, id: Id): Option<Id> {
    if id in l then Some(l[id]) else None
  }

  // The pointers spell out m: a list from `first` up to `end`, every node of
  // which has `par` as parent, and likewise below each node.
  predicate Chain(next: Link, list: Link, parent: Link, first: Option<Id>, end: Option<Id>, par: Id, m: Menu)
    decreases m
  {
    match m
    case Nil => first == end
    case Cons(id, kids, rest) =>
      && first == Some(id) && Get(parent, id) == Some(par)
      && Chain(next, list, parent, Get(list, id), None, id, kids)
      && Chain(next, list, parent, Get(next, id), end, par, rest)
  }

  function Head(m: Menu, end: Option<Id>): Option<Id> {
    if m.Nil? then end else Some(m.id)
  }

  predicate SameLinks(next: Link, list: Link, parent: Link, next': Link, list': Link, parent': Link, id: Id) {
    Get(next, id) == Get(next', id) && Get(list, id) == Get(list', id) && Get(parent, id) == Get(parent', id)
  }

  // Only the pointers of these nodes changed.
  ghost predicate OnlyAt(next: Link, list: Link, parent: Link, next': Link, list': Link, parent': Link, ids: set<Id>) {
    forall id | id !in ids :: SameLinks(next, list, parent, next', list', parent', id)
  }

  lemma {:induction false} ChainFrame(
    next: Link, list: Link, parent: Link, next': Link, list': Link, parent': Link,
    first: Option<Id>, end: Option<Id>, par: Id, m: Menu)
    requires forall id | id in Ids(m) :: SameLinks(next, list, parent, next', list', parent', id)
    requires Chain(next, list, parent, first, end, par, m)
    ensures Chain(next', list', parent', first, end, par, m)
    decreases m
  {
    match m
    case Nil =>
    case Cons(id, kids, rest) =>
      assert id in Ids(m);
      ChainFrame(next, list, parent, next', list', parent', Get(list, id), None, id, kids);
      ChainFrame(next, list, parent, next', list', parent', Get(next, id), end, par, rest);
  }

  lemma {:induction false} ChainAppend(
    next: Link, list: Link, parent: Link, first: Option<Id>, end: Option<Id>, par: Id, a: Menu, b: Menu)
    ensures Chain(next, list, parent, first, end, par, Append(a, b))
       <==> Chain(next, list, parent, first, Head(b, end), par, a)
            && Chain(next, list, parent, Head(b, end), end, par, b)
    decreases a
  {
    if a.Cons? { ChainAppend(next, list, parent, Get(next, a.id), end, par, a.rest, b); }
  }

  lemma ChainHead(next: Link, list: Link, parent: Link, first: Option<Id>, end: Option<Id>, par: Id, m: Menu)
    requires Chain(next, list, parent, first, end, par, m)
    ensures first == Head(m, end)
  {
  }

  // ------------------------------------------------------- distinct nodes

  function Ids(m: Menu): set<Id> {
    match m
    case Nil => {}
    case Cons(id, kids, rest) => {id} + Ids(kids) + Ids(rest)
  }

  // No node occurs twice.
  predicate Distinct(m: Menu) {
    m.Cons? ==>
      && m.id !in Ids(m.kids) && m.id !in Ids(m.rest)
      && Distinct(m.kids) && Distinct(m.rest) && Ids(m.kids) !! Ids(m.rest)
  }

  predicate Apart(a: Menu, b: Menu) {
    Distinct(a) && Distinct(b) && Ids(a) !! Ids(b)
  }

  lemma {:induction false} AppendIds(a: Menu, b: Menu)
    ensures Ids(Append(a, b)) == Ids(a) + Ids(b)
    ensures Distinct(Append(a, b)) <==> Apart(a, b)
  {
    if a.Cons? { AppendIds(a.rest, b); }
  }

  predicate NoDup(s: seq<Id>) {
    forall i, j | 0 <= i < j < |s| :: s[i] != s[j]
  }

  function Elements(s: seq<Id>): set<Id> {
    set x | x in s
  }

  lemma NoDupConcat(a: seq<Id>, b: seq<Id>)
    ensures NoDup(a + b) <==> NoDup(a) && NoDup(b) && Elements(a) !! Elements(b)
    ensures Elements(a + b) == Elements(a) + Elements(b)
  {
    var s := a + b;
    if NoDup(a) && NoDup(b) && Elements(a) !! Elements(b) {
      forall i, j | 0 <= i < j < |s| ensures s[i] != s[j] {
        if j < |a| {
          assert a[i] != a[j];
        } else if i < |a| {
          assert a[i] in Elements(a) && b[j - |a|] in Elements(b);
        } else {
          assert b[i - |a|] != b[j - |a|];
        }
      }
    }
    if NoDup(s) {
      forall i, j | 0 <= i < j < |a| ensures a[i] != a[j] { assert s[i] != s[j]; }
      forall i, j | 0 <= i < j < |b| ensures b[i] != b[j] { assert s[|a| + i] != s[|a| + j]; }
      forall i, j | 0 <= i < |a| && 0 <= j < |b| ensures a[i] != b[j] { assert s[i] != s[|a| + j]; }
    }
  }

  lemma {:induction false} DistinctPreorder(m: Menu)
    ensures Elements(Preorder(m)) == Ids(m)
    ensures NoDup(Preorder(m)) <==> Distinct(m)
  {
    match m
    case Nil =>
    case Cons(id, kids, rest) =>
      DistinctPreorder(kids);
      DistinctPreorder(rest);
      NoDupConcat([id], Preorder(kids) + Preorder(rest));
      NoDupConcat(Preorder(kids), Preorder(rest));
  }

  // Forests with the same preorder have the same nodes, as often.
  lemma Rearranged(a: Menu, b: Menu, c: Menu, d: Menu)
    requires Preorder(a) + Preorder(b) == Preorder(c) + Preorder(d) && Apart(a, b)
    ensures Apart(c, d) && Ids(c) + Ids(d) == Ids(a) + Ids(b)
  {
    DistinctPreorder(a);
    DistinctPreorder(b);
    DistinctPreorder(c);
    DistinctPreorder(d);
    NoDupConcat(Preorder(a), Preorder(b));
    NoDupConcat(Preorder(c), Preorder(d));
  }

  lemma RearrangedOne(a: Menu, c: Menu)
    requires Preorder(a) == Preorder(c) && Distinct(a)
    ensures Distinct(c) && Ids(c) == Ids(a)
  {
    DistinctPreorder(a);
    DistinctPreorder(c);
  }

  // ------------------------------------------------------ what stands below

  // Node x stands below node p, at any depth.
  predicate Under(m: Menu, p: Id, x: Id) {
    m.Cons? && ((m.id == p && x in Ids(m.kids)) || Under(m.kids, p, x) || Under(m.rest, p, x))
  }

  // x is one of the first nodes of the list, or stands below one, and they all
  // belong below symbol p.
  predicate InRun(g: Rules, p: Id, m: Menu, x: Id) {
    m.Cons? && g.belongs(p, m.id) && (x == m.id || x in Ids(m.kids) || InRun(g, p, m.rest, x))
  }

  // p is a symbol without a list, and such a run with x follows it.
  predicate Follows(g: Rules, m: Menu, p: Id, x: Id) {
    && m.Cons?
    && ((m.id == p && m.kids.Nil? && g.isSymbol(p) && InRun(g, p, m.rest, x))
        || Follows(g, m.kids, p, x) || Follows(g, m.rest, p, x))
  }

  // Below p, whatever it is now, x is to be found below p afterwards.
  predicate Due(g: Rules, m: Menu, p: Id, x: Id) {
    g.hasText(p) && (Under(m, p, x) || Follows(g, m, p, x))
  }

  lemma {:induction false} AppendUnder(a: Menu, b: Menu, p: Id, x: Id)
    ensures Under(Append(a, b), p, x) <==> Under(a, p, x) || Under(b, p, x)
  {
    if a.Cons? { AppendUnder(a.rest, b, p, x); }
  }

  // Flattening leaves the list of a node with a prompt text below it.
  lemma {:induction false} FlattenedUnder(g: Rules, m: Menu, p: Id, x: Id)
    requires g.hasText(p) && Under(m, p, x)
    ensures Under(Flattened(g, m), p, x)
    decreases Count(m)
  {
    if m.kids.Cons? && !g.hasText(m.id) {
      AppendUnder(m.kids, m.rest, p, x);
      FlattenedUnder(g, Append(m.kids, m.rest), p, x);
    } else if Under(m.rest, p, x) {
      FlattenedUnder(g, m.rest, p, x);
    }
  }

  lemma FlattenedIds(g: Rules, m: Menu)
    ensures Ids(Flattened(g, m)) == Ids(m)
  {
    FlattenedPreorder(g, m);
    DistinctPreorder(m);
    DistinctPreorder(Flattened(g, m));
  }

  lemma FinalizedIds(g: Rules, id: Id, kids: Menu, rest: Menu)
    ensures var (sub, after) := Finalized(g, id, kids, rest); Ids(sub) + Ids(after) == Ids(kids) + Ids(rest)
    ensures kids.Cons? ==> Ids(Finalized(g, id, kids, rest).0) == Ids(kids)
  {
    var (sub, after) := Finalized(g, id, kids, rest);
    FinalizedPreorder(g, id, kids, rest);
    SplitIds(sub, after);
    SplitIds(kids, rest);
    if kids.Cons? {
      FinalizedAllPreorder(g, kids);
      FlattenedIds(g, FinalizedAll(g, kids));
      DistinctPreorder(kids);
      DistinctPreorder(FinalizedAll(g, kids));
    }
  }

  lemma SplitIds(a: Menu, b: Menu)
    ensures Elements(Preorder(a) + Preorder(b)) == Ids(a) + Ids(b)
  {
    DistinctPreorder(a);
    DistinctPreorder(b);
    NoDupConcat(Preorder(a), Preorder(b));
  }

  // Node id with its list and its followers: what is due below a node stands
  // below it afterwards.
  lemma {:induction false} FinalizedDue(g: Rules, id: Id, kids: Menu, rest: Menu, p: Id, x: Id)
    requires Due(g, Cons(id, kids, rest), p, x)
    ensures var (sub, after) := Finalized(g, id, kids, rest);
      Under(Cons(id, sub, after), p, x) || Due(g, after, p, x)
    decreases Count(kids) + Count(rest), 1
  {
    var (sub, after) := Finalized(g, id, kids, rest);
    if kids.Cons? {
      if p == id && x in Ids(kids) {
        FinalizedIds(g, id, kids, rest);
      } else if Due(g, kids, p, x) {
        FinalizedAllDue(g, kids, p, x);
        FlattenedUnder(g, FinalizedAll(g, kids), p, x);
      }
    } else {
      assert kids == Nil && !Under(kids, p, x) && !Follows(g, kids, p, x);
      if g.isSymbol(id) {
        var taken := Submenu(g, id, rest).0;
        if p == id && InRun(g, id, rest, x) {
          SubmenuTakes(g, id, rest, x);
          FlattenedIds(g, taken);
        } else {
          SubmenuDue(g, id, rest, p, x);
          if Under(taken, p, x) { FlattenedUnder(g, taken, p, x); }
        }
      }
    }
  }

  lemma {:induction false} FinalizedAllDue(g: Rules, m: Menu, p: Id, x: Id)
    requires Due(g, m, p, x)
    ensures Under(FinalizedAll(g, m), p, x)
    decreases Count(m), 0
  {
    FinalizedDue(g, m.id, m.kids, m.rest, p, x);
    var (sub, after) := Finalized(g, m.id, m.kids, m.rest);
    if Due(g, after, p, x) { FinalizedAllDue(g, after, p, x); }
  }

  lemma {:induction false} SubmenuDue(g: Rules, id: Id, rest: Menu, p: Id, x: Id)
    requires Due(g, rest, p, x)
    ensures var (sub, after) := Submenu(g, id, rest); Under(sub, p, x) || Due(g, after, p, x)
    decreases Count(rest), 0
  {
    if g.belongs(id, rest.id) {
      FinalizedDue(g, rest.id, rest.kids, rest.rest, p, x);
      var (sub, after) := Finalized(g, rest.id, rest.kids, rest.rest);
      if Due(g, after, p, x) { SubmenuDue(g, id, after, p, x); }
    }
  }

  // The whole run is taken, by the symbol or by a symbol that it takes.
  lemma {:induction false} SubmenuTakes(g: Rules, id: Id, rest: Menu, x: Id)
    requires InRun(g, id, rest, x)
    ensures x in Ids(Submenu(g, id, rest).0)
    decreases Count(rest), 0
  {
    var (sub, after) := Finalized(g, rest.id, rest.kids, rest.rest);
    if x != rest.id {
      FinalizedIsTail(g, id, rest.id, rest.kids, rest.rest, x);
      if x !in Ids(sub) { SubmenuTakes(g, id, after, x); }
    }
  }

  // A node leaves a tail of its followers: a run that reaches x still does so in
  // what is left, or x was taken.
  lemma {:induction false} FinalizedIsTail(g: Rules, p: Id, id: Id, kids: Menu, rest: Menu, x: Id)
    requires InRun(g, p, rest, x) || x in Ids(kids)
    ensures var (sub, after) := Finalized(g, id, kids, rest); x in Ids(sub) || InRun(g, p, after, x)
    decreases Count(kids) + Count(rest), 1
  {
    if kids.Cons? {
      FinalizedIds(g, id, kids, rest);
    } else if g.isSymbol(id) {
      SubmenuIsTail(g, p, id, rest, x);
      FlattenedIds(g, Submenu(g, id, rest).0);
    }
  }

  lemma {:induction false} SubmenuIsTail(g: Rules, p: Id, id: Id, rest: Menu, x: Id)
    requires InRun(g, p, rest, x)
    ensures var (sub, after) := Submenu(g, id, rest); x in Ids(sub) || InRun(g, p, after, x)
    decreases Count(rest), 0
  {
    if g.belongs(id, rest.id) {
      var (sub, after) := Finalized(g, rest.id, rest.kids, rest.rest);
      if x != rest.id {
        FinalizedIsTail(g, p, rest.id, rest.kids, rest.rest, x);
        if x !in Ids(sub) { SubmenuIsTail(g, p, id, after, x); }
      }
    }
  }

  // From the root on: what stands below a node with a prompt text, and what
  // belongs below such a symbol, stands below it in the finished menu.
  ghost predicate AllDue(g: Rules, m: Menu, m': Menu) {
    forall p, x | Due(g, m, p, x) :: Under(m', p, x)
  }

  lemma FinishedDue(g: Rules, root: Id, kids: Menu)
    ensures AllDue(g, kids, Finalized(g, root, kids, Nil).0)
  {
    forall p, x | Due(g, kids, p, x) ensures Under(Finalized(g, root, kids, Nil).0, p, x) {
      FinalizedAllDue(g, kids, p, x);
      FlattenedUnder(g, FinalizedAll(g, kids), p, x);
    }
  }

  // --------------------------------------------------- pointer assignments

  function SetLink(l: Link, id: Id, v: Option<Id>): Link {
    match v
    case None => l - {id}
    case Some(x) => l[id := x]
  }

  function LastId(m: Menu): Id
    requires m.Cons?
  {
    if m.rest.Nil? then m.id else LastId(m.rest)
  }

  lemma {:induction false} LastIn(m: Menu)
    requires m.Cons?
    ensures LastId(m) in Ids(m)
  {
    if m.rest.Cons? { LastIn(m.rest); }
  }

  // Pointing the last node of a list somewhere else.
  lemma {:induction false} ChainReEnd(
    next: Link, list: Link, parent: Link, first: Option<Id>, end: Option<Id>, par: Id, m: Menu, end': Option<Id>)
    requires Chain(next, list, parent, first, end, par, m) && m.Cons? && Distinct(m)
    ensures Get(next, LastId(m)) == end
    ensures Chain(SetLink(next, LastId(m), end'), list, parent, first, end', par, m)
    decreases m
  {
    var next' := SetLink(next, LastId(m), end');
    if m.rest.Cons? {
      ChainReEnd(next, list, parent, Get(next, m.id), end, par, m.rest, end');
      LastIn(m.rest);
    }
    ChainFrame(next, list, parent, next', list, parent, Get(list, m.id), None, m.id, m.kids);
  }

  // One more node behind a list that was not touched meanwhile.
  lemma ChainSnoc(
    next: Link, list: Link, parent: Link, next': Link, list': Link, parent': Link,
    first: Option<Id>, par: Id, a: Menu, id: Id, kids: Menu, ids: set<Id>)
    requires Chain(next, list, parent, first, Some(id), par, a)
    requires OnlyAt(next, list, parent, next', list', parent', ids) && ids !! Ids(a)
    requires Get(parent', id) == Some(par) && Chain(next', list', parent', Get(list', id), None, id, kids)
    ensures Chain(next', list', parent', first, Get(next', id), par, Append(a, Cons(id, kids, Nil)))
  {
    ChainFrame(next, list, parent, next', list', parent', first, Some(id), par, a);
    ChainAppend(next', list', parent', first, Get(next', id), par, a, Cons(id, kids, Nil));
  }

  // Bookkeeping of a loop over siblings: `done` grows by the first node of
  // `todo`, whose list and followers are rearranged.
  lemma StepApart(done: Menu, todo: Menu, sub: Menu, after: Menu)
    requires todo.Cons? && Apart(done, todo)
    requires Apart(sub, after) && Ids(sub) + Ids(after) == Ids(todo.kids) + Ids(todo.rest)
    ensures var done' := Append(done, Cons(todo.id, sub, Nil));
      Apart(done', after) && Ids(done') + Ids(after) == Ids(done) + Ids(todo)
  {
    AppendIds(done, Cons(todo.id, sub, Nil));
    assert Ids(Cons(todo.id, sub, Nil)) == {todo.id} + Ids(sub);
    assert todo.id !in Ids(sub) + Ids(after);
    assert Ids(sub) + Ids(after) <= Ids(todo);
    assert Distinct(Cons(todo.id, sub, Nil)) && Ids(done) !! Ids(Cons(todo.id, sub, Nil));
  }

  lemma StepPreorder(done: Menu, id: Id, sub: Menu)
    ensures Preorder(Append(done, Cons(id, sub, Nil))) == Preorder(done) + ([id] + Preorder(sub))
  {
    AppendPreorder(done, Cons(id, sub, Nil));
    assert Preorder(sub) + [] == Preorder(sub);
  }

  // menu_finalize keeps the nodes distinct.
  lemma FinalizedApart(g: Rules, id: Id, kids: Menu, rest: Menu)
    requires Apart(kids, rest)
    ensures var (sub, after) := Finalized(g, id, kids, rest);
      Apart(sub, after) && Ids(sub) + Ids(after) == Ids(kids) + Ids(rest)
  {
    FinalizedPreorder(g, id, kids, rest);
    var (sub, after) := Finalized(g, id, kids, rest);
    Rearranged(kids, rest, sub, after);
  }

  lemma {:induction false} SnocLast(a: Menu, id: Id, kids: Menu)
    ensures Append(a, Cons(id, kids, Nil)).Cons? && LastId(Append(a, Cons(id, kids, Nil))) == id
  {
    if a.Cons? { SnocLast(a.rest, id, kids); }
  }

  // ------------------------------------------- menu_finalize on the pointers

  class MenuLinks {
    const rules: Rules
    var next: Link
    var list: Link
    var parent: Link
    // The nodes menu_finalize has been called on, in order.
    ghost var log: seq<Id>

    constructor (rules: Rules, next: Link, list: Link, parent: Link)
      ensures this.rules == rules && this.next == next && this.list == list && this.parent == parent && log == []
    {
      this.rules, this.next, this.list, this.parent, this.log := rules, next, list, parent, [];
    }

    ghost predicate Spells(first: Option<Id>, end: Option<Id>, par: Id, m: Menu)
      reads this
    {
      Chain(next, list, parent, first, end, par, m)
    }

    // menu_finalize(p).  Below p the links spell `kids`, after p, in the list
    // of node q, they spell `rest`.
    method Finalize(p: Id, q: Id, ghost kids: Menu, ghost rest: Menu)
      requires Spells(Get(list, p), None, p, kids) && Spells(Get(next, p), None, q, rest)
      requires Distinct(Cons(p, kids, rest))
      modifies this
      ensures var (sub, after) := Finalized(rules, p, kids, rest);
        && Spells(Get(list, p), None, p, sub) && Spells(Get(next, p), None, q, after)
        && log == old(log) + ([p] + Preorder(sub))
      ensures Get(parent, p) == old(Get(parent, p))
      ensures OnlyAt(old(next), old(list), old(parent), next, list, parent, Ids(Cons(p, kids, rest)))
      decreases Count(kids) + Count(rest), 3
    {
      hide Submenu, FinalizedAll, Flattened;
      log := log + [p];
      Assoc(old(log), [p], Preorder(Finalized(rules, p, kids, rest).0));
      if p in list {
        ghost var n0, l0, p0 := next, list, parent;
        ghost var all := FinalizedAll(rules, kids);
        FinalizedAllPreorder(rules, kids);
        RearrangedOne(kids, all);
        FlattenedPreorder(rules, all);
        FinalizeList(p, kids);
        Flatten(p, all);
        ChainFrame(n0, l0, p0, next, list, parent, Get(n0, p), None, q, rest);
      } else if rules.isSymbol(p) {
        ghost var (taken, after) := Submenu(rules, p, rest);
        SubmenuPreorder(rules, p, rest);
        Rearranged(Nil, rest, taken, after);
        FlattenedPreorder(rules, taken);
        MakeSubmenu(p, q, rest);
        ghost var n0, l0, p0 := next, list, parent;
        Flatten(p, taken);
        ChainFrame(n0, l0, p0, next, list, parent, Get(n0, p), None, q, after);
      }
    }

    // menu_finalize(&rootmenu): the nodes stay in their order, each is finalised
    // exactly once, and each list hangs below a node with a prompt text.
    method FinalizeRoot(root: Id, ghost kids: Menu) returns (ghost below: Menu)
      requires Spells(Get(list, root), None, root, kids) && root !in next && Distinct(Cons(root, kids, Nil))
      modifies this
      ensures Spells(Get(list, root), None, root, below) && below == Finalized(rules, root, kids, Nil).0
      ensures Preorder(below) == Preorder(kids) && OnlyTextHasKids(rules, below) && AllDue(rules, kids, below)
      ensures log == old(log) + ([root] + Preorder(kids))
      ensures root !in next
    {
      Finalize(root, root, kids, Nil);
      FinalizedPreorder(rules, root, kids, Nil);
      FinalizedInOrder(rules, root, kids, Nil);
      FinishedDue(rules, root, kids);
      below := Finalized(rules, root, kids, Nil).0;
      assert Finalized(rules, root, kids, Nil).1 == Nil;
      assert Preorder(below) + [] == Preorder(below) && Preorder(kids) + [] == Preorder(kids);
    }

    // "For each child": menu_finalize on every node of the list below p.
    method FinalizeList(p: Id, ghost kids: Menu)
      requires Spells(Get(list, p), None, p, kids) && Distinct(kids) && p !in Ids(kids)
      modifies this
      ensures Spells(Get(list, p), None, p, FinalizedAll(rules, kids))
      ensures log == old(log) + Preorder(FinalizedAll(rules, kids))
      ensures OnlyAt(old(next), old(list), old(parent), next, list, parent, Ids(kids))
      decreases Count(kids), 2
    {
      var menu := Get(list, p);
      ghost var done: Menu, todo: Menu := Nil, kids;
      while menu.Some?
        invariant Spells(Get(list, p), menu, p, done) && Spells(menu, None, p, todo)
        invariant FinalizedAll(rules, kids) == Append(done, FinalizedAll(rules, todo))
        invariant Apart(done, todo) && Ids(done) + Ids(todo) == Ids(kids) && Count(todo) <= Count(kids)
        invariant log == old(log) + Preorder(done)
        invariant OnlyAt(old(next), old(list), old(parent), next, list, parent, Ids(kids))
        decreases Count(todo)
      {
        ghost var id := todo.id;
        ghost var (sub, after) := Finalized(rules, id, todo.kids, todo.rest);
        FinalizedApart(rules, id, todo.kids, todo.rest);
        StepApart(done, todo, sub, after);
        StepPreorder(done, id, sub);
        AppendAssoc(done, Cons(id, sub, Nil), FinalizedAll(rules, after));
        menu := FinalizeChild(p, menu.value, done, todo);
        Assoc(old(log), Preorder(done), [id] + Preorder(sub));
        done, todo := Append(done, Cons(id, sub, Nil)), after;
      }
      AppendAssoc(done, Nil, Nil);
    }

    // One child is finalised; the one after it is next.
    method FinalizeChild(p: Id, menu: Id, ghost done: Menu, ghost todo: Menu) returns (succ: Option<Id>)
      requires Spells(Get(list, p), Some(menu), p, done) && Spells(Some(menu), None, p, todo)
      requires todo.Cons? && Apart(done, todo) && p !in Ids(todo)
      modifies this
      ensures var (sub, after) := Finalized(rules, menu, todo.kids, todo.rest);
        && Spells(Get(list, p), succ, p, Append(done, Cons(menu, sub, Nil))) && Spells(succ, None, p, after)
        && log == old(log) + ([menu] + Preorder(sub))
      ensures OnlyAt(old(next), old(list), old(parent), next, list, parent, Ids(todo))
      decreases Count(todo), 1
    {
      Finalize(menu, p, todo.kids, todo.rest);
      ghost var sub := Finalized(rules, menu, todo.kids, todo.rest).0;
      ChainSnoc(old(next), old(list), old(parent), next, list, parent, Get(list, p), p, done, menu, sub, Ids(todo));
      succ := Get(next, menu);
    }

    // Automatic submenu creation below symbol p.
    method MakeSubmenu(p: Id, q: Id, ghost rest: Menu)
      requires p !in list && Spells(Get(next, p), None, q, rest) && Distinct(rest) && p !in Ids(rest)
      modifies this
      ensures var (sub, after) := Submenu(rules, p, rest);
        && Spells(Get(list, p), None, p, sub) && Spells(Get(next, p), None, q, after)
        && log == old(log) + Preorder(sub)
      ensures Get(parent, p) == old(Get(parent, p))
      ensures OnlyAt(old(next), old(list), old(parent), next, list, parent, {p} + Ids(rest))
      decreases Count(rest), 2
    {
      hide Finalized;
      var menu, lastMenu: Option<Id> := Get(next, p), None;
      ghost var taken: Menu, todo: Menu := Nil, rest;
      while menu.Some? && rules.belongs(p, menu.value)
        invariant Spells(Get(next, p), menu, p, taken) && Spells(menu, None, q, todo)
        invariant Submenu(rules, p, rest).0 == Append(taken, Submenu(rules, p, todo).0)
        invariant Submenu(rules, p, rest).1 == Submenu(rules, p, todo).1
        invariant Apart(taken, todo) && Ids(taken) + Ids(todo) == Ids(rest) && Count(todo) <= Count(rest)
        invariant log == old(log) + Preorder(taken)
        invariant if taken.Nil? then lastMenu.None? else lastMenu == Some(LastId(taken))
        invariant OnlyAt(old(next), old(list), old(parent), next, list, parent, Ids(rest))
        decreases Count(todo)
      {
        ghost var id := todo.id;
        ghost var (sub, after) := Finalized(rules, id, todo.kids, todo.rest);
        FinalizedApart(rules, id, todo.kids, todo.rest);
        StepApart(taken, todo, sub, after);
        StepPreorder(taken, id, sub);
        AppendAssoc(taken, Cons(id, sub, Nil), Submenu(rules, p, after).0);
        SnocLast(taken, id, sub);
        lastMenu := menu;
        menu := TakeItem(p, q, menu.value, taken, todo);
        Assoc(old(log), Preorder(taken), [id] + Preorder(sub));
        taken, todo := Append(taken, Cons(id, sub, Nil)), after;
      }
      AppendAssoc(taken, Nil, Nil);
      if lastMenu.Some? {
        CutOff(p, q, lastMenu.value, taken, todo);
      }
    }

    // One item of the submenu of p is finalised and gets p as its parent.
    method TakeItem(p: Id, q: Id, menu: Id, ghost taken: Menu, ghost todo: Menu) returns (succ: Option<Id>)
      requires Spells(Get(next, p), Some(menu), p, taken) && Spells(Some(menu), None, q, todo)
      requires todo.Cons? && Apart(taken, todo) && p !in Ids(todo)
      modifies this
      ensures var (sub, after) := Finalized(rules, menu, todo.kids, todo.rest);
        && Spells(Get(next, p), succ, p, Append(taken, Cons(menu, sub, Nil))) && Spells(succ, None, q, after)
        && log == old(log) + ([menu] + Preorder(sub))
      ensures OnlyAt(old(next), old(list), old(parent), next, list, parent, Ids(todo))
      decreases Count(todo), 1
    {
      hide Finalized;
      ghost var (sub, after) := Finalized(rules, menu, todo.kids, todo.rest);
      Finalize(menu, q, todo.kids, todo.rest);
      ghost var p1 := parent;
      FinalizedApart(rules, menu, todo.kids, todo.rest);
      parent := parent[menu := p];
      ChainFrame(next, list, p1, next, list, parent, Get(list, menu), None, menu, sub);
      ChainFrame(next, list, p1, next, list, parent, Get(next, menu), None, q, after);
      ChainSnoc(old(next), old(list), old(parent), next, list, parent, Get(next, p), p, taken, menu, sub, Ids(todo));
      succ := Get(next, menu);
    }

    // The list from p's successor to lastMenu becomes the list below p.
    method CutOff(p: Id, q: Id, lastMenu: Id, ghost taken: Menu, ghost todo: Menu)
      requires taken.Cons? && lastMenu == LastId(taken) && Apart(taken, todo) && p !in Ids(taken) + Ids(todo)
      requires Spells(Get(next, p), Head(todo, None), p, taken) && Spells(Head(todo, None), None, q, todo)
      modifies this`next, this`list
      ensures Spells(Get(list, p), None, p, taken) && Spells(Get(next, p), None, q, todo)
      ensures OnlyAt(old(next), old(list), parent, next, list, parent, {p} + Ids(taken))
    {
      ghost var n0, l0 := next, list;
      LastIn(taken);
      ChainReEnd(next, list, parent, Get(next, p), Head(todo, None), p, taken, None);
      list := SetLink(list, p, Get(next, p));
      next := SetLink(next, p, Get(next, lastMenu));
      next := SetLink(next, lastMenu, None);
      ChainFrame(SetLink(n0, lastMenu, None), l0, parent, next, list, parent, Get(list, p), None, p, taken);
      ChainFrame(n0, l0, parent, next, list, parent, Head(todo, None), None, q, todo);
    }

    // The list m that starts at `first` gets parent p; returns its last node.
    method Reparent(p: Id, first: Id, ghost q: Id, ghost m: Menu) returns (lastMenu: Id)
      requires Spells(Some(first), None, q, m) && Distinct(m)
      modifies this`parent
      ensures Spells(Some(first), None, p, m) && m.Cons? && lastMenu == LastId(m)
      ensures OnlyAt(next, list, old(parent), next, list, parent, Ids(m))
    {
      lastMenu := first;
      ghost var done: Menu, todo: Menu := Nil, m;
      while true
        invariant Spells(Some(first), Some(lastMenu), p, done) && Spells(Some(lastMenu), None, q, todo)
        invariant m == Append(done, todo)
        invariant Apart(done, todo) && Ids(done) + Ids(todo) == Ids(m)
        invariant OnlyAt(next, list, old(parent), next, list, parent, Ids(m))
        decreases Count(todo)
      {
        ghost var p0 := parent;
        StepApart(done, todo, todo.kids, todo.rest);
        SnocLast(done, todo.id, todo.kids);
        parent := parent[lastMenu := p];
        ChainFrame(next, list, p0, next, list, parent, Get(list, lastMenu), None, lastMenu, todo.kids);
        ChainFrame(next, list, p0, next, list, parent, Get(next, lastMenu), None, q, todo.rest);
        ChainSnoc(next, list, p0, next, list, parent, Some(first), p, done, lastMenu, todo.kids, Ids(todo));
        AppendAssoc(done, Cons(lastMenu, todo.kids, Nil), todo.rest);
        done, todo := Append(done, Cons(lastMenu, todo.kids, Nil)), todo.rest;
        if lastMenu !in next {
          AppendAssoc(done, Nil, Nil);
          break;
        }
        lastMenu := next[lastMenu];
      }
    }

    // Flattening of `if` blocks and promptless symbols in the list below p.
    method Flatten(p: Id, ghost kids: Menu)
      requires Spells(Get(list, p), None, p, kids) && Distinct(kids) && p !in Ids(kids)
      modifies this`next, this`list, this`parent
      ensures Spells(Get(list, p), None, p, Flattened(rules, kids))
      ensures OnlyAt(old(next), old(list), old(parent), next, list, parent, Ids(kids))
    {
      var menu := Get(list, p);
      ghost var done: Menu, todo: Menu := Nil, kids;
      while menu.Some?
        invariant Spells(Get(list, p), menu, p, done) && Spells(menu, None, p, todo)
        invariant Flattened(rules, kids) == Append(done, Flattened(rules, todo))
        invariant Apart(done, todo) && Ids(done) + Ids(todo) == Ids(kids)
        invariant OnlyAt(old(next), old(list), old(parent), next, list, parent, Ids(kids))
        decreases Count(todo)
      {
        ghost var id := todo.id;
        ghost var (sub, after) := Lifted(rules, todo);
        AppendIds(todo.kids, todo.rest);
        StepApart(done, todo, sub, after);
        AppendAssoc(done, Cons(id, sub, Nil), Flattened(rules, after));
        menu := FlattenNode(p, menu.value, done, todo);
        done, todo := Append(done, Cons(id, sub, Nil)), after;
      }
      AppendAssoc(done, Nil, Nil);
    }

    method FlattenNode(p: Id, menu: Id, ghost done: Menu, ghost todo: Menu) returns (succ: Option<Id>)
      requires Spells(Get(list, p), Some(menu), p, done) && Spells(Some(menu), None, p, todo)
      requires todo.Cons? && Apart(done, todo) && p !in Ids(todo)
      modifies this`next, this`list, this`parent
      ensures var (sub, after) := Lifted(rules, todo);
        && Spells(Get(list, p), succ, p, Append(done, Cons(menu, sub, Nil))) && Spells(succ, None, p, after)
      ensures OnlyAt(old(next), old(list), old(parent), next, list, parent, Ids(todo))
    {
      ChainHead(next, list, parent, Get(list, menu), None, menu, todo.kids);
      if menu in list && !rules.hasText(menu) {
        Splice(p, menu, todo.kids, todo.rest);
        assert Spells(Get(next, menu), None, p, Append(todo.kids, todo.rest));
      } else {
        assert Spells(Get(next, menu), None, p, todo.rest);
      }
      ghost var sub := Lifted(rules, todo).0;
      ChainSnoc(old(next), old(list), old(parent), next, list, parent, Get(list, p), p, done, menu, sub, Ids(todo));
      succ := Get(next, menu);
    }

    // Moves the list below node id, itself below p, up behind it.
    method Splice(p: Id, id: Id, ghost sub: Menu, ghost after: Menu)
      requires id in list && Get(parent, id) == Some(p)
      requires Spells(Get(list, id), None, id, sub) && Spells(Get(next, id), None, p, after)
      requires Distinct(Cons(id, sub, after))
      modifies this`next, this`list, this`parent
      ensures Get(list, id) == None && Get(parent, id) == Some(p)
      ensures Spells(Get(next, id), None, p, Append(sub, after))
      ensures OnlyAt(old(next), old(list), old(parent), next, list, parent, Ids(Cons(id, sub, after)))
    {
      ghost var p0 := parent;
      var first := list[id];
      var lastMenu := Reparent(p, first, id, sub);
      ChainFrame(next, list, p0, next, list, parent, Get(next, id), None, p, after);
      ghost var n0, l0 := next, list;
      LastIn(sub);
      ChainReEnd(next, list, parent, Some(first), None, p, sub, Get(next, id));
      next := SetLink(next, lastMenu, Get(next, id));
      next := next[id := first];
      list := SetLink(list, id, None);
      ChainFrame(SetLink(n0, lastMenu, Get(n0, id)), l0, parent, next, list, parent, Some(first), Get(n0, id), p, sub);
      ChainFrame(n0, l0, parent, next, list, parent, Get(n0, id), None, p, after);
      ChainAppend(next, list, parent, Some(first), None, p, sub, after);
    }
  }
}
