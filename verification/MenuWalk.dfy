// The stackless walk over the menu tree in conf_write and conf_write_defconfig
// (support/kconfig/confdata.c): down by list, along by next, and back up by
// parent until a node has a successor.

module MenuWalk {
  import opened Wrappers
  import opened MenuTree

  // What is left to visit above the list being walked: for the node the list
  // hangs below, its parent, the nodes after it, and so on up to the root.
  datatype Above = Top | Up(parent: Id, rest: Menu, outer: Above)

  predicate Climbs(next: Link, list: Link, parent: Link, root: Id, node: Id, a: Above)
    decreases a
  {
    match a
    case Top => node == root && root !in next && root !in parent
    case Up(p, rest, outer) =>
      && Get(parent, node) == Some(p)
      && Chain(next, list, parent, Get(next, node), None, p, rest)
      && Climbs(next, list, parent, root, p, outer)
  }

  function Left(a: Above): seq<Id> {
    match a
    case Top => []
    case Up(_, rest, outer) => Preorder(rest) + Left(outer)
  }

  function Height(a: Above): nat {
    match a
    case Top => 0
    case Up(_, _, outer) => 1 + Height(outer)
  }

  // Visiting the first node of `todo` and going on below it or after it.
  lemma VisitStep(visited: seq<Id>, id: Id, kids: Menu, rest: Menu, left: seq<Id>)
    ensures (visited + [id]) + (Preorder(kids) + (Preorder(rest) + left))
      == visited + (Preorder(Cons(id, kids, rest)) + left)
  {
    assert Preorder(Cons(id, kids, rest)) == [id] + (Preorder(kids) + Preorder(rest));
    Regroup([id], Preorder(kids), Preorder(rest), left);
    Assoc(visited, [id], Preorder(kids) + (Preorder(rest) + left));
  }

  // Climbs from a node without successor, whose parent is `node`, until an
  // ancestor has a successor, or to the top.
  method Climb(t: MenuLinks, root: Id, node: Id, ghost a: Above)
    returns (menu: Option<Id>, ghost node': Id, ghost todo: Menu, ghost a': Above)
    requires Climbs(t.next, t.list, t.parent, root, node, a)
    ensures Climbs(t.next, t.list, t.parent, root, node', a')
    ensures Chain(t.next, t.list, t.parent, menu, None, node', todo)
    ensures Preorder(todo) + Left(a') == Left(a)
    ensures menu.None? ==> a'.Top?
    ensures Height(a') <= Height(a) && (menu.Some? ==> Height(a') < Height(a))
  {
    menu := Some(node);
    node', todo, a' := node, Nil, a;
    while menu.Some?
      invariant Climbs(t.next, t.list, t.parent, root, node', a')
      invariant menu.Some? ==> menu.value == node'
      invariant menu.None? ==> a'.Top?
      invariant Left(a') == Left(a) && Height(a') <= Height(a)
      decreases Height(a'), menu.Some?
    {
      if menu.value in t.next {
        menu := Some(t.next[menu.value]);
        node', todo, a' := a'.parent, a'.rest, a'.outer;
        return;
      }
      menu := Get(t.parent, menu.value);
      if menu.Some? {
        assert a'.rest == Nil && Preorder(Nil) + Left(a'.outer) == Left(a'.outer);
        node', a' := a'.parent, a'.outer;
      }
    }
    assert Preorder(Nil) + Left(a') == Left(a);
  }

  // The walk visits the nodes below the root exactly once, in preorder.
  method Walk(t: MenuLinks, root: Id, ghost kids: Menu) returns (visited: seq<Id>)
    requires t.Spells(Get(t.list, root), None, root, kids)
    requires root !in t.next && root !in t.parent
    ensures visited == Preorder(kids)
  {
    visited := [];
    var menu := Get(t.list, root);
    ghost var node, todo, a := root, kids, Top;
    assert Preorder(kids) + [] == Preorder(kids);
    while menu.Some?
      invariant Chain(t.next, t.list, t.parent, menu, None, node, todo)
      invariant Climbs(t.next, t.list, t.parent, root, node, a)
      invariant visited + (Preorder(todo) + Left(a)) == Preorder(kids)
      invariant menu.None? ==> a.Top?
      decreases |Preorder(kids)| - |visited|
    {
      var id := menu.value;
      ghost var k, r := todo.kids, todo.rest;
      VisitStep(visited, id, k, r, Left(a));
      ChainHead(t.next, t.list, t.parent, Get(t.list, id), None, id, k);
      ChainHead(t.next, t.list, t.parent, Get(t.next, id), None, node, r);
      visited := visited + [id];
      if id in t.list {
        menu := Some(t.list[id]);
        node, todo, a := id, k, Up(node, r, a);
      } else if id in t.next {
        menu := Some(t.next[id]);
        todo := r;
        assert Preorder(k) + (Preorder(r) + Left(a)) == Preorder(r) + Left(a);
      } else {
        assert Preorder(k) + (Preorder(r) + Left(a)) == Left(a);
        menu, node, todo, a := Climb(t, root, t.parent[id], a);
      }
    }
    assert todo == Nil && Left(a) == [];
  }
}
