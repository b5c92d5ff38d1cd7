// From the menu tree to the evaluated configuration: with the reverse
// dependencies that menu_finalize accumulates over the whole tree, every select
// of every menu node is honoured (support/kconfig/menu.c and symbol.c).

module Selects {
  import opened Wrappers
  import opened Expressions
  import opened SymbolValue
  import opened SymbolEval
  import MenuDeps

  // The symbols have the reverse dependencies rev.
  ghost predicate HasReverse(c: Config, rev: map<Symbol, Expr>) {
    forall t: Symbol | IsLogic(t) :: DefOf(c, t).revDep == if t in rev then Some(rev[t]) else None
  }

  // The value of the target is at least the minimum of selector and condition.
  ghost predicate Honoured(c: Config, rank: Rank, u: User, e: MenuDeps.Entry, j: nat)
    requires j < |e.props| && e.props[j].kind.Select? && e.sym.Some?
  {
    var st := EvalState(c, rank, u);
    st(e.props[j].kind.target).tri
    >= Ap(And, st(e.sym.value).tri, ValueOpt(e.props[j].visible, Readings(c, st)))
  }

  ghost predicate AllHonoured(rev: map<Symbol, Expr>, es: seq<MenuDeps.Entry>) {
    forall c: Config, rank: Rank, u: User | Acyclic(c, rank) && HasReverse(c, rev) ::
      HonouredIn(c, rank, u, es)
  }

  ghost predicate HonouredIn(c: Config, rank: Rank, u: User, es: seq<MenuDeps.Entry>) {
    forall i: nat, j: nat | IsSelect(es, i, j) :: Honoured(c, rank, u, es[i], j)
  }

  // The j-th property of the i-th node selects a bool or tristate.
  predicate IsSelect(es: seq<MenuDeps.Entry>, i: nat, j: nat) {
    && i < |es| && j < |es[i].props| && es[i].sym.Some?
    && es[i].props[j].kind.Select? && IsLogic(es[i].props[j].kind.target)
  }

  lemma AddedIsHonoured(rev: map<Symbol, Expr>, es: seq<MenuDeps.Entry>)
    requires MenuDeps.EntriesAdded(map[], rev, es, true)
    ensures AllHonoured(rev, es)
  {
    hide Acyclic, Eval;
    forall c: Config, rank: Rank, u: User | Acyclic(c, rank) && HasReverse(c, rev)
      ensures HonouredIn(c, rank, u, es)
    {
      forall i: nat, j: nat | IsSelect(es, i, j) ensures Honoured(c, rank, u, es[i], j) {
        SelectHonoured(c, rank, u, rev, es, i, j);
      }
    }
  }

  // menu_finalize on the tree below the root menu, whose prompt has no
  // condition: every node inherits, and whatever configuration has the reverse
  // dependencies found honours all selects.
  method FinalizeMenus(modules: Symbol, f: MenuDeps.Forest)
    returns (done: MenuDeps.Forest, rev: map<Symbol, Expr>, imp: map<Symbol, Expr>)
    requires MenuDeps.ValidForest(f)
    ensures MenuDeps.ForestDone(None, modules, f, done)
    ensures AllHonoured(rev, MenuDeps.All(done))
    ensures MenuDeps.EntriesAdded(map[], imp, MenuDeps.All(done), false)
  {
    var deps := new MenuDeps.Dependencies(modules);
    done := deps.FinalizeForest(None, f);
    rev, imp := deps.revDep, deps.implied;
    AddedIsHonoured(rev, MenuDeps.All(done));
  }
}
