// The expression simplifier in place.
//
// A `struct expr *` variable that owns a tree is an ExprVar; a `struct expr **`
// is an ExprVar together with the path from the root of its tree to the slot.
// Two slots of one tree may therefore be the same slot or overlap, which is how
// expr_eliminate_dups1 is called.  Writing through a slot replaces the subtree.

module ExprSlots {
  import opened Wrappers
  import opened Expressions
  import opened ExprEquality
  import opened ExprJoin
  import opened ExprTransform
  import opened ExprPaths

  // What one call of expr_eliminate_dups1 does to a level: nothing, if it
  // counted no join, and then nothing below the two slots joins; otherwise the
  // same meaning in no more nodes, with a constant operand to clean up.
  ghost predicate DupsStep(op: Op, e: Expr, e': Expr, counted: bool, q1: Path, q2: Path) {
    && SameLevel(op, e, e') && Equivalent(e', e) && Proper(e') && Size(e') <= Size(e) && (Normal(e) ==> Normal(e'))
    && (counted ==> HasConstOperand(e'))
    && (!counted ==> e' == e && NoJoins(op, e, q1, q2))
  }

  lemma JoinNormal(op: Op, e1: Expr, e2: Expr)
    requires Normal(e1) && Normal(e2) && Join(op, e1, e2).Some?
    ensures Normal(Join(op, e1, e2).value)
  {
    if !ExprEq(e1, e2) {
      var s := FirstSymbol(e1).value;
      assert op.And? && s.stype.Boolean? ==> JoinAndRules(s, e1, e2).None?;
    }
  }

  lemma {:induction false} EliminateYnNormal(e: Expr)
    requires Normal(e)
    ensures Normal(EliminateYn(e))
  {
    if e.Bin? { EliminateYnNormal(e.left); EliminateYnNormal(e.right); }
  }

  lemma OperandMaximal(op: Op, e: Expr, q: Path, i: Path)
    requires IsOperand(op, e, q) && IsOperand(op, e, i) && q <= i
    ensures i == q
  {
    if q != [] {
      assert i == [i[0]] + i[1..] && q == [q[0]] + q[1..];
      OperandMaximal(op, Child(e, q[0]), q[1..], i[1..]);
    }
  }

  lemma BelowChild(q: Path, i: Path)
    requires q <= i && i != q
    ensures q + [i[|q|]] <= i
  {
  }

  lemma NoJoinsFirst(op: Op, e: Expr, q: Path, r: Path)
    requires OnLevel(op, e, q) && IsPath(e, q) && IsBin(op, At(e, q))
    requires NoJoins(op, e, q + [L], r) && NoJoins(op, e, q + [R], r)
    ensures NoJoins(op, e, q, r)
  {
    OnLevelPath(op, e, q);
    forall i, j | IsOperand(op, e, i) && IsOperand(op, e, j) && i != j && q <= i && r <= j
      ensures NoJoin(op, e, i, j)
    {
      BelowChild(q, i);
      if i[|q|] == L { assert q + [L] <= i; } else { assert q + [R] <= i; }
    }
  }

  lemma NoJoinsSecond(op: Op, e: Expr, q: Path, r: Path)
    requires OnLevel(op, e, r) && IsPath(e, r) && IsBin(op, At(e, r))
    requires NoJoins(op, e, q, r + [L]) && NoJoins(op, e, q, r + [R])
    ensures NoJoins(op, e, q, r)
  {
    OnLevelPath(op, e, r);
    forall i, j | IsOperand(op, e, i) && IsOperand(op, e, j) && i != j && q <= i && r <= j
      ensures NoJoin(op, e, i, j)
    {
      BelowChild(r, j);
      if j[|r|] == L { assert r + [L] <= j; } else { assert r + [R] <= j; }
    }
  }

  lemma NoJoinsOperands(op: Op, e: Expr, q: Path, r: Path)
    requires IsOperand(op, e, q) && IsOperand(op, e, r)
    requires q != r ==> NoJoin(op, e, q, r)
    ensures NoJoins(op, e, q, r)
  {
    forall i, j | IsOperand(op, e, i) && IsOperand(op, e, j) && i != j && q <= i && r <= j
      ensures NoJoin(op, e, i, j)
    {
      OperandMaximal(op, e, q, i);
      OperandMaximal(op, e, r, j);
    }
  }

  // Two calls in a row.
  lemma DupsSteps(op: Op, e: Expr, e1: Expr, e2: Expr, c1: bool, c2: bool, a: Path, b: Path, q: Path, r: Path)
    requires DupsStep(op, e, e1, c1, a, b) && DupsStep(op, e1, e2, c2, q, r)
    ensures SameLevel(op, e, e2) && Equivalent(e2, e) && Proper(e2) && Size(e2) <= Size(e) && (Normal(e) ==> Normal(e2))
    ensures c1 || c2 ==> HasConstOperand(e2)
    ensures !c1 && !c2 ==> e2 == e && NoJoins(op, e, a, b) && NoJoins(op, e, q, r)
  {
    SameLevelTrans(op, e, e1, e2);
  }

  // A call below an operand, seen from the level.
  lemma DupsInside(op: Op, e: Expr, q: Path, x: Expr, counted: bool)
    requires IsOperand(op, e, q) && IsPath(e, q) && At(e, q).Bin? && Proper(e)
    requires DupsStep(At(e, q).op, At(e, q), x, counted, [], [])
    ensures SameLevel(op, e, Put(e, q, x)) && Equivalent(Put(e, q, x), e)
    ensures Proper(Put(e, q, x)) && Size(Put(e, q, x)) <= Size(e) && (Normal(e) ==> Normal(Put(e, q, x)))
    ensures counted ==> HasConstOperand(Put(e, q, x))
    ensures !counted ==> Put(e, q, x) == e && Deduped(At(e, q))
    ensures IsOperand(op, Put(e, q, x), q)
  {
    OperandPath(op, e, q);
    PutOperand(op, e, q, x);
    PutEquivalent(e, q, x);
    PutProper(e, q, x);
    PutSize(e, q, x);
    PutAt(e, q, x);
    if Normal(e) { PutNormal(op, e, q, x); }
    if counted { ConstOperandBelow(op, Put(e, q, x), q); }
  }

  // The pointer variable that owns an expression, and trans_count.
  class ExprVar {
    var tree: Expr
    var transCount: nat

    constructor (e: Expr)
      ensures tree == e && transCount == 0
    {
      tree := e;
      transCount := 0;
    }

    // Assignment through a slot.
    method Store(p: Path, x: Expr)
      requires IsPath(tree, p)
      modifies this`tree
      ensures tree == Put(old(tree), p, x)
    {
      tree := Put(tree, p, x);
    }

    // expr_eliminate_yn(*slot)
    method EliminateYnAt(p: Path)
      requires IsPath(tree, p)
      modifies this`tree
      ensures IsPath(old(tree), p) && tree == Put(old(tree), p, EliminateYn(At(old(tree), p)))
      ensures IsPath(tree, p) && At(tree, p) == EliminateYn(At(old(tree), p))
      decreases Size(At(tree, p))
    {
      ghost var t0, e0 := tree, At(tree, p);
      match At(tree, p)
      case Bin(op, a, b) =>
        PutBelow(tree, p, [L], EliminateYn(a));
        EliminateYnAt(p + [L]);
        PutBelow(tree, p, [R], EliminateYn(b));
        EliminateYnAt(p + [R]);
        PutPut(t0, p, Bin(op, EliminateYn(a), b), Bin(op, EliminateYn(a), EliminateYn(b)));
        ghost var t2 := tree;
        PathConcat(tree, p, [L]);
        PathConcat(tree, p, [R]);
        var l, r := At(tree, p + [L]), At(tree, p + [R]);
        if l == Sym(if op.And? then SYM_NO else SYM_YES) {
          Store(p, l);
        } else if l == Sym(if op.And? then SYM_YES else SYM_NO) {
          Store(p, r);
        } else if r == Sym(if op.And? then SYM_NO else SYM_YES) {
          Store(p, r);
        } else if r == Sym(if op.And? then SYM_YES else SYM_NO) {
          Store(p, l);
        } else {
          PutAt(tree, p, Bin(op, l, r));
        }
        PutPut(t0, p, Bin(op, l, r), EliminateYn(e0));
        PutAt(t0, p, EliminateYn(e0));
      case _ =>
        PutAt(tree, p, e0);
    }

    // expr_trans_bool(*slot)
    method TransBoolAt(p: Path)
      requires IsPath(tree, p)
      modifies this`tree
      ensures IsPath(old(tree), p) && tree == Put(old(tree), p, TransBool(At(old(tree), p)))
      ensures IsPath(tree, p) && At(tree, p) == TransBool(At(old(tree), p))
      decreases Size(At(tree, p))
    {
      ghost var t0, e0 := tree, At(tree, p);
      match At(tree, p)
      case Bin(op, a, b) =>
        PutBelow(tree, p, [L], TransBool(a));
        TransBoolAt(p + [L]);
        PutBelow(tree, p, [R], TransBool(b));
        TransBoolAt(p + [R]);
        PutPut(t0, p, Bin(op, TransBool(a), b), Bin(op, TransBool(a), TransBool(b)));
        PutAt(t0, p, TransBool(e0));
      case Not(a) =>
        PutBelow(tree, p, [L], TransBool(a));
        TransBoolAt(p + [L]);
        PutAt(t0, p, TransBool(e0));
      case Cmp(rel, l, r) =>
        if rel.Ne? && l.stype.Tristate? && r == SYM_NO {
          Store(p, Sym(l));
        } else {
          PutAt(tree, p, e0);
        }
        PutAt(t0, p, TransBool(e0));
      case Sym(_) =>
        PutAt(tree, p, e0);
    }

    // rewrite_m(*slot) of menu.c
    method RewriteMAt(p: Path, modules: Symbol)
      requires IsPath(tree, p)
      modifies this`tree
      ensures IsPath(old(tree), p) && tree == Put(old(tree), p, RewriteM(At(old(tree), p), modules))
      ensures IsPath(tree, p) && At(tree, p) == RewriteM(At(old(tree), p), modules)
      decreases Size(At(tree, p))
    {
      ghost var t0, e0 := tree, At(tree, p);
      match At(tree, p)
      case Not(a) =>
        PutBelow(tree, p, [L], RewriteM(a, modules));
        RewriteMAt(p + [L], modules);
        PutAt(t0, p, RewriteM(e0, modules));
      case Bin(op, a, b) =>
        PutBelow(tree, p, [L], RewriteM(a, modules));
        RewriteMAt(p + [L], modules);
        PutBelow(tree, p, [R], RewriteM(b, modules));
        RewriteMAt(p + [R], modules);
        PutPut(t0, p, Bin(op, RewriteM(a, modules), b), RewriteM(e0, modules));
        PutAt(t0, p, RewriteM(e0, modules));
      case Sym(s) =>
        if s == SYM_MOD {
          Store(p, Bin(And, At(tree, p), Sym(modules)));
        }
        PutAt(t0, p, RewriteM(e0, modules));
        PutAt(t0, p, e0);
      case Cmp(_, _, _) =>
        PutAt(tree, p, e0);
    }

    // expr_transform(*slot)
    method TransformAt(p: Path)
      requires IsPath(tree, p)
      modifies this`tree
      ensures IsPath(old(tree), p) && tree == Put(old(tree), p, Transform(At(old(tree), p)))
      ensures IsPath(tree, p) && At(tree, p) == Transform(At(old(tree), p))
      decreases Weight(At(tree, p))
    {
      ghost var t0, e0 := tree, At(tree, p);
      match At(tree, p)
      case Sym(_) =>
        PutAt(tree, p, e0);
      case Cmp(_, _, _) =>
        var e := At(tree, p);
        Store(p, if BoolTest(e) then TransformTest(e) else e);
        PutAt(t0, p, Transform(e0));
      case Bin(op, a, b) =>
        PutBelow(tree, p, [L], Transform(a));
        TransformAt(p + [L]);
        PutBelow(tree, p, [R], Transform(b));
        TransformAt(p + [R]);
        PutPut(t0, p, Bin(op, Transform(a), b), Bin(op, Transform(a), Transform(b)));
        PutAt(t0, p, Transform(e0));
      case Not(a) =>
        PutBelow(tree, p, [L], Transform(a));
        TransformAt(p + [L]);
        PutAt(t0, p, Not(Transform(a)));
        TransformNegation(p);
        PutPut(t0, p, Not(Transform(a)), Transform(e0));
    }

    // The E_NOT case, after the operand has been transformed.
    method TransformNegation(p: Path)
      requires IsPath(tree, p) && At(tree, p).Not?
      requires exists a :: At(tree, p) == Not(Transform(a))
      modifies this`tree
      ensures IsPath(old(tree), p)
      ensures forall a :: At(old(tree), p) == Not(Transform(a)) ==> tree == Put(old(tree), p, Transform(Not(a)))
      ensures IsPath(tree, p)
      ensures forall a :: At(old(tree), p) == Not(Transform(a)) ==> At(tree, p) == Transform(Not(a))
      decreases Weight(At(tree, p)), 0
    {
      ghost var t0 := tree;
      match At(tree, p).arg
      case Not(b) =>
        Store(p, b);
        PutAt(t0, p, b);
        TransformAt(p);
        PutPut(t0, p, b, Transform(b));
      case Cmp(rel, l, r) =>
        Store(p, Cmp(Flip(rel), l, r));
        PutAt(t0, p, Cmp(Flip(rel), l, r));
      case Bin(op, l, r) =>
        Store(p, DeMorgan(op, l, r));
        PutAt(t0, p, DeMorgan(op, l, r));
        TransformAt(p);
        PutPut(t0, p, DeMorgan(op, l, r), Transform(DeMorgan(op, l, r)));
      case Sym(s) =>
        Store(p, NegateSymbol(s));
        PutAt(t0, p, NegateSymbol(s));
    }

    // __expr_eliminate_eq on a slot of this tree and a slot of another one.
    method EliminateLevel(op: Op, p1: Path, that: ExprVar, p2: Path)
      requires this != that && IsPath(tree, p1) && IsPath(that.tree, p2)
      modifies this`tree, that`tree
      ensures IsPath(old(tree), p1) && IsPath(old(that.tree), p2)
      ensures tree == Put(old(tree), p1, Level(op, At(old(tree), p1), At(old(that.tree), p2)).0)
      ensures that.tree == Put(old(that.tree), p2, Level(op, At(old(tree), p1), At(old(that.tree), p2)).1)
      ensures IsPath(tree, p1) && At(tree, p1) == Level(op, At(old(tree), p1), At(old(that.tree), p2)).0
      ensures IsPath(that.tree, p2) && At(that.tree, p2) == Level(op, At(old(tree), p1), At(old(that.tree), p2)).1
      decreases Size(At(tree, p1)) + Size(At(that.tree, p2))
    {
      ghost var t0, s0 := tree, that.tree;
      ghost var e1, e2 := At(tree, p1), At(that.tree, p2);
      if IsBin(op, At(tree, p1)) {
        ghost var (l, x) := Level(op, e1.left, e2);
        ghost var (r, y) := Level(op, e1.right, x);
        PutBelow(t0, p1, [L], l);
        EliminateLevel(op, p1 + [L], that, p2);
        PutBelow(tree, p1, [R], r);
        EliminateLevel(op, p1 + [R], that, p2);
        PutPut(t0, p1, Bin(op, l, e1.right), Bin(op, l, r));
        PutPut(s0, p2, x, y);
        PutAt(t0, p1, Bin(op, l, r));
        PutAt(s0, p2, y);
      } else if IsBin(op, At(that.tree, p2)) {
        ghost var (x, l) := Level(op, e1, e2.left);
        ghost var (y, r) := Level(op, x, e2.right);
        PutBelow(s0, p2, [L], l);
        EliminateLevel(op, p1, that, p2 + [L]);
        PutBelow(that.tree, p2, [R], r);
        EliminateLevel(op, p1, that, p2 + [R]);
        PutPut(s0, p2, Bin(op, l, e2.right), Bin(op, l, r));
        PutPut(t0, p1, x, y);
        PutAt(s0, p2, Bin(op, l, r));
        PutAt(t0, p1, y);
      } else {
        PutAt(t0, p1, Unit(op));
        PutAt(s0, p2, Unit(op));
        PutAt(t0, p1, e1);
        PutAt(s0, p2, e2);
        if IsYesNo(At(tree, p1)) && At(tree, p1) == At(that.tree, p2) {
          return;
        }
        if !ExprEq(At(tree, p1), At(that.tree, p2)) {
          return;
        }
        Store(p1, Unit(op));
        that.Store(p2, Unit(op));
      }
    }

    // expr_eliminate_eq
    method EliminateEqWith(that: ExprVar)
      requires this != that
      modifies this`tree, that`tree
      ensures (tree, that.tree) == EliminateEq(old(tree), old(that.tree))
    {
      if tree.Bin? {
        EliminateLevel(tree.op, [], that, []);
      }
      if !SameType(tree, that.tree) && that.tree.Bin? {
        EliminateLevel(that.tree.op, [], that, []);
      }
      EliminateYnAt([]);
      that.EliminateYnAt([]);
    }

    // expr_eliminate_dups1: both slots lie on the level of op whose top is at
    // `top`, and are given relative to it.  They may be the same slot.
    method Dups1(op: Op, top: Path, q1: Path, q2: Path)
      requires IsPath(tree, top) && IsBin(op, At(tree, top)) && Proper(At(tree, top))
      requires OnLevel(op, At(tree, top), q1) && OnLevel(op, At(tree, top), q2)
      modifies this
      ensures IsPath(old(tree), top) && IsPath(tree, top) && tree == Put(old(tree), top, At(tree, top))
      ensures transCount >= old(transCount)
      ensures DupsStep(op, At(old(tree), top), At(tree, top), transCount > old(transCount), q1, q2)
      decreases Size(At(tree, top)), LevelAt(op, At(tree, top), q1) + LevelAt(op, At(tree, top), q2)
    {
      hide NoJoins, HasConstOperand;
      ghost var t0, e, n := tree, At(tree, top), transCount;
      OnLevelPath(op, e, q1);
      OnLevelPath(op, e, q2);
      PathConcat(tree, top, q1);
      PathConcat(tree, top, q2);
      if IsBin(op, At(tree, top + q1)) {
        OnLevelChild(op, e, q1, L);
        OnLevelChild(op, e, q1, R);
        Dups1(op, top, q1 + [L], q2);
        ghost var e1, n1 := At(tree, top), transCount;
        PutPut(t0, top, e1, e1);
        SameLevelAt(op, e, e1, q1 + [R]);
        SameLevelAt(op, e, e1, q2);
        SameLevelSize(op, At(e, q1 + [R]), At(e1, q1 + [R]));
        SameLevelSize(op, At(e, q2), At(e1, q2));
        Dups1(op, top, q1 + [R], q2);
        PutPut(t0, top, e1, At(tree, top));
        DupsSteps(op, e, e1, At(tree, top), n1 > n, transCount > n1, q1 + [L], q2, q1 + [R], q2);
        if transCount == n { NoJoinsFirst(op, e, q1, q2); }
        return;
      }
      if IsBin(op, At(tree, top + q2)) {
        OnLevelChild(op, e, q2, L);
        OnLevelChild(op, e, q2, R);
        Dups1(op, top, q1, q2 + [L]);
        ghost var e1, n1 := At(tree, top), transCount;
        PutPut(t0, top, e1, e1);
        SameLevelAt(op, e, e1, q2 + [R]);
        SameLevelAt(op, e, e1, q1);
        SameLevelSize(op, At(e, q2 + [R]), At(e1, q2 + [R]));
        SameLevelSize(op, At(e, q1), At(e1, q1));
        Dups1(op, top, q1, q2 + [R]);
        PutPut(t0, top, e1, At(tree, top));
        DupsSteps(op, e, e1, At(tree, top), n1 > n, transCount > n1, q1, q2 + [L], q1, q2 + [R]);
        if transCount == n { NoJoinsSecond(op, e, q1, q2); }
        return;
      }
      SameLevelRefl(op, e);
      PutAt(t0, top, e);
      if q1 == q2 {
        NoJoinsOperands(op, e, q1, q2);
        return;
      }
      Dups1Operands(op, top, q1, q2);
    }

    // An operand that is itself a level is deduplicated against itself.
    method Dups1Inside(op: Op, top: Path, q: Path)
      requires IsPath(tree, top) && IsBin(op, At(tree, top)) && Proper(At(tree, top))
      requires IsOperand(op, At(tree, top), q)
      modifies this
      ensures IsPath(old(tree), top) && IsPath(tree, top) && tree == Put(old(tree), top, At(tree, top))
      ensures transCount >= old(transCount)
      ensures var e, e' := At(old(tree), top), At(tree, top);
        && SameLevel(op, e, e') && Equivalent(e', e) && Proper(e') && Size(e') <= Size(e) && (Normal(e) ==> Normal(e'))
        && IsOperand(op, e', q)
        && (transCount > old(transCount) ==> HasConstOperand(e'))
        && (transCount == old(transCount) ==> e' == e && IsPath(e, q) && (At(e, q).Bin? ==> Deduped(At(e, q))))
      decreases Size(At(tree, top)), 0
    {
      ghost var t0, e, n := tree, At(tree, top), transCount;
      OperandPath(op, e, q);
      PathConcat(tree, top, q);
      OnLevelSize(op, e, q);
      PutProper(e, q, Unit(op));
      PutAt(t0, top, e);
      SameLevelRefl(op, e);
      match At(tree, top + q)
      case Bin(inner, _, _) =>
        Dups1(inner, top + q, [], []);
        DupsInside(op, e, q, At(tree, top + q), transCount > n);
        PutBelow(t0, top, q, At(tree, top + q));
      case _ =>
    }

    // The end of expr_eliminate_dups1, where both slots hold operands.
    method Dups1Operands(op: Op, top: Path, q1: Path, q2: Path)
      requires IsPath(tree, top) && IsBin(op, At(tree, top)) && Proper(At(tree, top))
      requires IsOperand(op, At(tree, top), q1) && IsOperand(op, At(tree, top), q2) && q1 != q2
      modifies this
      ensures IsPath(old(tree), top) && IsPath(tree, top) && tree == Put(old(tree), top, At(tree, top))
      ensures transCount >= old(transCount)
      ensures DupsStep(op, At(old(tree), top), At(tree, top), transCount > old(transCount), q1, q2)
      decreases Size(At(tree, top)), 1
    {
      hide Join, NoJoins;
      ghost var t0, e, n := tree, At(tree, top), transCount;
      Dups1Inside(op, top, q1);
      ghost var e1, n1 := At(tree, top), transCount;
      OperandPath(op, e, q2);
      SameLevelAt(op, e, e1, q2);
      OperandPath(op, e1, q1);
      OnLevelPath(op, e1, q2);
      PathConcat(tree, top, q1);
      PathConcat(tree, top, q2);
      var t := Join(op, At(tree, top + q1), At(tree, top + q2));
      match t
      case Some(joined) =>
        PutProper(e1, q1, Unit(op));
        PutProper(e1, q2, Unit(op));
        JoinMeaning(op, At(e1, q1), At(e1, q2));
        JoinedMeaning(op, e1, q1, q2, joined);
        JoinedShape(op, e1, q1, q2, joined);
        if Normal(e1) {
          PutNormal(op, e1, q1, joined);
          PutNormal(op, e1, q2, joined);
          JoinNormal(op, At(e1, q1), At(e1, q2));
        }
        SameLevelTrans(op, e, e1, Joined(op, e1, q1, q2, joined));
        ghost var t1 := tree;
        PutBelow(t1, top, q1, Unit(op));
        Store(top + q1, Unit(op));
        PutOther(op, e1, q1, q2, Unit(op));
        PutBelow(tree, top, q2, joined);
        Store(top + q2, joined);
        PutPut(t0, top, e1, Put(e1, q1, Unit(op)));
        PutPut(t0, top, Put(e1, q1, Unit(op)), At(tree, top));
        transCount := transCount + 1;
      case None =>
        if n1 == n {
          assert NoJoin(op, e, q1, q2);
          NoJoinsOperands(op, e, q1, q2);
        }
    }

    // expr_eliminate_dups
    method EliminateDups()
      requires Proper(tree)
      modifies this
      ensures transCount == old(transCount)
      ensures Equivalent(tree, old(tree)) && Proper(tree) && Size(tree) <= old(Size(tree))
      ensures old(Normal(tree)) ==> Normal(tree)
      ensures Deduped(tree)
    {
      var oldCount := transCount;
      while true
        invariant Equivalent(tree, old(tree)) && Proper(tree) && Size(tree) <= old(Size(tree))
        invariant old(Normal(tree)) ==> Normal(tree)
        decreases Size(tree)
      {
        transCount := 0;
        if tree.Bin? {
          Dups1(tree.op, [], [], []);
        }
        if transCount == 0 {
          break;
        }
        EliminateYnShape(tree);
        if Normal(tree) { EliminateYnNormal(tree); }
        EliminateYnEquivalent(tree);
        EliminateYnAt([]);
      }
      transCount := oldCount;
    }
  }
}
