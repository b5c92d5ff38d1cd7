// Constant elimination, removal of common operands and structural equality of
// expressions: expr_eliminate_yn, __expr_eliminate_eq, expr_eliminate_eq and
// expr_eq of support/kconfig/expr.c, as functions on the trees they rewrite.
// ExprSlots.dfy rewrites trees in place and is proved against these functions.

module ExprEquality {
  import opened Wrappers
  import opened Expressions

  // ------------------------------------------------------ expr_eliminate_yn

  function EliminateYn(e: Expr): (r: Expr)
    ensures Size(r) <= Size(e)
  {
    match e
    case Bin(op, a, b) => DropConst(op, EliminateYn(a), EliminateYn(b))
    case _ => e
  }

  // One &&/|| node whose operands are already free of y and n.
  function DropConst(op: Op, l: Expr, r: Expr): Expr {
    if l == Unit(Dual(op)) then l
    else if l == Unit(op) then r
    else if r == Unit(Dual(op)) then r
    else if r == Unit(op) then l
    else Bin(op, l, r)
  }

  // Is some operand of some &&/|| node (not below a !) the constant y or n?
  predicate HasConstOperand(e: Expr) {
    e.Bin? && (IsYesNo(e.left) || IsYesNo(e.right) || HasConstOperand(e.left) || HasConstOperand(e.right))
  }

  lemma DropConstMeaning(op: Op, l: Expr, r: Expr, v: Valuation)
    requires Sane(v)
    ensures Value(DropConst(op, l, r), v) == Ap(op, Value(l, v), Value(r, v))
  {
    hide DropConst, Value;
    assert SaneReading(SYM_YES, v(SYM_YES)) && SaneReading(SYM_NO, v(SYM_NO));
    DropConstValue(op, l, r, v);
  }

  // Only the values of the two constants matter.
  lemma DropConstValue(op: Op, l: Expr, r: Expr, v: Valuation)
    requires v(SYM_YES).tri == YES && v(SYM_NO).tri == NO
    ensures Value(DropConst(op, l, r), v) == Ap(op, Value(l, v), Value(r, v))
  {
    hide CmpValue;
    assert Value(Unit(op), v) == if op.And? then YES else NO;
    assert Value(Unit(Dual(op)), v) == if op.And? then NO else YES;
  }

  lemma {:induction false} EliminateYnMeaning(e: Expr, v: Valuation)
    requires Sane(v)
    ensures Value(EliminateYn(e), v) == Value(e, v)
  {
    if e.Bin? {
      EliminateYnMeaning(e.left, v);
      EliminateYnMeaning(e.right, v);
      DropConstMeaning(e.op, EliminateYn(e.left), EliminateYn(e.right), v);
    }
  }

  lemma YesNoCases(op: Op, e: Expr)
    ensures IsYesNo(e) <==> e == Unit(op) || e == Unit(Dual(op))
  {
  }

  // No constant operand is left, a tree without one is left alone, and a tree
  // with one shrinks.
  lemma {:induction false} EliminateYnShape(e: Expr)
    ensures !HasConstOperand(EliminateYn(e))
    ensures !HasConstOperand(e) ==> EliminateYn(e) == e
    ensures HasConstOperand(e) ==> Size(EliminateYn(e)) < Size(e)
    ensures Proper(e) ==> Proper(EliminateYn(e))
  {
    if e.Bin? {
      EliminateYnShape(e.left);
      EliminateYnShape(e.right);
      YesNoCases(e.op, e.left);
      YesNoCases(e.op, e.right);
      YesNoCases(e.op, EliminateYn(e.left));
      YesNoCases(e.op, EliminateYn(e.right));
    }
  }

  lemma EliminateYnEquivalent(e: Expr)
    ensures Equivalent(EliminateYn(e), e)
  {
    forall v: Valuation | Sane(v) ensures Value(EliminateYn(e), v) == Value(e, v) {
      EliminateYnMeaning(e, v);
    }
  }

  // ------------------------------------------- expr_eliminate_eq and expr_eq

  // __expr_eliminate_eq: the new contents of the two slots.
  function Level(op: Op, e1: Expr, e2: Expr): (r: (Expr, Expr))
    ensures Size(r.0) <= Size(e1) && Size(r.1) <= Size(e2)
    ensures IsBin(op, e1) ==> IsBin(op, r.0)
    ensures IsBin(op, e2) ==> IsBin(op, r.1)
    decreases Size(e1) + Size(e2), if IsBin(op, e1) || IsBin(op, e2) then 0 else 3
  {
    if IsBin(op, e1) then
      var (l, x) := Level(op, e1.left, e2);
      var (r, y) := Level(op, e1.right, x);
      (Bin(op, l, r), y)
    else if IsBin(op, e2) then
      var (x, l) := Level(op, e1, e2.left);
      var (y, r) := Level(op, x, e2.right);
      (y, Bin(op, l, r))
    else if IsYesNo(e1) && e1 == e2 then (e1, e2)
    else if ExprEq(e1, e2) then (Unit(op), Unit(op))
    else (e1, e2)
  }

  // expr_eliminate_eq.
  function EliminateEq(e1: Expr, e2: Expr): (r: (Expr, Expr))
    decreases Size(e1) + Size(e2), 1
  {
    var (a, b) := if e1.Bin? then Level(e1.op, e1, e2) else (e1, e2);
    var (c, d) := if !SameType(a, b) && b.Bin? then Level(b.op, a, b) else (a, b);
    (EliminateYn(c), EliminateYn(d))
  }

  // expr_eq: copies both sides and looks at what elimination leaves.
  predicate ExprEq(e1: Expr, e2: Expr)
    decreases Size(e1) + Size(e2), 2
  {
    SameType(e1, e2) &&
    match e1
    case Sym(_) => e1 == e2
    case Cmp(_, _, _) => e1 == e2
    case Not(a) => ExprEq(a, e2.arg)
    case Bin(_, _, _) =>
      var (a, b) := EliminateEq(e1, e2);
      a.Sym? && b.Sym? && a.sym == b.sym
  }

  // ------------------------------------------------------ a common factor

  // `old` is k op `new`, in every valuation.
  ghost predicate Factors(op: Op, k: Expr, old_: Expr, new_: Expr) {
    forall v: Valuation | Sane(v) :: Value(old_, v) == Ap(op, Value(k, v), Value(new_, v))
  }

  lemma UnitFactor(op: Op, e: Expr)
    ensures Factors(op, Unit(op), e, e)
    ensures Factors(op, e, e, Unit(op))
  {
    forall v: Valuation | Sane(v)
      ensures Value(Unit(op), v) == if op.And? then YES else NO
    {
      assert SaneReading(SYM_YES, v(SYM_YES)) && SaneReading(SYM_NO, v(SYM_NO));
    }
  }

  lemma FactorBoth(op: Op, k: Expr, m: Expr, a: Expr, a': Expr, b: Expr, b': Expr)
    requires Factors(op, k, a, a') && Factors(op, m, b, b')
    ensures Factors(op, Bin(op, k, m), Bin(op, a, b), Bin(op, a', b'))
  {
  }

  lemma FactorTwice(op: Op, k: Expr, m: Expr, a: Expr, b: Expr, c: Expr)
    requires Factors(op, k, a, b) && Factors(op, m, b, c)
    ensures Factors(op, Bin(op, k, m), a, c)
  {
  }

  // One pass at one operator takes the same factor out of both sides.
  lemma {:induction false} LevelFactor(op: Op, e1: Expr, e2: Expr) returns (k: Expr)
    ensures Factors(op, k, e1, Level(op, e1, e2).0)
    ensures Factors(op, k, e2, Level(op, e1, e2).1)
    decreases Size(e1) + Size(e2), if IsBin(op, e1) || IsBin(op, e2) then 0 else 3
  {
    if IsBin(op, e1) {
      var (l, x) := Level(op, e1.left, e2);
      var (r, y) := Level(op, e1.right, x);
      var k1 := LevelFactor(op, e1.left, e2);
      var k2 := LevelFactor(op, e1.right, x);
      k := Bin(op, k1, k2);
      FactorBoth(op, k1, k2, e1.left, l, e1.right, r);
      FactorTwice(op, k1, k2, e2, x, y);
    } else if IsBin(op, e2) {
      var (x, l) := Level(op, e1, e2.left);
      var (y, r) := Level(op, x, e2.right);
      var k1 := LevelFactor(op, e1, e2.left);
      var k2 := LevelFactor(op, x, e2.right);
      k := Bin(op, k1, k2);
      FactorBoth(op, k1, k2, e2.left, l, e2.right, r);
      FactorTwice(op, k1, k2, e1, x, y);
    } else if !(IsYesNo(e1) && e1 == e2) && ExprEq(e1, e2) {
      ExprEqSound(e1, e2);
      k := e1;
      UnitFactor(op, e1);
    } else {
      k := Unit(op);
      UnitFactor(op, e1);
      UnitFactor(op, e2);
    }
  }

  // Against a leaf, a pass either does nothing or turns the leaf into the unit.
  lemma {:induction false} LevelAgainstLeaf(op: Op, e1: Expr, e2: Expr)
    requires !IsBin(op, e2)
    ensures Level(op, e1, e2) == (e1, e2) || Level(op, e1, e2).1 == Unit(op)
  {
    if IsBin(op, e1) {
      LevelAgainstLeaf(op, e1.left, e2);
      LevelAgainstLeaf(op, e1.right, Level(op, e1.left, e2).1);
    }
  }

  // expr_eliminate_eq removes one genuine common factor, by one operator.
  lemma {:induction false} EliminateEqFactor(e1: Expr, e2: Expr) returns (op: Op, k: Expr)
    ensures Factors(op, k, e1, EliminateEq(e1, e2).0)
    ensures Factors(op, k, e2, EliminateEq(e1, e2).1)
    decreases Size(e1) + Size(e2), 1
  {
    var (a, b) := if e1.Bin? then Level(e1.op, e1, e2) else (e1, e2);
    var (c, d) := if !SameType(a, b) && b.Bin? then Level(b.op, a, b) else (a, b);
    EliminateYnEquivalent(c);
    EliminateYnEquivalent(d);
    if e1.Bin? && !IsBin(e1.op, e2) {
      LevelAgainstLeaf(e1.op, e1, e2);
    }
    if (a, b) == (e1, e2) && !SameType(a, b) && b.Bin? {
      op := b.op;
      k := LevelFactor(op, e1, e2);
    } else {
      assert (c, d) == (a, b);
      op := if e1.Bin? then e1.op else And;
      if e1.Bin? {
        k := LevelFactor(op, e1, e2);
      } else {
        k := Unit(op);
        UnitFactor(op, e1);
        UnitFactor(op, e2);
      }
    }
  }

  // Expressions that expr_eq calls equal mean the same.
  lemma {:induction false} ExprEqSound(e1: Expr, e2: Expr)
    requires ExprEq(e1, e2)
    ensures Equivalent(e1, e2)
    decreases Size(e1) + Size(e2), 2
  {
    match e1
    case Sym(_) =>
    case Cmp(_, _, _) =>
    case Not(a) => ExprEqSound(a, e2.arg);
    case Bin(_, _, _) =>
      var op, k := EliminateEqFactor(e1, e2);
  }

  // ----------------------------------- exactly when expr_eq says yes

  // The operands of one level, as an unordered collection, level by level.
  datatype Canon =
    | Atom(e: Expr)
    | Negation(arg: Canon)
    | Group(op: Op, parts: multiset<Canon>)

  function Canonical(e: Expr): Canon
    decreases e, 1
  {
    match e
    case Sym(_) => Atom(e)
    case Cmp(_, _, _) => Atom(e)
    case Not(a) => Negation(Canonical(a))
    case Bin(op, _, _) => Group(op, Live(op, e))
  }

  // The operands of e at the level of op, but for the constants y and n.
  function Live(op: Op, e: Expr): multiset<Canon>
    decreases e, if IsBin(op, e) then 0 else 2
  {
    if IsBin(op, e) then Live(op, e.left) + Live(op, e.right)
    else if IsYesNo(e) then multiset{}
    else multiset{Canonical(e)}
  }

  // y and n occur nowhere as operands.
  predicate ConstFree(e: Expr) {
    match e
    case Sym(_) => !IsYesNo(e)
    case Cmp(_, _, _) => true
    case Not(a) => ConstFree(a)
    case Bin(_, l, r) => ConstFree(l) && ConstFree(r)
  }

  // As ConstFree, but operands at the level of op may have been struck out.
  predicate Struck(op: Op, e: Expr) {
    if IsBin(op, e) then Struck(op, e.left) && Struck(op, e.right)
    else e == Unit(op) || ConstFree(e)
  }

  lemma {:induction false} ConstFreeStruck(op: Op, e: Expr)
    requires ConstFree(e)
    ensures Struck(op, e)
  {
    if IsBin(op, e) { ConstFreeStruck(op, e.left); ConstFreeStruck(op, e.right); }
  }

  lemma DifferenceTwice<T>(a: multiset<T>, b: multiset<T>, e: multiset<T>)
    ensures (a - e) + (b - (e - a)) == (a + b) - e
    ensures (e - a) - b == e - (a + b)
  {
  }

  lemma DifferenceOfOnes<T>(c: T, d: T)
    ensures multiset{c} - multiset{d} == if c == d then multiset{} else multiset{c}
  {
  }

  lemma LiveLeaf(op: Op, e: Expr)
    requires Struck(op, e) && !IsBin(op, e)
    ensures Live(op, e) == if e == Unit(op) then multiset{} else multiset{Canonical(e)}
  {
    if e != Unit(op) { ConstFreeYn(e); }
  }

  // One pass removes from both sides exactly the operands they share.
  lemma {:induction false} LevelLive(op: Op, e1: Expr, e2: Expr)
    requires Struck(op, e1) && Struck(op, e2)
    ensures Struck(op, Level(op, e1, e2).0) && Struck(op, Level(op, e1, e2).1)
    ensures Live(op, Level(op, e1, e2).0) == Live(op, e1) - Live(op, e2)
    ensures Live(op, Level(op, e1, e2).1) == Live(op, e2) - Live(op, e1)
    decreases Size(e1) + Size(e2), if IsBin(op, e1) || IsBin(op, e2) then 0 else 4
  {
    if IsBin(op, e1) {
      LevelLive(op, e1.left, e2);
      LevelLive(op, e1.right, Level(op, e1.left, e2).1);
      DifferenceTwice(Live(op, e1.left), Live(op, e1.right), Live(op, e2));
    } else if IsBin(op, e2) {
      LevelLive(op, e1, e2.left);
      LevelLive(op, Level(op, e1, e2.left).0, e2.right);
      DifferenceTwice(Live(op, e2.left), Live(op, e2.right), Live(op, e1));
    } else {
      LevelLiveLeaves(op, e1, e2);
    }
  }

  lemma {:induction false} LevelLiveLeaves(op: Op, e1: Expr, e2: Expr)
    requires Struck(op, e1) && Struck(op, e2) && !IsBin(op, e1) && !IsBin(op, e2)
    ensures Struck(op, Level(op, e1, e2).0) && Struck(op, Level(op, e1, e2).1)
    ensures Live(op, Level(op, e1, e2).0) == Live(op, e1) - Live(op, e2)
    ensures Live(op, Level(op, e1, e2).1) == Live(op, e2) - Live(op, e1)
    decreases Size(e1) + Size(e2), 3
  {
    LiveLeaf(op, e1);
    LiveLeaf(op, e2);
    LiveLeaf(op, Unit(op));
    if e1 != Unit(op) && e2 != Unit(op) {
      ConstFreeYn(e1);
      ExprEqExact(e1, e2);
      assert Level(op, e1, e2) == if ExprEq(e1, e2) then (Unit(op), Unit(op)) else (e1, e2);
      DifferenceOfOnes(Canonical(e1), Canonical(e2));
    } else {
      assert Level(op, e1, e2) == (e1, e2);
    }
  }

  // What constant elimination makes of a level with struck operands.
  lemma {:induction false} StruckYn(op: Op, e: Expr)
    requires Struck(op, e)
    ensures EliminateYn(e) != Unit(Dual(op))
    ensures Live(op, e) == multiset{} <==> EliminateYn(e) == Unit(op)
    ensures EliminateYn(e).Sym? && EliminateYn(e) != Unit(op) ==> Live(op, e) == multiset{Atom(EliminateYn(e))}
  {
    if IsBin(op, e) {
      StruckYn(op, e.left);
      StruckYn(op, e.right);
    } else {
      LiveLeaf(op, e);
      if e != Unit(op) { ConstFreeYn(e); }
    }
  }

  lemma {:induction false} ConstFreeYn(e: Expr)
    requires ConstFree(e)
    ensures EliminateYn(e) == e && !IsYesNo(e)
  {
    if e.Bin? { ConstFreeYn(e.left); ConstFreeYn(e.right); }
  }

  lemma DifferencesTell<T>(k: multiset<T>, l: multiset<T>)
    ensures k - l == multiset{} && l - k == multiset{} ==> k == l
    ensures k - l == l - k ==> k == l
  {
    if k - l == l - k {
      forall c ensures k[c] == l[c] { assert (k - l)[c] == (l - k)[c]; }
    }
  }

  // expr_eq decides equality up to order and grouping of the operands, at
  // every level: the promise of the comment above it.
  lemma {:induction false} ExprEqExact(e1: Expr, e2: Expr)
    requires ConstFree(e1) && ConstFree(e2)
    ensures ExprEq(e1, e2) <==> Canonical(e1) == Canonical(e2)
    decreases Size(e1) + Size(e2), 2
  {
    if SameType(e1, e2) && e1.Not? {
      ExprEqExact(e1.arg, e2.arg);
    } else if SameType(e1, e2) && e1.Bin? {
      var op := e1.op;
      var (a, b) := Level(op, e1, e2);
      ConstFreeStruck(op, e1);
      ConstFreeStruck(op, e2);
      LevelLive(op, e1, e2);
      StruckYn(op, a);
      StruckYn(op, b);
      DifferencesTell(Live(op, e1), Live(op, e2));
      assert EliminateEq(e1, e2) == (EliminateYn(a), EliminateYn(b));
    }
  }

  // ------------------------------------------------- nothing common is left

  function Leaves(op: Op, e: Expr): seq<Expr> {
    if IsBin(op, e) then Leaves(op, e.left) + Leaves(op, e.right) else [e]
  }

  ghost predicate NothingCommon(a: seq<Expr>, b: seq<Expr>) {
    forall x, y | x in a && y in b && ExprEq(x, y) :: x == y && IsYesNo(x)
  }

  ghost predicate OnlyStruck(op: Op, new_: seq<Expr>, old_: seq<Expr>) {
    forall x | x in new_ :: x in old_ || x == Unit(op)
  }

  lemma {:induction false} LevelNothingCommon(op: Op, e1: Expr, e2: Expr)
    ensures var (a, b) := Level(op, e1, e2);
      && NothingCommon(Leaves(op, a), Leaves(op, b))
      && OnlyStruck(op, Leaves(op, a), Leaves(op, e1))
      && OnlyStruck(op, Leaves(op, b), Leaves(op, e2))
    decreases Size(e1) + Size(e2)
  {
    if IsBin(op, e1) {
      var (l, x) := Level(op, e1.left, e2);
      LevelNothingCommon(op, e1.left, e2);
      LevelNothingCommon(op, e1.right, x);
    } else if IsBin(op, e2) {
      var (x, l) := Level(op, e1, e2.left);
      LevelNothingCommon(op, e1, e2.left);
      LevelNothingCommon(op, x, e2.right);
    }
  }
}
