// Rewriting of whole expressions: expr_transform, expr_trans_bool and
// expr_trans_compare of support/kconfig/expr.c and rewrite_m of menu.c.

module ExprTransform {
  import opened Wrappers
  import opened Expressions

  // ---------------------------------------------------------- expr_transform

  // Pushing a ! over && and || doubles it, so a ! doubles the weight.
  function Weight(e: Expr): (n: nat)
    ensures n >= 1
  {
    match e
    case Sym(_) => 1
    case Cmp(_, _, _) => 2
    case Not(a) => 2 * Weight(a)
    case Bin(_, l, r) => 1 + Weight(l) + Weight(r)
  }

  function Flip(rel: Rel): Rel {
    match rel
    case Eq => Ne
    case Ne => Eq
    case Le => Gt
    case Ge => Lt
    case Lt => Ge
    case Gt => Le
  }

  // A bool tested against y, m or n.
  predicate BoolTest(e: Expr) {
    e.Cmp? && (e.rel.Eq? || e.rel.Ne?) && e.lhs.stype.Boolean? && IsLetter(e.rhs)
  }

  function TransformTest(e: Expr): (r: Expr)
    requires BoolTest(e)
    ensures Weight(r) <= 2
  {
    if e.rhs == SYM_MOD then Sym(if e.rel.Eq? then SYM_NO else SYM_YES)
    else if e.rel.Eq? == (e.rhs == SYM_YES) then Sym(e.lhs)
    else Not(Sym(e.lhs))
  }

  // The negation of y is n, that of n is y, and m is its own.
  function NegateSymbol(s: Symbol): (r: Expr)
    ensures Weight(r) <= 2
  {
    if s == SYM_YES then Sym(SYM_NO)
    else if s == SYM_MOD then Sym(SYM_MOD)
    else if s == SYM_NO then Sym(SYM_YES)
    else Not(Sym(s))
  }

  // De Morgan's laws.
  function DeMorgan(op: Op, l: Expr, r: Expr): (d: Expr)
    ensures Weight(d) == 1 + 2 * Weight(l) + 2 * Weight(r)
    ensures Proper(d) <==> Proper(l) && Proper(r)
    ensures forall v: Valuation :: Value(d, v) == 2 - Value(Bin(op, l, r), v)
  {
    assert Weight(Not(l)) == 2 * Weight(l) && Weight(Not(r)) == 2 * Weight(r);
    assert Proper(Not(l)) == Proper(l) && Proper(Not(r)) == Proper(r);
    assert forall v: Valuation :: Value(Not(l), v) == 2 - Value(l, v) && Value(Not(r), v) == 2 - Value(r, v);
    Bin(Dual(op), Not(l), Not(r))
  }

  function Transform(e: Expr): (r: Expr)
    ensures Weight(r) <= Weight(e)
    decreases Weight(e)
  {
    match e
    case Sym(_) => e
    case Cmp(_, _, _) => if BoolTest(e) then TransformTest(e) else e
    case Bin(op, l, r) => Bin(op, Transform(l), Transform(r))
    case Not(a) =>
      var x := Transform(a);
      match x
      case Not(b) => Transform(b)
      case Cmp(rel, l, r) => Cmp(Flip(rel), l, r)
      case Bin(op, l, r) => Transform(DeMorgan(op, l, r))
      case Sym(s) => NegateSymbol(s)
  }

  // The shape expr_transform leaves behind: ! stands directly above a symbol
  // other than y, m and n, and no bool is tested against y, m or n.
  predicate Normal(e: Expr) {
    match e
    case Sym(_) => true
    case Cmp(_, _, _) => !BoolTest(e)
    case Not(a) => a.Sym? && !IsLetter(a.sym)
    case Bin(_, l, r) => Normal(l) && Normal(r)
  }

  lemma {:induction false} TransformNormal(e: Expr)
    ensures Normal(Transform(e))
    ensures Proper(e) ==> Proper(Transform(e))
    decreases Weight(e)
  {
    match e
    case Sym(_) =>
    case Cmp(_, _, _) =>
    case Bin(_, l, r) => TransformNormal(l); TransformNormal(r);
    case Not(a) =>
      TransformNormal(a);
      match Transform(a)
      case Not(b) => TransformNormal(b);
      case Bin(op, l, r) => TransformNormal(DeMorgan(op, l, r));
      case _ =>
  }

  lemma {:induction false} NormalFixed(e: Expr)
    requires Normal(e)
    ensures Transform(e) == e
  {
    match e
    case Bin(_, l, r) => NormalFixed(l); NormalFixed(r);
    case _ =>
  }

  lemma TransformIdempotent(e: Expr)
    ensures Transform(Transform(e)) == Transform(e)
  {
    TransformNormal(e);
    NormalFixed(Transform(e));
  }

  // Flipping a relation negates it, unless its operands cannot be compared.
  lemma FlipExact(rel: Rel, l: Symbol, r: Symbol, v: Valuation)
    ensures CmpValue(Flip(rel), l, r, v) == 2 - CmpValue(rel, l, r, v)
       <==> rel.Eq? || rel.Ne? || !Incomparable(l, r, v)
  {
  }

  // Two S_OTHER operands, and a flip that changes the meaning.
  lemma FlipFails(l: Symbol, r: Symbol, v: Valuation)
    requires Sane(v) && l.stype.Other? && r.stype.Other?
    ensures Transform(Not(Cmp(Le, l, r))) == Cmp(Gt, l, r)
    ensures Value(Not(Cmp(Le, l, r)), v) == YES && Value(Cmp(Gt, l, r), v) == NO
  {
    assert SaneReading(l, v(l)) && SaneReading(r, v(r));
  }

  lemma TransformTestMeaning(e: Expr, v: Valuation)
    requires Sane(v) && BoolTest(e)
    ensures Value(TransformTest(e), v) == Value(e, v)
  {
    CmpLetter(e.rel, e.lhs, e.rhs, v);
    assert SaneReading(e.lhs, v(e.lhs)) && SaneReading(e.rhs, v(e.rhs));
    assert SaneReading(SYM_NO, v(SYM_NO)) && SaneReading(SYM_YES, v(SYM_YES));
  }

  lemma NegateSymbolMeaning(s: Symbol, v: Valuation)
    requires Sane(v)
    ensures Value(NegateSymbol(s), v) == 2 - v(s).tri
  {
    assert SaneReading(SYM_NO, v(SYM_NO)) && SaneReading(SYM_MOD, v(SYM_MOD)) && SaneReading(SYM_YES, v(SYM_YES));
  }

  lemma {:induction false} TransformMeaning(e: Expr, v: Valuation)
    requires Sane(v) && Proper(e)
    ensures Value(Transform(e), v) == Value(e, v)
    decreases Weight(e)
  {
    match e
    case Sym(_) =>
    case Cmp(_, _, _) => if BoolTest(e) { TransformTestMeaning(e, v); }
    case Bin(_, l, r) => TransformMeaning(l, v); TransformMeaning(r, v);
    case Not(a) =>
      TransformMeaning(a, v);
      TransformNormal(a);
      match Transform(a)
      case Not(b) => TransformMeaning(b, v);
      case Bin(op, l, r) => TransformMeaning(DeMorgan(op, l, r), v);
      case Sym(s) => NegateSymbolMeaning(s, v);
      case Cmp(rel, l, r) =>
        assert SaneReading(l, v(l)) && SaneReading(r, v(r));
        FlipExact(rel, l, r, v);
  }

  lemma TransformEquivalent(e: Expr)
    requires Proper(e)
    ensures Equivalent(Transform(e), e)
  {
    forall v: Valuation | Sane(v) ensures Value(Transform(e), v) == Value(e, v) {
      TransformMeaning(e, v);
    }
  }

  // --------------------------------------------------------- expr_trans_bool

  function TransBool(e: Expr): Expr {
    match e
    case Bin(op, l, r) => Bin(op, TransBool(l), TransBool(r))
    case Not(a) => Not(TransBool(a))
    case Cmp(rel, l, r) => if rel.Ne? && l.stype.Tristate? && r == SYM_NO then Sym(l) else e
    case Sym(_) => e
  }

  // Somewhere a tristate is tested for being != n.
  predicate TestsTristate(e: Expr) {
    match e
    case Sym(_) => false
    case Not(a) => TestsTristate(a)
    case Bin(_, l, r) => TestsTristate(l) || TestsTristate(r)
    case Cmp(rel, l, r) => rel == Ne && l.stype == Tristate && r == SYM_NO
  }

  // No such test is left, and without one nothing changes.
  lemma {:induction false} TransBoolRemoves(e: Expr)
    ensures !TestsTristate(TransBool(e))
    ensures !TestsTristate(e) ==> TransBool(e) == e
  {
    match e
    case Not(a) => TransBoolRemoves(a);
    case Bin(_, l, r) => TransBoolRemoves(l); TransBoolRemoves(r);
    case _ =>
  }

  // On transformed expressions the value stays n or stays something else, so a
  // symbol that is not a tristate keeps its visibility.
  lemma {:induction false} TransBoolKeepsNo(e: Expr, v: Valuation)
    requires Sane(v) && Normal(e)
    ensures Value(TransBool(e), v) == NO <==> Value(e, v) == NO
    ensures Proper(e) ==> Proper(TransBool(e))
    ensures Normal(TransBool(e))
  {
    match e
    case Bin(_, l, r) => TransBoolKeepsNo(l, v); TransBoolKeepsNo(r, v);
    case Cmp(rel, l, r) =>
      if rel.Ne? && l.stype.Tristate? && r == SYM_NO {
        CmpLetter(Ne, l, r, v);
        assert SaneReading(r, v(r));
      }
    case _ =>
  }

  // On a single ! over a comparison it keeps whether the value is n exactly if
  // the comparison is not a tristate's != n, or the tristate is not m.  In
  // menu.c it only gets transformed expressions, which have no such !.
  lemma TransBoolNotExact(rel: Rel, a: Symbol, r: Symbol, v: Valuation)
    requires Sane(v)
    ensures var e := Not(Cmp(rel, a, r));
      (Value(TransBool(e), v) == NO <==> Value(e, v) == NO)
        <==> !(rel.Ne? && a.stype.Tristate? && r == SYM_NO && v(a).tri == MOD)
  {
    if rel.Ne? && a.stype.Tristate? && r == SYM_NO {
      CmpLetter(Ne, a, r, v);
      assert SaneReading(r, v(r));
    }
  }

  // Below a ! it may turn n into m.
  lemma TransBoolFails(a: Symbol, v: Valuation)
    requires Sane(v) && a.stype.Tristate? && v(a).tri == MOD
    ensures Value(Not(Cmp(Ne, a, SYM_NO)), v) == NO
    ensures Value(TransBool(Not(Cmp(Ne, a, SYM_NO))), v) == MOD
  {
    CmpLetter(Ne, a, SYM_NO, v);
    assert SaneReading(SYM_NO, v(SYM_NO));
  }

  // ------------------------------------------------------ expr_trans_compare

  function Negated(rel: Rel, e: Expr): Expr {
    if rel.Ne? then Not(e) else e
  }

  // rel is = or !=.  For m, && and || come back as they are.
  function TransCompare(e: Expr, rel: Rel, c: Symbol): Expr
    requires rel.Eq? || rel.Ne?
    requires IsLetter(c)
  {
    match e
    case Sym(s) => Cmp(rel, s, c)
    case Not(a) => TransCompare(a, if rel.Eq? then Ne else Eq, c)
    case Bin(op, l, r) =>
      var x, y := TransCompare(l, Eq, c), TransCompare(r, Eq, c);
      Negated(rel, if c == SYM_YES then Bin(op, x, y) else if c == SYM_NO then Bin(Dual(op), x, y) else e)
    case Cmp(_, _, _) =>
      if c == SYM_MOD then Sym(if rel.Eq? then SYM_NO else SYM_YES)
      else if rel.Eq? == (c == SYM_YES) then e
      else Not(e)
  }

  function TransCompareOpt(e: Option<Expr>, rel: Rel, c: Symbol): Expr
    requires rel.Eq? || rel.Ne?
    requires IsLetter(c)
  {
    match e
    case None => Negated(rel, Sym(c))
    case Some(x) => TransCompare(x, rel, c)
  }

  // No operand of a ! has the value m.
  predicate NoModBelowNot(e: Expr, v: Valuation) {
    match e
    case Not(a) => Value(a, v) != MOD && NoModBelowNot(a, v)
    case Bin(_, l, r) => NoModBelowNot(l, v) && NoModBelowNot(r, v)
    case _ => true
  }

  // Symbols outside comparisons are bool, tristate, or y, m, n.
  predicate LogicLeaves(e: Expr) {
    match e
    case Sym(s) => IsLogic(s) || IsLetter(s)
    case Not(a) => LogicLeaves(a)
    case Bin(_, l, r) => LogicLeaves(l) && LogicLeaves(r)
    case Cmp(_, _, _) => true
  }

  // Does the comparison say what it should?
  predicate Compares(e: Expr, rel: Rel, c: Symbol, v: Valuation)
    requires rel.Eq? || rel.Ne?
    requires IsLetter(c)
  {
    Value(TransCompare(e, rel, c), v) == if rel.Eq? == (Value(e, v) == v(c).tri) then YES else NO
  }

  lemma CompareSymbol(s: Symbol, rel: Rel, c: Symbol, v: Valuation)
    requires Sane(v) && (rel.Eq? || rel.Ne?) && IsLetter(c) && (IsLogic(s) || IsLetter(s))
    ensures Compares(Sym(s), rel, c, v)
  {
    if IsLogic(s) {
      CmpLetter(rel, s, c, v);
    } else {
      assert SaneReading(s, v(s)) && SaneReading(c, v(c));
      assert v(s).str[1..] == [] && v(c).str[1..] == [];
      assert Strcmp(v(s).str[1..], v(c).str[1..]) == 0;
    }
  }

  // The result is y or n, and y exactly when the value of e stands in the
  // relation to the constant.
  lemma {:induction false} TransCompareExact(e: Expr, rel: Rel, c: Symbol, v: Valuation)
    requires Sane(v) && (rel.Eq? || rel.Ne?) && (c == SYM_YES || c == SYM_NO)
    requires LogicLeaves(e) && NoModBelowNot(e, v)
    ensures Compares(e, rel, c, v)
  {
    assert SaneReading(c, v(c));
    match e
    case Sym(s) => CompareSymbol(s, rel, c, v);
    case Not(a) => TransCompareExact(a, if rel.Eq? then Ne else Eq, c, v);
    case Bin(op, l, r) => TransCompareExact(l, Eq, c, v); TransCompareExact(r, Eq, c, v);
    case Cmp(_, _, _) =>
  }

  // At a single ! the condition is the exact one.
  lemma TransCompareNotExact(a: Expr, rel: Rel, c: Symbol, v: Valuation)
    requires Sane(v) && (rel.Eq? || rel.Ne?) && (c == SYM_YES || c == SYM_NO)
    requires LogicLeaves(a) && NoModBelowNot(a, v)
    ensures Compares(Not(a), rel, c, v) <==> Value(a, v) != MOD
  {
    assert SaneReading(c, v(c));
    TransCompareExact(a, if rel.Eq? then Ne else Eq, c, v);
  }

  // What stands below the leading ! of an expression, and whether their number
  // is odd.
  function Core(e: Expr): Expr {
    if e.Not? then Core(e.arg) else e
  }

  predicate OddNots(e: Expr) {
    e.Not? && !OddNots(e.arg)
  }

  lemma {:induction false} TransCompareCore(e: Expr, rel: Rel, v: Valuation)
    requires Sane(v) && (rel.Eq? || rel.Ne?) && LogicLeaves(e)
    ensures !Core(e).Not? && Value(e, v) == if OddNots(e) then 2 - Value(Core(e), v) else Value(Core(e), v)
    ensures var t, x := Value(TransCompare(e, rel, SYM_MOD), v), Value(Core(e), v);
      if Core(e).Bin? then t == if rel.Eq? != OddNots(e) then x else 2 - x
      else t == if (rel.Eq? != OddNots(e)) == (x == MOD) then YES else NO
  {
    assert SaneReading(SYM_MOD, v(SYM_MOD)) && SaneReading(SYM_NO, v(SYM_NO)) && SaneReading(SYM_YES, v(SYM_YES));
    match e
    case Not(a) => TransCompareCore(a, if rel.Eq? then Ne else Eq, v);
    case Sym(s) => CompareSymbol(s, rel, SYM_MOD, v);
    case _ =>
  }

  // Comparison with m is right on a symbol or comparison exactly if an even
  // number of ! stands above it, and on && or ||, below any number of !,
  // exactly if the whole is n.
  lemma TransCompareMod(e: Expr, rel: Rel, v: Valuation)
    requires Sane(v) && (rel.Eq? || rel.Ne?) && LogicLeaves(e)
    ensures Compares(e, rel, SYM_MOD, v) <==> if Core(e).Bin? then Value(e, v) == NO else !OddNots(e)
  {
    assert SaneReading(SYM_MOD, v(SYM_MOD));
    TransCompareCore(e, rel, v);
  }

  lemma {:induction false} TransCompareProper(e: Expr, rel: Rel, c: Symbol)
    requires Proper(e) && (rel.Eq? || rel.Ne?) && IsLetter(c)
    ensures Proper(TransCompare(e, rel, c))
  {
    match e
    case Not(a) => TransCompareProper(a, if rel.Eq? then Ne else Eq, c);
    case Bin(_, l, r) => TransCompareProper(l, Eq, c); TransCompareProper(r, Eq, c);
    case _ =>
  }

  // ---------------------------------------------------------------- rewrite_m

  function RewriteM(e: Expr, modules: Symbol): Expr {
    match e
    case Not(a) => Not(RewriteM(a, modules))
    case Bin(op, l, r) => Bin(op, RewriteM(l, modules), RewriteM(r, modules))
    case Sym(s) => if s == SYM_MOD then Bin(And, e, Sym(modules)) else e
    case Cmp(_, _, _) => e
  }

  // v, with the constant m worth no more than the modules symbol.
  function LimitedMod(v: Valuation, modules: Symbol): Valuation {
    (s: Symbol) => if s == SYM_MOD then v(s).(tri := Ap(And, v(s).tri, v(modules).tri)) else v(s)
  }

  // Only the constant m changes, and only its tristate.
  lemma LimitedModExact(v: Valuation, modules: Symbol, s: Symbol)
    ensures s != SYM_MOD ==> LimitedMod(v, modules)(s) == v(s)
    ensures LimitedMod(v, modules)(SYM_MOD).str == v(SYM_MOD).str
    ensures LimitedMod(v, modules)(SYM_MOD).num == v(SYM_MOD).num
    ensures LimitedMod(v, modules)(SYM_MOD).tri
      == if v(modules).tri < v(SYM_MOD).tri then v(modules).tri else v(SYM_MOD).tri
  {
  }

  // The rewritten expression means what the original means when m is n
  // without modules; comparisons with m are not touched.
  lemma {:induction false} RewriteMMeaning(e: Expr, modules: Symbol, v: Valuation)
    ensures Value(RewriteM(e, modules), v) == Value(e, LimitedMod(v, modules))
    ensures Proper(e) ==> Proper(RewriteM(e, modules))
  {
    match e
    case Not(a) => RewriteMMeaning(a, modules, v);
    case Bin(_, l, r) => RewriteMMeaning(l, modules, v); RewriteMMeaning(r, modules, v);
    case Cmp(rel, l, r) =>
      var w := LimitedMod(v, modules);
      assert forall s: Symbol :: w(s).str == v(s).str && w(s).num == v(s).num;
    case Sym(_) =>
  }
}
