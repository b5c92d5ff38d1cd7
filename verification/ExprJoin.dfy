// Joining two operands of one && or || into one: expr_join_or and
// expr_join_and of support/kconfig/expr.c.

module ExprJoin {
  import opened Wrappers
  import opened Expressions
  import opened ExprEquality

  // The node types the rules look at.
  predicate Joinable(e: Expr) {
    e.Sym? || e.Not? || (e.Cmp? && (e.rel.Eq? || e.rel.Ne?))
  }

  // sym1: the symbol an operand is about.  Below a !, the first operand may be
  // a comparison, the second only a symbol.
  function FirstSymbol(e: Expr): Option<Symbol> {
    if !Joinable(e) then None
    else match e
      case Sym(s) => Some(s)
      case Cmp(_, l, _) => Some(l)
      case Not(a) => if a.Not? || !Joinable(a) then None else if a.Sym? then Some(a.sym) else Some(a.lhs)
      case Bin(_, _, _) => None
  }

  function SecondSymbol(e: Expr): Option<Symbol> {
    if e.Not? && !e.arg.Sym? then None else FirstSymbol(e)
  }

  predicate Is(rel: Rel, c: Symbol, e: Expr) {
    e.Cmp? && e.rel == rel && e.rhs == c
  }

  // Both operands compare by rel, one with c and one with d.
  predicate Pair(rel: Rel, c: Symbol, d: Symbol, e1: Expr, e2: Expr) {
    (Is(rel, c, e1) && Is(rel, d, e2)) || (Is(rel, d, e1) && Is(rel, c, e2))
  }

  // One operand is a symbol, the other compares by rel with c.
  predicate SymAnd(rel: Rel, c: Symbol, e1: Expr, e2: Expr) {
    (e1.Sym? && Is(rel, c, e2)) || (e2.Sym? && Is(rel, c, e1))
  }

  function JoinOrRules(s: Symbol, e1: Expr, e2: Expr): Option<Expr> {
    if s.stype.Tristate? && Pair(Eq, SYM_YES, SYM_MOD, e1, e2) then Some(Cmp(Ne, s, SYM_NO))
    else if s.stype.Tristate? && Pair(Eq, SYM_YES, SYM_NO, e1, e2) then Some(Cmp(Ne, s, SYM_MOD))
    else if s.stype.Tristate? && Pair(Eq, SYM_MOD, SYM_NO, e1, e2) then Some(Cmp(Ne, s, SYM_YES))
    else if s.stype.Boolean?
         && ((e1.Not? && e1.arg.Sym? && e2.Sym?) || (e2.Not? && e2.arg.Sym? && e1.Sym?)) then
      Some(Sym(SYM_YES))
    else None
  }

  function JoinAndRules(s: Symbol, e1: Expr, e2: Expr): Option<Expr> {
    if SymAnd(Eq, SYM_YES, e1, e2) then Some(Cmp(Eq, s, SYM_YES))
    else if SymAnd(Ne, SYM_NO, e1, e2) then Some(Sym(s))
    else if SymAnd(Ne, SYM_MOD, e1, e2) then Some(Cmp(Eq, s, SYM_YES))
    else if !s.stype.Tristate? then None
    else if e1.Cmp? && e2.Cmp? && e1.rel.Eq? && e2.rel.Ne? && e1.rhs.isConst && e2.rhs.isConst then
      Some(ConstRule(s, e1.rhs, e2.rhs))
    else if e1.Cmp? && e2.Cmp? && e1.rel.Ne? && e2.rel.Eq? && e1.rhs.isConst && e2.rhs.isConst then
      Some(ConstRule(s, e2.rhs, e1.rhs))
    else if Pair(Ne, SYM_YES, SYM_NO, e1, e2) then Some(Cmp(Eq, s, SYM_MOD))
    else if Pair(Ne, SYM_YES, SYM_MOD, e1, e2) then Some(Cmp(Eq, s, SYM_NO))
    else if Pair(Ne, SYM_MOD, SYM_NO, e1, e2) then Some(Cmp(Eq, s, SYM_YES))
    else None
  }

  // (a='b') && (a!='c'): n if b and c are the same constant, else a='b'.
  function ConstRule(s: Symbol, b: Symbol, c: Symbol): Expr {
    if b != c then Cmp(Eq, s, b) else Sym(SYM_NO)
  }

  function Join(op: Op, e1: Expr, e2: Expr): Option<Expr> {
    if ExprEq(e1, e2) then Some(e1)
    else match (FirstSymbol(e1), SecondSymbol(e2))
      case (Some(s), Some(t)) =>
        if s != t || !IsLogic(s) then None
        else if op.Or? then JoinOrRules(s, e1, e2)
        else JoinAndRules(s, e1, e2)
      case _ => None
  }

  // A comparison of s with a letter, as a condition on the value of s.
  lemma CompareMeaning(s: Symbol, e: Expr, v: Valuation)
    requires Sane(v) && IsLogic(s) && e.Cmp? && e.lhs == s && IsLetter(e.rhs) && (e.rel.Eq? || e.rel.Ne?)
    ensures Value(e, v) == if e.rel.Eq? == (v(s).tri == v(e.rhs).tri) then YES else NO
  {
    CmpLetter(e.rel, s, e.rhs, v);
  }

  lemma LetterValues(v: Valuation)
    requires Sane(v)
    ensures v(SYM_NO).tri == NO && v(SYM_MOD).tri == MOD && v(SYM_YES).tri == YES
  {
    assert SaneReading(SYM_NO, v(SYM_NO)) && SaneReading(SYM_MOD, v(SYM_MOD)) && SaneReading(SYM_YES, v(SYM_YES));
  }

  lemma JoinOrRulesMeaning(s: Symbol, e1: Expr, e2: Expr, v: Valuation)
    requires Sane(v) && IsLogic(s) && FirstSymbol(e1) == Some(s) == SecondSymbol(e2)
    requires JoinOrRules(s, e1, e2).Some?
    ensures Value(JoinOrRules(s, e1, e2).value, v) == Ap(Or, Value(e1, v), Value(e2, v))
  {
    LetterValues(v);
    assert SaneReading(s, v(s));
    var t := JoinOrRules(s, e1, e2).value;
    if t.Cmp? {
      CompareMeaning(s, t, v);
      CompareMeaning(s, e1, v);
      CompareMeaning(s, e2, v);
    }
  }

  // A symbol and a comparison of it.
  lemma JoinSymbolMeaning(s: Symbol, e1: Expr, e2: Expr, v: Valuation)
    requires Sane(v) && IsLogic(s) && FirstSymbol(e1) == Some(s) == SecondSymbol(e2)
    requires SymAnd(Eq, SYM_YES, e1, e2) || SymAnd(Ne, SYM_NO, e1, e2) || SymAnd(Ne, SYM_MOD, e1, e2)
    ensures Value(JoinAndRules(s, e1, e2).value, v) == Ap(And, Value(e1, v), Value(e2, v))
  {
    LetterValues(v);
    CompareMeaning(s, Cmp(Eq, s, SYM_YES), v);
    CompareMeaning(s, if e1.Sym? then e2 else e1, v);
  }

  // Two comparisons of a tristate.
  lemma JoinComparisonsMeaning(s: Symbol, e1: Expr, e2: Expr, v: Valuation)
    requires Sane(v) && s.stype.Tristate? && FirstSymbol(e1) == Some(s) == SecondSymbol(e2)
    requires Proper(e1) && Proper(e2) && e1.Cmp? && e2.Cmp? && IsLetter(e1.rhs) && IsLetter(e2.rhs)
    requires JoinAndRules(s, e1, e2).Some?
    ensures Value(JoinAndRules(s, e1, e2).value, v) == Ap(And, Value(e1, v), Value(e2, v))
  {
    LetterValues(v);
    CompareMeaning(s, e1, v);
    CompareMeaning(s, e2, v);
    var t := JoinAndRules(s, e1, e2).value;
    if t.Cmp? {
      assert t.lhs == s && IsLetter(t.rhs) && t.rel.Eq?;
      CompareMeaning(s, t, v);
    }
  }

  lemma JoinAndRulesMeaning(s: Symbol, e1: Expr, e2: Expr, v: Valuation)
    requires Sane(v) && IsLogic(s) && FirstSymbol(e1) == Some(s) == SecondSymbol(e2)
    requires Proper(e1) && Proper(e2)
    requires JoinAndRules(s, e1, e2).Some?
    ensures Value(JoinAndRules(s, e1, e2).value, v) == Ap(And, Value(e1, v), Value(e2, v))
  {
    if SymAnd(Eq, SYM_YES, e1, e2) || SymAnd(Ne, SYM_NO, e1, e2) || SymAnd(Ne, SYM_MOD, e1, e2) {
      JoinSymbolMeaning(s, e1, e2, v);
    } else {
      JoinComparisonsMeaning(s, e1, e2, v);
    }
  }

  lemma JoinRulesShape(op: Op, s: Symbol, e1: Expr, e2: Expr)
    requires FirstSymbol(e1) == Some(s) == SecondSymbol(e2) && Proper(e1) && Proper(e2)
    ensures var t := if op.Or? then JoinOrRules(s, e1, e2) else JoinAndRules(s, e1, e2);
      t.Some? ==> Proper(t.value) && Size(t.value) == 1
  {
  }

  // A join means what the two operands mean together, and never grows.
  lemma JoinMeaning(op: Op, e1: Expr, e2: Expr)
    requires Proper(e1) && Proper(e2) && Join(op, e1, e2).Some?
    ensures Equivalent(Join(op, e1, e2).value, Bin(op, e1, e2))
    ensures Proper(Join(op, e1, e2).value)
    ensures 1 + Size(Join(op, e1, e2).value) <= Size(e1) + Size(e2)
    ensures !IsBin(op, e1) ==> !IsBin(op, Join(op, e1, e2).value)
  {
    hide Proper, JoinOrRules, JoinAndRules, ExprEq, Sane, CmpValue;
    var t := Join(op, e1, e2).value;
    if ExprEq(e1, e2) {
      ExprEqSound(e1, e2);
    } else {
      var s := FirstSymbol(e1).value;
      JoinRulesShape(op, s, e1, e2);
      forall v: Valuation | Sane(v) ensures Value(t, v) == Value(Bin(op, e1, e2), v) {
        if op.Or? { JoinOrRulesMeaning(s, e1, e2, v); } else { JoinAndRulesMeaning(s, e1, e2, v); }
      }
    }
  }

  // ------------------------------------------------------- what joins, exactly

  // y, m and n in any order
  predicate Letters(b: Symbol, c: Symbol, d: Symbol) {
    IsLetter(b) && IsLetter(c) && IsLetter(d) && b != c && b != d && c != d
  }

  predicate EitherWay(a: Expr, b: Expr, e1: Expr, e2: Expr) {
    (e1 == a && e2 == b) || (e1 == b && e2 == a)
  }

  // Two of the three values of a tristate are all but the third; a bool or its
  // negation is y.
  ghost predicate JoinsByOr(e1: Expr, e2: Expr, r: Expr) {
    || (exists s: Symbol, b, c, d ::
          s.stype.Tristate? && Letters(b, c, d) && e1 == Cmp(Eq, s, b) && e2 == Cmp(Eq, s, c) && r == Cmp(Ne, s, d))
    || (exists s: Symbol :: s.stype.Boolean? && EitherWay(Sym(s), Not(Sym(s)), e1, e2) && r == Sym(SYM_YES))
  }

  ghost predicate JoinsByAnd(e1: Expr, e2: Expr, r: Expr) {
    || (exists s :: IsLogic(s) && EitherWay(Sym(s), Cmp(Eq, s, SYM_YES), e1, e2) && r == Cmp(Eq, s, SYM_YES))
    || (exists s :: IsLogic(s) && EitherWay(Sym(s), Cmp(Ne, s, SYM_NO), e1, e2) && r == Sym(s))
    || (exists s :: IsLogic(s) && EitherWay(Sym(s), Cmp(Ne, s, SYM_MOD), e1, e2) && r == Cmp(Eq, s, SYM_YES))
    || (exists s: Symbol, b: Symbol, c: Symbol ::
          && s.stype.Tristate? && b.isConst && c.isConst && EitherWay(Cmp(Eq, s, b), Cmp(Ne, s, c), e1, e2)
          && r == if b == c then Sym(SYM_NO) else Cmp(Eq, s, b))
    || (exists s: Symbol, b, c, d ::
          s.stype.Tristate? && Letters(b, c, d) && e1 == Cmp(Ne, s, b) && e2 == Cmp(Ne, s, c) && r == Cmp(Eq, s, d))
  }

  // The letter that is neither of the two.
  function Third(b: Symbol, c: Symbol): Symbol {
    if b != SYM_NO && c != SYM_NO then SYM_NO else if b != SYM_MOD && c != SYM_MOD then SYM_MOD else SYM_YES
  }

  lemma JoinOrExact(e1: Expr, e2: Expr, r: Expr)
    requires !ExprEq(e1, e2)
    ensures Join(Or, e1, e2) == Some(r) <==> JoinsByOr(e1, e2, r)
  {
    hide ExprEq;
    if Join(Or, e1, e2) == Some(r) {
      var s := FirstSymbol(e1).value;
      if e1.Cmp? {
        assert Letters(e1.rhs, e2.rhs, Third(e1.rhs, e2.rhs)) && r == Cmp(Ne, s, Third(e1.rhs, e2.rhs));
      } else {
        assert EitherWay(Sym(s), Not(Sym(s)), e1, e2);
      }
    }
  }

  lemma JoinAndOnly(e1: Expr, e2: Expr, r: Expr)
    requires !ExprEq(e1, e2) && Join(And, e1, e2) == Some(r)
    ensures JoinsByAnd(e1, e2, r)
  {
    hide ExprEq;
    var s := FirstSymbol(e1).value;
    if e1.Cmp? && e2.Cmp? && e1.rel == e2.rel {
      assert Letters(e1.rhs, e2.rhs, Third(e1.rhs, e2.rhs)) && r == Cmp(Eq, s, Third(e1.rhs, e2.rhs));
    } else if e1.Cmp? && e2.Cmp? {
      var b, c := if e1.rel.Eq? then e1.rhs else e2.rhs, if e1.rel.Eq? then e2.rhs else e1.rhs;
      assert EitherWay(Cmp(Eq, s, b), Cmp(Ne, s, c), e1, e2);
    } else {
      var t := if e1.Cmp? then e1 else e2;
      assert EitherWay(Sym(s), t, e1, e2);
    }
  }

  lemma JoinAndAll(e1: Expr, e2: Expr, r: Expr)
    requires !ExprEq(e1, e2) && JoinsByAnd(e1, e2, r)
    ensures Join(And, e1, e2) == Some(r)
  {
    hide ExprEq;
  }

  lemma JoinAndExact(e1: Expr, e2: Expr, r: Expr)
    requires !ExprEq(e1, e2)
    ensures Join(And, e1, e2) == Some(r) <==> JoinsByAnd(e1, e2, r)
  {
    hide Join, JoinsByAnd, ExprEq;
    if Join(And, e1, e2) == Some(r) { JoinAndOnly(e1, e2, r); }
    if JoinsByAnd(e1, e2, r) { JoinAndAll(e1, e2, r); }
  }

  // ------------------------------------- the rule for two constants, exactly

  // A symbol that is only a name, as a constant is.
  predicate IsWord(c: Symbol) {
    c.stype.Unknown? && c.isConst
  }

  // A constant that is none of y, m and n reads as the number x.
  function ReadingAs(s: Symbol, t: Tri, x: int): Reading {
    if s == SYM_NO then Reading(NO, "n", Text)
    else if s == SYM_MOD then Reading(MOD, "m", Text)
    else if s == SYM_YES then Reading(YES, "y", Text)
    else if IsWord(s) then Reading(NO, s.name, Signed(x))
    else if s.stype.Tristate? then Reading(t, Letter(t), Signed(t))
    else if s.stype.Boolean? then Reading(NO, "n", Signed(NO))
    else Reading(NO, "", if s.stype.Other? then Invalid else Text)
  }

  lemma ReadingAsSane(t: Tri, x: int)
    ensures Sane((s: Symbol) => ReadingAs(s, t, x))
  {
    forall s: Symbol ensures SaneReading(s, ReadingAs(s, t, x)) { }
  }

  // The value at which a comparison with c is y, if the other constants read
  // as x.
  function MetBy(c: Symbol, x: Tri): Tri {
    if c == SYM_NO then NO else if c == SYM_MOD then MOD else if c == SYM_YES then YES else x
  }

  lemma WordMet(s: Symbol, c: Symbol, t: Tri, x: Tri)
    requires s.stype.Tristate? && IsWord(c)
    ensures CmpValue(Eq, s, c, z => ReadingAs(z, t, x)) == if t == MetBy(c, x) then YES else NO
    ensures CmpValue(Ne, s, c, z => ReadingAs(z, t, x)) == if t == MetBy(c, x) then NO else YES
  {
    var v: Valuation := z => ReadingAs(z, t, x);
    if IsLetter(c) {
      ReadingAsSane(t, x);
      CmpLetter(Eq, s, c, v);
      CmpLetter(Ne, s, c, v);
    } else {
      assert v(s).num == Signed(t) && v(c).num == Signed(x);
    }
  }

  ghost predicate ConstRuleRight(s: Symbol, b: Symbol, c: Symbol) {
    Equivalent(ConstRule(s, b, c), Bin(And, Cmp(Eq, s, b), Cmp(Ne, s, c)))
  }

  lemma ConstRuleOfLetters(s: Symbol, b: Symbol, c: Symbol)
    requires s.stype.Tristate? && (b == c || (IsLetter(b) && IsLetter(c)))
    ensures ConstRuleRight(s, b, c)
  {
    var both := Bin(And, Cmp(Eq, s, b), Cmp(Ne, s, c));
    forall v: Valuation | Sane(v) ensures Value(ConstRule(s, b, c), v) == Value(both, v) {
      LetterValues(v);
      if b != c {
        CmpLetter(Eq, s, b, v);
        CmpLetter(Ne, s, c, v);
      }
    }
  }

  // Two constants that are not both letters may read alike.
  lemma ConstRuleOfWords(s: Symbol, b: Symbol, c: Symbol)
    requires s.stype.Tristate? && IsWord(b) && IsWord(c) && b != c && !(IsLetter(b) && IsLetter(c))
    ensures !ConstRuleRight(s, b, c)
  {
    var t := if IsLetter(b) then MetBy(b, NO) else MetBy(c, NO);
    var v: Valuation := z => ReadingAs(z, t, t);
    ReadingAsSane(t, t);
    WordMet(s, b, t, t);
    WordMet(s, c, t, t);
    var rule, both := ConstRule(s, b, c), Bin(And, Cmp(Eq, s, b), Cmp(Ne, s, c));
    assert Sane(v) && Value(rule, v) == YES && Value(both, v) == NO;
  }

  // The rule for a tristate and two constants keeps the meaning exactly if the
  // constants are the same or letters both.
  lemma ConstRuleExact(s: Symbol, b: Symbol, c: Symbol)
    requires s.stype.Tristate? && IsWord(b) && IsWord(c)
    ensures ConstRuleRight(s, b, c) <==> b == c || (IsLetter(b) && IsLetter(c))
  {
    if b == c || (IsLetter(b) && IsLetter(c)) {
      ConstRuleOfLetters(s, b, c);
    } else {
      ConstRuleOfWords(s, b, c);
    }
  }

  // A constant reads as its name; parse is what expr_parse_string makes of it.
  ghost predicate Literal(v: Valuation, parse: string -> Parsed) {
    Sane(v) && forall c: Symbol | IsWord(c) && !IsLetter(c) :: v(c).str == c.name && v(c).num == parse(c.name)
  }

  // The name of the constant equals the tristate t, as the code compares them.
  predicate Denotes(parse: string -> Parsed, c: Symbol, t: Tri) {
    if IsLetter(c) || !parse(c.name).Signed? then c.name == Letter(t) else parse(c.name).s == t
  }

  lemma DenotesExact(s: Symbol, c: Symbol, v: Valuation, parse: string -> Parsed)
    requires s.stype.Tristate? && IsWord(c) && Literal(v, parse) && (parse(c.name).Text? || parse(c.name).Signed?)
    ensures CmpValue(Eq, s, c, v) == if Denotes(parse, c, v(s).tri) then YES else NO
    ensures CmpValue(Ne, s, c, v) == if Denotes(parse, c, v(s).tri) then NO else YES
  {
    assert SaneReading(s, v(s));
    LetterValues(v);
    if IsLetter(c) {
      CmpLetter(Eq, s, c, v);
      CmpLetter(Ne, s, c, v);
      LetterInjective(v(s).tri, v(c).tri);
    } else if parse(c.name).Text? {
      StrcmpZero(v(s).str, c.name);
    }
  }

  // All constants read as their names, and all tristates are t.
  function LiteralReading(parse: string -> Parsed, t: Tri, s: Symbol): Reading {
    if IsWord(s) && !IsLetter(s) then Reading(NO, s.name, parse(s.name)) else ReadingAs(s, t, 0)
  }

  ghost predicate RuleRightByName(parse: string -> Parsed, s: Symbol, b: Symbol, c: Symbol) {
    forall v: Valuation | Literal(v, parse) ::
      Value(ConstRule(s, b, c), v) == Value(Bin(And, Cmp(Eq, s, b), Cmp(Ne, s, c)), v)
  }

  lemma RuleWrongByName(parse: string -> Parsed, s: Symbol, b: Symbol, c: Symbol, t: Tri)
    requires s.stype.Tristate? && IsWord(b) && IsWord(c) && b != c
    requires forall name :: parse(name).Text? || parse(name).Signed?
    requires Denotes(parse, b, t) && Denotes(parse, c, t)
    ensures !RuleRightByName(parse, s, b, c)
  {
    var v: Valuation := z => LiteralReading(parse, t, z);
    forall z: Symbol ensures SaneReading(z, v(z)) { }
    assert Literal(v, parse);
    DenotesExact(s, b, v, parse);
    DenotesExact(s, c, v, parse);
    var rule, both := ConstRule(s, b, c), Bin(And, Cmp(Eq, s, b), Cmp(Ne, s, c));
    assert Value(rule, v) == YES && Value(both, v) == NO;
  }

  // With constants read as their names the rule is right exactly if they are
  // the same or no tristate equals both names.
  lemma ConstRuleByName(parse: string -> Parsed, s: Symbol, b: Symbol, c: Symbol)
    requires s.stype.Tristate? && IsWord(b) && IsWord(c)
    requires forall name :: parse(name).Text? || parse(name).Signed?
    ensures RuleRightByName(parse, s, b, c)
      <==> b == c || forall t: Tri :: !(Denotes(parse, b, t) && Denotes(parse, c, t))
  {
    if b != c && exists t: Tri :: Denotes(parse, b, t) && Denotes(parse, c, t) {
      var t: Tri :| Denotes(parse, b, t) && Denotes(parse, c, t);
      RuleWrongByName(parse, s, b, c, t);
    } else {
      var both := Bin(And, Cmp(Eq, s, b), Cmp(Ne, s, c));
      forall v: Valuation | Literal(v, parse) ensures Value(ConstRule(s, b, c), v) == Value(both, v) {
        LetterValues(v);
        DenotesExact(s, b, v, parse);
        DenotesExact(s, c, v, parse);
      }
    }
  }

  // The constant "2" reads as the number 2, which is how y parses: without the
  // restriction in Proper the rule changes the meaning.
  const SYM_TWO := Symbol(3, "2", Unknown, true)
  const TRISTATE_A := Symbol(4, "A", Tristate, false)

  lemma ConstRuleFails()
    ensures var e1, e2 := Cmp(Eq, TRISTATE_A, SYM_TWO), Cmp(Ne, TRISTATE_A, SYM_YES);
      var v: Valuation := s => ReadingAs(s, YES, 2);
      && Join(And, e1, e2) == Some(e1)
      && Sane(v)
      && Value(e1, v) == YES
      && Value(Bin(And, e1, e2), v) == NO
  {
    ReadingAsSane(YES, 2);
    WordMet(TRISTATE_A, SYM_TWO, YES, 2);
    WordMet(TRISTATE_A, SYM_YES, YES, 2);
  }
}
