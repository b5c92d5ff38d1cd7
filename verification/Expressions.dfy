// Dependency expressions of Kconfig and their three-valued meaning.
//
// Follows support/kconfig/expr.h and expr_calc_value in expr.c.  A `struct
// symbol *` is modelled by a Symbol value (pointer equality is equality of
// values), a `struct expr *` that owns its tree by an Expr, and NULL by None.

module Wrappers {
  datatype Option<+T> = None | Some(value: T)
}

module Expressions {
  import opened Wrappers

  // ---------------------------------------------------------------- tristates

  // n < m < y, as the enum tristate numbers them.
  type Tri = t: int | 0 <= t <= 2

  const NO: Tri := 0
  const MOD: Tri := 1
  const YES: Tri := 2

  datatype Op = And | Or

  // EXPR_AND, EXPR_OR.
  function Ap(op: Op, a: Tri, b: Tri): Tri {
    match op
    case And => if a < b then a else b
    case Or => if a > b then a else b
  }

  function Dual(op: Op): Op {
    if op.And? then Or else And
  }

  // ---------------------------------------------------------------- symbols

  datatype SymbolType = Unknown | Boolean | Tristate | Int | Hex | Str | Other

  // The fields of a symbol that the expression code reads and nobody changes.
  // `id` stands for the address.
  datatype Symbol = Symbol(id: nat, name: string, stype: SymbolType, isConst: bool)

  // symbol_no, symbol_mod and symbol_yes have type S_UNKNOWN (zero-initialised).
  const SYM_NO := Symbol(0, "n", Unknown, true)
  const SYM_MOD := Symbol(1, "m", Unknown, true)
  const SYM_YES := Symbol(2, "y", Unknown, true)

  predicate IsLetter(s: Symbol) {
    s == SYM_NO || s == SYM_MOD || s == SYM_YES
  }

  predicate IsLogic(s: Symbol) {
    s.stype.Boolean? || s.stype.Tristate?
  }

  function Letter(t: Tri): string {
    if t == YES then "y" else if t == MOD then "m" else "n"
  }

  lemma LetterInjective(a: Tri, b: Tri)
    ensures Letter(a) == Letter(b) <==> a == b
  {
    assert Letter(a)[0] == Letter(b)[0] <==> a == b;
  }

  // ---------------------------------------------------------------- expressions

  datatype Rel = Eq | Ne | Lt | Le | Gt | Ge

  datatype Expr =
    | Sym(sym: Symbol)
    | Not(arg: Expr)
    | Cmp(rel: Rel, lhs: Symbol, rhs: Symbol)
    | Bin(op: Op, left: Expr, right: Expr)

  // The operand that leaves the other one alone: y for &&, n for ||.
  function Unit(op: Op): Expr {
    Sym(if op.And? then SYM_YES else SYM_NO)
  }

  predicate IsYesNo(e: Expr) {
    e == Sym(SYM_YES) || e == Sym(SYM_NO)
  }

  predicate IsBin(op: Op, e: Expr) {
    e.Bin? && e.op == op
  }

  // Do two nodes carry the same expr_type?
  predicate SameType(a: Expr, b: Expr) {
    match (a, b)
    case (Sym(_), Sym(_)) => true
    case (Not(_), Not(_)) => true
    case (Cmp(r, _, _), Cmp(q, _, _)) => r == q
    case (Bin(o, _, _), Bin(q, _, _)) => o == q
    case _ => false
  }

  function Size(e: Expr): (n: nat)
    ensures n >= 1
  {
    match e
    case Sym(_) => 1
    case Cmp(_, _, _) => 1
    case Not(a) => 1 + Size(a)
    case Bin(_, l, r) => 1 + Size(l) + Size(r)
  }

  function Symbols(e: Expr): set<Symbol> {
    match e
    case Sym(s) => {s}
    case Cmp(_, l, r) => {l, r}
    case Not(a) => Symbols(a)
    case Bin(_, l, r) => Symbols(l) + Symbols(r)
  }

  // expr_alloc_and and expr_alloc_or: NULL is the missing operand.
  function Alloc(op: Op, a: Option<Expr>, b: Option<Expr>): Option<Expr> {
    match (a, b)
    case (None, _) => b
    case (_, None) => a
    case (Some(x), Some(y)) => Some(Bin(op, x, y))
  }

  // ---------------------------------------------------------------- meaning

  // What expr_parse_string makes of the string of a symbol.
  datatype Parsed = Text | Signed(s: int) | Unsigned(u: int) | Invalid

  // Everything expr_calc_value reads off an evaluated symbol: curr.tri,
  // sym_get_string_value and the parsed number.
  datatype Reading = Reading(tri: Tri, str: string, num: Parsed)

  type Valuation = Symbol -> Reading

  // What sym_calc_value guarantees of every symbol: a bool is never m, a bool
  // or tristate reads as its letter, and only S_OTHER cannot be parsed at all.
  predicate SaneReading(s: Symbol, r: Reading) {
    && (s.stype.Boolean? ==> r.tri != MOD)
    && (IsLogic(s) ==> r.str == Letter(r.tri) && r.num == Signed(r.tri))
    && (r.num.Invalid? <==> s.stype.Other?)
    && (s == SYM_NO ==> r == Reading(NO, "n", Text))
    && (s == SYM_MOD ==> r == Reading(MOD, "m", Text))
    && (s == SYM_YES ==> r == Reading(YES, "y", Text))
  }

  ghost predicate Sane(v: Valuation) {
    forall s: Symbol :: SaneReading(s, v(s))
  }

  // The sign of strcmp.
  function Strcmp(a: string, b: string): int {
    if a == [] then (if b == [] then 0 else -1)
    else if b == [] then 1
    else if a[0] < b[0] then -1
    else if a[0] > b[0] then 1
    else Strcmp(a[1..], b[1..])
  }

  function Sign(x: int): int {
    if x < 0 then -1 else if x > 0 then 1 else 0
  }

  // The two members of union string_value overlay one 64-bit word.
  function AsUnsigned(p: Parsed): int
    requires p.Signed? || p.Unsigned?
  {
    (if p.Signed? then p.s else p.u) % 0x1_0000_0000_0000_0000
  }

  // The variable `res` of expr_calc_value.
  function Order(l: Symbol, r: Symbol, v: Valuation): int {
    var a, b := v(l), v(r);
    if (l.stype.Str? && r.stype.Str?) || a.num.Text? || b.num.Text? || a.num.Invalid? || b.num.Invalid? then
      Strcmp(a.str, b.str)
    else if a.num.Unsigned? || b.num.Unsigned? then
      Sign(AsUnsigned(a.num) - AsUnsigned(b.num))
    else
      Sign(a.num.s - b.num.s)
  }

  // The `Cannot compare` case: an S_OTHER operand and no text operand.
  predicate Incomparable(l: Symbol, r: Symbol, v: Valuation) {
    var a, b := v(l), v(r);
    && !(l.stype.Str? && r.stype.Str?) && !a.num.Text? && !b.num.Text?
    && (a.num.Invalid? || b.num.Invalid?)
  }

  function Holds(rel: Rel, order: int): bool {
    match rel
    case Eq => order == 0
    case Ne => order != 0
    case Lt => order < 0
    case Le => order <= 0
    case Gt => order > 0
    case Ge => order >= 0
  }

  function CmpValue(rel: Rel, l: Symbol, r: Symbol, v: Valuation): Tri {
    if !rel.Eq? && !rel.Ne? && Incomparable(l, r, v) then NO
    else if Holds(rel, Order(l, r, v)) then YES
    else NO
  }

  lemma {:induction false} StrcmpZero(a: string, b: string)
    ensures Strcmp(a, b) == 0 <==> a == b
  {
    if a != [] && b != [] && a[0] == b[0] {
      StrcmpZero(a[1..], b[1..]);
      assert a == [a[0]] + a[1..] && b == [b[0]] + b[1..];
    }
  }

  // The six relations, for operands of which the first is less, equal or greater.
  predicate OrderedAs(l: Symbol, r: Symbol, v: Valuation, less: bool, equal: bool) {
    && CmpValue(Lt, l, r, v) == (if less then YES else NO)
    && CmpValue(Le, l, r, v) == (if less || equal then YES else NO)
    && CmpValue(Gt, l, r, v) == (if less || equal then NO else YES)
    && CmpValue(Ge, l, r, v) == (if less then NO else YES)
    && CmpValue(Eq, l, r, v) == (if equal then YES else NO)
    && CmpValue(Ne, l, r, v) == (if equal then NO else YES)
  }

  // Numbers are compared as numbers, unless both symbols are strings; as
  // unsigned ones, to 64 bits, if one of them is a hex symbol's.
  lemma NumbersOrdered(l: Symbol, r: Symbol, v: Valuation)
    requires !(l.stype.Str? && r.stype.Str?)
    ensures forall a, b | v(l).num == Signed(a) && v(r).num == Signed(b) :: OrderedAs(l, r, v, a < b, a == b)
    ensures forall a, b |
      IsWord64(v(l).num, a) && IsWord64(v(r).num, b) && (v(l).num.Unsigned? || v(r).num.Unsigned?) ::
      OrderedAs(l, r, v, a < b, a == b)
  {
  }

  predicate IsWord64(p: Parsed, x: int) {
    0 <= x < 0x1_0000_0000_0000_0000 && (p == Signed(x) || p == Unsigned(x))
  }

  // What cannot be parsed has no order, and is equal to what reads the same.
  lemma OthersUnordered(l: Symbol, r: Symbol, v: Valuation)
    requires !(l.stype.Str? && r.stype.Str?) && !v(l).num.Text? && !v(r).num.Text?
    requires v(l).num.Invalid? || v(r).num.Invalid?
    ensures forall rel: Rel | rel.Lt? || rel.Le? || rel.Gt? || rel.Ge? :: CmpValue(rel, l, r, v) == NO
    ensures CmpValue(Eq, l, r, v) == YES <==> v(l).str == v(r).str
    ensures CmpValue(Ne, l, r, v) == YES <==> v(l).str != v(r).str
  {
    StrcmpZero(v(l).str, v(r).str);
  }

  // Texts are compared at the first character in which they differ; a text comes
  // before its continuations.
  lemma TextsOrdered(l: Symbol, r: Symbol, v: Valuation, p: string, s: string, t: string)
    requires v(l).str == p + s && v(r).str == p + t && (s != [] && t != [] ==> s[0] != t[0])
    requires (l.stype.Str? && r.stype.Str?) || v(l).num.Text? || v(r).num.Text?
    ensures OrderedAs(l, r, v, if s != [] && t != [] then s[0] < t[0] else s == [] && t != [], s == [] && t == [])
  {
    StrcmpPrefix(p, s, t);
  }

  lemma {:induction false} StrcmpPrefix(p: string, s: string, t: string)
    ensures Strcmp(p + s, p + t) == Strcmp(s, t)
  {
    if p == [] {
      assert p + s == s && p + t == t;
    } else {
      StrcmpPrefix(p[1..], s, t);
      assert (p + s)[1..] == p[1..] + s && (p + t)[1..] == p[1..] + t;
    }
  }

  // expr_calc_value, on symbols that are already evaluated.
  function Value(e: Expr, v: Valuation): Tri {
    match e
    case Sym(s) => v(s).tri
    case Not(a) => 2 - Value(a, v)
    case Cmp(rel, l, r) => CmpValue(rel, l, r, v)
    case Bin(op, l, r) => Ap(op, Value(l, v), Value(r, v))
  }

  function ValueOpt(e: Option<Expr>, v: Valuation): Tri {
    match e
    case None => YES
    case Some(x) => Value(x, v)
  }

  // Same meaning under every sane valuation.
  ghost predicate Equivalent(a: Expr, b: Expr) {
    forall v: Valuation | Sane(v) :: Value(a, v) == Value(b, v)
  }

  // The operands the simplifier is meant for: no S_OTHER symbol is ordered, and
  // a tristate is compared with no constant but y, m and n.
  predicate Proper(e: Expr) {
    match e
    case Sym(_) => true
    case Not(a) => Proper(a)
    case Bin(_, l, r) => Proper(l) && Proper(r)
    case Cmp(rel, l, r) =>
      && (rel.Eq? || rel.Ne? || (!l.stype.Other? && !r.stype.Other?))
      && (l.stype.Tristate? && r.isConst ==> IsLetter(r))
  }

  // A logic symbol against y, m or n is decided by the two tristates.
  lemma CmpLetter(rel: Rel, s: Symbol, c: Symbol, v: Valuation)
    requires Sane(v) && IsLogic(s) && IsLetter(c) && (rel.Eq? || rel.Ne?)
    ensures CmpValue(rel, s, c, v) == if rel.Eq? == (v(s).tri == v(c).tri) then YES else NO
  {
    assert SaneReading(s, v(s)) && SaneReading(c, v(c));
    assert v(c).str == Letter(v(c).tri) && v(c).num.Text?;
    var a, b := v(s).str, v(c).str;
    assert a[1..] == [] && b[1..] == [];
    assert Strcmp(a[1..], b[1..]) == 0;
  }

  // Only the readings of the symbols that occur matter.
  lemma {:induction false} ValueCongruence(e: Expr, v: Valuation, w: Valuation)
    requires forall s | s in Symbols(e) :: v(s) == w(s)
    ensures Value(e, v) == Value(e, w)
  {
    match e
    case Sym(s) => assert s in Symbols(e);
    case Cmp(_, l, r) => assert l in Symbols(e) && r in Symbols(e);
    case Not(a) => ValueCongruence(a, v, w);
    case Bin(_, l, r) => ValueCongruence(l, v, w); ValueCongruence(r, v, w);
  }
}
