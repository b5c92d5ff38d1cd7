// Slots of an expression tree: paths from the root, reading and writing at a
// path, and the slots that make up one level of && or ||.

module ExprPaths {
  import opened Expressions
  import opened ExprEquality
  import opened ExprJoin
  import opened ExprTransform

  datatype Dir = L | R
  type Path = seq<Dir>

  predicate HasChild(e: Expr, d: Dir) {
    e.Bin? || (e.Not? && d.L?)
  }

  function Child(e: Expr, d: Dir): Expr
    requires HasChild(e, d)
  {
    if e.Not? then e.arg else if d.L? then e.left else e.right
  }

  function WithChild(e: Expr, d: Dir, x: Expr): Expr
    requires HasChild(e, d)
  {
    if e.Not? then Not(x) else if d.L? then Bin(e.op, x, e.right) else Bin(e.op, e.left, x)
  }

  predicate IsPath(e: Expr, p: Path) {
    p == [] || (HasChild(e, p[0]) && IsPath(Child(e, p[0]), p[1..]))
  }

  function At(e: Expr, p: Path): Expr
    requires IsPath(e, p)
  {
    if p == [] then e else At(Child(e, p[0]), p[1..])
  }

  function Put(e: Expr, p: Path, x: Expr): Expr
    requires IsPath(e, p)
  {
    if p == [] then x else WithChild(e, p[0], Put(Child(e, p[0]), p[1..], x))
  }

  lemma {:induction false} PutAt(e: Expr, p: Path, x: Expr)
    requires IsPath(e, p)
    ensures IsPath(Put(e, p, x), p)
    ensures At(Put(e, p, x), p) == x
    ensures Put(e, p, At(e, p)) == e
  {
    if p != [] { PutAt(Child(e, p[0]), p[1..], x); }
  }

  lemma {:induction false} PutPut(e: Expr, p: Path, x: Expr, y: Expr)
    requires IsPath(e, p)
    ensures IsPath(Put(e, p, x), p)
    ensures Put(Put(e, p, x), p, y) == Put(e, p, y)
  {
    if p != [] { PutPut(Child(e, p[0]), p[1..], x, y); }
  }

  lemma {:induction false} PathConcat(e: Expr, p: Path, q: Path)
    requires IsPath(e, p)
    ensures IsPath(e, p + q) <==> IsPath(At(e, p), q)
    ensures IsPath(e, p + q) ==> At(e, p + q) == At(At(e, p), q)
    ensures IsPath(e, p + q) ==> forall x :: Put(e, p + q, x) == Put(e, p, Put(At(e, p), q, x))
  {
    if p == [] {
      assert p + q == q;
    } else {
      assert (p + q)[0] == p[0] && (p + q)[1..] == p[1..] + q;
      PathConcat(Child(e, p[0]), p[1..], q);
    }
  }

  // Writing below a slot is writing the slot.
  lemma PutBelow(e: Expr, p: Path, q: Path, x: Expr)
    requires IsPath(e, p) && IsPath(At(e, p), q)
    ensures IsPath(e, p + q) && At(e, p + q) == At(At(e, p), q)
    ensures IsPath(Put(e, p + q, x), p)
    ensures Put(e, p + q, x) == Put(e, p, Put(At(e, p), q, x))
    ensures At(Put(e, p + q, x), p) == Put(At(e, p), q, x)
  {
    PathConcat(e, p, q);
    PutAt(e, p, Put(At(e, p), q, x));
  }

  lemma {:induction false} PutSize(e: Expr, p: Path, x: Expr)
    requires IsPath(e, p)
    ensures Size(Put(e, p, x)) == Size(e) - Size(At(e, p)) + Size(x)
  {
    if p != [] { PutSize(Child(e, p[0]), p[1..], x); }
  }

  lemma {:induction false} PutProper(e: Expr, p: Path, x: Expr)
    requires IsPath(e, p) && Proper(e)
    ensures Proper(At(e, p))
    ensures Proper(x) ==> Proper(Put(e, p, x))
  {
    if p != [] { PutProper(Child(e, p[0]), p[1..], x); }
  }

  lemma {:induction false} PutEquivalent(e: Expr, p: Path, x: Expr)
    requires IsPath(e, p) && Equivalent(x, At(e, p))
    ensures Equivalent(Put(e, p, x), e)
  {
    if p != [] { PutEquivalent(Child(e, p[0]), p[1..], x); }
  }

  // ------------------------------------------------- one level of && or ||

  // A slot of the level of op at e, or of one of its operands.
  predicate OnLevel(op: Op, e: Expr, q: Path) {
    q == [] || (IsBin(op, e) && OnLevel(op, Child(e, q[0]), q[1..]))
  }

  predicate IsOperand(op: Op, e: Expr, q: Path) {
    if q == [] then !IsBin(op, e) else IsBin(op, e) && IsOperand(op, Child(e, q[0]), q[1..])
  }

  predicate SameLevel(op: Op, a: Expr, b: Expr) {
    if IsBin(op, a) then IsBin(op, b) && SameLevel(op, a.left, b.left) && SameLevel(op, a.right, b.right)
    else !IsBin(op, b)
  }

  function LevelSize(op: Op, e: Expr): nat {
    if IsBin(op, e) then 1 + LevelSize(op, e.left) + LevelSize(op, e.right) else 1
  }

  lemma {:induction false} OnLevelPath(op: Op, e: Expr, q: Path)
    requires OnLevel(op, e, q)
    ensures IsPath(e, q)
    ensures !IsBin(op, At(e, q)) <==> IsOperand(op, e, q)
  {
    if q != [] { OnLevelPath(op, Child(e, q[0]), q[1..]); }
  }

  lemma {:induction false} OperandPath(op: Op, e: Expr, q: Path)
    requires IsOperand(op, e, q)
    ensures OnLevel(op, e, q) && IsPath(e, q) && !IsBin(op, At(e, q))
  {
    if q != [] { OperandPath(op, Child(e, q[0]), q[1..]); }
  }

  // The size of the part of the level below a slot.
  function LevelAt(op: Op, e: Expr, q: Path): nat
    requires OnLevel(op, e, q)
  {
    OnLevelPath(op, e, q);
    LevelSize(op, At(e, q))
  }

  lemma {:induction false} OnLevelChild(op: Op, e: Expr, q: Path, d: Dir)
    requires OnLevel(op, e, q) && IsPath(e, q) && IsBin(op, At(e, q))
    ensures OnLevel(op, e, q + [d]) && IsPath(e, q + [d])
    ensures At(e, q + [d]) == Child(At(e, q), d)
  {
    if q == [] {
      assert q + [d] == [d] && [d][1..] == [];
    } else {
      assert (q + [d])[0] == q[0] && (q + [d])[1..] == q[1..] + [d];
      OnLevelChild(op, Child(e, q[0]), q[1..], d);
    }
  }

  lemma {:induction false} OnLevelSize(op: Op, e: Expr, q: Path)
    requires OnLevel(op, e, q)
    ensures IsPath(e, q)
    ensures q != [] ==> Size(At(e, q)) < Size(e)
  {
    if q != [] { OnLevelSize(op, Child(e, q[0]), q[1..]); }
  }

  lemma {:induction false} PutNormal(op: Op, e: Expr, q: Path, x: Expr)
    requires OnLevel(op, e, q) && IsPath(e, q) && Normal(e)
    ensures Normal(At(e, q))
    ensures Normal(x) ==> Normal(Put(e, q, x))
  {
    if q != [] { PutNormal(op, Child(e, q[0]), q[1..], x); }
  }

  lemma {:induction false} SameLevelAt(op: Op, a: Expr, b: Expr, q: Path)
    requires SameLevel(op, a, b) && OnLevel(op, a, q)
    ensures OnLevel(op, b, q) && IsPath(a, q) && IsPath(b, q)
    ensures SameLevel(op, At(a, q), At(b, q))
  {
    if q != [] { SameLevelAt(op, Child(a, q[0]), Child(b, q[0]), q[1..]); }
  }

  lemma {:induction false} SameLevelSize(op: Op, a: Expr, b: Expr)
    requires SameLevel(op, a, b)
    ensures LevelSize(op, a) == LevelSize(op, b)
  {
    if IsBin(op, a) { SameLevelSize(op, a.left, b.left); SameLevelSize(op, a.right, b.right); }
  }

  lemma {:induction false} SameLevelTrans(op: Op, a: Expr, b: Expr, c: Expr)
    requires SameLevel(op, a, b) && SameLevel(op, b, c)
    ensures SameLevel(op, a, c)
  {
    if IsBin(op, a) { SameLevelTrans(op, a.left, b.left, c.left); SameLevelTrans(op, a.right, b.right, c.right); }
  }

  lemma {:induction false} SameLevelRefl(op: Op, a: Expr)
    ensures SameLevel(op, a, a)
  {
    if IsBin(op, a) { SameLevelRefl(op, a.left); SameLevelRefl(op, a.right); }
  }

  // Replacing an operand keeps the level.
  lemma {:induction false} PutOperand(op: Op, e: Expr, q: Path, x: Expr)
    requires IsOperand(op, e, q) && !IsBin(op, x)
    ensures IsPath(e, q) && OnLevel(op, e, q)
    ensures SameLevel(op, e, Put(e, q, x))
    ensures IsOperand(op, Put(e, q, x), q)
  {
    if q != [] {
      PutOperand(op, Child(e, q[0]), q[1..], x);
      SameLevelRefl(op, if q[0].L? then e.right else e.left);
    }
  }

  // The other operands stay.
  lemma {:induction false} PutOther(op: Op, e: Expr, q: Path, r: Path, x: Expr)
    requires IsOperand(op, e, q) && IsOperand(op, e, r) && q != r && !IsBin(op, x)
    ensures IsPath(e, q) && IsPath(e, r)
    ensures IsOperand(op, Put(e, q, x), r) && IsPath(Put(e, q, x), r)
    ensures At(Put(e, q, x), r) == At(e, r)
  {
    PutOperand(op, e, q, x);
    PutOperand(op, e, r, x);
    if q[0] == r[0] {
      assert q[1..] != r[1..] by { assert q == [q[0]] + q[1..] && r == [r[0]] + r[1..]; }
      PutOther(op, Child(e, q[0]), q[1..], r[1..], x);
    } else {
      OnLevelPath(op, Child(e, r[0]), r[1..]);
    }
  }

  // An operand is worth exactly its share of the level.
  lemma {:induction false} OperandShare(op: Op, e: Expr, q: Path, x: Expr, v: Valuation)
    requires IsOperand(op, e, q) && Sane(v)
    ensures IsPath(e, q)
    ensures Value(Put(e, q, x), v) == Ap(op, Value(x, v), Value(Put(e, q, Unit(op)), v))
  {
    LetterValues(v);
    if q != [] { OperandShare(op, Child(e, q[0]), q[1..], x, v); }
  }

  // What expr_eliminate_dups1 writes when two operands join.
  function Joined(op: Op, e: Expr, q: Path, r: Path, t: Expr): Expr
    requires IsOperand(op, e, q) && IsOperand(op, e, r) && q != r
  {
    PutOther(op, e, q, r, Unit(op));
    Put(Put(e, q, Unit(op)), r, t)
  }

  lemma JoinedMeaning(op: Op, e: Expr, q: Path, r: Path, t: Expr)
    requires IsOperand(op, e, q) && IsOperand(op, e, r) && q != r
    requires IsPath(e, q) && IsPath(e, r)
    requires Equivalent(t, Bin(op, At(e, q), At(e, r)))
    ensures Equivalent(Joined(op, e, q, r, t), e)
  {
    var e1 := Put(e, q, Unit(op));
    PutOther(op, e, q, r, Unit(op));
    PutAt(e, q, Unit(op));
    PutAt(e1, r, Unit(op));
    forall v: Valuation | Sane(v) ensures Value(Joined(op, e, q, r, t), v) == Value(e, v) {
      OperandShare(op, e, q, At(e, q), v);
      OperandShare(op, e1, r, At(e1, r), v);
      OperandShare(op, e1, r, t, v);
    }
  }

  lemma JoinedShape(op: Op, e: Expr, q: Path, r: Path, t: Expr)
    requires IsOperand(op, e, q) && IsOperand(op, e, r) && q != r
    requires IsPath(e, q) && IsPath(e, r)
    requires !IsBin(op, t) && Proper(e) && Proper(t) && 1 + Size(t) <= Size(At(e, q)) + Size(At(e, r))
    ensures SameLevel(op, e, Joined(op, e, q, r, t))
    ensures Proper(Joined(op, e, q, r, t)) && Size(Joined(op, e, q, r, t)) <= Size(e)
    ensures HasConstOperand(Joined(op, e, q, r, t))
    ensures Normal(e) && Normal(t) ==> Normal(Joined(op, e, q, r, t))
  {
    var e1 := Put(e, q, Unit(op));
    PutOther(op, e, q, r, Unit(op));
    PutOperand(op, e, q, Unit(op));
    PutOperand(op, e1, r, t);
    SameLevelTrans(op, e, e1, Put(e1, r, t));
    PutProper(e, q, Unit(op));
    PutProper(e1, r, t);
    PutSize(e, q, Unit(op));
    PutSize(e1, r, t);
    PutAt(e, q, Unit(op));
    PutOther(op, e1, r, q, t);
    ConstOperandBelow(op, Put(e1, r, t), q);
    if Normal(e) && Normal(t) {
      PutNormal(op, e, q, Unit(op));
      PutNormal(op, e1, r, t);
    }
  }

  // A constant operand, or a constant operand below an operand.
  lemma {:induction false} ConstOperandBelow(op: Op, e: Expr, q: Path)
    requires IsOperand(op, e, q) && IsPath(e, q)
    requires HasConstOperand(At(e, q)) || (q != [] && At(e, q) == Unit(op))
    ensures HasConstOperand(e)
  {
    if q != [] && (q[1..] != [] || HasConstOperand(At(e, q))) {
      ConstOperandBelow(op, Child(e, q[0]), q[1..]);
    }
  }

  // --------------------------------------------------- nothing left to join

  // Below slots q and r of the level no two different operands join, and the
  // operands below q are themselves free of joins.
  ghost predicate NoJoins(op: Op, e: Expr, q: Path, r: Path)
    decreases Size(e), 1
  {
    forall i, j | IsOperand(op, e, i) && IsOperand(op, e, j) && i != j && q <= i && r <= j ::
      NoJoin(op, e, i, j)
  }

  ghost predicate NoJoin(op: Op, e: Expr, i: Path, j: Path)
    requires IsOperand(op, e, i) && IsOperand(op, e, j) && i != j
    decreases Size(e), 0
  {
    PutOperand(op, e, i, Unit(op));
    PutOperand(op, e, j, Unit(op));
    OnLevelSize(op, e, i);
    && Join(op, At(e, i), At(e, j)).None?
    && (At(e, i).Bin? ==> Deduped(At(e, i)))
  }

  // No level of the tree reached from the top through && and || has two
  // operands that join.
  ghost predicate Deduped(e: Expr)
    decreases Size(e), 2
  {
    e.Bin? ==> NoJoins(e.op, e, [], [])
  }
}
