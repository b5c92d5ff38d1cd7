// The minimal configuration: which symbols conf_write_defconfig of
// support/kconfig/confdata.c writes, what conf_read makes of them, and exactly
// when loading it back gives every symbol the value it had.

module DefConfig {
  import opened Wrappers
  import opened Expressions
  import opened SymbolValue
  import opened SymbolEval
  import opened SymbolExamples
  import opened SymbolLaws

  // ------------------------------------------------------------ what is saved

  // sym_is_changable
  predicate Changeable(lim: Limits) {
    lim.visible > lim.revDep
  }

  // conf_write_defconfig writes the symbol.
  predicate Saved(c: Config, u: User, s: Symbol, st: State) {
    && IsTyped(s) && Writes(c, u, s, st) && Changeable(CalcLimits(c, s, st))
    && StringOf(s, st(s), st(c.modules).tri) != StringDefault(c, s, st)
  }

  // The user value that loading the written line gives.
  function LoadedValue(s: Symbol, x: SymVal): SymVal {
    if IsLogic(s) then SymVal("", x.tri) else SymVal(x.val, NO)
  }

  // The user values after loading what was saved.
  ghost predicate Reloaded(c: Config, u: User, st: State, menus: set<Symbol>, u': User) {
    && (forall s: Symbol :: s in u' <==> s in menus && Saved(c, u, s, st))
    && (forall s: Symbol | s in u' :: u'[s] == LoadedValue(s, st(s)))
  }

  // ---------------------------------------------------------------- one symbol

  // A tristate that cannot be changed from m, because it is selected as m and
  // visible as m only, although its default is y: the user value hides the
  // default, and is not saved.
  predicate Pinned(c: Config, u: User, s: Symbol, st: State) {
    var lim, v := CalcLimits(c, s, st), Readings(c, st);
    && s.stype.Tristate? && s in u
    && lim.visible == MOD && lim.revDep == MOD && lim.implied != YES
    && DefaultTri(FirstDefault(DefOf(c, s).defaults, 0, v), v) == YES
  }

  // The string that is compared is the letter of the value.
  lemma LogicString(c: Config, u: User, s: Symbol, st: State)
    requires IsLogic(s) && IsTyped(s) && st(s) == Calc(c, u, s, st)
    ensures StringOf(s, st(s), st(c.modules).tri) == Letter(st(s).tri)
  {
  }

  // The default string is the letter of the value without a user value.
  lemma DefaultLetter(c: Config, s: Symbol, st: State)
    requires IsLogic(s) && IsTyped(s)
    ensures StringDefault(c, s, st) == Letter(Calc(c, map[], s, st).tri)
  {
  }

  // The saved user value, or none, gives a bool or tristate its value back
  // unless it is pinned.
  lemma LogicKept(c: Config, u: User, u': User, s: Symbol, st: State, menus: set<Symbol>)
    requires IsLogic(s) && IsTyped(s) && st(s) == Calc(c, u, s, st)
    requires Reloaded(c, u, st, menus, u') && (DefOf(c, s).prompts != [] ==> s in menus)
    ensures Calc(c, u', s, st) == Calc(c, u, s, st) <==> !Pinned(c, u, s, st)
  {
    var lim := CalcLimits(c, s, st);
    LogicString(c, u, s, st);
    DefaultLetter(c, s, st);
    if lim.visible == NO || !Changeable(lim) {
    } else if Letter(st(s).tri) == StringDefault(c, s, st) {
      LetterInjective(st(s).tri, Calc(c, map[], s, st).tri);
    } else {
      assert s in u';
    }
  }

  // A bool or tristate is saved exactly if it can be changed and its user value
  // makes a difference.
  lemma LogicSavedExact(c: Config, u: User, s: Symbol, st: State)
    requires IsLogic(s) && st(s) == Calc(c, u, s, st)
    ensures Saved(c, u, s, st) <==>
      CalcLimits(c, s, st).visible > CalcLimits(c, s, st).revDep && st(s).tri != Calc(c, map[], s, st).tri
  {
    hide CalcLimits, StringOf, StringDefault, Calc;
    LogicString(c, u, s, st);
    DefaultLetter(c, s, st);
    LetterInjective(st(s).tri, Calc(c, map[], s, st).tri);
  }

  // A string or number is saved exactly if it can be changed and is not what the
  // first default that applies names.
  lemma TextSavedExact(c: Config, u: User, s: Symbol, st: State, i: int)
    requires IsText(s)
    ensures var lim, ds, v := CalcLimits(c, s, st), DefOf(c, s).defaults, Readings(c, st);
      && (IsFirst(DefaultConditions(ds), i, v) ==>
            (Saved(c, u, s, st) <==>
               lim.visible > lim.revDep && st(s).val != if ds[i].expr.Sym? then st(ds[i].expr.sym).val else ""))
      && (NoneHolds(DefaultConditions(ds), v) ==>
            (Saved(c, u, s, st) <==> lim.visible > lim.revDep && st(s).val != ""))
  {
    hide CalcLimits, Readings, IsFirst, NoneHolds;
    DefaultTaken(DefOf(c, s).defaults, i, Readings(c, st));
  }

  // A range whose ends are ordered, are printed so that they can be read back,
  // and are printed validly.
  ghost predicate OrdinaryRange(c: Config, s: Symbol, st: State) {
    var r := FirstRange(DefOf(c, s).ranges, 0, Readings(c, st));
    IsNumber(s) && r.Some? ==>
      var base := Base(s, 0);
      var lo, hi := RangeValue(c, r.value.lo, base, st), RangeValue(c, r.value.hi, base, st);
      lo <= hi && OrdinaryEnd(c, s, lo) && OrdinaryEnd(c, s, hi)
  }

  predicate OrdinaryEnd(c: Config, s: Symbol, x: int) {
    && c.numbers.toNumber(c.numbers.fromNumber(x, s.stype.Hex?), Base(s, 0)) == x
    && StringValid(s, c.numbers.fromNumber(x, s.stype.Hex?))
  }

  // sym_string_valid, on strings and numbers
  predicate StringValid(s: Symbol, str: string) {
    match s.stype
    case Str => true
    case Int => DecimalValid(str)
    case Hex => HexValid(SkipHexPrefix(str))
    case _ => false
  }

  predicate IsDigit(ch: char) {
    '0' <= ch <= '9'
  }

  predicate IsHexDigit(ch: char) {
    IsDigit(ch) || 'a' <= ch <= 'f' || 'A' <= ch <= 'F'
  }

  function SkipHexPrefix(str: string): string {
    if |str| >= 2 && str[0] == '0' && (str[1] == 'x' || str[1] == 'X') then str[2..] else str
  }

  function SkipMinus(str: string): string {
    if |str| >= 1 && str[0] == '-' then str[1..] else str
  }

  predicate DecimalValid(str: string) {
    var t := SkipMinus(str);
    t != [] && (t[0] == '0' ==> |t| == 1) && forall i | 0 <= i < |t| :: IsDigit(t[i])
  }

  predicate HexValid(t: string) {
    t != [] && forall i | 0 <= i < |t| :: IsHexDigit(t[i])
  }

  // The decimal numeral of a number, without leading zeros.
  function Numeral(n: nat): string {
    if n < 10 then [Digit(n)] else Numeral(n / 10) + [Digit(n % 10)]
  }

  function Digit(n: nat): char
    requires n < 10
  {
    '0' + n as char
  }

  function DigitValue(ch: char): nat
    requires IsDigit(ch)
  {
    (ch - '0') as nat
  }

  predicate IsNumeral(t: string) {
    t != [] && (t[0] == '0' ==> |t| == 1) && forall i | 0 <= i < |t| :: IsDigit(t[i])
  }

  lemma {:induction false} NumeralValid(n: nat)
    ensures IsNumeral(Numeral(n)) && (Numeral(n)[0] == '0' ==> n == 0)
  {
    if n >= 10 { NumeralValid(n / 10); }
  }

  lemma {:induction false} NumeralOf(t: string) returns (n: nat)
    requires IsNumeral(t)
    ensures t == Numeral(n) && (n == 0 ==> t == "0")
  {
    var last := |t| - 1;
    if last == 0 {
      n := DigitValue(t[0]);
    } else {
      var m := NumeralOf(t[..last]);
      assert m != 0;
      n := 10 * m + DigitValue(t[last]);
      assert n / 10 == m && n % 10 == DigitValue(t[last]);
      assert t == t[..last] + [t[last]];
    }
  }

  // The valid decimal strings are the numerals, with or without a minus sign.
  lemma DecimalExact(str: string)
    ensures DecimalValid(str) <==> exists n: nat :: str == Numeral(n) || str == "-" + Numeral(n)
  {
    if DecimalValid(str) {
      var t := SkipMinus(str);
      var n := NumeralOf(t);
      assert str == t || str == "-" + t;
    }
    forall n: nat | str == Numeral(n) || str == "-" + Numeral(n) ensures DecimalValid(str) { NumeralIsDecimal(n); }
  }

  lemma NumeralIsDecimal(n: nat)
    ensures DecimalValid(Numeral(n)) && DecimalValid("-" + Numeral(n))
  {
    NumeralValid(n);
    assert ("-" + Numeral(n))[1..] == Numeral(n);
    assert IsDigit(Numeral(n)[0]);
  }

  lemma DigitsAlone(t: string)
    requires forall ch | ch in t :: IsHexDigit(ch)
    ensures SkipHexPrefix(t) == t
  {
    if |t| >= 2 { assert t[1] in t; }
  }

  predicate IsHexSpelling(str: string, digits: string) {
    && (str == digits || str == "0x" + digits || str == "0X" + digits)
    && digits != "" && forall ch | ch in digits :: IsHexDigit(ch)
  }

  // Hexadecimal strings are digits, at least one, after 0x, 0X or nothing.
  lemma HexExact(str: string)
    ensures HexValid(SkipHexPrefix(str)) <==> exists digits :: IsHexSpelling(str, digits)
  {
    if HexValid(SkipHexPrefix(str)) { assert IsHexSpelling(str, SkipHexPrefix(str)); }
    forall t | IsHexSpelling(str, t) ensures HexValid(SkipHexPrefix(str)) {
      if str == t { DigitsAlone(t); } else { assert str[2..] == t; }
    }
  }

  // Clamping twice is clamping once.
  lemma ClampTwice(c: Config, s: Symbol, val: string, st: State)
    requires OrdinaryRange(c, s, st)
    ensures var r := FirstRange(DefOf(c, s).ranges, 0, Readings(c, st));
      Clamp(c, s, Clamp(c, s, val, r, st), r, st) == Clamp(c, s, val, r, st)
  {
  }

  // A string or number has its value back in any case.
  lemma TextKept(c: Config, u: User, u': User, s: Symbol, st: State, menus: set<Symbol>)
    requires IsText(s) && IsTyped(s) && st(s) == Calc(c, u, s, st) && OrdinaryRange(c, s, st)
    requires Reloaded(c, u, st, menus, u') && (DefOf(c, s).prompts != [] ==> s in menus)
    requires DefOf(c, s).revDep.None?
    ensures Calc(c, u', s, st) == Calc(c, u, s, st)
  {
    var lim := CalcLimits(c, s, st);
    ClampTwice(c, s, TextOf(c, u, s, st), st);
    if lim.visible != NO {
      assert TextOf(c, u', s, st) == if s in u' then st(s).val else StringDefault(c, s, st);
    }
  }

  // ------------------------------------------------------- the configuration

  // Ranges are ordinary, only bools and tristates are selected, and a prompt
  // belongs to a menu entry.
  ghost predicate Ordinary(c: Config, st: State, menus: set<Symbol>) {
    && (forall s: Symbol | IsText(s) :: OrdinaryRange(c, s, st) && DefOf(c, s).revDep.None?)
    && (forall s: Symbol | DefOf(c, s).prompts != [] :: s in menus)
  }

  // With the operands unchanged, a symbol keeps its value unless it is pinned.
  lemma SymbolKept(c: Config, rank: Rank, u: User, u': User, menus: set<Symbol>, s: Symbol)
    requires Acyclic(c, rank)
    requires Ordinary(c, EvalState(c, rank, u), menus) && Reloaded(c, u, EvalState(c, rank, u), menus, u')
    requires forall t: Symbol | rank(t) < rank(s) :: Eval(c, rank, u', t) == Eval(c, rank, u, t)
    ensures Eval(c, rank, u', s) == Eval(c, rank, u, s) <==> !Pinned(c, u, s, EvalState(c, rank, u))
  {
    var st, st' := EvalState(c, rank, u), EvalState(c, rank, u');
    EvalNoBoolMod(c, rank, u);
    EvalNoBoolMod(c, rank, u');
    forall t | t in Reads(c, u', s, st) ensures st(t) == st'(t) { ReadsBelow(c, rank, u', s, st, t); }
    CalcAgrees(c, u', s, st, st');
    EvalUnfold(c, rank, u, s);
    EvalUnfold(c, rank, u', s);
    if IsLogic(s) && IsTyped(s) {
      LogicKept(c, u, u', s, st, menus);
    } else if IsText(s) && IsTyped(s) {
      TextKept(c, u, u', s, st, menus);
    }
  }

  lemma {:induction false} KeptBelow(c: Config, rank: Rank, u: User, u': User, menus: set<Symbol>, s: Symbol)
    requires Acyclic(c, rank)
    requires Ordinary(c, EvalState(c, rank, u), menus) && Reloaded(c, u, EvalState(c, rank, u), menus, u')
    requires NonePinned(c, u, EvalState(c, rank, u))
    ensures Eval(c, rank, u', s) == Eval(c, rank, u, s)
    decreases rank(s)
  {
    forall t: Symbol | rank(t) < rank(s) ensures Eval(c, rank, u', t) == Eval(c, rank, u, t) {
      KeptBelow(c, rank, u, u', menus, t);
    }
    SymbolKept(c, rank, u, u', menus, s);
  }

  ghost predicate SameValues(c: Config, rank: Rank, u: User, u': User) {
    forall s: Symbol :: Eval(c, rank, u', s) == Eval(c, rank, u, s)
  }

  ghost predicate NonePinned(c: Config, u: User, st: State) {
    forall s: Symbol :: !Pinned(c, u, s, st)
  }

  lemma PinnedDiffers(c: Config, rank: Rank, u: User, u': User, menus: set<Symbol>, s: Symbol)
    requires Acyclic(c, rank)
    requires Ordinary(c, EvalState(c, rank, u), menus) && Reloaded(c, u, EvalState(c, rank, u), menus, u')
    requires Pinned(c, u, s, EvalState(c, rank, u))
    ensures !SameValues(c, rank, u, u')
  {
    if SameValues(c, rank, u, u') { SymbolKept(c, rank, u, u', menus, s); }
  }

  // Saving a minimal configuration and loading it gives every symbol its value
  // back exactly if no symbol is pinned.
  lemma ReloadKeepsValues(c: Config, rank: Rank, u: User, u': User, menus: set<Symbol>)
    requires Acyclic(c, rank)
    requires Ordinary(c, EvalState(c, rank, u), menus) && Reloaded(c, u, EvalState(c, rank, u), menus, u')
    ensures SameValues(c, rank, u, u') <==> NonePinned(c, u, EvalState(c, rank, u))
  {
    if NonePinned(c, u, EvalState(c, rank, u)) {
      forall s: Symbol ensures Eval(c, rank, u', s) == Eval(c, rank, u, s) { KeptBelow(c, rank, u, u', menus, s); }
    } else {
      var s: Symbol :| Pinned(c, u, s, EvalState(c, rank, u));
      PinnedDiffers(c, rank, u, u', menus, s);
    }
  }

  // Without tristates nothing is pinned.
  lemma ReloadKeepsBools(c: Config, rank: Rank, u: User, u': User, menus: set<Symbol>, s: Symbol)
    requires Acyclic(c, rank) && forall t | t in u :: !t.stype.Tristate?
    requires Ordinary(c, EvalState(c, rank, u), menus) && Reloaded(c, u, EvalState(c, rank, u), menus, u')
    ensures Eval(c, rank, u', s) == Eval(c, rank, u, s)
  {
    KeptBelow(c, rank, u, u', menus, s);
  }

  // What is saved can be loaded: strings and numbers are valid.
  lemma SavedValid(c: Config, u: User, s: Symbol, st: State)
    requires IsText(s) && IsTyped(s) && st(s) == Calc(c, u, s, st) && OrdinaryRange(c, s, st) && Saved(c, u, s, st)
    requires s in u ==> StringValid(s, u[s].val)
    ensures StringValid(s, st(s).val)
  {
  }

  // sym_string_within_range, on strings and numbers
  predicate StringWithinRange(c: Config, s: Symbol, str: string, st: State) {
    && StringValid(s, str)
    && var r := FirstRange(DefOf(c, s).ranges, 0, Readings(c, st));
       IsNumber(s) && r.Some? ==>
         var base := Base(s, 0);
         RangeValue(c, r.value.lo, base, st) <= c.numbers.toNumber(str, base) <= RangeValue(c, r.value.hi, base, st)
  }

  // A number may be set exactly if it is valid and lies between the ends of the
  // first range that applies; a string always.
  lemma StringRangeExact(c: Config, s: Symbol, str: string, st: State, i: int)
    requires IsText(s)
    ensures var rs, v := DefOf(c, s).ranges, Readings(c, st);
      && (s.stype.Str? ==> StringWithinRange(c, s, str, st))
      && (NoneHolds(RangeConditions(rs), v) ==> (StringWithinRange(c, s, str, st) <==> StringValid(s, str)))
      && (IsNumber(s) && IsFirst(RangeConditions(rs), i, v) ==>
            var x := c.numbers.toNumber(str, if s.stype.Hex? then 16 else 10);
            (StringWithinRange(c, s, str, st) <==>
               StringValid(s, str) && End(c, s, rs[i].lo, st) <= x && x <= End(c, s, rs[i].hi, st)))
  {
    hide Readings, IsFirst, NoneHolds, DecimalValid, HexValid;
    RangeTaken(DefOf(c, s).ranges, i, Readings(c, st));
  }

  lemma SavedInRange(c: Config, u: User, s: Symbol, st: State)
    requires IsText(s) && IsTyped(s) && st(s) == Calc(c, u, s, st) && OrdinaryRange(c, s, st) && Saved(c, u, s, st)
    requires s in u ==> StringValid(s, u[s].val)
    ensures StringWithinRange(c, s, st(s).val, st)
  {
    SavedValid(c, u, s, st);
  }

  lemma RangeSame(c: Config, s: Symbol, str: string, st: State, st': State)
    requires NoBoolMod(st) && NoBoolMod(st') && forall t: Symbol :: st(t) == st'(t)
    ensures StringWithinRange(c, s, str, st) == StringWithinRange(c, s, str, st')
  {
    RangesAgree(c, DefOf(c, s).ranges, 0, st, st');
  }

  lemma SamePointwise(c: Config, rank: Rank, u: User, u': User)
    requires SameValues(c, rank, u, u')
    ensures forall t: Symbol :: EvalState(c, rank, u)(t) == EvalState(c, rank, u')(t)
  {
    forall t: Symbol ensures EvalState(c, rank, u)(t) == EvalState(c, rank, u')(t) {
      assert Eval(c, rank, u', t) == Eval(c, rank, u, t);
    }
  }

  lemma SecondPassInRange(c: Config, rank: Rank, u: User, u': User, menus: set<Symbol>, s: Symbol)
    requires Acyclic(c, rank) && SameValues(c, rank, u, u')
    requires Ordinary(c, EvalState(c, rank, u), menus) && Reloaded(c, u, EvalState(c, rank, u), menus, u')
    requires s in u' && IsText(s) && (s in u ==> StringValid(s, u[s].val))
    ensures StringWithinRange(c, s, u'[s].val, EvalState(c, rank, u'))
  {
    var st := EvalState(c, rank, u);
    EvalUnfold(c, rank, u, s);
    SavedInRange(c, u, s, st);
    EvalNoBoolMod(c, rank, u);
    EvalNoBoolMod(c, rank, u');
    SamePointwise(c, rank, u, u');
    RangeSame(c, s, st(s).val, st, EvalState(c, rank, u'));
  }

  // The second pass of conf_read resets no user value: each belongs to a
  // visible symbol and is within range.
  lemma SecondPassKeeps(c: Config, rank: Rank, u: User, u': User, menus: set<Symbol>, s: Symbol)
    requires Acyclic(c, rank) && NonePinned(c, u, EvalState(c, rank, u))
    requires Ordinary(c, EvalState(c, rank, u), menus) && Reloaded(c, u, EvalState(c, rank, u), menus, u')
    requires s in u' && (IsText(s) && s in u ==> StringValid(s, u[s].val))
    ensures CalcLimits(c, s, EvalState(c, rank, u')).visible != NO
    ensures IsText(s) ==> StringWithinRange(c, s, u'[s].val, EvalState(c, rank, u'))
  {
    ReloadKeepsValues(c, rank, u, u', menus);
    assert CalcLimits(c, s, EvalState(c, rank, u')).visible != NO by {
      LimitsSameUser(c, rank, u, u', s);
    }
    if IsText(s) { SecondPassInRange(c, rank, u, u', menus, s); }
  }

  // In the example only T has a prompt, and it has no ranges.
  lemma ExampleOrdinary(c: Config, st: State)
    requires c == Example(true, true, false, c.numbers)
    ensures Ordinary(c, st, {T})
  {
    hide OrdinaryEnd, RangeValue;
    forall s: Symbol | IsText(s) ensures OrdinaryRange(c, s, st) && DefOf(c, s).revDep.None? {
      assert s !in c.defs;
    }
  }

  // What cannot be changed is not saved.
  lemma NothingSaved(c: Config, u: User, st: State)
    requires CalcLimits(c, T, st) == Limits(MOD, YES, MOD, NO)
    ensures Reloaded(c, u, st, {T}, map[])
  {
    hide CalcLimits;
  }

  // T is visible as m, selected as m, y by default, and the user asked for n:
  // it is m, nothing is saved, and after loading it is y.
  lemma PinnedExample(numbers: Numbers)
    ensures var c, u := Example(true, true, false, numbers), map[T := SymVal("", NO)];
      var st := EvalState(c, RANK, u);
      && Acyclic(c, RANK) && Pinned(c, u, T, st) && Ordinary(c, st, {T}) && Reloaded(c, u, st, {T}, map[])
      && Eval(c, RANK, u, T).tri == MOD && Eval(c, RANK, map[], T).tri == YES
  {
    hide Acyclic, Ordinary, Reloaded, Eval, CalcLimits, DefaultTri, FirstDefault;
    var c, u := Example(true, true, false, numbers), map[T := SymVal("", NO)];
    var st := EvalState(c, RANK, u);
    ExampleValue(c, true, true, false, u);
    ExampleValue(c, true, true, false, map[]);
    ExampleConstants(c, true, true, false, u);
    ExampleDefault(c, true, true, false, st);
    ExampleOrdinary(c, st);
    NothingSaved(c, u, st);
  }
}
