// Configuration files: the lines kconfig_print_symbol prints, the lines
// conf_read_simple reads, and a minimal configuration written by
// conf_write_defconfig and read back (support/kconfig/confdata.c).

module ConfFile {
  import opened Wrappers
  import opened Expressions
  import opened SymbolValue
  import opened SymbolEval
  import opened SymbolCache
  import opened SymbolTables
  import opened ConfString
  import opened DefConfig
  import MenuTree
  import MenuWalk

  // ------------------------------------------------------------------- lines

  const NOT_SET := "is not set"

  // kconfig_print_symbol, with the value already quoted if it is a string
  function PrintSymbol(prefix: string, s: Symbol, value: string): string {
    if IsLogic(s) && "n" <= value then "# " + prefix + s.name + " " + NOT_SET + "\n"
    else prefix + s.name + "=" + value + "\n"
  }

  // conf_write_symbol, of a symbol that has a type
  function PrintLine(prefix: string, s: Symbol, str: string): string {
    PrintSymbol(prefix, s, if s.stype.Str? then Quoted(str) else str)
  }

  // The lines, letter by letter.
  lemma PrintedLines(prefix: string, s: Symbol, str: string)
    ensures IsLogic(s) ==> PrintLine(prefix, s, "n") == "# " + prefix + s.name + " is not set\n"
    ensures IsLogic(s) ==> PrintLine(prefix, s, "m") == prefix + s.name + "=m\n"
    ensures IsLogic(s) ==> PrintLine(prefix, s, "y") == prefix + s.name + "=y\n"
    ensures IsNumber(s) ==> PrintLine(prefix, s, str) == prefix + s.name + "=" + str + "\n"
    ensures s.stype.Str? ==> PrintLine(prefix, s, str) == prefix + s.name + "=\"" + Spelled(Tokens(str)) + "\"\n"
  {
    var head := prefix + s.name;
    assert head + "=" + "m" + "\n" == head + ("=" + "m" + "\n") && "=" + "m" + "\n" == "=m\n";
    assert head + "=" + "y" + "\n" == head + ("=" + "y" + "\n") && "=" + "y" + "\n" == "=y\n";
    assert head + " " + "is not set" + "\n" == head + (" " + "is not set" + "\n");
    assert " " + "is not set" + "\n" == " is not set\n" && "# " + prefix + s.name == "# " + head;
    assert "m"[0] == 'm' && "y"[0] == 'y';
    if s.stype.Str? {
      EscapedExact(str);
      var text := Spelled(Tokens(str));
      assert head + "=" + ("\"" + text + "\"") + "\n" == head + "=\"" + text + "\"\n";
    }
  }

  // strchr
  function IndexOf(s: string, ch: char): (i: Option<nat>)
    ensures i.Some? ==> i.value < |s| && s[i.value] == ch && ch !in s[..i.value]
    ensures i.None? ==> ch !in s
  {
    if s == [] then None
    else if s[0] == ch then Some(0)
    else
      var i := IndexOf(s[1..], ch);
      if i.None? then None else Some(i.value + 1)
  }

  lemma {:induction false} IndexOfFirst(a: string, ch: char, b: string)
    requires ch !in a
    ensures IndexOf(a + [ch] + b, ch) == Some(|a|)
  {
    if a != [] {
      assert (a + [ch] + b)[1..] == a[1..] + [ch] + b;
      IndexOfFirst(a[1..], ch, b);
    }
  }

  datatype Line = Ignored | NotSet(name: string) | Assigned(name: string, value: string)

  // The value ends before the newline and a carriage return before that.
  function StripEol(v: string): string {
    var i := IndexOf(v, '\n');
    if i.None? then v
    else
      var w := v[..i.value];
      if w != [] && w[|w| - 1] == '\r' then w[..|w| - 1] else w
  }

  // What conf_read_simple makes of a line.
  function ParseLine(prefix: string, line: string): Line {
    if "#" <= line then
      if |line| < 2 || !(prefix <= line[2..]) then Ignored
      else
        var rest := line[2 + |prefix|..];
        var i := IndexOf(rest, ' ');
        if i.None? || !(NOT_SET <= rest[i.value + 1..]) then Ignored else NotSet(rest[..i.value])
    else if prefix <= line then
      var rest := line[|prefix|..];
      var i := IndexOf(rest, '=');
      if i.None? then Ignored else Assigned(rest[..i.value], StripEol(rest[i.value + 1..]))
    else Ignored
  }

  // The name contains nothing that would end it early, and no line that starts
  // with it looks like a comment.
  predicate PlainName(prefix: string, name: string) {
    ' ' !in name && '=' !in name && (prefix + name == [] || (prefix + name)[0] != '#')
  }

  lemma ParsePrintedNotSet(prefix: string, name: string)
    requires PlainName(prefix, name)
    ensures ParseLine(prefix, "# " + prefix + name + " " + NOT_SET + "\n") == NotSet(name)
  {
    var line := "# " + prefix + name + " " + NOT_SET + "\n";
    var tail := NOT_SET + "\n";
    assert line == "# " + (prefix + (name + " " + tail));
    assert line[2..] == prefix + (name + " " + tail);
    var rest := line[2 + |prefix|..];
    assert rest == name + [' '] + tail;
    IndexOfFirst(name, ' ', tail);
    assert rest[|name| + 1..] == tail;
  }

  lemma StripNewline(value: string)
    requires '\n' !in value && (value == [] || value[|value| - 1] != '\r')
    ensures StripEol(value + "\n") == value
  {
    IndexOfFirst(value, '\n', "");
    assert value + ['\n'] + "" == value + "\n";
    assert (value + "\n")[..|value|] == value;
  }

  lemma ParsePrintedAssignment(prefix: string, name: string, value: string)
    requires PlainName(prefix, name) && '\n' !in value && (value == [] || value[|value| - 1] != '\r')
    ensures ParseLine(prefix, prefix + name + "=" + value + "\n") == Assigned(name, value)
  {
    hide StripEol;
    var tail := value + "\n";
    var rest := name + ['='] + tail;
    var line := prefix + name + "=" + value + "\n";
    assert line == prefix + rest;
    assert line[|prefix|..] == rest;
    IndexOfFirst(name, '=', tail);
    assert rest[..|name|] == name && rest[|name| + 1..] == tail;
    StripNewline(value);
    assert line[0] == if prefix + name == [] then '=' else (prefix + name)[0];
  }

  // A comment about any name, whatever follows.
  lemma ParseAnyNotSet(prefix: string, name: string, rest: string)
    requires ' ' !in name
    ensures ParseLine(prefix, "# " + prefix + name + " is not set" + rest) == NotSet(name)
  {
    var tail := NOT_SET + rest;
    var line := "# " + prefix + name + " is not set" + rest;
    assert line == "# " + (prefix + (name + " " + tail));
    assert line[2..] == prefix + (name + " " + tail);
    assert line[2 + |prefix|..] == name + [' '] + tail;
    IndexOfFirst(name, ' ', tail);
    assert (name + [' '] + tail)[|name| + 1..] == tail;
  }

  // Any name and value, whatever ends the line and follows it.
  lemma ParseAnyAssignment(prefix: string, name: string, value: string, eol: string, rest: string)
    requires '=' !in name && '\n' !in value && (value == [] || value[|value| - 1] != '\r')
    requires (eol == "\n" || eol == "\r\n") && (prefix + name == [] || (prefix + name)[0] != '#')
    ensures ParseLine(prefix, prefix + name + "=" + value + eol + rest) == Assigned(name, value)
  {
    hide StripEol;
    var more := value + eol + rest;
    var tail := name + ['='] + more;
    var line := prefix + name + "=" + value + eol + rest;
    SplitLine(prefix, name, value, eol, rest);
    PrefixDropped(prefix, tail);
    IndexOfFirst(name, '=', more);
    StripAnyEol(value, eol, rest);
    NameDropped(name, more);
    assert line[0] == if prefix + name == [] then '=' else (prefix + name)[0];
  }

  lemma SplitLine(prefix: string, name: string, value: string, eol: string, rest: string)
    ensures prefix + name + "=" + value + eol + rest == prefix + (name + ['='] + (value + eol + rest))
  {
  }

  lemma PrefixDropped(prefix: string, tail: string)
    ensures prefix <= prefix + tail && (prefix + tail)[|prefix|..] == tail
  {
  }

  lemma NameDropped(name: string, more: string)
    ensures (name + ['='] + more)[|name| + 1..] == more && (name + ['='] + more)[..|name|] == name
  {
  }

  lemma StripAnyEol(value: string, eol: string, rest: string)
    requires '\n' !in value && (value == [] || value[|value| - 1] != '\r') && (eol == "\n" || eol == "\r\n")
    ensures StripEol(value + eol + rest) == value
  {
    var before := if eol == "\n" then value else value + ['\r'];
    assert value + eol + rest == before + ['\n'] + rest;
    IndexOfFirst(before, '\n', rest);
    assert (value + eol + rest)[..|before|] == before;
    assert eol == "\r\n" ==> before[..|before| - 1] == value;
  }

  function FirstLetter(s: Symbol, ch: char): Option<SymVal> {
    if ch == 'y' then Some(SymVal("", YES))
    else if ch == 'n' then Some(SymVal("", NO))
    else if ch == 'm' && s.stype.Tristate? then Some(SymVal("", MOD))
    else None
  }

  // The first letter decides for bools and tristates, where a bool cannot be m.
  lemma LettersRead(s: Symbol, ch: char, p: string)
    requires IsLogic(s)
    ensures ParseValue(s, [ch] + p) == FirstLetter(s, ch) && ParseValue(s, "") == None
  {
    assert ([ch] + p)[..1] == [ch];
    assert ([ch] + p)[0] == ch;
  }

  // A string starts with a quote and has a closing one.
  lemma StringsRead(s: Symbol, ch: char, p: string, ts: seq<Token>)
    requires s.stype.Str? && forall i | 0 <= i < |ts| :: ts[i].AsIs? ==> ts[i].ch != '"' && ts[i].ch != '\\'
    ensures ParseValue(s, "\"" + Spelled(ts) + "\"" + p) == Some(SymVal(Chars(ts), NO))
    ensures ParseValue(s, "\"" + Spelled(ts)) == None
    ensures ch != '"' ==> ParseValue(s, [ch] + p) == None
    ensures ParseValue(s, "") == None
  {
    hide Unescaped, Spelled, Chars;
    UnescapeText(ts, p);
    UnescapeOpen(ts);
    var text := Spelled(ts) + "\"" + p;
    assert "\"" + Spelled(ts) + "\"" + p == "\"" + text;
    QuoteDropped(text);
    QuoteDropped(Spelled(ts));
    assert ([ch] + p)[0] == ch;
  }

  lemma QuoteDropped(text: string)
    ensures "\"" <= "\"" + text && ("\"" + text)[1..] == text
  {
  }

  // Numbers must be valid, and are kept as they are written.
  lemma NumbersRead(s: Symbol, p: string)
    requires IsNumber(s)
    ensures ParseValue(s, p) == if StringValid(s, p) then Some(SymVal(p, NO)) else None
  {
  }

  // ------------------------------------------------------------------ values

  // conf_set_sym_val: the user value the string gives, if any
  function ParseValue(s: Symbol, p: string): Option<SymVal> {
    match s.stype
    case Tristate =>
      if "m" <= p then Some(SymVal("", MOD)) else ParseBool(p)
    case Boolean => ParseBool(p)
    case Str =>
      if !("\"" <= p) then None
      else
        var str := Unescaped(p[1..]);
        if str.None? then None else Some(SymVal(str.value, NO))
    case Int => if StringValid(s, p) then Some(SymVal(p, NO)) else None
    case Hex => if StringValid(s, p) then Some(SymVal(p, NO)) else None
    case _ => None
  }

  function ParseBool(p: string): Option<SymVal> {
    if "y" <= p then Some(SymVal("", YES)) else if "n" <= p then Some(SymVal("", NO)) else None
  }

  // sym_find: the constant symbols are found by their letters.
  function Find(table: seq<Symbol>, name: string): Option<Symbol> {
    if name == "y" then Some(SYM_YES) else if name == "m" then Some(SYM_MOD) else if name == "n" then Some(SYM_NO)
    else FindIn(table, name)
  }

  function FindIn(table: seq<Symbol>, name: string): (r: Option<Symbol>)
    ensures r.Some? ==> r.value in table && r.value.name == name && !r.value.isConst
    ensures r.None? ==> forall s | s in table :: s.name != name || s.isConst
  {
    if table == [] then None
    else if table[0].name == name && !table[0].isConst then Some(table[0])
    else FindIn(table[1..], name)
  }

  // One turn of the loop of conf_read_simple, with S_DEF_USER.
  function LoadLine(prefix: string, table: seq<Symbol>, u: User, line: string): User {
    match ParseLine(prefix, line)
    case Ignored => u
    case NotSet(name) =>
      var s := Find(table, name);
      if s.Some? && IsLogic(s.value) then u[s.value := SymVal("", NO)] else u
    case Assigned(name, value) =>
      var s := Find(table, name);
      if s.None? then u
      else
        var x := ParseValue(s.value, value);
        if x.None? then u else u[s.value := x.value]
  }

  // A symbol that can be written and found again: an ordinary name of its own.
  ghost predicate Findable(prefix: string, table: seq<Symbol>, s: Symbol) {
    && s in table && !s.isConst && PlainName(prefix, s.name) && s.name != "y" && s.name != "m" && s.name != "n"
    && (forall t | t in table && !t.isConst && t.name == s.name :: t == s)
  }

  lemma Found(prefix: string, table: seq<Symbol>, s: Symbol)
    requires Findable(prefix, table, s)
    ensures Find(table, s.name) == Some(s)
  {
  }

  // A value that fits on its line: no newline in a string, and a number or a
  // letter that is accepted.
  predicate Writable(s: Symbol, x: SymVal) {
    match s.stype
    case Boolean => x.tri != MOD
    case Tristate => true
    case Str => '\n' !in x.val && x.tri == NO
    case Int => StringValid(s, x.val) && x.tri == NO
    case Hex => StringValid(s, x.val) && x.tri == NO
    case _ => false
  }

  function ValueString(s: Symbol, x: SymVal): string {
    if IsLogic(s) then Letter(x.tri) else x.val
  }

  lemma NumberOnLine(s: Symbol, str: string)
    requires IsNumber(s) && StringValid(s, str)
    ensures str != [] && '\n' !in str && str[|str| - 1] != '\r'
  {
    var t := if s.stype.Int? then SkipMinus(str) else SkipHexPrefix(str);
    var k := |str| - |t|;
    assert forall i | 0 <= i < |t| :: t[i] != '\n' && t[i] != '\r';
    forall i | 0 <= i < |str| ensures str[i] != '\n' && str[i] != '\r' {
      if k <= i { assert str[i] == t[i - k]; }
    }
  }

  lemma QuotedOnLine(str: string)
    requires '\n' !in str
    ensures '\n' !in Quoted(str) && Quoted(str)[|Quoted(str)| - 1] == '"'
  {
    EscapedFree(str, '\n');
  }

  lemma LoadNotSet(prefix: string, table: seq<Symbol>, u: User, s: Symbol)
    requires Findable(prefix, table, s) && IsLogic(s)
    ensures LoadLine(prefix, table, u, "# " + prefix + s.name + " " + NOT_SET + "\n") == u[s := SymVal("", NO)]
  {
    Found(prefix, table, s);
    ParsePrintedNotSet(prefix, s.name);
  }

  lemma LoadAssigned(prefix: string, table: seq<Symbol>, u: User, s: Symbol, value: string)
    requires Findable(prefix, table, s) && '\n' !in value && (value == [] || value[|value| - 1] != '\r')
    ensures LoadLine(prefix, table, u, prefix + s.name + "=" + value + "\n")
      == var x := ParseValue(s, value); if x.None? then u else u[s := x.value]
  {
    Found(prefix, table, s);
    ParsePrintedAssignment(prefix, s.name, value);
  }

  lemma ParseQuoted(str: string)
    ensures "\"" <= Quoted(str) && Unescaped(Quoted(str)[1..]) == Some(str)
  {
    UnescapeEscaped(str, "");
    assert Quoted(str)[1..] == Escaped(str) + "\"" + "";
  }

  // Reading a line gives the symbol the value that was printed on it.
  lemma LoadPrintedLine(prefix: string, table: seq<Symbol>, u: User, s: Symbol, x: SymVal)
    requires Findable(prefix, table, s) && Writable(s, x)
    ensures LoadLine(prefix, table, u, PrintLine(prefix, s, ValueString(s, x))) == u[s := LoadedValue(s, x)]
  {
    if IsLogic(s) && x.tri == NO {
      LoadNotSet(prefix, table, u, s);
    } else if IsLogic(s) {
      LoadAssigned(prefix, table, u, s, Letter(x.tri));
    } else if s.stype.Str? {
      QuotedOnLine(x.val);
      ParseQuoted(x.val);
      LoadAssigned(prefix, table, u, s, Quoted(x.val));
    } else {
      NumberOnLine(s, x.val);
      LoadAssigned(prefix, table, u, s, x.val);
    }
  }

  // ------------------------------------------------------------------- files

  // The symbols of the first n menu entries.
  function MenuSymbols(menus: seq<Option<Symbol>>, n: nat): set<Symbol>
    requires n <= |menus|
  {
    if n == 0 then {} else MenuSymbols(menus, n - 1) + if menus[n - 1].Some? then {menus[n - 1].value} else {}
  }

  // The symbols written for the first n menu entries: each one once, in order.
  function SavedTo(c: Config, u: User, st: State, menus: seq<Option<Symbol>>, n: nat): seq<Symbol>
    requires n <= |menus|
  {
    if n == 0 then []
    else
      var m := menus[n - 1];
      SavedTo(c, u, st, menus, n - 1)
      + if m.Some? && m.value !in MenuSymbols(menus, n - 1) && Saved(c, u, m.value, st) then [m.value] else []
  }

  lemma {:induction false} SavedToMembers(c: Config, u: User, st: State, menus: seq<Option<Symbol>>, n: nat, s: Symbol)
    requires n <= |menus|
    ensures s in SavedTo(c, u, st, menus, n) <==> s in MenuSymbols(menus, n) && Saved(c, u, s, st)
  {
    if n > 0 { SavedToMembers(c, u, st, menus, n - 1, s); }
  }

  // Where the symbol occurs first.
  function FirstAt(menus: seq<Option<Symbol>>, s: Symbol): nat {
    if menus == [] || menus[0] == Some(s) then 0 else 1 + FirstAt(menus[1..], s)
  }

  lemma {:induction false} FirstAtPrefix(menus: seq<Option<Symbol>>, n: nat, s: Symbol)
    requires n <= |menus|
    ensures FirstAt(menus, s) < n <==> s in MenuSymbols(menus, n)
    ensures FirstAt(menus, s) < |menus| ==> menus[FirstAt(menus, s)] == Some(s)
  {
    FirstAtFound(menus, s);
    if n > 0 { FirstAtPrefix(menus, n - 1, s); }
    if n > 0 && menus[n - 1] == Some(s) { FirstAtLeast(menus, n - 1, s); }
  }

  lemma {:induction false} FirstAtFound(menus: seq<Option<Symbol>>, s: Symbol)
    ensures FirstAt(menus, s) < |menus| ==> menus[FirstAt(menus, s)] == Some(s)
  {
    if menus != [] && menus[0] != Some(s) { FirstAtFound(menus[1..], s); }
  }

  lemma {:induction false} FirstAtLeast(menus: seq<Option<Symbol>>, i: nat, s: Symbol)
    requires i < |menus| && menus[i] == Some(s)
    ensures FirstAt(menus, s) <= i
  {
    if menus[0] != Some(s) { FirstAtLeast(menus[1..], i - 1, s); }
  }

  // The symbols are saved once each, in the order in which they first occur.
  lemma {:induction false} SavedToInOrder(
    c: Config, u: User, st: State, menus: seq<Option<Symbol>>, n: nat, i: nat, j: nat)
    requires n <= |menus| && i < j < |SavedTo(c, u, st, menus, n)|
    ensures var syms := SavedTo(c, u, st, menus, n);
      syms[i] != syms[j] && FirstAt(menus, syms[i]) < FirstAt(menus, syms[j])
  {
    hide Saved;
    var before, syms := SavedTo(c, u, st, menus, n - 1), SavedTo(c, u, st, menus, n);
    if j < |before| {
      SavedToInOrder(c, u, st, menus, n - 1, i, j);
    } else {
      assert syms[i] == before[i] && syms[i] in before;
      SavedToMembers(c, u, st, menus, n - 1, syms[i]);
      FirstAtPrefix(menus, n - 1, syms[i]);
      FirstAtPrefix(menus, n - 1, syms[j]);
    }
  }

  function LinesOf(prefix: string, st: State, syms: seq<Symbol>): seq<string> {
    seq(|syms|, i requires 0 <= i < |syms| => PrintLine(prefix, syms[i], ValueString(syms[i], st(syms[i]))))
  }

  // The user values after the first n lines; all are forgotten at the start.
  function LoadLines(prefix: string, table: seq<Symbol>, lines: seq<string>, n: nat): User
    requires n <= |lines|
  {
    if n == 0 then map[] else LoadLine(prefix, table, LoadLines(prefix, table, lines, n - 1), lines[n - 1])
  }

  // Exactly the first n symbols have a user value, which is their value in st.
  ghost predicate LoadedFrom(u: User, st: State, syms: seq<Symbol>, n: nat)
    requires n <= |syms|
  {
    && (forall s: Symbol :: s in u <==> s in syms[..n])
    && (forall s: Symbol | s in u :: u[s] == LoadedValue(s, st(s)))
  }

  lemma LoadedStep(u: User, st: State, syms: seq<Symbol>, n: nat)
    requires 0 < n <= |syms| && LoadedFrom(u, st, syms, n - 1)
    ensures LoadedFrom(u[syms[n - 1] := LoadedValue(syms[n - 1], st(syms[n - 1]))], st, syms, n)
  {
    assert syms[..n] == syms[..n - 1] + [syms[n - 1]];
  }

  ghost predicate Printable(prefix: string, table: seq<Symbol>, st: State, syms: seq<Symbol>) {
    forall i | 0 <= i < |syms| :: Findable(prefix, table, syms[i]) && Writable(syms[i], st(syms[i]))
  }

  lemma LoadPrintedAt(prefix: string, table: seq<Symbol>, u: User, st: State, syms: seq<Symbol>, i: nat)
    requires i < |syms| && Printable(prefix, table, st, syms)
    ensures LoadLine(prefix, table, u, LinesOf(prefix, st, syms)[i]) == u[syms[i] := LoadedValue(syms[i], st(syms[i]))]
  {
    LoadPrintedLine(prefix, table, u, syms[i], st(syms[i]));
  }

  lemma {:induction false} LoadPrinted(prefix: string, table: seq<Symbol>, st: State, syms: seq<Symbol>, n: nat)
    requires n <= |syms| && Printable(prefix, table, st, syms)
    ensures LoadedFrom(LoadLines(prefix, table, LinesOf(prefix, st, syms), n), st, syms, n)
  {
    if n > 0 {
      hide LoadLine, LoadedFrom, Printable, LoadedValue, PrintLine;
      LoadPrinted(prefix, table, st, syms, n - 1);
      var u := LoadLines(prefix, table, LinesOf(prefix, st, syms), n - 1);
      LoadPrintedAt(prefix, table, u, st, syms, n - 1);
      LoadedStep(u, st, syms, n);
    }
  }

  // Names can be found again, user values are valid, strings have no newline.
  ghost predicate Clean(prefix: string, table: seq<Symbol>, c: Config, u: User, st: State, menus: set<Symbol>) {
    && (forall s | s in menus :: Findable(prefix, table, s))
    && (forall s: Symbol | IsText(s) && s in u :: StringValid(s, u[s].val))
    && (forall s: Symbol | s.stype.Str? :: '\n' !in st(s).val)
  }

  lemma SavedWritable(c: Config, rank: Rank, u: User, s: Symbol)
    requires Acyclic(c, rank) && Saved(c, u, s, EvalState(c, rank, u)) && OrdinaryRange(c, s, EvalState(c, rank, u))
    requires IsText(s) && s in u ==> StringValid(s, u[s].val)
    requires s.stype.Str? ==> '\n' !in Eval(c, rank, u, s).val
    ensures Writable(s, Eval(c, rank, u, s))
  {
    EvalUnfold(c, rank, u, s);
    CalcNoBoolMod(c, u, s, EvalState(c, rank, u));
    if IsText(s) { SavedValid(c, u, s, EvalState(c, rank, u)); }
  }

  // The lines of a minimal configuration.
  ghost function Minimal(prefix: string, c: Config, rank: Rank, u: User, menus: seq<Option<Symbol>>): seq<string> {
    LinesOf(prefix, EvalState(c, rank, u), SavedTo(c, u, EvalState(c, rank, u), menus, |menus|))
  }

  lemma MinimalReloads(
    prefix: string, table: seq<Symbol>, c: Config, rank: Rank, u: User, menus: seq<Option<Symbol>>)
    requires Acyclic(c, rank) && Ordinary(c, EvalState(c, rank, u), MenuSymbols(menus, |menus|))
    requires Clean(prefix, table, c, u, EvalState(c, rank, u), MenuSymbols(menus, |menus|))
    ensures var lines := Minimal(prefix, c, rank, u, menus);
      Reloaded(c, u, EvalState(c, rank, u), MenuSymbols(menus, |menus|), LoadLines(prefix, table, lines, |lines|))
  {
    var st := EvalState(c, rank, u);
    var syms := SavedTo(c, u, st, menus, |menus|);
    forall s: Symbol ensures s in syms <==> s in MenuSymbols(menus, |menus|) && Saved(c, u, s, st) {
      SavedToMembers(c, u, st, menus, |menus|, s);
    }
    forall s | s in syms ensures Findable(prefix, table, s) && Writable(s, st(s)) {
      SavedWritable(c, rank, u, s);
    }
    LoadPrinted(prefix, table, st, syms, |syms|);
    assert syms[..|syms|] == syms;
  }

  // Writing a minimal configuration as text and reading the text gives every
  // symbol its value back exactly if no symbol is pinned.
  lemma MinimalKeepsValues(
    prefix: string, table: seq<Symbol>, c: Config, rank: Rank, u: User, menus: seq<Option<Symbol>>)
    requires Acyclic(c, rank) && Ordinary(c, EvalState(c, rank, u), MenuSymbols(menus, |menus|))
    requires Clean(prefix, table, c, u, EvalState(c, rank, u), MenuSymbols(menus, |menus|))
    ensures var lines := Minimal(prefix, c, rank, u, menus);
      SameValues(c, rank, u, LoadLines(prefix, table, lines, |lines|)) <==> NonePinned(c, u, EvalState(c, rank, u))
  {
    var lines := Minimal(prefix, c, rank, u, menus);
    MinimalReloads(prefix, table, c, rank, u, menus);
    ReloadKeepsValues(c, rank, u, LoadLines(prefix, table, lines, |lines|), MenuSymbols(menus, |menus|));
  }

  // ----------------------------------------------------------------- writing

  // After i menu entries: the lines so far, and SYMBOL_WRITE taken away.
  ghost predicate Progress(
    c: Config, u: User, st: State, cleared: set<Symbol>, prefix: string, menus: seq<Option<Symbol>>, i: nat,
    lines: seq<string>)
    requires i <= |menus|
  {
    && lines == LinesOf(prefix, st, SavedTo(c, u, st, menus, i))
    && (forall s: Symbol :: s in cleared <==> s in MenuSymbols(menus, i) && IsTyped(s) && Writes(c, u, s, st))
  }

  lemma LinesOfOne(prefix: string, st: State, syms: seq<Symbol>, s: Symbol)
    ensures LinesOf(prefix, st, syms + [s]) == LinesOf(prefix, st, syms) + [PrintLine(prefix, s, ValueString(s, st(s)))]
  {
  }

  // The next entry has no symbol to write.
  lemma ProgressSkip(
    c: Config, u: User, st: State, cleared: set<Symbol>, prefix: string, menus: seq<Option<Symbol>>, i: nat,
    lines: seq<string>)
    requires i < |menus| && Progress(c, u, st, cleared, prefix, menus, i, lines)
    requires menus[i].Some? ==>
      !IsTyped(menus[i].value) || !Writes(c, u, menus[i].value, st) || menus[i].value in cleared
    ensures Progress(c, u, st, cleared, prefix, menus, i + 1, lines)
  {
    assert SavedTo(c, u, st, menus, i + 1) == SavedTo(c, u, st, menus, i);
  }

  // The next entry has a symbol with SYMBOL_WRITE.
  lemma ProgressWrite(
    c: Config, u: User, st: State, cleared: set<Symbol>, prefix: string, menus: seq<Option<Symbol>>, i: nat,
    lines: seq<string>, s: Symbol)
    requires i < |menus| && Progress(c, u, st, cleared, prefix, menus, i, lines)
    requires menus[i] == Some(s) && IsTyped(s) && Writes(c, u, s, st) && s !in cleared
    ensures Progress(c, u, st, cleared + {s}, prefix, menus, i + 1,
      if Saved(c, u, s, st) then lines + [PrintLine(prefix, s, ValueString(s, st(s)))] else lines)
  {
    LinesOfOne(prefix, st, SavedTo(c, u, st, menus, i), s);
    assert SavedTo(c, u, st, menus, i + 1) == SavedTo(c, u, st, menus, i) + if Saved(c, u, s, st) then [s] else [];
    assert !Saved(c, u, s, st) ==> SavedTo(c, u, st, menus, i + 1) == SavedTo(c, u, st, menus, i);
  }

  // conf_write_defconfig, on the menu entries in preorder.  Nothing is ever
  // written for a symbol without a type.
  method WriteDefconfig(t: SymbolTable, prefix: string, menus: seq<Option<Symbol>>) returns (lines: seq<string>)
    requires t.Blank()
    modifies t
    ensures t.Valid() && t.user == old(t.user) && lines == Minimal(prefix, t.c, t.rank, t.user, menus)
  {
    t.ClearAllValid();
    lines := [];
    ghost var st := EvalState(t.c, t.rank, t.user);
    var i := 0;
    while i < |menus|
      invariant i <= |menus| && t.Valid() && t.user == old(t.user)
      invariant Progress(t.c, t.user, st, t.cleared, prefix, menus, i, lines)
    {
      if menus[i].Some? && IsTyped(menus[i].value) {
        lines := WriteEntry(t, prefix, menus, i, lines);
      } else {
        ProgressSkip(t.c, t.user, st, t.cleared, prefix, menus, i, lines);
      }
      i := i + 1;
    }
  }

  method WriteEntry(t: SymbolTable, prefix: string, menus: seq<Option<Symbol>>, i: nat, lines: seq<string>)
    returns (lines': seq<string>)
    requires i < |menus| && menus[i].Some? && IsTyped(menus[i].value) && t.Valid()
    requires Progress(t.c, t.user, EvalState(t.c, t.rank, t.user), t.cleared, prefix, menus, i, lines)
    modifies t
    ensures t.user == old(t.user) && t.Valid()
    ensures Progress(t.c, t.user, EvalState(t.c, t.rank, t.user), t.cleared, prefix, menus, i + 1, lines')
  {
    hide Progress, Saved, Writes;
    var s := menus[i].value;
    ghost var st := EvalState(t.c, t.rank, t.user);
    t.Calculate(s);
    lines' := lines;
    WriteIsEval(t.c, t.rank, t.user, t.cache, t.cleared, s);
    if s in t.cache.write {
      ProgressWrite(t.c, t.user, st, t.cleared, prefix, menus, i, lines, s);
      t.ClearWrite(s);
      var printed := Selected(t, s);
      if printed.Some? {
        lines' := lines + [PrintLine(prefix, s, printed.value)];
      }
    } else {
      ProgressSkip(t.c, t.user, st, t.cleared, prefix, menus, i, lines);
    }
  }

  lemma SavedIff(c: Config, rank: Rank, u: User, s: Symbol)
    requires Acyclic(c, rank) && IsTyped(s)
    ensures var st := EvalState(c, rank, u);
      && StringOf(s, st(s), st(c.modules).tri) == ValueString(s, st(s))
      && var differs := ValueString(s, st(s)) != StringDefault(c, s, st);
         Saved(c, u, s, st) == (Writes(c, u, s, st) && Changeable(CalcLimits(c, s, st)) && differs)
  {
    EvalUnfold(c, rank, u, s);
    if IsLogic(s) { LogicString(c, u, s, EvalState(c, rank, u)); }
  }

  method BothStrings(t: SymbolTable, s: Symbol) returns (value: string, dflt: string)
    requires t.Valid() && s in t.cache.valid && IsTyped(s)
    modifies t`cache
    ensures t.Valid() && value == ValueString(s, Eval(t.c, t.rank, t.user, s))
    ensures dflt == StringDefault(t.c, s, EvalState(t.c, t.rank, t.user))
  {
    hide Saved, StringDefault, CalcLimits, Writes;
    SavedIff(t.c, t.rank, t.user, s);
    value := t.GetStringValue(s);
    dflt := t.GetStringDefault(s);
  }

  // The string to write, if the symbol can be changed and differs from its
  // default.
  method Selected(t: SymbolTable, s: Symbol) returns (str: Option<string>)
    requires t.Valid() && s in t.cache.valid && IsTyped(s)
    requires Writes(t.c, t.user, s, EvalState(t.c, t.rank, t.user))
    modifies t`cache
    ensures t.Valid()
    ensures str.Some? <==> Saved(t.c, t.user, s, EvalState(t.c, t.rank, t.user))
    ensures str.Some? ==> str.value == ValueString(s, Eval(t.c, t.rank, t.user, s))
  {
    hide Saved, StringDefault, CalcLimits, Writes;
    CachedLimits(t.c, t.rank, t.user, t.cache, t.cleared, s);
    SavedIff(t.c, t.rank, t.user, s);
    if !Changeable(LimitsOf(t.cache, s)) {
      return None;
    }
    var value, dflt := BothStrings(t, s);
    str := if value == dflt then None else Some(value);
  }

  // ----------------------------------------------------------------- reading

  // conf_set_sym_val, on the value that starts at p in the line buffer
  method SetSymVal(s: Symbol, line: array<char>, p: nat, ghost n: nat) returns (x: Option<SymVal>)
    requires Terminated(line, p, n)
    modifies line
    ensures x == ParseValue(s, old(line[p..n]))
  {
    var len := Strlen(line, p, n);
    ghost var value := line[p..n];
    assert |value| > 0 ==> value[0] == line[p];
    match s.stype {
      case Tristate =>
        x := if line[p] == 'm' then Some(SymVal("", MOD)) else SetBool(line[p]);
      case Boolean =>
        x := SetBool(line[p]);
      case Str =>
        if line[p] != '"' {
          return None;
        }
        assert line[p + 1..n] == value[1..];
        x := SetString(line, p + 1, n);
      case Int =>
        x := if StringValid(s, line[p..p + len]) then Some(SymVal(line[p..p + len], NO)) else None;
      case Hex =>
        x := if StringValid(s, line[p..p + len]) then Some(SymVal(line[p..p + len], NO)) else None;
      case _ =>
        x := None;
    }
  }

  function SetBool(ch: char): Option<SymVal> {
    if ch == 'y' then Some(SymVal("", YES)) else if ch == 'n' then Some(SymVal("", NO)) else None
  }

  method SetString(line: array<char>, p: nat, ghost n: nat) returns (x: Option<SymVal>)
    requires Terminated(line, p, n)
    modifies line
    ensures var str := Unescaped(old(line[p..n])); x == if str.None? then None else Some(SymVal(str.value, NO))
  {
    ghost var n';
    var ok;
    ok, n' := Unescape(line, p, n);
    if !ok {
      return None;
    }
    var len := Strlen(line, p, n');
    x := Some(SymVal(line[p..p + len], NO));
  }

  // The line buffer, with its terminator.
  method Buffer(str: string) returns (line: array<char>)
    requires NUL !in str
    ensures fresh(line) && Terminated(line, 0, |str|) && line[0..|str|] == str
  {
    line := new char[|str| + 1];
    var i := 0;
    while i < |str|
      invariant i <= |str| && forall j | 0 <= j < i :: line[j] == str[j]
    {
      line[i] := str[i];
      i := i + 1;
    }
    line[|str|] := NUL;
    assert forall j | 0 <= j < |str| :: line[j] in str;
  }

  lemma ParsedFree(prefix: string, line: string)
    requires NUL !in line && ParseLine(prefix, line).Assigned?
    ensures NUL !in ParseLine(prefix, line).value
  {
    var rest := line[|prefix|..];
    var v := rest[IndexOf(rest, '=').value + 1..];
    assert forall ch | ch in StripEol(v) :: ch in v;
    assert forall ch | ch in v :: ch in line;
  }

  method ReadLine(prefix: string, table: seq<Symbol>, u: User, line: string) returns (u': User)
    requires NUL !in line
    ensures u' == LoadLine(prefix, table, u, line)
  {
    u' := u;
    match ParseLine(prefix, line) {
      case Ignored =>
      case NotSet(name) =>
        var s := Find(table, name);
        if s.Some? && IsLogic(s.value) {
          u' := u[s.value := SymVal("", NO)];
        }
      case Assigned(name, value) =>
        var s := Find(table, name);
        if s.Some? {
          ParsedFree(prefix, line);
          var buffer := Buffer(value);
          var x := SetSymVal(s.value, buffer, 0, |value|);
          if x.Some? {
            u' := u[s.value := x.value];
          }
        }
    }
  }

  // conf_read_simple, with S_DEF_USER
  method ReadSimple(prefix: string, table: seq<Symbol>, lines: seq<string>) returns (u: User)
    requires forall i | 0 <= i < |lines| :: NUL !in lines[i]
    ensures u == LoadLines(prefix, table, lines, |lines|)
  {
    u := map[];
    var i := 0;
    while i < |lines|
      invariant i <= |lines| && u == LoadLines(prefix, table, lines, i)
    {
      u := ReadLine(prefix, table, u, lines[i]);
      i := i + 1;
    }
  }

  // The symbols of these menu nodes.
  function SymbolsAt(visited: seq<MenuTree.Id>, symbolOf: map<MenuTree.Id, Symbol>): seq<Option<Symbol>> {
    seq(|visited|, i requires 0 <= i < |visited| =>
      if visited[i] in symbolOf then Some(symbolOf[visited[i]]) else None)
  }

  // conf_write_defconfig on the menu tree: the walk by pointers gives the
  // entries.  Writing changes no pointer.
  method SaveMenus(
    t: SymbolTable, prefix: string, links: MenuTree.MenuLinks, root: MenuTree.Id,
    symbolOf: map<MenuTree.Id, Symbol>, ghost kids: MenuTree.Menu)
    returns (lines: seq<string>)
    requires t.Blank() && links.Spells(MenuTree.Get(links.list, root), None, root, kids)
    requires root !in links.next && root !in links.parent
    modifies t
    ensures t.Valid() && t.user == old(t.user)
    ensures lines == Minimal(prefix, t.c, t.rank, t.user, SymbolsAt(MenuTree.Preorder(kids), symbolOf))
  {
    var visited := MenuWalk.Walk(links, root, kids);
    lines := WriteDefconfig(t, prefix, SymbolsAt(visited, symbolOf));
  }
}
