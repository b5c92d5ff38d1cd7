// Quoted strings in configuration files: sym_escape_string_value of
// support/kconfig/symbol.c and the unescape loop of conf_set_sym_val in
// support/kconfig/confdata.c.
//
// A C string that is only read is a `string` without its terminator; a buffer
// that is written is an `array<char>` with the terminator in it.

module ConfString {
  import opened Wrappers

  const NUL: char := '\0'

  predicate IsSpecial(ch: char) {
    ch == '"' || ch == '\\'
  }

  predicate Plain(s: string) {
    forall i | 0 <= i < |s| :: !IsSpecial(s[i])
  }

  predicate PlainIn(s: string, p: nat, q: nat)
    requires p <= q <= |s|
  {
    forall i | p <= i < q :: !IsSpecial(s[i])
  }

  // ---------------------------------------------------------------- meaning

  // A backslash before every quote and every backslash.
  function Escape(ch: char): string {
    if IsSpecial(ch) then ['\\', ch] else [ch]
  }

  function Escaped(s: string): string {
    if s == [] then [] else Escape(s[0]) + Escaped(s[1..])
  }

  function Quoted(s: string): string {
    "\"" + Escaped(s) + "\""
  }

  function Prepend(s: string, t: Option<string>): Option<string> {
    if t.None? then None else Some(s + t.value)
  }

  // What stands before the closing quote; None if there is no closing quote.
  function Unescaped(s: string): Option<string> {
    if s == [] then None
    else if s[0] == '"' then Some([])
    else if s[0] == '\\' then if |s| == 1 then None else Prepend([s[1]], Unescaped(s[2..]))
    else Prepend([s[0]], Unescaped(s[1..]))
  }

  lemma {:induction false} EscapedAppend(a: string, b: string)
    ensures Escaped(a + b) == Escaped(a) + Escaped(b)
  {
    if a == [] {
      assert a + b == b;
    } else {
      hide Escape;
      EscapedAppend(a[1..], b);
      assert (a + b)[1..] == a[1..] + b && (a + b)[0] == a[0];
      ConcatAssoc(Escape(a[0]), Escaped(a[1..]), Escaped(b));
    }
  }

  lemma {:induction false} EscapedPlain(s: string)
    requires Plain(s)
    ensures Escaped(s) == s
  {
    if s != [] { EscapedPlain(s[1..]); }
  }

  // Reading gives back what was written, whatever follows the closing quote.
  lemma {:induction false} UnescapeEscaped(s: string, rest: string)
    ensures Unescaped(Escaped(s) + "\"" + rest) == Some(s)
  {
    var t := Escaped(s) + "\"" + rest;
    if s == [] {
      assert t == "\"" + rest;
    } else {
      var tail := Escaped(s[1..]) + "\"" + rest;
      UnescapeEscaped(s[1..], rest);
      if IsSpecial(s[0]) {
        assert t == ['\\', s[0]] + tail;
        assert t[2..] == tail;
      } else {
        assert t == [s[0]] + tail;
        assert t[1..] == tail;
      }
      assert [s[0]] + s[1..] == s;
    }
  }

  // Quoted text as it may stand in a file: characters as they are, and
  // characters with a backslash before them.
  datatype Token = AsIs(ch: char) | Backslashed(ch: char)

  function Spelled(ts: seq<Token>): string {
    if ts == [] then []
    else (if ts[0].AsIs? then [ts[0].ch] else ['\\', ts[0].ch]) + Spelled(ts[1..])
  }

  function Chars(ts: seq<Token>): string {
    if ts == [] then [] else [ts[0].ch] + Chars(ts[1..])
  }

  // A backslash is dropped whatever stands behind it.
  lemma {:induction false} UnescapeText(ts: seq<Token>, rest: string)
    requires forall i | 0 <= i < |ts| :: ts[i].AsIs? ==> ts[i].ch != '"' && ts[i].ch != '\\'
    ensures Unescaped(Spelled(ts) + "\"" + rest) == Some(Chars(ts))
  {
    var t := Spelled(ts) + "\"" + rest;
    if ts == [] {
      assert t == "\"" + rest;
    } else {
      var tail := Spelled(ts[1..]) + "\"" + rest;
      UnescapeText(ts[1..], rest);
      if ts[0].AsIs? {
        assert t == [ts[0].ch] + tail;
        assert t[1..] == tail;
      } else {
        assert t == ['\\', ts[0].ch] + tail;
        assert t[2..] == tail;
      }
    }
  }

  // Without a closing quote nothing is read.
  lemma {:induction false} UnescapeOpen(ts: seq<Token>)
    requires forall i | 0 <= i < |ts| :: ts[i].AsIs? ==> ts[i].ch != '"' && ts[i].ch != '\\'
    ensures Unescaped(Spelled(ts)) == None && Unescaped(Spelled(ts) + "\\") == None
  {
    if ts != [] {
      UnescapeOpen(ts[1..]);
      var head, tail := if ts[0].AsIs? then [ts[0].ch] else ['\\', ts[0].ch], Spelled(ts[1..]);
      assert Spelled(ts) == head + tail && Spelled(ts)[|head|..] == tail;
      assert Spelled(ts) + "\\" == head + (tail + "\\") && (Spelled(ts) + "\\")[|head|..] == tail + "\\";
    }
  }

  // How the writer quotes: backslashes before quotes and backslashes only.
  function Tokens(s: string): seq<Token> {
    seq(|s|, i requires 0 <= i < |s| => if s[i] == '"' || s[i] == '\\' then Backslashed(s[i]) else AsIs(s[i]))
  }

  lemma {:induction false} EscapedExact(s: string)
    ensures Quoted(s) == "\"" + Spelled(Tokens(s)) + "\""
  {
    EscapedTokens(s);
  }

  lemma {:induction false} EscapedTokens(s: string)
    ensures Escaped(s) == Spelled(Tokens(s))
  {
    if s != [] {
      EscapedTokens(s[1..]);
      assert Tokens(s)[1..] == Tokens(s[1..]);
    }
  }

  lemma {:induction false} EscapedFree(s: string, ch: char)
    requires ch !in s && !IsSpecial(ch)
    ensures ch !in Escaped(s)
  {
    if s != [] { EscapedFree(s[1..], ch); }
  }

  // ------------------------------------------------------------------ escape

  // strcspn(p, "\"\\"), from position p
  method Strcspn(s: string, p: nat) returns (l: nat)
    requires p <= |s|
    ensures p + l <= |s| && PlainIn(s, p, p + l) && (p + l < |s| ==> IsSpecial(s[p + l]))
  {
    l := 0;
    while p + l < |s| && !IsSpecial(s[p + l])
      invariant p + l <= |s| && PlainIn(s, p, p + l)
    {
      l := l + 1;
    }
  }

  lemma EscapedRun(s: string, p: nat, l: nat)
    requires p + l <= |s| && PlainIn(s, p, p + l)
    ensures Escaped(s[..p + l]) == Escaped(s[..p]) + s[p..p + l]
  {
    assert s[..p + l] == s[..p] + s[p..p + l];
    EscapedAppend(s[..p], s[p..p + l]);
    EscapedPlain(s[p..p + l]);
  }

  lemma EscapedSpecial(s: string, p: nat)
    requires p < |s| && IsSpecial(s[p])
    ensures Escaped(s[..p + 1]) == Escaped(s[..p]) + ['\\', s[p]]
  {
    assert s[..p + 1] == s[..p] + [s[p]];
    EscapedAppend(s[..p], [s[p]]);
    assert Escaped([s[p]]) == ['\\', s[p]] + Escaped([s[p]][1..]);
  }

  // The first pass: the bytes needed, terminator included.
  method CountEscaped(s: string) returns (reslen: nat)
    ensures reslen == |Quoted(s)| + 1
  {
    reslen := |s| + 2 + 1;
    var p := 0;
    while true
      invariant p <= |s| && reslen == |Escaped(s[..p])| + (|s| - p) + 3
      decreases |s| - p
    {
      var l := Strcspn(s, p);
      EscapedRun(s, p, l);
      p := p + l;
      if p == |s| {
        break;
      }
      EscapedSpecial(s, p);
      reslen := reslen + 1;
      p := p + 1;
    }
    assert s[..p] == s;
  }

  // strcat and strncat at the end k of the string in res
  method Append(res: array<char>, k: nat, piece: string) returns (k': nat)
    requires k + |piece| < res.Length && res[k] == NUL
    modifies res
    ensures k' == k + |piece| && res[..k'] == old(res[..k]) + piece && res[k'] == NUL
  {
    var i := 0;
    while i < |piece|
      invariant i <= |piece| && res[..k + i] == old(res[..k]) + piece[..i]
    {
      res[k + i] := piece[i];
      i := i + 1;
    }
    k' := k + |piece|;
    res[k'] := NUL;
  }

  lemma EscapedPrefix(s: string, p: nat)
    requires p <= |s|
    ensures |Escaped(s[..p])| <= |Escaped(s)|
  {
    assert s == s[..p] + s[p..];
    EscapedAppend(s[..p], s[p..]);
  }

  // The result so far: an opening quote and the first p characters, escaped.
  ghost predicate Written(res: array<char>, k: nat, s: string, p: nat)
    reads res
  {
    && p <= |s| && k < res.Length && res.Length == |Escaped(s)| + 3
    && res[..k] == "\"" + Escaped(s[..p]) && res[k] == NUL
  }

  method WriteRun(res: array<char>, k: nat, s: string, p: nat) returns (k': nat, p': nat)
    requires Written(res, k, s, p)
    modifies res
    ensures Written(res, k', s, p') && p <= p' && (p' < |s| ==> IsSpecial(s[p']))
  {
    var l := Strcspn(s, p);
    EscapedRun(s, p, l);
    EscapedPrefix(s, p + l);
    ConcatAssoc("\"", Escaped(s[..p]), s[p..p + l]);
    k' := Append(res, k, s[p..p + l]);
    p' := p + l;
  }

  method WriteSpecial(res: array<char>, k: nat, s: string, p: nat) returns (k': nat)
    requires Written(res, k, s, p) && p < |s| && IsSpecial(s[p])
    modifies res
    ensures Written(res, k', s, p + 1)
  {
    EscapedSpecial(s, p);
    EscapedPrefix(s, p + 1);
    ConcatAssoc("\"", Escaped(s[..p]), ['\\', s[p]]);
    ConcatAssoc("\"" + Escaped(s[..p]), "\\", [s[p]]);
    k' := Append(res, k, "\\");
    k' := Append(res, k', [s[p]]);
  }

  lemma ConcatAssoc(a: string, b: string, c: string)
    ensures a + (b + c) == a + b + c
  {
  }

  // sym_escape_string_value: the second pass fills exactly the bytes counted.
  method EscapeStringValue(s: string) returns (res: array<char>)
    ensures fresh(res) && res.Length == |Quoted(s)| + 1
    ensures res[..res.Length - 1] == Quoted(s) && res[res.Length - 1] == NUL
  {
    var reslen := CountEscaped(s);
    res := new char[reslen];
    res[0] := NUL;
    var k := Append(res, 0, "\"");
    var p := 0;
    while true
      invariant Written(res, k, s, p) && fresh(res)
      decreases |s| - p
    {
      k, p := WriteRun(res, k, s, p);
      if p == |s| {
        break;
      }
      k := WriteSpecial(res, k, s, p);
      p := p + 1;
    }
    assert s[..p] == s;
    k := Append(res, k, "\"");
  }

  // ---------------------------------------------------------------- unescape

  // The string that starts at p and ends before position n.
  ghost predicate Terminated(a: array<char>, p: nat, n: nat)
    reads a
  {
    p <= n < a.Length && a[n] == NUL && forall i | p <= i < n :: a[i] != NUL
  }

  method Strlen(a: array<char>, p: nat, ghost n: nat) returns (l: nat)
    requires Terminated(a, p, n)
    ensures p + l == n
  {
    l := 0;
    while a[p + l] != NUL
      invariant p + l <= n
      decreases n - p - l
    {
      l := l + 1;
    }
  }

  // strpbrk(p, "\"\\")
  method Strpbrk(a: array<char>, p: nat, ghost n: nat) returns (q: Option<nat>)
    requires Terminated(a, p, n)
    ensures q.None? ==> Plain(a[p..n])
    ensures q.Some? ==> p <= q.value < n && Plain(a[p..q.value]) && IsSpecial(a[q.value])
  {
    var i := p;
    while a[i] != NUL
      invariant p <= i <= n && Plain(a[p..i])
      decreases n - i
    {
      if IsSpecial(a[i]) {
        return Some(i);
      }
      i := i + 1;
    }
    q := None;
  }

  // memmove(d, d + 1, l)
  method MoveDown(a: array<char>, d: nat, l: nat)
    requires d + l < a.Length
    modifies a
    ensures forall j | 0 <= j < a.Length :: a[j] == if d <= j < d + l then old(a[j + 1]) else old(a[j])
  {
    var i := 0;
    while i < l
      invariant 0 <= i <= l
      invariant forall j | 0 <= j < a.Length :: a[j] == if d <= j < d + i then old(a[j + 1]) else old(a[j])
    {
      a[d + i] := a[d + i + 1];
      i := i + 1;
    }
  }

  lemma {:induction false} UnescapedRun(run: string, rest: string)
    requires Plain(run)
    ensures Unescaped(run + rest) == Prepend(run, Unescaped(rest))
  {
    if run == [] {
      assert run + rest == rest;
      if Unescaped(rest).Some? { assert run + Unescaped(rest).value == Unescaped(rest).value; }
    } else {
      UnescapedRun(run[1..], rest);
      assert (run + rest)[1..] == run[1..] + rest;
      if Unescaped(rest).Some? {
        assert run + Unescaped(rest).value == [run[0]] + (run[1..] + Unescaped(rest).value);
      }
    }
  }

  lemma UnescapedPlain(s: string)
    requires Plain(s)
    ensures Unescaped(s).None?
  {
    UnescapedRun(s, "");
    assert s + "" == s;
  }

  lemma PrependTwice(a: string, b: string, t: Option<string>)
    ensures Prepend(a, Prepend(b, t)) == Prepend(a + b, t)
  {
    if t.Some? { ConcatAssoc(a, b, t.value); }
  }

  // `seen` is what was read of the text means, `left` is still to be read.
  ghost predicate Decoded(text: string, seen: string, left: string) {
    Unescaped(text) == Prepend(seen, Unescaped(left))
  }

  lemma DecodedNone(text: string, seen: string, left: string)
    requires Decoded(text, seen, left) && Plain(left)
    ensures Unescaped(text).None?
  {
    UnescapedPlain(left);
  }

  lemma DecodedQuote(text: string, seen: string, left: string, l: nat)
    requires Decoded(text, seen, left) && l < |left| && Plain(left[..l]) && left[l] == '"'
    ensures Unescaped(text) == Some(seen + left[..l])
  {
    assert left == left[..l] + left[l..];
    UnescapedRun(left[..l], left[l..]);
    PrependTwice(seen, left[..l], Unescaped(left[l..]));
    assert seen + left[..l] + [] == seen + left[..l];
  }

  lemma DecodedBackslash(text: string, seen: string, left: string, l: nat)
    requires Decoded(text, seen, left) && l < |left| && Plain(left[..l]) && left[l] == '\\'
    ensures if l + 1 == |left| then Unescaped(text).None?
            else Decoded(text, seen + left[..l] + [left[l + 1]], left[l + 2..])
  {
    assert left == left[..l] + left[l..];
    UnescapedRun(left[..l], left[l..]);
    PrependTwice(seen, left[..l], Unescaped(left[l..]));
    if l + 1 < |left| {
      assert left[l..][2..] == left[l + 2..];
      PrependTwice(seen + left[..l], [left[l + 1]], Unescaped(left[l + 2..]));
    }
  }

  // Between two turns of the loop: p2 may stand one past the terminator if the
  // string ends in a backslash, but there is another terminator.
  ghost predicate Unescaping(a: array<char>, p: nat, p2: nat, n: nat, text: string)
    reads a
  {
    && Terminated(a, p, n) && p <= p2
    && if p2 <= n then Decoded(text, a[p..p2], a[p2..n])
       else p2 == n + 1 < a.Length && a[p2] == NUL && Unescaped(text).None?
  }

  lemma SubSlice(a: array<char>, p: nat, q: nat, n: nat)
    requires p <= q <= n <= a.Length
    ensures a[p..n][..q - p] == a[p..q]
  {
  }

  // A backslash at q goes away.
  method DropBackslash(a: array<char>, p: nat, p2: nat, q: nat, ghost n: nat, ghost text: string)
    requires Unescaping(a, p, p2, n, text) && p2 <= q < n && Plain(a[p2..q]) && a[q] == '\\'
    modifies a
    ensures Unescaping(a, p, q + 1, n - 1, text) && a[..p] == old(a[..p])
  {
    ghost var seen, left, l := a[p..p2], a[p2..n], q - p2;
    SubSlice(a, p2, q, n);
    DecodedBackslash(text, seen, left, l);
    ghost var head := a[p..q];
    assert head == seen + left[..l];
    var len := Strlen(a, q, n);
    MoveDown(a, q, len);
    if l + 1 < |left| {
      assert a[p..q] == head && a[q] == left[l + 1];
      assert a[p..q + 1] == head + [left[l + 1]];
      assert a[q + 1..n - 1] == left[l + 2..];
    }
  }

  // The closing quote becomes the terminator.
  method Close(a: array<char>, p: nat, p2: nat, q: nat, ghost n: nat)
    requires Terminated(a, p, n) && p <= p2 <= q < n
    modifies a
    ensures Terminated(a, p, q) && a[..p] == old(a[..p])
    ensures a[p..q] == old(a[p..p2] + a[p2..n][..q - p2])
  {
    a[q] := NUL;
  }

  // The unescape loop of conf_set_sym_val, on the string that starts at p.
  method Unescape(a: array<char>, p: nat, ghost n: nat) returns (ok: bool, ghost n': nat)
    requires Terminated(a, p, n)
    modifies a
    ensures a[..p] == old(a[..p])
    ensures ok <==> Unescaped(old(a[p..n])).Some?
    ensures ok ==> Terminated(a, p, n') && a[p..n'] == Unescaped(old(a[p..n])).value
  {
    hide Decoded, Unescaped;
    ghost var text := a[p..n];
    var p2: nat := p;
    n' := n;
    StartDecoding(text);
    assert a[p..p2] == [] && a[p2..n'] == text;
    while true
      invariant Unescaping(a, p, p2, n', text) && a[..p] == old(a[..p])
      decreases n' - p2
    {
      var q := Strpbrk(a, p2, if p2 <= n' then n' else p2);
      if q.None? {
        if p2 <= n' { DecodedNone(text, a[p..p2], a[p2..n']); }
        return false, n';
      }
      if a[q.value] == '"' {
        SubSlice(a, p2, q.value, n');
        DecodedQuote(text, a[p..p2], a[p2..n'], q.value - p2);
        Close(a, p, p2, q.value, n');
        return true, q.value;
      }
      DropBackslash(a, p, p2, q.value, n', text);
      p2, n' := q.value + 1, n' - 1;
    }
  }

  lemma StartDecoding(text: string)
    ensures Decoded(text, [], text)
  {
    if Unescaped(text).Some? { assert [] + Unescaped(text).value == Unescaped(text).value; }
  }
}
