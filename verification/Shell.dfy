/** `KEY='value'` lines for a shell to `eval`, and the shell's side of the bargain: enough of the
    token rules of POSIX.1-2017 XCU to say what such a line means. */
module Shell {
  import opened Text

  // ------------------------------------------------------------------ the writer

  function Flat(v: string): string {
    if v == "" then "" else [if v[0] == '\n' || v[0] == '\r' then ' ' else v[0]] + Flat(v[1..])
  }

  /** `replace('\'', "'\\''")`: each quote closes the string, stands escaped, and opens it again. */
  function Spliced(v: string): string {
    if v == "" then "" else (if v[0] == '\'' then "'\\''" else [v[0]]) + Spliced(v[1..])
  }

  function ShQuote(v: string): string {
    "'" + Spliced(Flat(v)) + "'"
  }

  datatype Pair = Pair(key: string, value: string)

  function LineText(p: Pair): string {
    p.key + "=" + ShQuote(p.value)
  }

  function Emitted(pairs: seq<Pair>): string {
    if pairs == [] then "" else LineText(pairs[0]) + "\n" + Emitted(pairs[1..])
  }

  lemma {:induction false} EmittedSnoc(pairs: seq<Pair>, p: Pair)
    ensures Emitted(pairs + [p]) == Emitted(pairs) + (LineText(p) + "\n")
  {
    if pairs == [] {
      assert [] + [p] == [p] && [p][1..] == [];
    } else {
      assert (pairs + [p])[1..] == pairs[1..] + [p];
      EmittedSnoc(pairs[1..], p);
    }
  }

  /** `emit`: one line a pair, in order. */
  method Emit(pairs: seq<Pair>) returns (out: string)
    ensures out == Emitted(pairs)
  {
    out := "";
    for i := 0 to |pairs|
      invariant out == Emitted(pairs[..i])
    {
      out := out + (LineText(pairs[i]) + "\n");
      EmittedSnoc(pairs[..i], pairs[i]);
      assert pairs[..i + 1] == pairs[..i] + [pairs[i]];
    }
    assert pairs[..|pairs|] == pairs;
  }

  // ------------------------------------------------------------------ the shell

  /** A character of the input once quoting is removed: one the shell takes literally, or a bare one
      that may still be an operator, a blank, an expansion. */
  datatype Item = Literal(c: char) | Bare(c: char)

  datatype Mode = Unquoted | SingleQuoted

  /** Quote removal. Section 2.2.1: an unquoted backslash makes the next character literal, and before
      a newline it joins the lines. Section 2.2.2: between single quotes every character is literal.
      None when a quote is never closed. */
  function Unquote(s: string, mode: Mode): Option<seq<Item>>
    decreases |s|
  {
    if s == "" then
      if mode == Unquoted then Some([]) else None
    else if mode == SingleQuoted then
      if s[0] == '\'' then Unquote(s[1..], Unquoted) else Prepend(Literal(s[0]), Unquote(s[1..], SingleQuoted))
    else if s[0] == '\'' then Unquote(s[1..], SingleQuoted)
    else if s[0] == '\\' then
      if |s| == 1 then Prepend(Literal('\\'), Some([]))
      else if s[1] == '\n' then Unquote(s[2..], Unquoted)
      else Prepend(Literal(s[1]), Unquote(s[2..], Unquoted))
    else Prepend(Bare(s[0]), Unquote(s[1..], Unquoted))
  }

  function Prepend(x: Item, rest: Option<seq<Item>>): Option<seq<Item>> {
    if rest.None? then None else Some([x] + rest.value)
  }

  predicate NameStart(c: char) {
    'a' <= c <= 'z' || 'A' <= c <= 'Z' || c == '_'
  }

  predicate NameChar(c: char) {
    NameStart(c) || '0' <= c <= '9'
  }

  /** Section 3.235 of the base definitions: what may be assigned to. */
  predicate IsName(key: string) {
    key != "" && NameStart(key[0]) && forall i :: 0 <= i < |key| ==> NameChar(key[i])
  }

  function Bares(s: string): seq<Item> {
    seq(|s|, i requires 0 <= i < |s| => Bare(s[i]))
  }

  function Literals(s: string): seq<Item> {
    seq(|s|, i requires 0 <= i < |s| => Literal(s[i]))
  }

  /** How many items stand before the first `x`. */
  function Before(items: seq<Item>, x: Item): (n: nat)
    ensures n <= |items|
  {
    if items == [] || items[0] == x then 0 else 1 + Before(items[1..], x)
  }

  function Characters(items: seq<Item>): string {
    seq(|items|, i requires 0 <= i < |items| => items[i].c)
  }

  predicate AllLiteral(items: seq<Item>) {
    forall i :: 0 <= i < |items| ==> items[i].Literal?
  }

  predicate AllBare(items: seq<Item>) {
    forall i :: 0 <= i < |items| ==> items[i].Bare?
  }

  /** A line the shell can only read as one assignment of a literal value: a bare name, a bare `=`,
      and after it not one character that is not literal. */
  function Assignment(line: seq<Item>): Option<Pair> {
    var n := Before(line, Bare('='));
    if n < |line| && AllBare(line[..n]) && IsName(Characters(line[..n])) && AllLiteral(line[n + 1..])
    then Some(Pair(Characters(line[..n]), Characters(line[n + 1..])))
    else None
  }

  /** The assignments a script makes, when it makes nothing but assignments. Commands end at a bare
      newline; the last one may end with the input. */
  function Commands(items: seq<Item>): Option<seq<Pair>>
    decreases |items|
  {
    if items == [] then Some([]) else
      var n := Before(items, Bare('\n'));
      var first := Assignment(items[..n]);
      var rest := if n == |items| then Some([]) else Commands(items[n + 1..]);
      if first.Some? && rest.Some? then Some([first.value] + rest.value) else None
  }

  /** What `eval` of a script assigns; None when it might do anything else. */
  function Eval(script: string): Option<seq<Pair>> {
    var items := Unquote(script, Unquoted);
    if items.None? then None else Commands(items.value)
  }

  // ------------------------------------------------------------------ unquoting what was quoted

  lemma {:induction false} FlatHasNoNewline(v: string)
    ensures |Flat(v)| == |v|
    ensures forall i :: 0 <= i < |v| ==>
              Flat(v)[i] == if v[i] == '\n' || v[i] == '\r' then ' ' else v[i]
  {
    if v != "" {
      FlatHasNoNewline(v[1..]);
    }
  }

  lemma LiteralsCons(c: char, v: string)
    ensures Literals([c] + v) == [Literal(c)] + Literals(v)
  {
  }

  lemma BaresCons(c: char, v: string)
    ensures Bares([c] + v) == [Bare(c)] + Bares(v)
  {
  }

  /** Inside the quotes the splice comes and goes without a bare character. */
  lemma {:induction false} UnquoteSpliced(v: string, rest: string)
    requires Unquote(rest, Unquoted).Some?
    ensures Unquote(Spliced(v) + "'" + rest, SingleQuoted)
            == Some(Literals(v) + Unquote(rest, Unquoted).value)
  {
    var tail := Unquote(rest, Unquoted).value;
    if v == "" {
      assert Spliced(v) + "'" + rest == "'" + rest;
      assert ("'" + rest)[1..] == rest;
      assert Literals(v) + tail == tail;
    } else {
      var more := Spliced(v[1..]) + "'" + rest;
      UnquoteSpliced(v[1..], rest);
      LiteralsCons(v[0], v[1..]);
      assert v == [v[0]] + v[1..];
      Associate([Literal(v[0])], Literals(v[1..]), tail);
      Regroup(if v[0] == '\'' then "'\\''" else [v[0]], Spliced(v[1..]), "'", rest);
      Associate(if v[0] == '\'' then "'\\''" else [v[0]], Spliced(v[1..]), "'" + rest);
      Associate(Spliced(v[1..]), "'", rest);
      if v[0] == '\'' {
        UnquoteSplice(more);
      } else {
        UnquotePlain(v[0], more);
      }
    }
  }

  lemma UnquotePlain(c: char, more: string)
    requires c != '\''
    ensures Unquote([c] + more, SingleQuoted) == Prepend(Literal(c), Unquote(more, SingleQuoted))
  {
    assert ([c] + more)[1..] == more;
  }

  lemma UnquoteSplice(more: string)
    ensures Unquote(['\'', '\\', '\'', '\''] + more, SingleQuoted)
            == Prepend(Literal('\''), Unquote(more, SingleQuoted))
  {
    var s := ['\'', '\\', '\'', '\''] + more;
    var t := ['\\', '\'', '\''] + more;
    var u := ['\''] + more;
    assert s[1..] == t && t[2..] == u && u[1..] == more;
    assert Unquote(u, Unquoted) == Unquote(more, SingleQuoted);
    assert Unquote(t, Unquoted) == Prepend(Literal('\''), Unquote(u, Unquoted));
  }

  lemma UnquoteQuoted(v: string, rest: string)
    requires Unquote(rest, Unquoted).Some?
    ensures Unquote(ShQuote(v) + rest, Unquoted)
            == Some(Literals(Flat(v)) + Unquote(rest, Unquoted).value)
  {
    var inside := Spliced(Flat(v)) + "'" + rest;
    assert ShQuote(v) + rest == "'" + inside;
    assert ("'" + inside)[1..] == inside;
    UnquoteSpliced(Flat(v), rest);
  }

  lemma UnquoteBare(c: char, rest: string)
    requires c != '\'' && c != '\\'
    ensures Unquote([c] + rest, Unquoted) == Prepend(Bare(c), Unquote(rest, Unquoted))
  {
    assert ([c] + rest)[1..] == rest;
  }

  lemma {:induction false} UnquoteBares(key: string, rest: string)
    requires forall i :: 0 <= i < |key| ==> key[i] != '\'' && key[i] != '\\'
    requires Unquote(rest, Unquoted).Some?
    ensures Unquote(key + rest, Unquoted) == Some(Bares(key) + Unquote(rest, Unquoted).value)
  {
    var tail := Unquote(rest, Unquoted).value;
    if key == "" {
      assert key + rest == rest && Bares(key) + tail == tail;
    } else {
      UnquoteBares(key[1..], rest);
      assert key + rest == [key[0]] + (key[1..] + rest);
      UnquoteBare(key[0], key[1..] + rest);
      BaresCons(key[0], key[1..]);
      assert key == [key[0]] + key[1..];
      assert Bares(key) + tail == [Bare(key[0])] + (Bares(key[1..]) + tail);
    }
  }

  function LineItems(p: Pair): seq<Item> {
    Bares(p.key) + [Bare('=')] + Literals(Flat(p.value))
  }

  function Items(pairs: seq<Pair>): seq<Item> {
    if pairs == [] then [] else LineItems(pairs[0]) + [Bare('\n')] + Items(pairs[1..])
  }

  predicate NamesOnly(pairs: seq<Pair>) {
    forall i :: 0 <= i < |pairs| ==> IsName(pairs[i].key)
  }

  lemma Associate<T>(a: seq<T>, b: seq<T>, c: seq<T>)
    ensures a + b + c == a + (b + c)
  {
  }

  lemma UnquoteKeyed(key: string, quoted: string, items: seq<Item>)
    requires IsName(key) && Unquote(quoted, Unquoted) == Some(items)
    ensures Unquote(key + "=" + quoted, Unquoted) == Some(Bares(key) + [Bare('=')] + items)
  {
    UnquoteBare('=', quoted);
    UnquoteBares(key, ['='] + quoted);
    Associate(key, "=", quoted);
    Associate(Bares(key), [Bare('=')], items);
  }

  lemma UnquoteLine(p: Pair, rest: string, tail: seq<Item>)
    requires IsName(p.key) && Unquote(rest, Unquoted) == Some(tail)
    ensures Unquote(LineText(p) + rest, Unquoted) == Some(LineItems(p) + tail)
  {
    var lits := Literals(Flat(p.value));
    UnquoteQuoted(p.value, rest);
    UnquoteKeyed(p.key, ShQuote(p.value) + rest, lits + tail);
    Associate(p.key + "=", ShQuote(p.value), rest);
    Associate(Bares(p.key) + [Bare('=')], lits, tail);
  }

  lemma Regroup<T>(a: seq<T>, b: seq<T>, c: seq<T>, d: seq<T>)
    ensures a + b + c + d == a + b + (c + d)
    ensures a + b + (c + d) == a + (b + (c + d))
  {
  }

  lemma UnquoteFullLine(p: Pair, rest: string, items: seq<Item>)
    requires IsName(p.key) && Unquote(rest, Unquoted) == Some(items)
    ensures Unquote(LineText(p) + "\n" + rest, Unquoted) == Some(LineItems(p) + [Bare('\n')] + items)
  {
    UnquoteBare('\n', rest);
    UnquoteLine(p, ['\n'] + rest, [Bare('\n')] + items);
    Associate(LineText(p), "\n", rest);
    Associate(LineItems(p), [Bare('\n')], items);
  }

  lemma {:induction false} UnquoteEmitted(pairs: seq<Pair>, end: string, tail: seq<Item>)
    requires NamesOnly(pairs) && Unquote(end, Unquoted) == Some(tail)
    ensures Unquote(Emitted(pairs) + end, Unquoted) == Some(Items(pairs) + tail)
  {
    if pairs == [] {
      assert Emitted(pairs) + end == end && Items(pairs) + tail == tail;
    } else {
      var rest, items := Emitted(pairs[1..]) + end, Items(pairs[1..]) + tail;
      UnquoteEmitted(pairs[1..], end, tail);
      UnquoteFullLine(pairs[0], rest, items);
      Regroup(LineText(pairs[0]), "\n", Emitted(pairs[1..]), end);
      Regroup(LineItems(pairs[0]), [Bare('\n')], Items(pairs[1..]), tail);
    }
  }

  // ------------------------------------------------------------------ reading the lines

  lemma {:induction false} BeforeFirst(a: seq<Item>, x: Item, b: seq<Item>)
    requires x !in a
    ensures Before(a + [x] + b, x) == |a|
    ensures Before(a, x) == |a|
  {
    if a != [] {
      assert (a + [x] + b)[1..] == a[1..] + [x] + b;
      BeforeFirst(a[1..], x, b);
    }
  }

  lemma AssignmentOfLine(p: Pair)
    requires IsName(p.key)
    ensures Assignment(LineItems(p)) == Some(Pair(p.key, Flat(p.value)))
    ensures Bare('\n') !in LineItems(p)
  {
    var line := LineItems(p);
    assert Bare('=') !in Bares(p.key);
    BeforeFirst(Bares(p.key), Bare('='), Literals(Flat(p.value)));
    assert line[..|p.key|] == Bares(p.key) && line[|p.key| + 1..] == Literals(Flat(p.value));
    assert Characters(Bares(p.key)) == p.key;
    assert Characters(Literals(Flat(p.value))) == Flat(p.value);
  }

  function Flattened(pairs: seq<Pair>): seq<Pair> {
    seq(|pairs|, i requires 0 <= i < |pairs| => Pair(pairs[i].key, Flat(pairs[i].value)))
  }

  lemma FlattenedCons(pairs: seq<Pair>)
    requires pairs != []
    ensures Flattened(pairs) == [Pair(pairs[0].key, Flat(pairs[0].value))] + Flattened(pairs[1..])
  {
  }

  lemma CommandsCons(p: Pair, rest: seq<Item>)
    requires IsName(p.key) && Commands(rest).Some?
    ensures Commands(LineItems(p) + [Bare('\n')] + rest)
            == Some([Pair(p.key, Flat(p.value))] + Commands(rest).value)
  {
    var line := LineItems(p);
    var items := line + [Bare('\n')] + rest;
    AssignmentOfLine(p);
    BeforeFirst(line, Bare('\n'), rest);
    assert items[..|line|] == line && items[|line| + 1..] == rest;
  }

  lemma CommandsLast(p: Pair)
    requires IsName(p.key)
    ensures Commands(LineItems(p)) == Some([Pair(p.key, Flat(p.value))])
  {
    var line := LineItems(p);
    AssignmentOfLine(p);
    BeforeFirst(line, Bare('\n'), []);
    var pair := Pair(p.key, Flat(p.value));
    assert line[..|line|] == line && [pair] + [] == [pair];
  }

  lemma {:induction false} CommandsOfItems(pairs: seq<Pair>, tail: seq<Item>, after: seq<Pair>)
    requires NamesOnly(pairs) && Commands(tail) == Some(after)
    ensures Commands(Items(pairs) + tail) == Some(Flattened(pairs) + after)
  {
    if pairs == [] {
      assert Items(pairs) + tail == tail && Flattened(pairs) + after == after;
    } else {
      var p := pairs[0];
      CommandsOfItems(pairs[1..], tail, after);
      CommandsCons(p, Items(pairs[1..]) + tail);
      Regroup(LineItems(p), [Bare('\n')], Items(pairs[1..]), tail);
      FlattenedCons(pairs);
      Regroup([], [Pair(p.key, Flat(p.value))], Flattened(pairs[1..]), after);
      assert [] + [Pair(p.key, Flat(p.value))] == [Pair(p.key, Flat(p.value))];
    }
  }

  /** The shell contract: whatever the values hold, evaluating what was emitted makes exactly those
      assignments, in order, each value whole but for its line ends turned to spaces. */
  lemma EvalOfEmitted(pairs: seq<Pair>)
    requires NamesOnly(pairs)
    ensures Eval(Emitted(pairs)) == Some(Flattened(pairs))
  {
    UnquoteEmitted(pairs, "", []);
    CommandsOfItems(pairs, [], []);
    assert Emitted(pairs) + "" == Emitted(pairs) && Items(pairs) + [] == Items(pairs);
    assert Flattened(pairs) + [] == Flattened(pairs);
  }

  // ------------------------------------------------------------------ eval "$(zeroboot boot)"

  /** Command substitution takes the newlines off the end of the output (section 2.6.3). */
  function Substituted(output: string): string {
    if output != "" && output[|output| - 1] == '\n' then Substituted(output[..|output| - 1]) else output
  }

  lemma SubstitutedOnce(out: string)
    requires out != "" && out[|out| - 1] != '\n'
    ensures Substituted(out + "\n") == out
  {
    assert (out + "\n")[..|out|] == out;
  }

  lemma EvalWithoutLastNewline(init: seq<Pair>, last: Pair)
    requires NamesOnly(init) && IsName(last.key)
    ensures Eval(Emitted(init) + LineText(last))
            == Some(Flattened(init) + [Pair(last.key, Flat(last.value))])
  {
    var line := LineItems(last);
    assert LineText(last) + "" == LineText(last) && line + [] == line;
    UnquoteLine(last, "", []);
    UnquoteEmitted(init, LineText(last), line);
    CommandsLast(last);
    CommandsOfItems(init, line, [Pair(last.key, Flat(last.value))]);
  }

  lemma EmittedEnds(init: seq<Pair>, last: Pair)
    ensures var out := Emitted(init) + LineText(last);
            Emitted(init + [last]) == out + "\n" && out != "" && out[|out| - 1] == '\''
  {
    EmittedSnoc(init, last);
    Associate(Emitted(init), LineText(last), "\n");
    var out := Emitted(init) + LineText(last);
    assert out[|out| - 1] == LineText(last)[|LineText(last)| - 1];
  }

  lemma FlattenedSnoc(init: seq<Pair>, last: Pair)
    ensures Flattened(init + [last]) == Flattened(init) + [Pair(last.key, Flat(last.value))]
  {
  }

  /** And the shell that runs `eval "$(zeroboot boot)"` loses nothing to the substitution. */
  lemma EvalOfSubstituted(pairs: seq<Pair>)
    requires NamesOnly(pairs)
    ensures Eval(Substituted(Emitted(pairs))) == Some(Flattened(pairs))
  {
    if pairs != [] {
      var init, last := pairs[..|pairs| - 1], pairs[|pairs| - 1];
      assert pairs == init + [last];
      EmittedEnds(init, last);
      SubstitutedOnce(Emitted(init) + LineText(last));
      EvalWithoutLastNewline(init, last);
      FlattenedSnoc(init, last);
    } else {
      EvalOfEmitted(pairs);
    }
  }
}
