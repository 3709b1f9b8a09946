/** The few pieces of Rust's string library that zeroboot's readers and writers lean on,
    and the facts about them that every round trip needs. */
module Text {

  datatype Option<+T> = None | Some(value: T)

  datatype Result<+T> = Ok(value: T) | Err

  // ------------------------------------------------------------------ trimming

  /** Unicode White_Space, which is what `trim` and `split_whitespace` go by. */
  predicate IsWhitespace(c: char) {
    || c == ' ' || '\t' <= c <= '\r' || c == '\U{85}' || c == '\U{A0}' || c == '\U{1680}'
    || '\U{2000}' <= c <= '\U{200A}' || c == '\U{2028}' || c == '\U{2029}' || c == '\U{202F}'
    || c == '\U{205F}' || c == '\U{3000}'
  }

  /** The same by code point. */
  lemma WhitespaceByNumber(c: char)
    ensures var n := c as int;
            IsWhitespace(c) <==>
              || 9 <= n <= 13 || n == 32 || n == 133 || n == 160 || n == 5760 || 8192 <= n <= 8202
              || n == 8232 || n == 8233 || n == 8239 || n == 8287 || n == 12288
  {
  }

  predicate NoWhitespace(s: string) {
    forall c :: c in s ==> !IsWhitespace(c)
  }

  predicate Trimmed(s: string) {
    s == "" || (!IsWhitespace(s[0]) && !IsWhitespace(s[|s| - 1]))
  }

  function TrimStart(s: string): string {
    if s != "" && IsWhitespace(s[0]) then TrimStart(s[1..]) else s
  }

  function TrimEnd(s: string): string {
    if s != "" && IsWhitespace(s[|s| - 1]) then TrimEnd(s[..|s| - 1]) else s
  }

  function Trim(s: string): string {
    TrimEnd(TrimStart(s))
  }

  /** Trimming drops a blank prefix and a blank suffix, and nothing else. */
  lemma {:induction false} TrimStartDropsPrefix(s: string)
    ensures TrimStart(s) == "" || !IsWhitespace(TrimStart(s)[0])
    ensures forall c :: c in TrimStart(s) ==> c in s
  {
    if s != "" && IsWhitespace(s[0]) {
      TrimStartDropsPrefix(s[1..]);
      assert forall c :: c in s[1..] ==> c in s;
    }
  }

  lemma {:induction false} TrimEndDropsSuffix(s: string)
    ensures TrimEnd(s) <= s
    ensures TrimEnd(s) == "" || !IsWhitespace(TrimEnd(s)[|TrimEnd(s)| - 1])
    ensures forall c :: c in TrimEnd(s) ==> c in s
  {
    if s != "" && IsWhitespace(s[|s| - 1]) {
      TrimEndDropsSuffix(s[..|s| - 1]);
      assert forall c :: c in s[..|s| - 1] ==> c in s;
    }
  }

  lemma TrimIsTrimmed(s: string)
    ensures Trimmed(Trim(s))
    ensures forall c :: c in Trim(s) ==> c in s
  {
    TrimStartDropsPrefix(s);
    TrimEndDropsSuffix(TrimStart(s));
  }

  lemma TrimLeavesTrimmed(s: string)
    requires Trimmed(s)
    ensures Trim(s) == s
  {
  }

  predicate AllBlank(s: string) {
    forall i :: 0 <= i < |s| ==> IsWhitespace(s[i])
  }

  lemma {:induction false} TrimStartOfBlanks(l: string, s: string)
    requires AllBlank(l)
    ensures TrimStart(l + s) == TrimStart(s)
  {
    if l == "" {
      assert l + s == s;
    } else {
      assert (l + s)[1..] == l[1..] + s;
      TrimStartOfBlanks(l[1..], s);
    }
  }

  lemma {:induction false} TrimEndOfBlanks(s: string, r: string)
    requires AllBlank(r)
    ensures TrimEnd(s + r) == TrimEnd(s)
  {
    if r == "" {
      assert s + r == s;
    } else {
      assert (s + r)[..|s + r| - 1] == s + r[..|r| - 1];
      TrimEndOfBlanks(s, r[..|r| - 1]);
    }
  }

  /** Trimming takes off the blanks at both ends and not one character more. */
  lemma TrimTakesBlanks(l: string, s: string, r: string)
    requires AllBlank(l) && AllBlank(r) && Trimmed(s) && s != ""
    ensures Trim(l + (s + r)) == s
  {
    TrimStartOfBlanks(l, s + r);
    TrimEndOfBlanks(s, r);
  }

  lemma {:induction false} TrimStartThenBlank(s: string, c: char)
    requires IsWhitespace(c)
    ensures TrimStart(s + [c]) == if TrimStart(s) == "" then "" else TrimStart(s) + [c]
  {
    if s == "" {
      assert s + [c] == [c] && [c][1..] == "";
    } else {
      assert (s + [c])[1..] == s[1..] + [c];
      if IsWhitespace(s[0]) {
        TrimStartThenBlank(s[1..], c);
      }
    }
  }

  lemma TrimIgnoresTrailing(s: string, c: char)
    requires IsWhitespace(c)
    ensures Trim(s + [c]) == Trim(s)
  {
    TrimStartThenBlank(s, c);
    var t := TrimStart(s);
    assert (t + [c])[..|t|] == t;
  }

  // ------------------------------------------------------------------ searching

  /** Where `c` first stands in `s`, or the length of `s` when it does not. */
  function IndexOf(s: string, c: char): (i: nat)
    ensures i <= |s|
  {
    if s == "" || s[0] == c then 0 else 1 + IndexOf(s[1..], c)
  }

  lemma {:induction false} IndexOfIsFirst(s: string, c: char)
    ensures c !in s[..IndexOf(s, c)]
    ensures IndexOf(s, c) < |s| ==> s[IndexOf(s, c)] == c
  {
    if s != "" && s[0] != c {
      IndexOfIsFirst(s[1..], c);
      var i := IndexOf(s[1..], c);
      assert s[..1 + i] == [s[0]] + s[1..][..i];
    }
  }

  lemma {:induction false} IndexOfAfter(a: string, c: char, b: string)
    requires c !in a
    ensures IndexOf(a + [c] + b, c) == |a|
  {
    var s := a + [c] + b;
    if a != "" {
      assert s[1..] == a[1..] + [c] + b;
      IndexOfAfter(a[1..], c, b);
    }
  }

  // ------------------------------------------------------------------ lines

  function DropCr(s: string): (t: string)
    ensures t <= s
  {
    if s != "" && s[|s| - 1] == '\r' then s[..|s| - 1] else s
  }

  /** `str::lines`: split after each newline, less the newline and a carriage return before it;
      what follows the last newline is a line only when it is not empty. */
  function Lines(s: string): seq<string>
    decreases |s|
  {
    if s == "" then [] else
      var i := IndexOf(s, '\n');
      if i == |s| then [s] else [DropCr(s[..i])] + Lines(s[i + 1..])
  }

  lemma LinesCons(a: string, rest: string)
    requires '\n' !in a
    ensures Lines(a + "\n" + rest) == [DropCr(a)] + Lines(rest)
  {
    var s := a + "\n" + rest;
    IndexOfAfter(a, '\n', rest);
    assert s[..|a|] == a && s[|a| + 1..] == rest;
  }

  lemma FirstNewline(t: string) returns (first: string, more: string)
    requires t != "" && t[|t| - 1] == '\n'
    ensures '\n' !in first && t == first + "\n" + more
    ensures more != "" ==> more[|more| - 1] == '\n'
  {
    IndexOfIsFirst(t, '\n');
    var i := IndexOf(t, '\n');
    assert t[..|t|] == t;
    first, more := t[..i], t[i + 1..];
  }

  lemma Regroup(a: string, b: string, c: string, d: string)
    ensures a + b + c + d == a + b + (c + d)
  {
  }

  lemma ConsConcat(x: string, a: seq<string>, b: seq<string>)
    ensures [x] + a + b == [x] + (a + b)
  {
  }

  /** What ends in a newline is split apart from what follows it. */
  lemma {:induction false} LinesConcat(t: string, rest: string)
    requires t != "" && t[|t| - 1] == '\n'
    ensures Lines(t + rest) == Lines(t) + Lines(rest)
    decreases |t|
  {
    var first, more := FirstNewline(t);
    Regroup(first, "\n", more, rest);
    LinesCons(first, more);
    LinesCons(first, more + rest);
    ConsConcat(DropCr(first), Lines(more), Lines(rest));
    if more == "" {
      NothingInFront(rest);
    } else {
      LinesConcat(more, rest);
    }
  }

  lemma NothingInFront(s: string)
    ensures "" + s == s && [] + Lines(s) == Lines(s) && Lines("") == []
  {
  }

  /** A line ends at a newline, with the carriage return before it if there is one; the last may end with
      the text, and then keeps all it has. */
  lemma LineEnds(a: string, rest: string)
    requires '\n' !in a && (a != "" ==> a[|a| - 1] != '\r')
    ensures Lines(a + "\n" + rest) == [a] + Lines(rest)
    ensures Lines(a + "\r" + "\n" + rest) == [a] + Lines(rest)
    ensures a != "" ==> Lines(a) == [a] && Lines(a + "\r") == [a + "\r"]
  {
    LinesCons(a, rest);
    LinesCons(a + "\r", rest);
    DropCrDrops(a);
    if a != "" {
      LastLine(a);
      LastLine(a + "\r");
    }
  }

  lemma DropCrDrops(a: string)
    requires a != "" ==> a[|a| - 1] != '\r'
    ensures DropCr(a) == a && DropCr(a + "\r") == a
  {
    assert (a + "\r")[..|a|] == a;
  }

  lemma LastLine(a: string)
    requires a != "" && '\n' !in a
    ensures Lines(a) == [a]
  {
    IndexOfIsFirst(a, '\n');
  }

  lemma {:induction false} LinesHaveNoNewline(s: string, line: string)
    requires line in Lines(s)
    ensures '\n' !in line
    decreases |s|
  {
    var i := IndexOf(s, '\n');
    IndexOfIsFirst(s, '\n');
    if i == |s| {
      assert s[..i] == s;
    } else if line != DropCr(s[..i]) {
      LinesHaveNoNewline(s[i + 1..], line);
    }
  }

  /** The text before the first newline. */
  function FirstLine(s: string): string {
    s[..IndexOf(s, '\n')]
  }

  // ------------------------------------------------------------------ words

  /** How far the word `s` begins with reaches. */
  function WordLength(s: string): (n: nat)
    ensures n <= |s|
  {
    if s == "" || IsWhitespace(s[0]) then 0 else 1 + WordLength(s[1..])
  }

  /** `str::split_whitespace`. */
  function Words(s: string): seq<string>
    decreases |s|
  {
    if s == "" then []
    else if IsWhitespace(s[0]) then Words(s[1..])
    else
      var n := WordLength(s);
      [s[..n]] + Words(s[n..])
  }

  lemma {:induction false} WordLengthAfter(w: string, sep: char, rest: string)
    requires NoWhitespace(w) && IsWhitespace(sep)
    ensures WordLength(w + [sep] + rest) == |w|
    ensures WordLength(w) == |w|
  {
    if w != "" {
      assert (w + [sep] + rest)[1..] == w[1..] + [sep] + rest;
      assert forall c :: c in w[1..] ==> c in w;
      WordLengthAfter(w[1..], sep, rest);
    }
  }

  lemma WordsCons(w: string, sep: char, rest: string)
    requires w != "" && NoWhitespace(w) && IsWhitespace(sep)
    ensures Words(w + [sep] + rest) == [w] + Words(rest)
  {
    var s := w + [sep] + rest;
    WordLengthAfter(w, sep, rest);
    assert s[..|w|] == w && s[|w|..] == [sep] + rest;
    assert ([sep] + rest)[1..] == rest;
  }

  lemma {:induction false} WordLengthIsWord(s: string)
    ensures NoWhitespace(s[..WordLength(s)])
    ensures WordLength(s) < |s| ==> IsWhitespace(s[WordLength(s)])
  {
    if s != "" && !IsWhitespace(s[0]) {
      WordLengthIsWord(s[1..]);
      assert s[..WordLength(s)] == [s[0]] + s[1..][..WordLength(s) - 1];
    }
  }

  lemma {:induction false} WordsAreWords(s: string, w: string)
    requires w in Words(s)
    ensures w != "" && NoWhitespace(w)
    decreases |s|
  {
    WordLengthIsWord(s);
    if IsWhitespace(s[0]) {
      WordsAreWords(s[1..], w);
    } else if w != s[..WordLength(s)] {
      WordsAreWords(s[WordLength(s)..], w);
    }
  }

  /** Blanks at the end of a text hold no words. */
  lemma {:induction false} WordsIgnoreTrailing(s: string, sep: char)
    requires IsWhitespace(sep)
    ensures Words(s + [sep]) == Words(s)
    decreases |s|
  {
    if s == "" {
      assert s + [sep] == [sep] && [sep][1..] == "";
    } else if IsWhitespace(s[0]) {
      assert (s + [sep])[1..] == s[1..] + [sep];
      WordsIgnoreTrailing(s[1..], sep);
    } else {
      var n := WordLength(s);
      var t := s + [sep];
      WordLengthPrefix(s, sep);
      assert t[..n] == s[..n] && t[n..] == s[n..] + [sep];
      WordsIgnoreTrailing(s[n..], sep);
    }
  }

  lemma {:induction false} WordLengthPrefix(s: string, sep: char)
    requires IsWhitespace(sep)
    ensures WordLength(s + [sep]) == WordLength(s)
  {
    if s != "" && !IsWhitespace(s[0]) {
      assert (s + [sep])[1..] == s[1..] + [sep];
      WordLengthPrefix(s[1..], sep);
    }
  }

  lemma {:induction false} WordsOfTrimEnd(s: string)
    ensures Words(TrimEnd(s)) == Words(s)
    decreases |s|
  {
    if s != "" && IsWhitespace(s[|s| - 1]) {
      WordsOfTrimEnd(s[..|s| - 1]);
      assert s == s[..|s| - 1] + [s[|s| - 1]];
      WordsIgnoreTrailing(s[..|s| - 1], s[|s| - 1]);
    }
  }

  lemma {:induction false} WordsOfTrimStart(s: string)
    ensures Words(TrimStart(s)) == Words(s)
  {
    if s != "" && IsWhitespace(s[0]) {
      WordsOfTrimStart(s[1..]);
    }
  }

  lemma WordsOfTrim(s: string)
    ensures Words(Trim(s)) == Words(s)
  {
    WordsOfTrimStart(s);
    WordsOfTrimEnd(TrimStart(s));
  }

  // ------------------------------------------------------------------ prefixes

  /** `texts[i]` is the first that starts with `prefix`. */
  predicate FirstWith(texts: seq<string>, prefix: string, i: nat) {
    && i < |texts| && prefix <= texts[i]
    && forall j :: 0 <= j < i ==> !(prefix <= texts[j])
  }

  lemma {:induction false} FirstStrippedIsFirst(texts: seq<string>, prefix: string) returns (i: nat)
    ensures FirstStripped(texts, prefix).Some? ==>
              FirstWith(texts, prefix, i) && texts[i] == prefix + FirstStripped(texts, prefix).value
    ensures FirstStripped(texts, prefix).None? ==> forall j :: 0 <= j < |texts| ==> !(prefix <= texts[j])
  {
    i := 0;
    if texts != [] && !(prefix <= texts[0]) {
      i := FirstStrippedIsFirst(texts[1..], prefix);
      i := i + 1;
      assert forall j :: 1 <= j < |texts| ==> texts[j] == texts[1..][j - 1];
    } else if texts != [] {
      assert texts[0] == prefix + texts[0][|prefix|..];
    }
  }

  /** The rest of the first text in `texts` that starts with `prefix`:
      `find_map(|t| t.strip_prefix(prefix))`. */
  function FirstStripped(texts: seq<string>, prefix: string): Option<string> {
    if texts == [] then None
    else if prefix <= texts[0] then Some(texts[0][|prefix|..])
    else FirstStripped(texts[1..], prefix)
  }
}
