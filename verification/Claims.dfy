/** The claim a node writes on a drive's ESP: two `key=value` lines, and how they are read back. */
module Claims {
  import opened Text

  datatype Claim = Claim(node: string, claimed: string)

  /** A name that survives being written down. */
  predicate CanonicalNode(node: string) {
    node != "" && Trimmed(node) && '\n' !in node
  }

  /** What a claim has to look like to survive being written down. */
  predicate Canonical(c: Claim) {
    && CanonicalNode(c.node)
    && Trimmed(c.claimed) && '\n' !in c.claimed
  }

  function Render(c: Claim): string {
    "node" + "=" + c.node + "\n" + "claimed" + "=" + c.claimed + "\n"
  }

  /** The trimmed value of a `key=value` line, when the line is about `key`. */
  function FieldOf(line: string, key: string): Option<string> {
    var i := IndexOf(line, '=');
    if i < |line| && Trim(line[..i]) == key then Some(Trim(line[i + 1..])) else None
  }

  /** What each line says about `key`, when it says anything. */
  function Fields(lines: seq<string>, key: string): seq<Option<string>> {
    seq(|lines|, i requires 0 <= i < |lines| => FieldOf(lines[i], key))
  }

  /** The last answer in a list of answers. */
  function LastSome<T>(answers: seq<Option<T>>): Option<T> {
    if answers == [] then None
    else if answers[|answers| - 1].Some? then answers[|answers| - 1]
    else LastSome(answers[..|answers| - 1])
  }

  /** The value on the last line about `key`. */
  function LastField(lines: seq<string>, key: string): Option<string> {
    LastSome(Fields(lines, key))
  }

  /** What a claim file says: the last `node` line names the holder, and a blank one names nobody. */
  function ParseClaim(text: string): Option<Claim> {
    var node := LastField(Lines(text), "node");
    var claimed := LastField(Lines(text), "claimed");
    if node.None? || node.value == "" then None
    else Some(Claim(node.value, if claimed.Some? then claimed.value else ""))
  }

  /** `Claim::parse`, line by line. */
  method Parse(text: string) returns (c: Option<Claim>)
    ensures c == ParseClaim(text)
  {
    var node: Option<string> := None;
    var claimed := "";
    var lines := Lines(text);
    ghost var nodes, times := LastField([], "node"), LastField([], "claimed");
    for n := 0 to |lines|
      invariant nodes == LastField(lines[..n], "node") && times == LastField(lines[..n], "claimed")
      invariant node == if nodes.Some? && nodes.value != "" then nodes else None
      invariant claimed == if times.Some? then times.value else ""
    {
      var line := lines[n];
      assert lines[..n + 1] == lines[..n] + [line];
      LastFieldSnoc(lines[..n], line, "node");
      LastFieldSnoc(lines[..n], line, "claimed");
      nodes, times := LastField(lines[..n + 1], "node"), LastField(lines[..n + 1], "claimed");
      var i := IndexOf(line, '=');
      if i == |line| { continue; }
      var value := Trim(line[i + 1..]);
      if Trim(line[..i]) == "node" {
        node := if value != "" then Some(value) else None;
      } else if Trim(line[..i]) == "claimed" {
        claimed := value;
      }
    }
    assert lines[..|lines|] == lines;
    c := if node.Some? then Some(Claim(node.value, claimed)) else None;
  }

  lemma LastFieldSnoc(lines: seq<string>, line: string, key: string)
    ensures LastField(lines + [line], key) ==
              if FieldOf(line, key).Some? then FieldOf(line, key) else LastField(lines, key)
  {
    FieldsSnoc(lines, line, key);
    LastSomeSnoc(Fields(lines, key), FieldOf(line, key));
  }

  lemma FieldsSnoc(lines: seq<string>, line: string, key: string)
    ensures Fields(lines + [line], key) == Fields(lines, key) + [FieldOf(line, key)]
  {
    var a, b := Fields(lines + [line], key), Fields(lines, key) + [FieldOf(line, key)];
    forall i | 0 <= i < |a| ensures a[i] == b[i] {
      assert (lines + [line])[i] == if i < |lines| then lines[i] else line;
    }
  }

  lemma LastSomeSnoc<T>(answers: seq<Option<T>>, a: Option<T>)
    ensures LastSome(answers + [a]) == if a.Some? then a else LastSome(answers)
  {
    assert (answers + [a])[..|answers|] == answers;
  }

  /** LastSome is an answer with no answer after it. */
  lemma {:induction false} LastSomeIsLast<T>(answers: seq<Option<T>>) returns (i: nat)
    ensures LastSome(answers).None? ==> forall j :: 0 <= j < |answers| ==> answers[j].None?
    ensures LastSome(answers).Some? ==> i < |answers| && answers[i] == LastSome(answers)
    ensures LastSome(answers).Some? ==> forall j :: i < j < |answers| ==> answers[j].None?
  {
    i := 0;
    if answers != [] {
      var init := answers[..|answers| - 1];
      if answers[|answers| - 1].Some? {
        i := |answers| - 1;
      } else {
        i := LastSomeIsLast(init);
        assert forall j :: 0 <= j < |init| ==> answers[j] == init[j];
      }
    }
  }

  lemma {:induction false} LastSomeIs<T>(answers: seq<Option<T>>, i: nat)
    requires i < |answers| && answers[i].Some?
    requires forall j :: i < j < |answers| ==> answers[j].None?
    ensures LastSome(answers) == answers[i]
  {
    if i < |answers| - 1 {
      LastSomeIs(answers[..|answers| - 1], i);
    }
  }

  /** Line `i` is about `key` and no later line is. */
  predicate LastAbout(lines: seq<string>, key: string, i: nat) {
    && i < |lines| && FieldOf(lines[i], key).Some?
    && forall j :: i < j < |lines| ==> FieldOf(lines[j], key).None?
  }

  predicate SaysNothing(lines: seq<string>, key: string) {
    forall j :: 0 <= j < |lines| ==> FieldOf(lines[j], key).None?
  }

  lemma LastFieldOfSilent(lines: seq<string>, key: string)
    requires SaysNothing(lines, key)
    ensures LastField(lines, key).None?
  {
    var i := LastSomeIsLast(Fields(lines, key));
  }

  /** The last line about `key`, when there is one. */
  predicate LastLine(lines: seq<string>, key: string, i: Option<nat>) {
    if i.None? then SaysNothing(lines, key) else LastAbout(lines, key, i.value)
  }

  lemma LastLineExists(lines: seq<string>, key: string) returns (i: Option<nat>)
    ensures LastLine(lines, key, i)
  {
    var answers := Fields(lines, key);
    var n := LastSomeIsLast(answers);
    assert forall j :: 0 <= j < |lines| ==> FieldOf(lines[j], key) == answers[j];
    i := if LastField(lines, key).Some? then Some(n) else None;
  }

  function ValueOn(lines: seq<string>, key: string, i: Option<nat>): string
    requires LastLine(lines, key, i)
  {
    if i.None? then "" else FieldOf(lines[i.value], key).value
  }

  lemma LastFieldIs(lines: seq<string>, key: string, i: Option<nat>)
    requires LastLine(lines, key, i)
    ensures LastField(lines, key) == if i.None? then None else Some(ValueOn(lines, key, i))
  {
    if i.None? {
      LastFieldOfSilent(lines, key);
    } else {
      LastSomeIs(Fields(lines, key), i.value);
    }
  }

  /** For arbitrary text the claim is what the last `node` line and the last `claimed` line say:
      earlier ones are overridden, lines on other matters do not count, a `node` line that is missing or
      blank claims nothing, and a missing `claimed` line leaves the time empty. */
  lemma ParseReadsLastLines(text: string, i: Option<nat>, j: Option<nat>)
    requires LastLine(Lines(text), "node", i) && LastLine(Lines(text), "claimed", j)
    ensures var node, claimed := ValueOn(Lines(text), "node", i), ValueOn(Lines(text), "claimed", j);
            ParseClaim(text) == if node == "" then None else Some(Claim(node, claimed))
  {
    LastFieldIs(Lines(text), "node", i);
    LastFieldIs(Lines(text), "claimed", j);
  }

  lemma SplitAtEquals(key: string, value: string)
    requires '=' !in key
    ensures IndexOf(key + "=" + value, '=') == |key|
    ensures (key + "=" + value)[..|key|] == key && (key + "=" + value)[|key| + 1..] == value
  {
    IndexOfAfter(key, '=', value);
  }

  lemma KeyedField(key: string, value: string)
    requires Trimmed(key) && '=' !in key
    ensures FieldOf(key + "=" + value, key) == Some(Trim(value))
  {
    SplitAtEquals(key, value);
    TrimLeavesTrimmed(key);
  }

  lemma OwnField(key: string, value: string)
    requires Trimmed(key) && '=' !in key && Trimmed(value)
    ensures FieldOf(key + "=" + value, key) == Some(value)
  {
    KeyedField(key, value);
    TrimLeavesTrimmed(value);
  }

  lemma OtherField(key: string, value: string, other: string)
    requires Trimmed(key) && '=' !in key && key != other
    ensures FieldOf(key + "=" + value, other).None?
  {
    SplitAtEquals(key, value);
    TrimLeavesTrimmed(key);
  }

  lemma LinesOfTwo(a: string, b: string)
    requires '\n' !in a && '\n' !in b
    ensures Lines(a + "\n" + (b + "\n")) == [DropCr(a), DropCr(b)]
  {
    LinesCons(a, b + "\n");
    LinesCons(b, "");
    assert b + "\n" + "" == b + "\n";
  }

  lemma LinesOfRender(c: Claim)
    requires '\n' !in c.node && '\n' !in c.claimed
    ensures Lines(Render(c)) == [DropCr("node" + "=" + c.node), DropCr("claimed" + "=" + c.claimed)]
  {
    var a, b := "node" + "=" + c.node, "claimed" + "=" + c.claimed;
    assert Render(c) == a + "\n" + (b + "\n");
    LinesOfTwo(a, b);
  }

  lemma DropCrOfField(key: string, value: string)
    requires Trimmed(value)
    ensures DropCr(key + "=" + value) == key + "=" + value
  {
    var line := key + "=" + value;
    if value != "" {
      assert line[|line| - 1] == value[|value| - 1];
    } else {
      assert line[|line| - 1] == '=';
    }
  }

  lemma FieldsOfTwo(a: string, b: string, key: string)
    ensures Fields([a, b], key) == [FieldOf(a, key), FieldOf(b, key)]
  {
  }

  lemma LastFieldOfTwo(a: string, b: string, key: string, va: Option<string>, vb: Option<string>)
    requires va == FieldOf(a, key) && vb == FieldOf(b, key)
    ensures LastField([a, b], key) == if vb.Some? then vb else va
  {
    FieldsOfTwo(a, b, key);
    LastSomeOfTwo(va, vb);
  }

  lemma LastSomeOfTwo<T>(a: Option<T>, b: Option<T>)
    ensures LastSome([a, b]) == if b.Some? then b else a
  {
    LastSomeSnoc([a], b);
    LastSomeSnoc([], a);
    assert [a] + [b] == [a, b] && [] + [a] == [a];
  }

  /** A canonical claim reads back as itself. */
  lemma ClaimRoundTrip(c: Claim)
    requires Canonical(c)
    ensures ParseClaim(Render(c)) == Some(c)
  {
    LinesOfRender(c);
    DropCrOfField("node", c.node);
    DropCrOfField("claimed", c.claimed);
    assert LastField(Lines(Render(c)), "node") == Some(c.node) by {
      NodeOfTwo(c.node, c.claimed);
    }
    assert LastField(Lines(Render(c)), "claimed") == Some(c.claimed) by {
      ClaimedOfTwo(c.node, c.claimed);
    }
  }

  lemma NodeOfTwo(node: string, claimed: string)
    requires Trimmed(node)
    ensures LastField(["node" + "=" + node, "claimed" + "=" + claimed], "node") == Some(node)
  {
    OwnField("node", node);
    OtherField("claimed", claimed, "node");
    LastFieldOfTwo("node" + "=" + node, "claimed" + "=" + claimed, "node", Some(node), None);
  }

  lemma ClaimedOfTwo(node: string, claimed: string)
    requires Trimmed(claimed)
    ensures LastField(["node" + "=" + node, "claimed" + "=" + claimed], "claimed") == Some(claimed)
  {
    OwnField("claimed", claimed);
    OtherField("node", node, "claimed");
    LastFieldOfTwo("node" + "=" + node, "claimed" + "=" + claimed, "claimed", None, Some(claimed));
  }

  lemma FieldIsPlain(line: string, key: string)
    requires '\n' !in line && FieldOf(line, key).Some?
    ensures var v := FieldOf(line, key).value; Trimmed(v) && '\n' !in v
  {
    var value := line[IndexOf(line, '=') + 1..];
    TrimIsTrimmed(value);
  }

  lemma LastFieldIsPlain(text: string, key: string)
    requires LastField(Lines(text), key).Some?
    ensures var v := LastField(Lines(text), key).value; Trimmed(v) && '\n' !in v
  {
    var lines := Lines(text);
    var i := LastSomeIsLast(Fields(lines, key));
    LinesHaveNoNewline(text, lines[i]);
    FieldIsPlain(lines[i], key);
  }

  /** Whatever is read is canonical: reading never invents a holder that could not be written. */
  lemma ParsedIsCanonical(text: string)
    requires ParseClaim(text).Some?
    ensures Canonical(ParseClaim(text).value)
  {
    LastFieldIsPlain(text, "node");
    if LastField(Lines(text), "claimed").Some? {
      LastFieldIsPlain(text, "claimed");
    }
  }

  /** The round trip holds for exactly the canonical claims. */
  lemma RoundTripExactly(c: Claim)
    ensures ParseClaim(Render(c)) == Some(c) <==> Canonical(c)
  {
    if Canonical(c) {
      ClaimRoundTrip(c);
    } else if ParseClaim(Render(c)) == Some(c) {
      ParsedIsCanonical(Render(c));
    }
  }

  // ------------------------------------------------------------------ what a name reads back as

  /** The holder that is read where `node` has been written: its last line decides, if it has several. */
  function NameRead(node: string): Option<string> {
    var name := LastField(Lines("node" + "=" + node + "\n"), "node");
    if name.None? || name.value == "" then None else name
  }

  /** Whatever the name and the time, the claim read back is that of the name as it reads. */
  lemma NameIsRead(c: Claim)
    requires Trimmed(c.claimed) && '\n' !in c.claimed
    ensures ParseClaim(Render(c)).Some? <==> NameRead(c.node).Some?
    ensures NameRead(c.node).Some? ==> ParseClaim(Render(c)).value.node == NameRead(c.node).value
  {
    var a, b := "node" + "=" + c.node + "\n", "claimed" + "=" + c.claimed;
    RenderInTwo(c, a, b);
    LinesConcat(a, b + "\n");
    LastFieldSnoc(Lines(a), b, "node");
    OtherField("claimed", c.claimed, "node");
  }

  lemma RenderInTwo(c: Claim, a: string, b: string)
    requires Trimmed(c.claimed) && '\n' !in c.claimed
    requires a == "node" + "=" + c.node + "\n" && b == "claimed" + "=" + c.claimed
    ensures Render(c) == a + (b + "\n") && Lines(b + "\n") == [b]
    ensures a != "" && a[|a| - 1] == '\n'
  {
    LinesCons(b, "");
    assert b + "\n" + "" == b + "\n";
    DropCrOfField("claimed", c.claimed);
  }

  /** The names that read back as themselves are those that survive being written down. */
  lemma NameReadsAsItself(node: string)
    ensures NameRead(node) == Some(node) <==> CanonicalNode(node)
  {
    var claim := Claim(node, "");
    NameIsRead(claim);
    if CanonicalNode(node) {
      ClaimRoundTrip(claim);
    } else if NameRead(node) == Some(node) {
      ParsedIsCanonical(Render(claim));
    }
  }

  lemma KeyOnOneLine(key: string, value: string)
    requires Trimmed(key) && '=' !in key && '\n' !in key && '\n' !in value
    ensures LastField(Lines(key + "=" + value + "\n"), key) == Some(Trim(value))
  {
    var text := DropCr(value);
    OneLineOf(key + "=" + value);
    DropCrOfKeyed(key, value);
    KeyedField(key, text);
    TrimDropsCr(value);
    LastFieldSnoc([], key + "=" + text, key);
    assert [] + [key + "=" + text] == [key + "=" + text];
  }

  lemma TrimDropsCr(value: string)
    ensures Trim(DropCr(value)) == Trim(value)
  {
    if DropCr(value) != value {
      assert value == DropCr(value) + ['\r'];
      TrimIgnoresTrailing(DropCr(value), '\r');
    }
  }

  /** A name on one line reads back trimmed. */
  lemma NameOnOneLine(node: string)
    requires '\n' !in node
    ensures NameRead(node) == if Trim(node) == "" then None else Some(Trim(node))
  {
    KeyOnOneLine("node", node);
  }

  lemma OneLineOf(line: string)
    requires '\n' !in line
    ensures Lines(line + "\n") == [DropCr(line)]
  {
    LinesCons(line, "");
    assert line + "\n" + "" == line + "\n";
  }

  lemma DropCrOfKeyed(key: string, value: string)
    ensures DropCr(key + "=" + value) == key + "=" + DropCr(value)
  {
    var line := key + "=" + value;
    assert line[|line| - 1] == if value == "" then '=' else value[|value| - 1];
  }

  /** Written over a claim of `holder`, the name no longer reads as that. */
  predicate Displaces(node: string, holder: string) {
    if '\n' in node then NameRead(node) != Some(holder) else Trim(node) != holder
  }

  lemma DisplacesExactly(node: string, holder: string)
    requires holder != ""
    ensures Displaces(node, holder) <==> NameRead(node) != Some(holder)
    ensures CanonicalNode(node) ==> (Displaces(node, holder) <==> node != holder)
  {
    if '\n' !in node {
      NameOnOneLine(node);
    }
    if CanonicalNode(node) {
      TrimLeavesTrimmed(node);
    }
  }

  // ------------------------------------------------------------------ the text of a claim

  /** The two lines of a claim file. */
  lemma ClaimText(c: Claim)
    ensures Render(c) == "node=" + c.node + "\n" + "claimed=" + c.claimed + "\n"
  {
  }

  /** Blanks around a key do not keep a line from being about it. */
  lemma BlanksAroundKeys(l: string, key: string, r: string, value: string)
    requires AllBlank(l) && AllBlank(r) && Trimmed(key) && key != "" && '=' !in key
    ensures FieldOf(l + (key + r) + "=" + value, key) == Some(Trim(value))
  {
    assert forall i :: 0 <= i < |l| ==> l[i] != '=';
    assert forall i :: 0 <= i < |r| ==> r[i] != '=';
    var left := l + (key + r);
    assert '=' !in left;
    SplitAtEquals(left, value);
    TrimTakesBlanks(l, key, r);
  }
}
