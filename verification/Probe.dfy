/** Looking at one drive: what is on it, and whose it is. */
module Probe {
  import opened Text
  import opened Utf8
  import opened Scan
  import opened Claims
  import opened Esp
  import opened Survey

  // ------------------------------------------------------------------ who the machine is

  /** What stands in the serial's place on boards that were never given one. */
  const NOT_AN_IDENTITY := [
    "not specified", "to be filled by o.e.m.", "system serial number",
    "default string", "none", "0", "unknown"]

  /** `machine_identity`, given what the firmware's serial file holds. */
  function MachineIdentity(serial: Option<string>): Option<string> {
    if serial.None? then None else
      var s := Trim(serial.value);
      if s == "" || AsciiLower(s) in NOT_AN_IDENTITY then None else Some(s)
  }

  /** An identity the firmware gives is one a claim can carry, unless it has a newline inside. */
  lemma IdentityIsCanonical(serial: string, claimed: string)
    requires MachineIdentity(Some(serial)).Some?
    requires Trimmed(claimed) && '\n' !in claimed
    ensures var me := MachineIdentity(Some(serial)).value;
            Canonical(Claim(me, claimed)) <==> '\n' !in me
    ensures '\n' !in serial ==> '\n' !in MachineIdentity(Some(serial)).value
    ensures AsciiLower(MachineIdentity(Some(serial)).value) !in NOT_AN_IDENTITY
  {
    TrimIsTrimmed(serial);
  }

  // ------------------------------------------------------------------ signatures

  const SLAB_MAGIC: Bytes := [0x53, 0x54, 0x52, 0x4d, 0x53, 0x4c, 0x41, 0x42]  // STRMSLAB
  const GPT_MAGIC: Bytes := [0x45, 0x46, 0x49, 0x20, 0x50, 0x41, 0x52, 0x54]   // EFI PART
  const LVM_MAGIC: Bytes := [0x4c, 0x41, 0x42, 0x45, 0x4c, 0x4f, 0x4e, 0x45]   // LABELONE
  const MD_MAGIC: Bytes := [0xfc, 0x4e, 0x2b, 0xa9]

  datatype Rule = Rule(off: nat, magic: Bytes, name: string)

  /** Where each known thing leaves its mark, in the order they are tried. */
  const RULES: seq<Rule> := [
    Rule(0, SLAB_MAGIC, "stormblock slab"),
    Rule(512, GPT_MAGIC, "GPT"),
    Rule(0, [0x4c, 0x55, 0x4b, 0x53, 0xba, 0xbe], "LUKS"),
    Rule(0, [0x58, 0x46, 0x53, 0x42], "XFS"),
    Rule(3, [0x4e, 0x54, 0x46, 0x53, 0x20, 0x20, 0x20, 0x20], "NTFS"),
    Rule(3, [0x45, 0x58, 0x46, 0x41, 0x54, 0x20, 0x20, 0x20], "exFAT"),
    Rule(0x10040, [0x5f, 0x42, 0x48, 0x52, 0x66, 0x53, 0x5f, 0x4d], "btrfs"),
    Rule(1024, [0x48, 0x2b], "HFS+"),
    Rule(32, [0x4e, 0x58, 0x53, 0x42], "APFS"),
    Rule(0x8001, [0x43, 0x44, 0x30, 0x30, 0x31], "ISO 9660"),
    Rule(4086, [0x53, 0x57, 0x41, 0x50, 0x53, 0x50, 0x41, 0x43, 0x45, 0x32], "swap"),
    Rule(4086, [0x53, 0x57, 0x41, 0x50, 0x2d, 0x53, 0x50, 0x41, 0x43, 0x45], "swap"),
    Rule(0x36, [0x46, 0x41, 0x54, 0x31], "FAT"),
    Rule(0x52, [0x46, 0x41, 0x54, 0x33, 0x32], "FAT32"),
    Rule(0x438, [0x53, 0xef], "ext2/3/4"),
    Rule(0, LVM_MAGIC, "LVM2 physical volume"),
    Rule(512, LVM_MAGIC, "LVM2 physical volume"),
    Rule(1024, LVM_MAGIC, "LVM2 physical volume"),
    Rule(1536, LVM_MAGIC, "LVM2 physical volume"),
    Rule(0, MD_MAGIC, "Linux md RAID member"),
    Rule(4096, MD_MAGIC, "Linux md RAID member"),
    Rule(0x20000, [0x0c, 0xb1, 0xba, 0x00], "ZFS vdev"),
    Rule(510, [0x55, 0xaa], "MBR partition table")]

  predicate Starts(head: Bytes, off: nat, magic: Bytes) {
    off + |magic| <= |head| && head[off..off + |magic|] == magic
  }

  function FirstRule(head: Bytes, rules: seq<Rule>): Option<string> {
    if rules == [] then None
    else if Starts(head, rules[0].off, rules[0].magic) then Some(rules[0].name)
    else FirstRule(head, rules[1..])
  }

  function Signature(ends: Ends): Option<string> {
    FirstRule(ends.head, RULES)
  }

  predicate BackupGpt(tail: Bytes) {
    |tail| >= 512 && tail[|tail| - 512..|tail| - 504] == GPT_MAGIC
  }

  /** `chunks_exact(4096)` with one that begins with the md magic. */
  predicate MdInTail(tail: Bytes) {
    exists k :: 0 <= k < |tail| / 4096 && tail[k * 4096..k * 4096 + 4] == MD_MAGIC
  }

  function TailSignature(ends: Ends): Option<string> {
    if BackupGpt(ends.tail) then Some("GPT (backup header only)")
    else if MdInTail(ends.tail) then Some("Linux md RAID member (superblock at the end)")
    else None
  }

  predicate AllZero(bytes: Bytes) {
    forall i :: 0 <= i < |bytes| ==> bytes[i] == 0
  }

  predicate Matches(head: Bytes, rules: seq<Rule>, i: nat) {
    && i < |rules| && Starts(head, rules[i].off, rules[i].magic)
    && forall j :: 0 <= j < i ==> !Starts(head, rules[j].off, rules[j].magic)
  }

  /** The name is that of the first rule that matches, and there is one when any does. */
  lemma {:induction false} FirstRuleIsFirst(head: Bytes, rules: seq<Rule>) returns (i: nat)
    ensures FirstRule(head, rules).None? <==>
              forall j :: 0 <= j < |rules| ==> !Starts(head, rules[j].off, rules[j].magic)
    ensures FirstRule(head, rules).Some? ==> Matches(head, rules, i) && FirstRule(head, rules).value == rules[i].name
  {
    i := 0;
    if rules != [] && !Starts(head, rules[0].off, rules[0].magic) {
      i := FirstRuleIsFirst(head, rules[1..]);
      i := i + 1;
      assert forall j :: 1 <= j < |rules| ==> rules[j] == rules[1..][j - 1];
    }
  }

  /** Each rule looks for something that begins with a byte that is not zero. */
  predicate Marked(rules: seq<Rule>) {
    forall i :: 0 <= i < |rules| ==> rules[i].magic != [] && rules[i].magic[0] != 0
  }

  lemma RulesAreMarked()
    ensures Marked(RULES)
  {
  }

  lemma {:induction false} FirstRuleSeesSomething(head: Bytes, rules: seq<Rule>)
    requires Marked(rules) && AllZero(head)
    ensures FirstRule(head, rules).None?
  {
    if rules != [] {
      FirstRuleSeesSomething(head, rules[1..]);
    }
  }

  /** Every mark begins with a byte that is not zero, so zeros carry none. */
  lemma ZerosHaveNoSignature(ends: Ends)
    requires AllZero(ends.head)
    ensures Signature(ends).None? && !Starts(ends.head, 0, SLAB_MAGIC)
  {
    RulesAreMarked();
    FirstRuleSeesSomething(ends.head, RULES);
    if |ends.head| >= 8 {
      assert ends.head[0..8][0] == ends.head[0];
    }
  }

  lemma ZerosHaveNoTailSignature(ends: Ends)
    requires AllZero(ends.tail)
    ensures TailSignature(ends).None?
  {
    var tail := ends.tail;
    if |tail| >= 512 {
      assert tail[|tail| - 512..|tail| - 504][0] == tail[|tail| - 512];
    }
    forall k | 0 <= k < |tail| / 4096 ensures tail[k * 4096..k * 4096 + 4] != MD_MAGIC {
      assert tail[k * 4096..k * 4096 + 4][0] == tail[k * 4096];
    }
  }

  /** A GPT is reported as one, whatever else the head holds behind a slab's own mark. */
  lemma GptIsNamed(ends: Ends)
    requires Starts(ends.head, 512, GPT_MAGIC) && !Starts(ends.head, 0, SLAB_MAGIC)
    ensures Signature(ends) == Some("GPT")
  {
    assert RULES[1..][0] == Rule(512, GPT_MAGIC, "GPT");
    assert FirstRule(ends.head, RULES) == FirstRule(ends.head, RULES[1..]);
  }

  // ------------------------------------------------------------------ which slab

  function IndexOfText(s: string, pattern: string): (i: nat)
    ensures i <= |s|
  {
    if pattern <= s || s == "" then 0 else 1 + IndexOfText(s[1..], pattern)
  }

  /** `split_once`, the part behind. */
  function Behind(s: string, pattern: string): Option<string> {
    var i := IndexOfText(s, pattern);
    if i + |pattern| <= |s| && pattern <= s[i..] then Some(s[i + |pattern|..]) else None
  }

  predicate IdChar(c: char) {
    '0' <= c <= '9' || 'a' <= c <= 'f' || 'A' <= c <= 'F' || c == '-'
  }

  function TakeId(s: string): string {
    if s == "" || !IdChar(s[0]) then "" else [s[0]] + TakeId(s[1..])
  }

  function TakeRole(s: string): string {
    if s == "" || s[0] == ',' || s[0] == ')' then "" else [s[0]] + TakeRole(s[1..])
  }

  /** A line that names a slab: its UUID and its role. */
  datatype SlabName = SlabName(id: string, role: string)

  function ParseSlabLine(line: string): Option<SlabName> {
    var rest := Behind(line, ": slab ");
    if rest.None? then None else
      var id := TakeId(rest.value);
      if |id| != 36 then None else
        var role := Behind(rest.value, "role=");
        var named := if role.Some? then Trim(TakeRole(role.value)) else "";
        Some(SlabName(id, if named != "" then named else "unknown"))
  }

  function FirstSlabLine(lines: seq<string>): Option<SlabName> {
    if lines == [] then None
    else if ParseSlabLine(lines[0]).Some? then ParseSlabLine(lines[0])
    else FirstSlabLine(lines[1..])
  }

  /** `identify_slab`, given what stormblock printed. */
  function IdentifySlab(answer: string): Option<SlabName> {
    FirstSlabLine(Lines(answer))
  }

  lemma {:induction false} IndexOfTextBehind(a: string, b: string, pattern: string)
    requires pattern != "" && pattern[0] !in a && pattern <= b
    ensures IndexOfText(a + b, pattern) == |a|
  {
    if a == "" {
      assert a + b == b;
    } else {
      assert (a + b)[1..] == a[1..] + b;
      assert (a + b)[0] != pattern[0];
      IndexOfTextBehind(a[1..], b, pattern);
    }
  }

  lemma AfterBehind(a: string, pattern: string, rest: string)
    requires pattern != "" && pattern[0] !in a
    ensures Behind(a + (pattern + rest), pattern) == Some(rest)
  {
    IndexOfTextBehind(a, pattern + rest, pattern);
    assert (a + (pattern + rest))[|a|..] == pattern + rest;
    assert (a + (pattern + rest))[|a| + |pattern|..] == rest;
  }

  lemma {:induction false} TakeIdAll(id: string, rest: string)
    requires (forall i :: 0 <= i < |id| ==> IdChar(id[i])) && rest != "" && !IdChar(rest[0])
    ensures TakeId(id + rest) == id
  {
    if id == "" {
      assert id + rest == rest;
    } else {
      assert (id + rest)[1..] == id[1..] + rest;
      TakeIdAll(id[1..], rest);
    }
  }

  lemma {:induction false} TakeRoleAll(role: string, rest: string)
    requires ',' !in role && ')' !in role && rest != "" && (rest[0] == ',' || rest[0] == ')')
    ensures TakeRole(role + rest) == role
  {
    if role == "" {
      assert role + rest == rest;
    } else {
      assert (role + rest)[1..] == role[1..] + rest;
      TakeRoleAll(role[1..], rest);
    }
  }

  /** The line stormblock prints for a slab is read back as that slab, whatever follows the role. */
  lemma SlabLineReadsBack(device: string, id: string, role: string, rest: string)
    requires ':' !in device
    requires |id| == 36 && forall i :: 0 <= i < |id| ==> IdChar(id[i])
    requires role != "" && Trimmed(role) && ',' !in role && ')' !in role
    requires rest != "" && (rest[0] == ',' || rest[0] == ')')
    ensures ParseSlabLine(device + (": slab " + (id + " (" + ("role=" + (role + rest)))))
            == Some(SlabName(id, role))
  {
    var inner := id + " (" + ("role=" + (role + rest));
    AfterBehind(device, ": slab ", inner);
    var opening := " (" + ("role=" + (role + rest));
    assert inner == id + opening;
    TakeIdAll(id, opening);
    assert forall c :: c in id + " (" ==> c in id || c == ' ' || c == '(';
    AfterBehind(id + " (", "role=", role + rest);
    TakeRoleAll(role, rest);
    TrimLeavesTrimmed(role);
  }

  // ------------------------------------------------------------------ the drive

  /** A device node: its bytes, when it can be opened and read, and what stormblock says about it. */
  datatype Node = Node(path: string, bytes: Result<Bytes>, answer: string)

  /** What `look_at` is handed about a drive; partitions are in the order of their names. */
  datatype Device = Device(
    size: nat, removable: bool, remote: Option<string>, whole: Node, parts: seq<Node>)

  datatype Machine = Machine(identity: Option<string>, stormblock: bool)

  /** `sniff` of a node, which cannot be read when it cannot be opened. */
  function Sniffed(n: Node): Result<Ends> {
    if n.bytes.Err? then Err else EndsOf(n.bytes.value)
  }

  predicate BearsSlab(n: Node) {
    Sniffed(n).Ok? && Starts(Sniffed(n).value.head, 0, SLAB_MAGIC)
  }

  /** The first node that bears a slab's mark. */
  function FirstSlab(nodes: seq<Node>): Option<Node> {
    if nodes == [] then None
    else if BearsSlab(nodes[0]) then Some(nodes[0])
    else FirstSlab(nodes[1..])
  }

  /** A claim that can be checked and names somebody else. */
  predicate ClaimedByAnother(m: Machine, found: Option<Esp>) {
    && found.Some? && found.value.claim.Some? && m.identity.Some?
    && found.value.claim.value.node != m.identity.value
  }

  function SlabVerdict(m: Machine, d: Device, found: Option<Esp>, n: Node): Verdict {
    if !m.stormblock then Foreign(UnnamedSlab(n.path))
    else if IdentifySlab(n.answer).None? then Foreign(RefusedSlab(n.path))
    else
      var slab := IdentifySlab(n.answer).value;
      if d.remote.Some? then AnotherNode(slab.id, Transport(d.remote.value))
      else if ClaimedByAnother(m, found) then AnotherNode(slab.id, ClaimedBy(found.value.claim.value.node))
      else Mine(slab.id, slab.role, n.path)
  }

  /** What a drive without a slab is. */
  function PlainVerdict(d: Device): Verdict
    requires Sniffed(d.whole).Ok?
  {
    var ends := Sniffed(d.whole).value;
    var name := if Signature(ends).Some? then Signature(ends) else TailSignature(ends);
    if d.remote.Some? then Foreign(AttachedOver(d.remote.value))
    else if d.parts != [] then
      Foreign(Partitioned(if Signature(ends).Some? then Signature(ends).value else "partition table", |d.parts|))
    else if name.Some? then Foreign(Named(name.value))
    else
      var found := ScanOf(d.whole.bytes.value);
      if found.None? then Blank else Foreign(DataAt(found.value))
  }

  function VerdictOf(m: Machine, d: Device, found: Option<Esp>): Verdict {
    if d.size == 0 then Unreadable(NoMedium)
    else if d.removable then Foreign(Removable)
    else if Sniffed(d.whole).Err? then Unreadable(ReadFailed)
    else
      var slab := FirstSlab([d.whole] + d.parts);
      if slab.Some? then SlabVerdict(m, d, found, slab.value) else PlainVerdict(d)
  }

  method SniffNode(n: Node, steady: bool) returns (r: Result<Ends>)
    ensures r.Ok? || steady ==> r == Sniffed(n)
  {
    if n.bytes.Err? { return Err; }
    var f := new File(n.bytes.value, true, steady);
    r := f.Sniff();
  }

  method ScanNode(n: Node, steady: bool) returns (r: Result<Option<nat>>)
    ensures r.Ok? || steady ==> r == if n.bytes.Err? then Err else Ok(ScanOf(n.bytes.value))
  {
    if n.bytes.Err? { return Err; }
    var f := new File(n.bytes.value, true, steady);
    ghost var samples;
    r, samples := f.FirstNonzero();
  }

  /** What stands behind a verdict of Mine even when reads fail: some node bears the slab it names, the
      drive is plugged in here, and no claim that can be checked names another. */
  predicate Backed(m: Machine, d: Device, found: Option<Esp>, v: Verdict) {
    && d.size != 0 && !d.removable && d.remote.None? && m.stormblock && !ClaimedByAnother(m, found)
    && exists n :: n in [d.whole] + d.parts && BearsSlab(n) && v == SlabVerdict(m, d, found, n)
  }

  /** `judge`. Reads of a device that opened may come short, and unless all is steady they may fail as
      well: then the verdict can differ, but never so that a drive that is not blank is called blank, or
      one is called ours that bears no slab of ours. */
  method Judge(m: Machine, d: Device, found: Option<Esp>, steady: bool) returns (v: Verdict)
    ensures steady ==> v == VerdictOf(m, d, found)
    ensures v.Blank? ==> VerdictOf(m, d, found).Blank?
    ensures v.Mine? ==> Backed(m, d, found, v)
  {
    if d.size == 0 { return Unreadable(NoMedium); }
    if d.removable { return Foreign(Removable); }
    var probes := [d.whole] + d.parts;
    for i := 0 to |probes|
      invariant i > 0 ==> Sniffed(d.whole).Ok? && !BearsSlab(d.whole)
      invariant steady ==> FirstSlab(probes) == FirstSlab(probes[i..])
    {
      var n := probes[i];
      assert probes[i..][0] == n && probes[i..][1..] == probes[i + 1..];
      var sniffed := SniffNode(n, steady);
      if sniffed.Err? {
        if i == 0 { return Unreadable(ReadFailed); }
        continue;
      }
      if !Starts(sniffed.value.head, 0, SLAB_MAGIC) { continue; }
      assert n in probes && BearsSlab(n);
      if !m.stormblock { return Foreign(UnnamedSlab(n.path)); }
      var slab := IdentifySlab(n.answer);
      if slab.None? { return Foreign(RefusedSlab(n.path)); }
      if d.remote.Some? { return AnotherNode(slab.value.id, Transport(d.remote.value)); }
      if ClaimedByAnother(m, found) {
        return AnotherNode(slab.value.id, ClaimedBy(found.value.claim.value.node));
      }
      return Mine(slab.value.id, slab.value.role, n.path);
    }
    if d.remote.Some? { return Foreign(AttachedOver(d.remote.value)); }
    var sniffed := SniffNode(d.whole, steady);
    if sniffed.Err? { return Unreadable(ReadFailed); }
    if d.parts != [] {
      var table := Signature(sniffed.value);
      return Foreign(Partitioned(if table.Some? then table.value else "partition table", |d.parts|));
    }
    assert [d.whole] + d.parts == [d.whole] && FirstSlab([d.whole]).None?;
    var name := Signature(sniffed.value);
    if name.None? { name := TailSignature(sniffed.value); }
    if name.Some? { return Foreign(Named(name.value)); }
    var scan := ScanNode(d.whole, steady);
    match scan {
      case Err => return Unreadable(ReadFailed);
      case Ok(None) => return Blank;
      case Ok(Some(off)) => return Foreign(DataAt(off));
    }
  }

  // ------------------------------------------------------------------ what the verdicts mean

  lemma {:induction false} FirstSlabIsFirst(nodes: seq<Node>) returns (i: nat)
    ensures FirstSlab(nodes).None? <==> forall k :: 0 <= k < |nodes| ==> !BearsSlab(nodes[k])
    ensures FirstSlab(nodes).Some? ==>
              i < |nodes| && FirstSlab(nodes).value == nodes[i] && BearsSlab(nodes[i])
              && forall k :: 0 <= k < i ==> !BearsSlab(nodes[k])
  {
    i := 0;
    if nodes != [] && !BearsSlab(nodes[0]) {
      i := FirstSlabIsFirst(nodes[1..]);
      i := i + 1;
      assert forall k :: 1 <= k < |nodes| ==> nodes[k] == nodes[1..][k - 1];
    }
  }

  /** The head and the tail that are sniffed lie inside what the scan covers. */
  lemma EndsAreCovered(bytes: Bytes)
    requires bytes != [] && AllCoveredZero(bytes)
    ensures AllZero(EndsOf(bytes).value.head) && AllZero(EndsOf(bytes).value.tail)
  {
    var ends := EndsOf(bytes).value;
    forall i | 0 <= i < |ends.head| ensures ends.head[i] == 0 {
      assert Covered(|bytes|, i);
    }
    forall i | 0 <= i < |ends.tail| ensures ends.tail[i] == 0 {
      assert Covered(|bytes|, |bytes| - TAIL + i);
      assert ends.tail[i] == bytes[|bytes| - TAIL + i];
    }
  }

  /** Blank, the one verdict that leads to a format, is reached exactly when the drive has a medium, is
      not removable, came over nothing, has no partitions, reads, and every covered byte is zero. The
      tables of signatures do not enter into it. */
  lemma BlankExactly(m: Machine, d: Device, found: Option<Esp>)
    ensures VerdictOf(m, d, found) == Blank <==>
              && d.size != 0 && !d.removable && d.remote.None? && d.parts == []
              && d.whole.bytes.Ok? && d.whole.bytes.value != [] && AllCoveredZero(d.whole.bytes.value)
  {
    if d.whole.bytes.Ok? && d.whole.bytes.value != [] {
      ScanIsExact(d.whole.bytes.value);
      if AllCoveredZero(d.whole.bytes.value) {
        EndsAreCovered(d.whole.bytes.value);
        ZerosHaveNoSignature(Sniffed(d.whole).value);
        ZerosHaveNoTailSignature(Sniffed(d.whole).value);
        if d.parts == [] {
          assert [d.whole] + d.parts == [d.whole];
          var i := FirstSlabIsFirst([d.whole]);
        }
      }
    }
  }

  /** A GPT header where one belongs: at LBA 1, or in the last block. */
  predicate ShowsGpt(bytes: Bytes) {
    && |bytes| >= 1024
    && (bytes[512..520] == GPT_MAGIC || bytes[|bytes| - 512..|bytes| - 504] == GPT_MAGIC)
  }

  /** A drive with a partition table is never blank, however short it is and whatever follows the
      header. */
  lemma GptIsNeverBlank(m: Machine, d: Device, found: Option<Esp>)
    requires d.whole.bytes.Ok? && ShowsGpt(d.whole.bytes.value)
    ensures VerdictOf(m, d, found) != Blank
  {
    var bytes := d.whole.bytes.value;
    BlankExactly(m, d, found);
    assert Covered(|bytes|, 512) && Covered(|bytes|, |bytes| - 512);
    assert bytes[512..520] == GPT_MAGIC ==> bytes[512] == bytes[512..520][0];
    assert bytes[|bytes| - 512..|bytes| - 504] == GPT_MAGIC ==>
             bytes[|bytes| - 512] == bytes[|bytes| - 512..|bytes| - 504][0];
  }

  /** Node `i` bears a slab that stormblock names, and no node before it bears one. */
  predicate FirstNamedSlab(nodes: seq<Node>, i: nat) {
    && i < |nodes| && BearsSlab(nodes[i]) && IdentifySlab(nodes[i].answer).Some?
    && forall k :: 0 <= k < i ==> !BearsSlab(nodes[k])
  }

  lemma FirstSlabNamed(nodes: seq<Node>)
    ensures (FirstSlab(nodes).Some? && IdentifySlab(FirstSlab(nodes).value.answer).Some?) <==>
              exists i: nat :: FirstNamedSlab(nodes, i)
  {
    var i := FirstSlabIsFirst(nodes);
    if FirstSlab(nodes).Some? && IdentifySlab(FirstSlab(nodes).value.answer).Some? {
      assert FirstNamedSlab(nodes, i);
    }
    if j: nat :| FirstNamedSlab(nodes, j) {
      assert !(i < j) && !(j < i);
    }
  }

  lemma MineByFirstSlab(m: Machine, d: Device, found: Option<Esp>)
    ensures var first := FirstSlab([d.whole] + d.parts);
            VerdictOf(m, d, found).Mine? <==>
              && d.size != 0 && !d.removable && d.remote.None? && Sniffed(d.whole).Ok?
              && m.stormblock && !ClaimedByAnother(m, found)
              && first.Some? && IdentifySlab(first.value.answer).Some?
  {
  }

  /** A drive is ours exactly when the first of its nodes that bears a slab's mark is named by
      stormblock, the drive is plugged in here, and no claim that can be checked names another. */
  lemma MineExactly(m: Machine, d: Device, found: Option<Esp>)
    ensures VerdictOf(m, d, found).Mine? <==>
              && d.size != 0 && !d.removable && d.remote.None? && Sniffed(d.whole).Ok?
              && m.stormblock && !ClaimedByAnother(m, found)
              && exists i: nat :: FirstNamedSlab([d.whole] + d.parts, i)
  {
    MineByFirstSlab(m, d, found);
    FirstSlabNamed([d.whole] + d.parts);
  }

  /** A claim naming another is decisive: what would be ours is that node's. */
  lemma ClaimIsDecisive(m: Machine, d: Device, found: Option<Esp>, slabId: string, role: string, slab: string)
    requires ClaimedByAnother(m, found)
    requires VerdictOf(m, d, None) == Mine(slabId, role, slab)
    ensures VerdictOf(m, d, found) == AnotherNode(slabId, ClaimedBy(found.value.claim.value.node))
  {
  }

  // ------------------------------------------------------------------ the same drive elsewhere

  predicate SameButPath(a: Node, b: Node) {
    a.bytes == b.bytes && a.answer == b.answer
  }

  predicate AllSameButPath(a: seq<Node>, b: seq<Node>) {
    |a| == |b| && forall i :: 0 <= i < |a| ==> SameButPath(a[i], b[i])
  }

  lemma {:induction false} FirstSlabMoves(a: seq<Node>, b: seq<Node>)
    requires AllSameButPath(a, b)
    ensures FirstSlab(a).Some? <==> FirstSlab(b).Some?
    ensures FirstSlab(a).Some? ==> SameButPath(FirstSlab(a).value, FirstSlab(b).value)
  {
    if a != [] && !BearsSlab(a[0]) {
      assert forall i :: 0 <= i < |a| - 1 ==> a[1..][i] == a[i + 1] && b[1..][i] == b[i + 1];
      FirstSlabMoves(a[1..], b[1..]);
    }
  }

  /** Where no claim is seen that names another, a drive is ours wherever it is plugged in and whoever we
      are, with the slab it has. */
  lemma VerdictMoves(m: Machine, n: Machine, d: Device, e: Device, found: Option<Esp>)
    requires m.stormblock == n.stormblock && !ClaimedByAnother(m, found) && !ClaimedByAnother(n, found)
    requires d.size == e.size && d.removable == e.removable && d.remote.None? && e.remote.None?
    requires SameButPath(d.whole, e.whole) && AllSameButPath(d.parts, e.parts)
    ensures var v, w := VerdictOf(m, d, found), VerdictOf(n, e, found);
            && (v.Mine? <==> w.Mine?)
            && (v.Mine? ==> v.slabId == w.slabId && v.role == w.role)
  {
    FirstSlabMoves([d.whole] + d.parts, [e.whole] + e.parts);
  }

  // ------------------------------------------------------------------ to the letter

  /** Who the machine is, exactly when the firmware says something and it is none of the placeholders, in
      whatever case they are written. */
  lemma IdentityExactly(serial: string)
    ensures var name, lower := Trim(serial), AsciiLower(Trim(serial));
            MachineIdentity(Some(serial)) ==
              if name == "" || lower == "not specified" || lower == "to be filled by o.e.m." || lower == "default string"
                 || lower == "system serial number" || lower == "none" || lower == "0" || lower == "unknown"
              then None else Some(name)
  {
    assert NOT_AN_IDENTITY[0] == "not specified" && NOT_AN_IDENTITY[1] == "to be filled by o.e.m.";
    assert NOT_AN_IDENTITY[2] == "system serial number" && NOT_AN_IDENTITY[3] == "default string";
    assert NOT_AN_IDENTITY[4] == "none" && NOT_AN_IDENTITY[5] == "0" && NOT_AN_IDENTITY[6] == "unknown";
  }

  /** The bytes at an offset are those of a string. */
  predicate At(head: Bytes, off: nat, mark: string) {
    off + |mark| <= |head| && forall i :: 0 <= i < |mark| ==> head[off + i] as int == mark[i] as int
  }

  datatype Mark = Mark(off: nat, text: string, name: string)

  /** What the head of a drive is named by, in the order the marks are tried, in text as far as they are. */
  const MARKS: seq<Mark> := [
    Mark(0, "STRMSLAB", "stormblock slab"),
    Mark(512, "EFI PART", "GPT"),
    Mark(0, "LUKS\U{ba}\U{be}", "LUKS"),
    Mark(0, "XFSB", "XFS"),
    Mark(3, "NTFS    ", "NTFS"),
    Mark(3, "EXFAT   ", "exFAT"),
    Mark(65_600, "_BHRfS_M", "btrfs"),
    Mark(1024, "H+", "HFS+"),
    Mark(32, "NXSB", "APFS"),
    Mark(32_769, "CD001", "ISO 9660"),
    Mark(4086, "SWAPSPACE2", "swap"),
    Mark(4086, "SWAP-SPACE", "swap"),
    Mark(54, "FAT1", "FAT"),
    Mark(82, "FAT32", "FAT32"),
    Mark(1080, "S\U{ef}", "ext2/3/4"),
    Mark(0, "LABELONE", "LVM2 physical volume"),
    Mark(512, "LABELONE", "LVM2 physical volume"),
    Mark(1024, "LABELONE", "LVM2 physical volume"),
    Mark(1536, "LABELONE", "LVM2 physical volume"),
    Mark(0, "\U{fc}N+\U{a9}", "Linux md RAID member"),
    Mark(4096, "\U{fc}N+\U{a9}", "Linux md RAID member"),
    Mark(131_072, "\U{0c}\U{b1}\U{ba}\U{00}", "ZFS vdev"),
    Mark(510, "U\U{aa}", "MBR partition table")]

  predicate SameMark(rule: Rule, mark: Mark) {
    && rule.off == mark.off && rule.name == mark.name && |rule.magic| == |mark.text|
    && forall i :: 0 <= i < |mark.text| ==> rule.magic[i] as int == mark.text[i] as int
  }

  lemma FirstMarksAreRules()
    ensures |RULES| == |MARKS| == 23 && forall k :: 0 <= k < 12 ==> SameMark(RULES[k], MARKS[k])
  {
  }

  lemma LastMarksAreRules()
    ensures |RULES| == |MARKS| == 23 && forall k :: 12 <= k < 23 ==> SameMark(RULES[k], MARKS[k])
  {
  }

  lemma MarksAreRules()
    ensures |RULES| == |MARKS| && forall k :: 0 <= k < |MARKS| ==> SameMark(RULES[k], MARKS[k])
  {
    FirstMarksAreRules();
    LastMarksAreRules();
  }

  lemma StartsAt(head: Bytes, rule: Rule, mark: Mark)
    requires SameMark(rule, mark)
    ensures Starts(head, rule.off, rule.magic) <==> At(head, mark.off, mark.text)
  {
    var off, magic := rule.off, rule.magic;
    if off + |magic| <= |head| {
      var part := head[off..off + |magic|];
      assert forall i :: 0 <= i < |part| ==> part[i] == head[off + i];
      if At(head, off, mark.text) {
        assert part == magic;
      }
    }
  }

  /** Mark `k` is on the head and none tried before it is. */
  predicate FirstMark(head: Bytes, k: nat) {
    && k < |MARKS| && At(head, MARKS[k].off, MARKS[k].text)
    && forall j :: 0 <= j < k ==> !At(head, MARKS[j].off, MARKS[j].text)
  }

  /** The name a drive goes by is that of the first mark on its head. */
  lemma SignatureByMark(ends: Ends) returns (k: nat)
    ensures Signature(ends).Some? ==> FirstMark(ends.head, k) && Signature(ends).value == MARKS[k].name
    ensures Signature(ends).None? ==> forall j :: 0 <= j < |MARKS| ==> !At(ends.head, MARKS[j].off, MARKS[j].text)
  {
    MarksAreRules();
    k := FirstRuleIsFirst(ends.head, RULES);
    forall j | 0 <= j < |MARKS|
      ensures Starts(ends.head, RULES[j].off, RULES[j].magic) <==> At(ends.head, MARKS[j].off, MARKS[j].text)
    {
      StartsAt(ends.head, RULES[j], MARKS[j]);
    }
  }

  /** What the end of a drive is named by: the header of a GPT in the last block, and otherwise the mark of
      md RAID at the start of one of the 4 KiB pieces. */
  lemma TailByMark(ends: Ends)
    ensures var gpt := |ends.tail| >= 512 && At(ends.tail, |ends.tail| - 512, "EFI PART");
            var md := exists k :: 0 <= k < |ends.tail| / 4096 && MdMarkAt(ends.tail, k);
            TailSignature(ends) ==
              if gpt then Some("GPT (backup header only)")
              else if md then Some("Linux md RAID member (superblock at the end)") else None
  {
    var tail := ends.tail;
    if |tail| >= 512 {
      BytesAreText(tail, |tail| - 512, GPT_MAGIC, "EFI PART");
    }
    forall k | 0 <= k < |tail| / 4096 ensures MdMarkAt(tail, k) <==> tail[k * 4096..k * 4096 + 4] == MD_MAGIC {
      BytesAreText(tail, k * 4096, MD_MAGIC, "\U{fc}N+\U{a9}");
    }
    if MdInTail(tail) {
      var k :| 0 <= k < |tail| / 4096 && tail[k * 4096..k * 4096 + 4] == MD_MAGIC;
      assert MdMarkAt(tail, k);
    }
  }

  predicate MdMarkAt(tail: Bytes, k: nat) {
    At(tail, k * 4096, "\U{fc}N+\U{a9}")
  }

  lemma BytesAreText(s: Bytes, off: nat, magic: Bytes, text: string)
    requires |magic| == |text| && off + |magic| <= |s|
    requires forall i :: 0 <= i < |text| ==> magic[i] as int == text[i] as int
    ensures s[off..off + |magic|] == magic <==> At(s, off, text)
  {
    StartsAt(s, Rule(off, magic, ""), Mark(off, text, ""));
  }

  // ------------------------------------------------------------------ which slab, to the letter

  lemma {:induction false} TakeIdTakesIds(s: string)
    ensures TakeId(s) <= s && forall i :: 0 <= i < |TakeId(s)| ==> IdChar(s[i])
    ensures |TakeId(s)| < |s| ==> !IdChar(s[|TakeId(s)|])
  {
    if s != "" && IdChar(s[0]) {
      TakeIdTakesIds(s[1..]);
      assert s == [s[0]] + s[1..];
    }
  }

  /** The role stands in front of the first comma or parenthesis, blanks apart; where there is none to be
      had it is unknown. */
  predicate RoleIs(behind: Option<string>, role: string) {
    match behind
    case None => role == "unknown"
    case Some(s) =>
      var n := RoleEnd(s);
      role == if Trim(s[..n]) == "" then "unknown" else Trim(s[..n])
  }

  /** Where the first comma or parenthesis is, or the end. */
  function RoleEnd(s: string): (n: nat)
    ensures n <= |s|
  {
    var comma, parenthesis := IndexOf(s, ','), IndexOf(s, ')');
    if comma < parenthesis then comma else parenthesis
  }

  lemma {:induction false} TakeRoleEnds(s: string)
    ensures TakeRole(s) == s[..RoleEnd(s)]
  {
    if s != "" && s[0] != ',' && s[0] != ')' {
      TakeRoleEnds(s[1..]);
      assert s[..RoleEnd(s)] == [s[0]] + s[1..][..RoleEnd(s[1..])];
    }
  }

  /** Only a UUID names a slab: 36 characters of hexadecimal and dashes right behind the words, and no
      more of them; and the role is what stands behind `role=` up to a comma or a parenthesis, trimmed, or
      unknown. */
  lemma OnlyUuidsNameSlabs(line: string)
    ensures var rest := Behind(line, ": slab ");
            && (ParseSlabLine(line).Some? <==>
                  && rest.Some? && |rest.value| >= 36 && (forall i :: 0 <= i < 36 ==> IsUuidChar(rest.value[i]))
                  && (|rest.value| > 36 ==> !IsUuidChar(rest.value[36])))
            && (ParseSlabLine(line).Some? ==>
                  && ParseSlabLine(line).value.id == rest.value[..36]
                  && ParseSlabLine(line).value.role != ""
                  && RoleIs(Behind(rest.value, "role="), ParseSlabLine(line).value.role))
  {
    var rest := Behind(line, ": slab ");
    if rest.Some? {
      TakeIdTakesIds(rest.value);
      if Behind(rest.value, "role=").Some? {
        TakeRoleEnds(Behind(rest.value, "role=").value);
      }
      var n := |TakeId(rest.value)|;
      assert TakeId(rest.value) == rest.value[..n];
      if n > 36 {
        assert IsUuidChar(rest.value[36]);
      }
    }
  }

  predicate IsUuidChar(c: char) {
    '0' <= c <= '9' || 'a' <= c <= 'f' || 'A' <= c <= 'F' || c == '-'
  }
}
