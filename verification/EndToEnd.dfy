/** A disk `boot-image` laid out, in the bay of the machine that boots it. */
module EndToEnd {
  import opened Text
  import opened Utf8
  import opened Claims
  import opened Scan
  import opened Layout
  import opened Image
  import opened Esp
  import opened BootImage
  import opened Survey
  import opened Probe
  import opened Shell
  import opened Clock
  import opened Decision
  import opened Reboot
  import opened Ownership

  /** The disk as it was built: a readable GPT disk whose first partition is the ESP and whose second is
      the slab, whatever the kernel calls them. */
  predicate LaidOut(disk: Disk, spec: Spec, slab: SlabName) {
    disk.esp == Mounted(Built(spec)) && CarriesSlab(disk, slab)
  }

  predicate CarriesSlab(disk: Disk, slab: SlabName) {
    && disk.size != 0 && !disk.removable
    && disk.bytes.Ok? && ShowsGpt(disk.bytes.value)
    && !Starts(EndsOf(disk.bytes.value).value.head, 0, SLAB_MAGIC)
    && |disk.parts| == 2
    && !BearsSlab(Node("", disk.parts[0].bytes, ""))
    && BearsSlab(Node("", disk.parts[1].bytes, ""))
    && IdentifySlab(disk.parts[1].answer) == Some(slab)
  }

  /** What stormblock prints for a slab. */
  function Printed(slab: SlabName): string {
    "slab" + (": slab " + (slab.id + " (" + ("role=" + (slab.role + ")"))))
  }

  predicate Printable(slab: SlabName) {
    && |slab.id| == 36 && (forall i :: 0 <= i < |slab.id| ==> IdChar(slab.id[i]))
    && slab.role != "" && Trimmed(slab.role) && ',' !in slab.role && ')' !in slab.role && '\n' !in slab.role
  }

  lemma OneLine(line: string)
    requires line != "" && '\n' !in line
    ensures IdentifySlab(line) == ParseSlabLine(line)
  {
    IndexOfIsFirst(line, '\n');
    assert Lines(line) == [line];
    assert FirstSlabLine([line][1..]) == None;
  }

  lemma PrintedIsOneLine(slab: SlabName)
    requires Printable(slab)
    ensures Printed(slab) != "" && '\n' !in Printed(slab)
  {
    assert '\n' !in slab.id;
    var end := "role=" + (slab.role + ")");
    assert '\n' !in end;
    assert '\n' !in slab.id + " (" + end;
  }

  lemma PrintedNamesSlab(slab: SlabName)
    requires Printable(slab)
    ensures IdentifySlab(Printed(slab)) == Some(slab)
  {
    PrintedIsOneLine(slab);
    OneLine(Printed(slab));
    SlabLineReadsBack("slab", slab.id, slab.role, ")");
  }

  // ------------------------------------------------------------------ from the image to the disk

  /** The disk an image makes, its partitions the ranges of it that the plan says, named as the kernel
      pleases. What the FAT bytes hold as files stands beside them. */
  function DiskOf(image: Bytes, plan: Plan, esp: string, slab: string, answer: string, spec: Spec): Disk
    requires plan.esp.End() * BLOCK <= |image| && plan.slab.End() * BLOCK <= |image|
  {
    Disk(|image|, false, false, Ok(image), "",
         [Part(esp, Ok(PartBytes(image, plan.esp)), ""), Part(slab, Ok(PartBytes(image, plan.slab)), answer)],
         Mounted(Built(spec)))
  }

  /** FAT starts with a jump, and so not as a slab does. */
  predicate LooksLikeFat(fat: Bytes) {
    fat != [] && (fat[0] == 0xEB || fat[0] == 0xE9)
  }

  lemma OtherStartsBearNoSlab(bytes: Bytes)
    requires bytes != [] && bytes[0] != SLAB_MAGIC[0]
    ensures !Starts(EndsOf(bytes).value.head, 0, SLAB_MAGIC)
  {
    var head := EndsOf(bytes).value.head;
    if |head| >= 8 {
      assert head[0..8][0] == bytes[0];
    }
  }

  lemma PayloadBearsSlab(bytes: Bytes, payload: Bytes)
    requires |payload| <= |bytes| && bytes[..|payload|] == payload && SLAB_MAGIC <= payload
    ensures BearsSlab(Node("", Ok(bytes), ""))
  {
    assert bytes[..8] == bytes[..|payload|][..8] == SLAB_MAGIC;
    assert EndsOf(bytes).value.head[0..8] == bytes[..8];
  }

  /** An image laid by the plan, with a slab for payload that stormblock names, is a disk as built. */
  lemma ImageIsLaidOut(plan: Plan, table: Table, fat: Bytes, payload: Bytes, esp: string, part: string, answer: string,
                       spec: Spec, slab: SlabName)
    requires Fitting(plan, table, fat, payload) && LooksLikeFat(fat) && SLAB_MAGIC <= payload
    requires IdentifySlab(answer) == Some(slab)
    ensures var image := ImageOf(plan, table, fat, payload);
            && plan.esp.End() * BLOCK <= |image| && plan.slab.End() * BLOCK <= |image|
            && LaidOut(DiskOf(image, plan, esp, part, answer, spec), spec, slab)
  {
    var image := ImageOf(plan, table, fat, payload);
    ImageHasItsParts(plan, table, fat, payload);
    OtherStartsBearNoSlab(image);
    OtherStartsBearNoSlab(fat);
    PayloadBearsSlab(PartBytes(image, plan.slab), payload);
  }

  /** A table with nothing in it but its headers, and an ESP with nothing in it but its jump. */
  function PlainTable(): Table {
    Table(seq(FIRST_USABLE * BLOCK, i requires 0 <= i < FIRST_USABLE * BLOCK =>
            if 512 <= i < 520 then GPT_MAGIC[i - 512] else 0),
          seq(33 * BLOCK, i requires 0 <= i < 33 * BLOCK =>
            if 32 * BLOCK <= i < 32 * BLOCK + 8 then GPT_MAGIC[i - 32 * BLOCK] else 0))
  }

  function PlainFat(espMib: nat): Bytes {
    seq(espMib * MIB, i requires 0 <= i < espMib * MIB => if i == 0 then 0xEB else 0)
  }

  lemma PlainTableIsValid()
    ensures PlainTable().Valid()
  {
    assert PlainTable().front[512..520] == GPT_MAGIC;
    assert PlainTable().back[32 * BLOCK..32 * BLOCK + 8] == GPT_MAGIC;
  }

  /** Such images exist, for every ESP size, every slab stormblock can print and every payload that is
      one. */
  lemma EverySlabCanBeLaidOut(espMib: nat, payload: Bytes, spec: Spec, slab: SlabName)
    requires espMib >= 64 && SLAB_MAGIC <= payload && Printable(slab)
    ensures var plan := PlanOf(espMib, |payload|);
            && Fitting(plan, PlainTable(), PlainFat(espMib), payload)
            && var image := ImageOf(plan, PlainTable(), PlainFat(espMib), payload);
            && plan.esp.End() * BLOCK <= |image| && plan.slab.End() * BLOCK <= |image|
            && LaidOut(DiskOf(image, plan, "1", "2", Printed(slab), spec), spec, slab)
  {
    var plan, fat := PlanOf(espMib, |payload|), PlainFat(espMib);
    PlanIsSound(espMib, |payload|);
    PlainTableIsValid();
    PrintedNamesSlab(slab);
    PlanFits(espMib, |payload|);
    ImageIsLaidOut(plan, PlainTable(), fat, payload, "1", "2", Printed(slab), spec, slab);
  }

  lemma PlanFits(espMib: nat, slabBytes: nat)
    ensures PlanOf(espMib, slabBytes).esp.size * BLOCK == espMib * MIB
    ensures espMib * MIB % MIB == 0 && espMib * MIB / MIB == espMib
  {
  }

  /** The device of the slab partition. */
  function SlabPath(bay: Bay, disk: Disk): string
    requires |disk.parts| == 2
  {
    bay.path + disk.parts[1].suffix
  }

  lemma CarriedSlabIsMine(m: Machine, bay: Bay, disk: Disk, slab: SlabName, found: Option<Esp>)
    requires CarriesSlab(disk, slab) && m.stormblock && bay.remote.None? && !ClaimedByAnother(m, found)
    ensures VerdictOf(m, DeviceIn(bay, disk), found) == Mine(slab.id, slab.role, SlabPath(bay, disk))
  {
    var d := DeviceIn(bay, disk);
    var nodes := [d.whole] + d.parts;
    assert nodes == [d.whole, d.parts[0], d.parts[1]];
    assert nodes[1..] == [d.parts[0], d.parts[1]] && nodes[1..][1..] == [d.parts[1]];
    assert FirstSlab(nodes) == FirstSlab(nodes[1..]) == FirstSlab(nodes[1..][1..]) == Some(d.parts[1]);
  }

  lemma NothingLost(fs: Fs)
    ensures Seen(fs, {}) == fs
  {
  }

  lemma FoundOnBuilt(disk: Disk, spec: Spec)
    requires disk.esp == Mounted(Built(spec))
    ensures FoundOn(disk, Yields({})) == Some(EspOf(Built(spec)))
    ensures !HasClaim(FoundOn(disk, Yields({})))
  {
    NothingLost(Built(spec));
    BuiltDiskReadsBack(spec);
  }

  /** A disk just built is ours, with its slab on the second partition. */
  lemma LaidOutIsMine(m: Machine, bay: Bay, disk: Disk, spec: Spec, slab: SlabName)
    requires LaidOut(disk, spec, slab) && m.stormblock && bay.remote.None?
    ensures LookAt(m, bay, disk, Yields({})).verdict == Mine(slab.id, slab.role, SlabPath(bay, disk))
  {
    FoundOnBuilt(disk, spec);
    CarriedSlabIsMine(m, bay, disk, slab, FoundOn(disk, Yields({})));
  }

  predicate BothText(spec: Spec) {
    IsText(spec.kernel) && IsText(spec.initramfs)
  }

  lemma LaidOutBootsWhenText(m: Machine, bay: Bay, disk: Disk, spec: Spec, slab: SlabName)
    requires LaidOut(disk, spec, slab) && Nameable(spec) && m.stormblock && bay.remote.None?
    ensures var d := LookAt(m, bay, disk, Yields({}));
            && d.path == bay.path
            && (d.Boots() <==> BothText(spec))
            && (d.Boots() ==> VolumeNamed(d) == spec.volume)
  {
    FoundOnBuilt(disk, spec);
    BuiltDiskReadsBack(spec);
  }

  /** A machine whose one drive is such a disk boots off its slab partition, into its volume, exactly
      when kernel and initramfs are UTF-8 text; when they are not, the node asks the appliance for what
      it has, and offers nothing. */
  lemma BuiltDiskBootsExactlyWhenText(m: Machine, bay: Bay, disks: map<nat, Disk>, spec: Spec, slab: SlabName, o: Occasion)
    requires bay.disk in disks && LaidOut(disks[bay.disk], spec, slab) && Nameable(spec)
    requires m.stormblock && bay.remote.None? && o.lists && ReadingOf(o, 0) == Yields({})
    ensures var b := BootOf(m, [bay], disks, o);
            if BothText(spec)
            then b.code == 0 && b.from == Some(0)
                 && b.pairs == LocalPairs(bay.path, SlabPath(bay, disks[bay.disk]), slab.id, spec.volume)
            else b.code == 2 && b.pairs == AskPairs(o.reason, "")
  {
    var disk := disks[bay.disk];
    var d := LookAt(m, bay, disk, Yields({}));
    LaidOutIsMine(m, bay, disk, spec, slab);
    LaidOutBootsWhenText(m, bay, disk, spec, slab);
    if BothText(spec) {
      LoneDriveBoots(m, bay, disks, o);
    } else {
      assert SurveyOf(m, [bay], disks, o) == [d];
      OnlyDrive(d);
    }
  }

  // ------------------------------------------------------------------ the disk's life

  lemma BootClaimsItsDrive(m: Machine, bay: Bay, disks: map<nat, Disk>, o: Occasion)
    requires bay.disk in disks && Claimable(m, disks[bay.disk], FoundOn(disks[bay.disk], ReadingOf(o, 0))) && Smooth(o)
    requires BootOf(m, [bay], disks, o).from == Some(0)
    ensures var b := BootOf(m, [bay], disks, o);
            b.wrote && b.disks == disks[bay.disk := Claimed(disks[bay.disk], m.identity.value, o.t)]
  {
    BootWritesOneClaim(m, [bay], disks, o);
  }

  /** The first boot off a disk just built claims it, for a machine that says who it is. */
  lemma FirstBootClaims(m: Machine, bay: Bay, disks: map<nat, Disk>, spec: Spec, slab: SlabName, o: Occasion)
    requires bay.disk in disks && LaidOut(disks[bay.disk], spec, slab) && Nameable(spec) && BothText(spec)
    requires m.stormblock && m.identity.Some? && bay.remote.None? && Smooth(o) && ReadingOf(o, 0) == Yields({})
    ensures var b := BootOf(m, [bay], disks, o);
            && b.code == 0 && b.wrote && b.from == Some(0)
            && b.disks == disks[bay.disk := Claimed(disks[bay.disk], m.identity.value, o.t)]
  {
    BuiltDiskBootsExactlyWhenText(m, bay, disks, spec, slab, o);
    FoundOnBuilt(disks[bay.disk], spec);
    BootClaimsItsDrive(m, bay, disks, o);
  }

  /** The machine asks the appliance, offers nothing and leaves its disks as they are. */
  predicate TurnsAway(n: Machine, bays: seq<Bay>, disks: map<nat, Disk>, o: Occasion) {
    Plugged(bays, disks)
    && var b := BootOf(n, bays, disks, o);
    b.code == 2 && b.pairs == AskPairs(o.reason, "") && b.disks == disks
  }

  /** However often the machine has booted since, it boots with this output and writes nothing. */
  predicate Repeats(m: Machine, bays: seq<Bay>, disks: map<nat, Disk>, pairs: seq<Pair>, more: seq<Occasion>, last: Occasion)
  {
    Plugged(bays, disks) && DisksThrough(m, bays, disks, more) == disks
    && var b := BootOf(m, bays, disks, last);
    b.code == 0 && b.pairs == pairs && !b.wrote && b.disks == disks
  }

  /** A partitioned disk another has claimed, alone in a machine that says who it is and reads the
      claim, is left as it is, and nothing is offered. */
  lemma TakenElsewhere(other: Machine, away: Bay, disks: map<nat, Disk>, holder: string, o: Occasion)
    requires away.disk in disks && disks[away.disk].parts != [] && Names(disks[away.disk], holder)
    requires other.identity.Some? && other.identity.value != holder && o.lists && ReadsClaim(ReadingOf(o, 0))
    ensures TurnsAway(other, [away], disks, o)
  {
    var disk := disks[away.disk];
    var found := FoundOn(disk, ReadingOf(o, 0));
    var d := LookAt(other, away, disk, ReadingOf(o, 0));
    ClaimSeenOn(disk, ReadingOf(o, 0));
    MineExactly(other, DeviceIn(away, disk), found);
    BlankExactly(other, DeviceIn(away, disk), found);
    assert SurveyOf(other, [away], disks, o) == [d];
    IntentByContents([d]);
  }

  lemma OwnerReboots(m: Machine, bay: Bay, disks: map<nat, Disk>, first: Occasion, more: seq<Occasion>, last: Occasion)
    requires bay.disk in disks && bay.path != ""
    requires InARow([bay], first, last) && forall o :: o in more ==> InARow([bay], first, o)
    requires m.identity.Some? && CanonicalNode(m.identity.value) && ReadsClaim(ReadingOf(first, 0))
    requires var b := BootOf(m, [bay], disks, first); b.code == 0 && b.wrote && b.from == Some(0)
    ensures var b := BootOf(m, [bay], disks, first);
            Repeats(m, [bay], b.disks, b.pairs, more, last)
  {
    EveryRebootIsSilent(m, [bay], disks, first, more);
    RebootIsTheSame(m, [bay], disks, first, last);
  }

  lemma ClaimedTurnsAway(other: Machine, away: Bay, disks: map<nat, Disk>, me: string, t: Stamp, o: Occasion)
    requires away.disk in disks && disks[away.disk].esp.Mounted? && disks[away.disk].parts != [] && CanonicalNode(me)
    requires other.identity.Some? && other.identity.value != me && o.lists && ReadsClaim(ReadingOf(o, 0))
    ensures TurnsAway(other, [away], disks[away.disk := Claimed(disks[away.disk], me, t)], o)
  {
    ClaimWritten(disks[away.disk], me, t);
    TakenElsewhere(other, away, disks[away.disk := Claimed(disks[away.disk], me, t)], me, o);
  }

  /** From the image to the node and beyond: the first boot off a disk just built claims it, every
      later boot of that machine repeats the first and writes nothing, and any other machine that says
      who it is and reads the claim asks the appliance, offers nothing and leaves the disk as it is. */
  lemma BuiltDiskKnowsItsNode(m: Machine, bay: Bay, other: Machine, away: Bay, disks: map<nat, Disk>, spec: Spec,
                              slab: SlabName, first: Occasion, more: seq<Occasion>, last: Occasion, elsewhere: Occasion)
    requires bay.disk in disks && LaidOut(disks[bay.disk], spec, slab) && Nameable(spec) && BothText(spec)
    requires m.stormblock && bay.remote.None? && bay.path != ""
    requires Smooth(first) && ReadingOf(first, 0) == Yields({})
    requires InARow([bay], first, last) && forall o :: o in more ==> InARow([bay], first, o)
    requires m.identity.Some? && CanonicalNode(m.identity.value)
    requires other.identity.Some? && other.identity != m.identity && away.disk == bay.disk
    requires elsewhere.lists && ReadsClaim(ReadingOf(elsewhere, 0))
    ensures var b := BootOf(m, [bay], disks, first);
            && b.code == 0 && b.wrote
            && Repeats(m, [bay], b.disks, b.pairs, more, last)
            && TurnsAway(other, [away], b.disks, elsewhere)
  {
    FirstBootClaims(m, bay, disks, spec, slab, first);
    OwnerReboots(m, bay, disks, first, more, last);
    ClaimedTurnsAway(other, away, disks, m.identity.value, first.t, elsewhere);
  }

  // ------------------------------------------------------------------ a claim that goes unread

  lemma UnseenClaimIsOverwritten(n: Machine, away: Bay, disks: map<nat, Disk>, o: Occasion)
    requires away.disk in disks && disks[away.disk].esp.Mounted? && !ReadsClaim(ReadingOf(o, 0)) && Smooth(o)
    requires n.identity.Some? && CanonicalNode(n.identity.value)
    requires var d := LookAt(n, away, disks[away.disk], ReadingOf(o, 0)); d.verdict.Mine? && d.Boots()
    ensures var b := BootOf(n, [away], disks, o);
            && b.code == 0 && b.from == Some(0) && b.wrote
            && b.disks == disks[away.disk := Claimed(disks[away.disk], n.identity.value, o.t)]
            && Names(b.disks[away.disk], n.identity.value)
  {
    ClaimSeenOn(disks[away.disk], ReadingOf(o, 0));
    LoneDriveBoots(n, away, disks, o);
    BootClaimsItsDrive(n, away, disks, o);
    ClaimWritten(disks[away.disk], n.identity.value, o.t);
  }

  lemma BootsFirstAlone(d: Drive, i: nat)
    ensures BootsFirst([d], i) <==> i == 0 && d.verdict.Mine? && d.Boots()
  {
  }

  /** One boot that does not read the claim is enough: a disk claimed by one node is from then on named
      for another exactly when that one takes it for its own and it boots as it was found. Nobody forced
      anything. */
  lemma AMissedClaimIsOverwritten(n: Machine, away: Bay, disks: map<nat, Disk>, holder: string, o: Occasion)
    requires away.disk in disks && Names(disks[away.disk], holder)
    requires !ReadsClaim(ReadingOf(o, 0)) && away.path != "" && Smooth(o)
    requires n.identity.Some? && CanonicalNode(n.identity.value) && n.identity.value != holder
    ensures var b := BootOf(n, [away], disks, o);
            var d := LookAt(n, away, disks[away.disk], ReadingOf(o, 0));
            && away.disk in b.disks
            && (Names(b.disks[away.disk], n.identity.value) <==> d.verdict.Mine? && d.Boots())
  {
    var d := LookAt(n, away, disks[away.disk], ReadingOf(o, 0));
    if d.verdict.Mine? && d.Boots() {
      UnseenClaimIsOverwritten(n, away, disks, o);
    } else {
      assert SurveyOf(n, [away], disks, o) == [d];
      AnotherTakesExactly(n, [away], disks, o, away.disk, holder);
      forall i: nat ensures !MissedFirst(n, [away], disks, o, away.disk, i) {
        BootsFirstAlone(d, i);
      }
    }
  }

  /** In particular a node's system slab is booted by every machine it is moved to that fails to read the
      ESP. */
  lemma UnreadSystemSlabBoots(m: Machine, bay: Bay, n: Machine, away: Bay, disk: Disk, reading: Reading)
    requires var d := LookAt(m, bay, disk, reading); d.verdict.Mine? && d.verdict.role == "system"
    requires n.stormblock && away.remote.None?
    ensures var e := LookAt(n, away, disk, Fails); e.verdict.Mine? && e.Boots()
  {
    var d, e := DeviceIn(bay, disk), DeviceIn(away, disk);
    MineExactly(m, d, FoundOn(disk, reading));
    VerdictByClaim(m, d, FoundOn(disk, reading), None);
    assert AllSameButPath(d.parts, e.parts);
    VerdictMoves(m, n, d, e, None);
  }

  // ------------------------------------------------------------------ two owners

  predicate BootedBy(w: World, k: nat, node: string) {
    Event(k, node) in w.events
  }

  /** Machine `id` has one drive, boots off it in this step, and writes its claim. */
  predicate BootsAlone(w: World, id: nat, bay: Bay, o: Occasion) {
    && Inv(w) && id in w.machines && w.machines[id].identity.Some? && w.bays[id] == [bay]
    && bay.disk in w.disks && w.disks[bay.disk].esp.Mounted?
    && var b := BootOf(w.machines[id], [bay], w.disks, o);
    b.from == Some(0) && b.disks == w.disks[bay.disk := Claimed(w.disks[bay.disk], w.machines[id].identity.value, o.t)]
  }

  /** What such a step makes of the world. */
  lemma LoneBoot(w: World, id: nat, bay: Bay, o: Occasion)
    requires BootsAlone(w, id, bay, o)
    ensures var v := AfterBoot(w, id, o);
            && Inv(v) && v.machines == w.machines && v.bays == w.bays && w.events <= v.events
            && v.disks == w.disks[bay.disk := Claimed(w.disks[bay.disk], w.machines[id].identity.value, o.t)]
            && BootedBy(v, bay.disk, w.machines[id].identity.value)
  {
    BootKeepsInv(w, id, o);
  }

  /** A machine that can identify slabs, and itself by a name that can be written down. */
  predicate Identified(m: Machine) {
    m.stormblock && m.identity.Some? && CanonicalNode(m.identity.value)
  }

  lemma StaysPlugged(w: World, v: World, bays: map<nat, seq<Bay>>)
    requires WellPlugged(w, bays) && v.machines == w.machines && v.disks.Keys == w.disks.Keys
    ensures WellPlugged(v, bays)
  {
    assert forall id :: id in bays ==> Plugged(bays[id], w.disks);
  }

  /** A run goes on with one more step. */
  lemma RunGoesOn(worlds: seq<World>, steps: seq<Step>, s: Step, v: World)
    requires IsRun(worlds, steps) && Follows(worlds[|steps|], s, v)
    ensures IsRun(worlds + [v], steps + [s])
  {
    var on, more := worlds + [v], steps + [s];
    forall n | 0 <= n < |more| ensures FollowsAt(on, more, n) {
      assert n < |steps| ==> FollowsAt(worlds, steps, n) && on[n] == worlds[n] && on[n + 1] == worlds[n + 1];
    }
  }

  /** The world after a machine has booted its one drive: the disk still carries what it did. */
  lemma BootLeg(worlds: seq<World>, steps: seq<Step>, w: World, id: nat, bay: Bay, slab: SlabName, o: Occasion)
    returns (v: World)
    requires IsRun(worlds, steps) && worlds[|steps|] == w
    requires BootsAlone(w, id, bay, o) && CarriesSlab(w.disks[bay.disk], slab)
    ensures IsRun(worlds + [v], steps + [PowerOn(id, o)])
    ensures Inv(v) && v.machines == w.machines && v.disks.Keys == w.disks.Keys
    ensures v.disks[bay.disk].esp.Mounted? && CarriesSlab(v.disks[bay.disk], slab)
    ensures w.events <= v.events && BootedBy(v, bay.disk, w.machines[id].identity.value)
  {
    v := AfterBoot(w, id, o);
    LoneBoot(w, id, bay, o);
    RunGoesOn(worlds, steps, PowerOn(id, o), v);
  }

  lemma FirstLeg(w: World, id: nat, bay: Bay, moved: map<nat, seq<Bay>>, spec: Spec, slab: SlabName, o: Occasion)
    returns (v: World)
    requires Inv(w) && id in w.machines && Identified(w.machines[id]) && WellPlugged(w, moved)
    requires w.bays[id] == [bay] && bay.disk in w.disks && bay.remote.None?
    requires LaidOut(w.disks[bay.disk], spec, slab) && Nameable(spec) && BothText(spec)
    requires Smooth(o) && ReadingOf(o, 0) == Yields({})
    ensures IsRun([w] + [v], [] + [PowerOn(id, o)])
    ensures Inv(v) && v.machines == w.machines && WellPlugged(v, moved) && bay.disk in v.disks
    ensures v.disks[bay.disk].esp.Mounted? && CarriesSlab(v.disks[bay.disk], slab)
    ensures BootedBy(v, bay.disk, w.machines[id].identity.value)
  {
    NoStepsAreARun(w);
    FirstBootClaims(w.machines[id], bay, w.disks, spec, slab, o);
    v := BootLeg([w], [], w, id, bay, slab, o);
    StaysPlugged(w, v, moved);
  }

  lemma LastLeg(worlds: seq<World>, steps: seq<Step>, w: World, id: nat, away: Bay, slab: SlabName, o: Occasion)
    returns (v: World)
    requires IsRun(worlds, steps) && worlds[|steps|] == w && Inv(w) && id in w.machines && Identified(w.machines[id])
    requires w.bays[id] == [away] && away.remote.None?
    requires away.disk in w.disks && w.disks[away.disk].esp.Mounted? && CarriesSlab(w.disks[away.disk], slab)
    requires slab.role == "system" && Smooth(o) && ReadingOf(o, 0) == Fails
    ensures IsRun(worlds + [v], steps + [PowerOn(id, o)])
    ensures w.events <= v.events && BootedBy(v, away.disk, w.machines[id].identity.value)
  {
    CarriedSlabIsMine(w.machines[id], away, w.disks[away.disk], slab, None);
    UnseenClaimIsOverwritten(w.machines[id], away, w.disks, o);
    v := BootLeg(worlds, steps, w, id, away, slab, o);
  }

  lemma MoveLeg(worlds: seq<World>, steps: seq<Step>, w: World, moved: map<nat, seq<Bay>>) returns (v: World)
    requires IsRun(worlds, steps) && worlds[|steps|] == w && Inv(w) && WellPlugged(w, moved)
    ensures IsRun(worlds + [v], steps + [Move(moved)]) && Inv(v) && v == w.(bays := moved)
  {
    v := w.(bays := moved);
    RunGoesOn(worlds, steps, Move(moved), v);
  }

  lemma MoveAndLastLeg(worlds: seq<World>, steps: seq<Step>, w: World, id: nat, away: Bay, moved: map<nat, seq<Bay>>,
                       slab: SlabName, o: Occasion)
    returns (v: World, u: World)
    requires IsRun(worlds, steps) && worlds[|steps|] == w && Inv(w) && id in w.machines && Identified(w.machines[id])
    requires WellPlugged(w, moved) && moved[id] == [away] && away.remote.None?
    requires away.disk in w.disks && w.disks[away.disk].esp.Mounted? && CarriesSlab(w.disks[away.disk], slab)
    requires slab.role == "system" && Smooth(o) && ReadingOf(o, 0) == Fails
    ensures IsRun(worlds + [v] + [u], steps + [Move(moved)] + [PowerOn(id, o)])
    ensures w.events <= u.events && BootedBy(u, away.disk, w.machines[id].identity.value)
  {
    v := MoveLeg(worlds, steps, w, moved);
    u := LastLeg(worlds + [v], steps + [Move(moved)], v, id, away, slab, o);
  }

  lemma NoStepsAreARun(w: World)
    ensures IsRun([w], [])
  {
  }

  /** So single ownership does need its claims read. From any start, a disk just built, booted and claimed
      by one machine, is moved to another, which once fails to read its ESP; two machines of different
      names have then booted it. */
  lemma AMissedClaimHasTwoOwners(w: World, id: nat, other: nat, bay: Bay, away: Bay, moved: map<nat, seq<Bay>>,
                                 spec: Spec, slab: SlabName, first: Occasion, second: Occasion)
    returns (w1: World, w2: World, w3: World)
    requires Inv(w) && id in w.machines && other in w.machines && bay.disk in w.disks
    requires LaidOut(w.disks[bay.disk], spec, slab) && Nameable(spec) && BothText(spec) && slab.role == "system"
    requires Identified(w.machines[id]) && Identified(w.machines[other])
    requires w.machines[id].identity != w.machines[other].identity
    requires w.bays[id] == [bay] && bay.remote.None?
    requires WellPlugged(w, moved) && moved[other] == [away] && away.disk == bay.disk && away.remote.None?
    requires Smooth(first) && ReadingOf(first, 0) == Yields({}) && Smooth(second) && ReadingOf(second, 0) == Fails
    ensures IsRun([w] + [w1] + [w2] + [w3], [] + [PowerOn(id, first)] + [Move(moved)] + [PowerOn(other, second)])
    ensures BootedBy(w3, bay.disk, w.machines[id].identity.value)
    ensures BootedBy(w3, bay.disk, w.machines[other].identity.value)
  {
    w1 := FirstLeg(w, id, bay, moved, spec, slab, first);
    w2, w3 := MoveAndLastLeg([w] + [w1], [] + [PowerOn(id, first)], w1, other, away, moved, slab, second);
  }

  /** Nothing else is amiss in that run: its first boot and its move are proper, whatever world the move is
      made in, and so is its last boot, but for what it reads. */
  lemma OnlyTheReadingIsAmiss(w: World, id: nat, other: nat, bay: Bay, moved: map<nat, seq<Bay>>, spec: Spec,
                              first: Occasion, second: Occasion)
    requires id in w.machines && id in w.bays && w.bays[id] == [bay] && other in w.machines
    requires bay.disk in w.disks && w.disks[bay.disk].esp == Mounted(Built(spec))
    requires w.machines[id].identity.Some? && CanonicalNode(w.machines[id].identity.value) && Smooth(first)
    requires w.machines[other].identity.Some? && CanonicalNode(w.machines[other].identity.value) && Smooth(second)
    ensures Proper(w, PowerOn(id, first))
    ensures forall v: World :: Proper(v, Move(moved))
    ensures forall v: World :: v.machines == w.machines ==>
              Unforced(PowerOn(other, second)) && ProperBoot(v, PowerOn(other, second))
  {
    FoundOnBuilt(w.disks[bay.disk], spec);
    ClaimSeenOn(w.disks[bay.disk], Yields({}));
  }
}
