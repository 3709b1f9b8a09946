/** Disks that move between machines, boots that claim them, and who may ever have booted one. */
module Ownership {
  import opened Text
  import opened Claims
  import opened Esp
  import opened Survey
  import opened Probe
  import opened Clock
  import opened Decision
  import opened Reboot

  /** A disk with an ESP was booted by a machine that says who it is. */
  datatype Event = Event(disk: nat, identity: string)

  /** Machines, what is plugged into each, the disks, and the history: the boots so far, and the disks
      that were offered to be formatted. */
  datatype World = World(
    machines: map<nat, Machine>, bays: map<nat, seq<Bay>>, disks: map<nat, Disk>,
    events: set<Event>, offered: set<nat>)

  datatype Step =
    /** Disks are moved between bays, in any way. */
    | Move(bays: map<nat, seq<Bay>>)
    | PowerOn(id: nat, o: Occasion)
    /** `zeroboot claim` on the disk in a bay. */
    | ClaimCommand(id: nat, bay: nat, node: Option<string>, reading: Reading, force: bool, takes: bool, t: Stamp)
    /** The flow-over formats a disk that was offered: two slabs and no ESP. */
    | FlowOver(disk: nat, laid: Disk)

  predicate WellPlugged(w: World, bays: map<nat, seq<Bay>>) {
    bays.Keys == w.machines.Keys
    && forall id :: id in bays ==> Plugged(bays[id], w.disks) && Addressed(bays[id])
  }

  predicate Enabled(w: World, s: Step) {
    match s
    case Move(bays) => WellPlugged(w, bays)
    case PowerOn(id, o) => id in w.machines
    case ClaimCommand(id, bay, node, reading, force, takes, t) => id in w.machines && id in w.bays && bay < |w.bays[id]|
    case FlowOver(disk, laid) => disk in w.offered && laid.esp.NoEsp?
  }

  function AfterBoot(w: World, id: nat, o: Occasion): World
    requires WellPlugged(w, w.bays) && id in w.machines
  {
    var m, bays := w.machines[id], w.bays[id];
    var b := BootOf(m, bays, w.disks, o);
    var events :=
      if b.from.Some? && b.from.value < |bays| && m.identity.Some? && !w.disks[bays[b.from.value].disk].esp.NoEsp?
      then {Event(bays[b.from.value].disk, m.identity.value)} else {};
    var offered :=
      if b.offered.Some? && b.offered.value < |bays| then {bays[b.offered.value].disk} else {};
    w.(disks := b.disks, events := w.events + events, offered := w.offered + offered)
  }

  /** The disk as a claim command leaves it, successful or not. */
  function DiskAfterCommand(m: Machine, node: Option<string>, disk: Disk, reading: Reading, force: bool, takes: bool,
                            t: Stamp): Disk
  {
    var r := ClaimCommandOf(m.identity, node, disk, reading, force, takes, t);
    if r.Ok? then r.value else disk
  }

  function AfterClaim(w: World, s: Step): World
    requires WellPlugged(w, w.bays) && s.ClaimCommand? && Enabled(w, s)
  {
    var k := w.bays[s.id][s.bay].disk;
    w.(disks := w.disks[k := DiskAfterCommand(w.machines[s.id], s.node, w.disks[k], s.reading, s.force, s.takes, s.t)])
  }

  function After(w: World, s: Step): World
    requires WellPlugged(w, w.bays) && Enabled(w, s)
  {
    match s
    case Move(bays) => w.(bays := bays)
    case PowerOn(id, o) => AfterBoot(w, id, o)
    case ClaimCommand(_, _, _, _, _, _, _) => AfterClaim(w, s)
    case FlowOver(disk, laid) => w.(disks := w.disks[disk := laid])
  }

  // ------------------------------------------------------------------ invariants

  /** An ESP is found through a GPT, so a disk that has one shows one. */
  predicate TableShows(disk: Disk) {
    !disk.esp.NoEsp? ==> disk.bytes.Ok? && ShowsGpt(disk.bytes.value)
  }

  /** Kept by every step whatever. */
  predicate Inv(w: World) {
    && WellPlugged(w, w.bays)
    && (forall k :: k in w.disks ==> TableShows(w.disks[k]))
    && (forall k :: k in w.offered ==> k in w.disks && w.disks[k].esp.NoEsp?)
  }

  /** Every ESP can be mounted, and whoever booted a disk with an ESP is the one its claim names. */
  predicate Owned(w: World) {
    && (forall k :: k in w.disks ==> !w.disks[k].esp.Broken?)
    && forall e :: e in w.events ==> e.disk in w.disks && Names(w.disks[e.disk], e.identity)
  }

  /** Nobody typed `--force`. */
  predicate Unforced(s: Step) {
    s.ClaimCommand? ==> !s.force
  }

  /** Whoever looks at disk `k` in this step reads the claim file on it. A claim command may also fail to
      read the ESP, for then it goes no further; a boot goes on. */
  predicate Attentive(w: World, s: Step, k: nat) {
    match s
    case PowerOn(id, o) =>
      id in w.bays ==> forall i :: 0 <= i < |w.bays[id]| && w.bays[id][i].disk == k ==> ReadsClaim(ReadingOf(o, i))
    case ClaimCommand(id, bay, node, reading, force, takes, t) =>
      id in w.bays && bay < |w.bays[id]| && w.bays[id][bay].disk == k ==> reading.Fails? || ReadsClaim(reading)
    case _ => true
  }

  /** No claim that is there goes unread, and a boot happens with claiming on, on a medium that takes the
      write, by a machine whose identity, if it has one, survives being written down. */
  predicate Proper(w: World, s: Step) {
    && Unforced(s)
    && (forall k :: k in w.disks && ClaimOf(w.disks[k]).Some? ==> Attentive(w, s, k))
    && ProperBoot(w, s)
  }

  predicate ProperBoot(w: World, s: Step) {
    s.PowerOn? && s.id in w.machines ==>
      && s.o.claiming && s.o.takes
      && var me := w.machines[s.id].identity;
      me.Some? ==> CanonicalNode(me.value)
  }

  lemma ClaimedKeepsTable(disk: Disk, node: string, t: Stamp)
    requires disk.esp.Mounted? && TableShows(disk)
    ensures TableShows(Claimed(disk, node, t)) && Claimed(disk, node, t).esp.Mounted?
  {
  }

  lemma OfferedHasNoEsp(w: World, id: nat, o: Occasion)
    requires Inv(w) && id in w.machines
    ensures var b := BootOf(w.machines[id], w.bays[id], w.disks, o);
            b.offered.Some? ==> b.offered.value < |w.bays[id]|
                                && w.disks[w.bays[id][b.offered.value].disk].esp.NoEsp?
  {
    InitContract(w.machines[id], w.bays[id], w.disks, o);
  }

  lemma BootKeepsInv(w: World, id: nat, o: Occasion)
    requires Inv(w) && id in w.machines
    ensures Inv(AfterBoot(w, id, o))
  {
    var m, bays := w.machines[id], w.bays[id];
    var b, w' := BootOf(m, bays, w.disks, o), AfterBoot(w, id, o);
    BootWritesOneClaim(m, bays, w.disks, o);
    PluggedAfter(m, bays, w.disks, o);
    OfferedHasNoEsp(w, id, o);
    forall k | k in b.disks ensures TableShows(b.disks[k]) && b.disks[k].esp.NoEsp? == w.disks[k].esp.NoEsp? {
      assert TableShows(w.disks[k]);
      if b.disks[k] != w.disks[k] {
        ClaimedKeepsTable(w.disks[k], m.identity.value, o.t);
      }
    }
    assert w'.disks == b.disks && w'.bays == w.bays;
  }

  lemma StepKeepsInv(w: World, s: Step)
    requires Inv(w) && Enabled(w, s)
    ensures Inv(After(w, s))
  {
    match s {
      case Move(_) =>
      case PowerOn(id, o) => BootKeepsInv(w, id, o);
      case ClaimCommand(_, _, _, _, _, _, _) => ClaimKeepsInv(w, s);
      case FlowOver(disk, laid) => SameDisksStayPlugged(w, w.disks[disk := laid]);
    }
  }

  lemma SameDisksStayPlugged(w: World, disks: map<nat, Disk>)
    requires WellPlugged(w, w.bays) && disks.Keys == w.disks.Keys
    ensures WellPlugged(w.(disks := disks), w.bays)
  {
    assert forall id :: id in w.bays ==> Plugged(w.bays[id], w.disks);
  }

  lemma ClaimKeepsInv(w: World, s: Step)
    requires Inv(w) && s.ClaimCommand? && Enabled(w, s)
    ensures Inv(AfterClaim(w, s))
  {
    var k := w.bays[s.id][s.bay].disk;
    var disks := AfterClaim(w, s).disks;
    assert Plugged(w.bays[s.id], w.disks) && TableShows(w.disks[k]);
    assert TableShows(disks[k]) && disks[k].esp.NoEsp? == w.disks[k].esp.NoEsp?;
    SameDisksStayPlugged(w, disks);
  }

  // ------------------------------------------------------------------ what becomes of a claim

  /** The drive in bay `i` is the first to boot, it is disk `k`, and the claim on it goes unread. */
  predicate MissedFirst(m: Machine, bays: seq<Bay>, disks: map<nat, Disk>, o: Occasion, k: nat, i: nat)
    requires Plugged(bays, disks)
  {
    BootsFirst(SurveyOf(m, bays, disks, o), i) && bays[i].disk == k && !ReadsClaim(ReadingOf(o, i))
  }

  /** The boot takes disk `k` from `holder`, by what there is to see before it: the machine can write and
      has a name to put in the holder's place, and the first drive to boot is that disk, its claim unread. */
  ghost predicate BootTakes(m: Machine, bays: seq<Bay>, disks: map<nat, Disk>, o: Occasion, k: nat, holder: string)
    requires Plugged(bays, disks)
  {
    && o.lists && o.claiming && o.takes && m.identity.Some? && Displaces(m.identity.value, holder)
    && exists i: nat :: MissedFirst(m, bays, disks, o, k, i)
  }

  /** The claim command takes the disk from `holder`: it has a name to put in the holder's place, can
      write, finds the ESP, and either did not read the claim or is forced. */
  predicate CommandTakes(me: Option<string>, reading: Reading, force: bool, takes: bool, holder: string) {
    me.Some? && Displaces(me.value, holder) && takes && reading.Yields? && (ReadsClaim(reading) ==> force)
  }

  /** The step takes disk `k` from `holder`. */
  ghost predicate Overwrites(w: World, s: Step, k: nat, holder: string)
    requires WellPlugged(w, w.bays) && Enabled(w, s)
  {
    match s
    case PowerOn(id, o) => BootTakes(w.machines[id], w.bays[id], w.disks, o, k, holder)
    case ClaimCommand(id, bay, node, reading, force, takes, t) =>
      w.bays[id][bay].disk == k
      && CommandTakes(if node.Some? then node else w.machines[id].identity, reading, force, takes, holder)
    case _ => false
  }

  lemma HoldersAreCanonical(disk: Disk, holder: string)
    requires Names(disk, holder)
    ensures CanonicalNode(holder)
  {
    ParsedIsCanonical(ReadFile(disk.esp.fs, CLAIM_PATH).value);
  }

  /** A name written over a claim of `holder` takes the disk from it exactly when it displaces it. */
  lemma WrittenOver(disk: Disk, me: string, t: Stamp, holder: string)
    requires Names(disk, holder)
    ensures Names(Claimed(disk, me, t), holder) <==> !Displaces(me, holder)
    ensures me == holder ==> !Displaces(me, holder)
  {
    HoldersAreCanonical(disk, holder);
    ClaimWritten(disk, me, t);
    DisplacesExactly(me, holder);
  }

  lemma CommandOnDisk(m: Machine, node: Option<string>, disk: Disk, reading: Reading, force: bool, takes: bool,
                      t: Stamp, holder: string)
    requires Names(disk, holder)
    ensures var me := if node.Some? then node else m.identity;
            var after := DiskAfterCommand(m, node, disk, reading, force, takes, t);
            && (Names(after, holder) <==> !CommandTakes(me, reading, force, takes, holder))
            && (after != disk ==> force || (reading.Yields? && !ReadsClaim(reading)))
  {
    var me := if node.Some? then node else m.identity;
    ClaimSeenOn(disk, reading);
    if me.Some? {
      WrittenOver(disk, me.value, t, holder);
    }
  }

  lemma MissedFirstIsBooted(m: Machine, bays: seq<Bay>, disks: map<nat, Disk>, o: Occasion, k: nat, i: nat)
    requires Plugged(bays, disks) && Addressed(bays)
    ensures o.lists && MissedFirst(m, bays, disks, o, k, i) <==>
              && BootOf(m, bays, disks, o).from == Some(i) && i < |bays| && bays[i].disk == k
              && !ReadsClaim(ReadingOf(o, i))
  {
    BootsFromExactly(m, bays, disks, o, i);
  }

  /** A boot writes on disk `k`, where there is a claim, exactly when it can and the claim on the first
      drive to boot goes unread, that drive being the disk. */
  lemma BootWritesOverExactly(m: Machine, bays: seq<Bay>, disks: map<nat, Disk>, o: Occasion, k: nat)
    requires Plugged(bays, disks) && Addressed(bays) && k in disks && ClaimOf(disks[k]).Some?
    ensures var b := BootOf(m, bays, disks, o);
            var writes := o.lists && o.claiming && o.takes && m.identity.Some?
                          && exists i: nat :: MissedFirst(m, bays, disks, o, k, i);
            && k in b.disks
            && b.disks[k] == if writes then Claimed(disks[k], m.identity.value, o.t) else disks[k]
  {
    var b := BootOf(m, bays, disks, o);
    BootWritesOneClaim(m, bays, disks, o);
    if b.from.Some? && b.from.value < |bays| {
      MissedFirstIsBooted(m, bays, disks, o, k, b.from.value);
      ClaimSeenOn(disks[bays[b.from.value].disk], ReadingOf(o, b.from.value));
    }
    if i: nat :| o.lists && MissedFirst(m, bays, disks, o, k, i) {
      MissedFirstIsBooted(m, bays, disks, o, k, i);
    }
  }

  lemma BootKeepsHolderExactly(m: Machine, bays: seq<Bay>, disks: map<nat, Disk>, o: Occasion, k: nat, holder: string)
    requires Plugged(bays, disks) && Addressed(bays) && k in disks && Names(disks[k], holder)
    ensures var b := BootOf(m, bays, disks, o);
            k in b.disks && (Names(b.disks[k], holder) <==> !BootTakes(m, bays, disks, o, k, holder))
  {
    BootWritesOverExactly(m, bays, disks, o, k);
    if m.identity.Some? {
      WrittenOver(disks[k], m.identity.value, o.t, holder);
    }
  }

  /** For a machine whose name can be written down: its boot takes a disk from the holder exactly when it
      can write, is not the holder, and did not read the claim on the drive that was the first to boot. */
  lemma AnotherTakesExactly(m: Machine, bays: seq<Bay>, disks: map<nat, Disk>, o: Occasion, k: nat, holder: string)
    requires Plugged(bays, disks) && Addressed(bays) && k in disks && Names(disks[k], holder)
    requires m.identity.Some? && CanonicalNode(m.identity.value)
    ensures var b := BootOf(m, bays, disks, o);
            && k in b.disks
            && (!Names(b.disks[k], holder) <==>
                  o.lists && o.claiming && o.takes && m.identity.value != holder
                  && exists i: nat :: MissedFirst(m, bays, disks, o, k, i))
  {
    HoldersAreCanonical(disks[k], holder);
    DisplacesExactly(m.identity.value, holder);
    BootKeepsHolderExactly(m, bays, disks, o, k, holder);
  }

  lemma CommandKeepsHolderExactly(w: World, s: Step, k: nat, holder: string)
    requires Inv(w) && s.ClaimCommand? && Enabled(w, s) && k in w.disks && Names(w.disks[k], holder)
    ensures var after := AfterClaim(w, s);
            && k in after.disks
            && (Names(after.disks[k], holder) <==> !Overwrites(w, s, k, holder))
            && (after.disks[k] != w.disks[k] ==> !Attentive(w, s, k) || s.force)
  {
    if w.bays[s.id][s.bay].disk == k {
      CommandOnDisk(w.machines[s.id], s.node, w.disks[k], s.reading, s.force, s.takes, s.t, holder);
    }
  }

  /** Exactly the overwriting steps take a disk from its holder. */
  lemma StepKeepsHolderExactly(w: World, s: Step, k: nat, holder: string)
    requires Inv(w) && Enabled(w, s) && k in w.disks && Names(w.disks[k], holder)
    ensures k in After(w, s).disks
    ensures Names(After(w, s).disks[k], holder) <==> !Overwrites(w, s, k, holder)
  {
    match s {
      case Move(_) =>
      case PowerOn(id, o) => BootKeepsHolderExactly(w.machines[id], w.bays[id], w.disks, o, k, holder);
      case ClaimCommand(_, _, _, _, _, _, _) => CommandKeepsHolderExactly(w, s, k, holder);
      case FlowOver(disk, laid) =>
    }
  }

  /** A claimed disk outlives every step that is not forced and reads the claim, as it is: boots leave it,
      commands leave it or are refused, and a disk that could carry a claim is never offered to be
      formatted. */
  lemma StepKeepsClaims(w: World, s: Step, k: nat)
    requires Inv(w) && Enabled(w, s) && Unforced(s) && Attentive(w, s, k)
    requires k in w.disks && ClaimOf(w.disks[k]).Some?
    ensures k in After(w, s).disks && After(w, s).disks[k] == w.disks[k]
  {
    match s {
      case Move(_) =>
      case PowerOn(id, o) => BootWritesOverExactly(w.machines[id], w.bays[id], w.disks, o, k);
      case ClaimCommand(_, _, _, _, _, _, _) => CommandKeepsHolderExactly(w, s, k, ClaimOf(w.disks[k]).value.node);
      case FlowOver(disk, laid) =>
    }
  }

  /** A boot adds at most one claim, on the disk it boots from and only where it saw none; every other
      disk is as it was. */
  lemma BootTouchesItsDiskOnly(w: World, id: nat, o: Occasion, k: nat)
    requires Inv(w) && id in w.machines && k in w.disks
    ensures var b := BootOf(w.machines[id], w.bays[id], w.disks, o);
            var after := AfterBoot(w, id, o);
            after.disks.Keys == w.disks.Keys
            && (after.disks[k] != w.disks[k] ==>
                  && b.from.Some? && b.from.value < |w.bays[id]| && w.bays[id][b.from.value].disk == k
                  && w.machines[id].identity.Some?
                  && (ClaimOf(w.disks[k]).None? || !ReadsClaim(ReadingOf(o, b.from.value))))
  {
    var b := BootOf(w.machines[id], w.bays[id], w.disks, o);
    BootWritesOneClaim(w.machines[id], w.bays[id], w.disks, o);
    if b.from.Some? && b.from.value < |w.bays[id]| {
      ClaimSeenOn(w.disks[k], ReadingOf(o, b.from.value));
    }
  }

  /** A machine that will not say who it is never changes a disk by booting, nor by claiming without a
      name. */
  lemma NamelessMachinesChangeNothing(w: World, s: Step)
    requires Inv(w) && Enabled(w, s)
    requires s.PowerOn? || (s.ClaimCommand? && s.node.None?)
    requires w.machines[s.id].identity.None?
    ensures After(w, s).disks == w.disks && After(w, s).events == w.events
  {
    if s.PowerOn? {
      BootWritesOneClaim(w.machines[s.id], w.bays[s.id], w.disks, s.o);
    }
  }

  // ------------------------------------------------------------------ who booted what

  /** When a boot leaves the disk it booted named for the machine that booted it: exactly when the disk
      was that already, or has an ESP and the claim could be and was written, under a name that survives
      it. How well the ESP was read makes no difference to that. */
  lemma BootedDiskIsNamedExactly(m: Machine, bays: seq<Bay>, disks: map<nat, Disk>, o: Occasion)
    requires Plugged(bays, disks) && Addressed(bays) && m.identity.Some?
    requires BootOf(m, bays, disks, o).from.Some?
    ensures var b := BootOf(m, bays, disks, o);
            && b.from.value < |bays|
            && var k := bays[b.from.value].disk;
            && k in b.disks
            && (Names(b.disks[k], m.identity.value) <==>
                  || Names(disks[k], m.identity.value)
                  || (disks[k].esp.Mounted? && o.claiming && o.takes && CanonicalNode(m.identity.value)))
  {
    var b := BootOf(m, bays, disks, o);
    BootedDiskBoots(m, bays, disks, o);
    BootWritesOneClaim(m, bays, disks, o);
    var i := b.from.value;
    var disk := disks[bays[i].disk];
    ClaimSeenOn(disk, ReadingOf(o, i));
    if disk.esp.Mounted? {
      ClaimWritten(disk, m.identity.value, o.t);
      if ClaimOf(disk).Some? {
        ParsedIsCanonical(ReadFile(disk.esp.fs, CLAIM_PATH).value);
      }
    }
  }

  /** What a proper boot by an identified machine leaves on the disk it booted: its own claim. */
  lemma BootedDiskIsClaimed(w: World, id: nat, o: Occasion)
    requires Inv(w) && Owned(w) && id in w.machines && ProperBoot(w, PowerOn(id, o))
    requires w.machines[id].identity.Some?
    ensures var b := BootOf(w.machines[id], w.bays[id], w.disks, o);
            b.from.Some? ==>
              && b.from.value < |w.bays[id]|
              && var k := w.bays[id][b.from.value].disk;
              && k in b.disks && (w.disks[k].esp.NoEsp? || Names(b.disks[k], w.machines[id].identity.value))
  {
    var m, bays := w.machines[id], w.bays[id];
    if BootOf(m, bays, w.disks, o).from.Some? {
      BootedDiskIsNamedExactly(m, bays, w.disks, o);
    }
  }

  lemma BootKeepsOwned(w: World, id: nat, o: Occasion)
    requires Inv(w) && Owned(w) && id in w.machines && Proper(w, PowerOn(id, o))
    ensures Owned(AfterBoot(w, id, o))
  {
    var m, bays := w.machines[id], w.bays[id];
    var w' := AfterBoot(w, id, o);
    BootWritesOneClaim(m, bays, w.disks, o);
    forall k | k in w'.disks ensures !w'.disks[k].esp.Broken? {
      assert !w.disks[k].esp.Broken?;
    }
    forall e | e in w'.events ensures e.disk in w'.disks && Names(w'.disks[e.disk], e.identity) {
      if e in w.events {
        StepKeepsClaims(w, PowerOn(id, o), e.disk);
      } else {
        BootedDiskIsClaimed(w, id, o);
      }
    }
  }

  lemma StepKeepsOwned(w: World, s: Step)
    requires Inv(w) && Owned(w) && Enabled(w, s) && Proper(w, s)
    ensures Owned(After(w, s))
  {
    var w' := After(w, s);
    if s.PowerOn? {
      BootKeepsOwned(w, s.id, s.o);
    } else {
      forall k | k in w'.disks ensures !w'.disks[k].esp.Broken? {
        assert k in w.disks ==> !w.disks[k].esp.Broken?;
      }
      forall e | e in w'.events ensures e.disk in w'.disks && Names(w'.disks[e.disk], e.identity) {
        StepKeepsClaims(w, s, e.disk);
      }
    }
  }

  /** What the history records, exactly: a boot by a machine with a name off a disk that has an ESP, and a
      disk that is offered. */
  lemma BootIsRecorded(w: World, id: nat, o: Occasion, e: Event, k: nat)
    requires Inv(w) && id in w.machines
    ensures var b := BootOf(w.machines[id], w.bays[id], w.disks, o);
            var after := AfterBoot(w, id, o);
            && (e in after.events <==>
                  || e in w.events
                  || (b.from.Some? && b.from.value < |w.bays[id]| && w.bays[id][b.from.value].disk == e.disk
                      && w.machines[id].identity == Some(e.identity) && !w.disks[e.disk].esp.NoEsp?))
            && (k in after.offered <==>
                  || k in w.offered
                  || (b.offered.Some? && b.offered.value < |w.bays[id]| && w.bays[id][b.offered.value].disk == k))
  {
  }

  // ------------------------------------------------------------------ whole runs

  /** The step can be taken in world `w` and leads to `v`. */
  predicate Follows(w: World, s: Step, v: World) {
    WellPlugged(w, w.bays) && Enabled(w, s) && v == After(w, s)
  }

  predicate FollowsAt(worlds: seq<World>, steps: seq<Step>, n: nat)
    requires n < |steps| && |worlds| == |steps| + 1
  {
    Follows(worlds[n], steps[n], worlds[n + 1])
  }

  predicate IsRun(worlds: seq<World>, steps: seq<Step>) {
    |worlds| == |steps| + 1 && forall n :: 0 <= n < |steps| ==> FollowsAt(worlds, steps, n)
  }

  predicate ProperAt(worlds: seq<World>, steps: seq<Step>, n: nat)
    requires n < |steps| && |worlds| == |steps| + 1
  {
    Proper(worlds[n], steps[n])
  }

  predicate AllProper(worlds: seq<World>, steps: seq<Step>)
    requires |worlds| == |steps| + 1
  {
    forall n :: 0 <= n < |steps| ==> ProperAt(worlds, steps, n)
  }

  lemma {:induction false} RunKeepsInv(worlds: seq<World>, steps: seq<Step>, i: nat)
    requires IsRun(worlds, steps) && Inv(worlds[0]) && i <= |steps|
    ensures Inv(worlds[i])
  {
    if i > 0 {
      RunKeepsInv(worlds, steps, i - 1);
      assert FollowsAt(worlds, steps, i - 1);
      StepKeepsInv(worlds[i - 1], steps[i - 1]);
    }
  }

  lemma {:induction false} RunKeepsOwned(worlds: seq<World>, steps: seq<Step>, i: nat)
    requires IsRun(worlds, steps) && Inv(worlds[0]) && Owned(worlds[0]) && AllProper(worlds, steps) && i <= |steps|
    ensures Owned(worlds[i])
  {
    if i > 0 {
      RunKeepsOwned(worlds, steps, i - 1);
      RunKeepsInv(worlds, steps, i - 1);
      assert FollowsAt(worlds, steps, i - 1) && ProperAt(worlds, steps, i - 1);
      StepKeepsOwned(worlds[i - 1], steps[i - 1]);
    }
  }

  /** How the history starts: nothing booted, nothing offered, and every ESP fit to be mounted. */
  predicate Initial(w: World) {
    && WellPlugged(w, w.bays) && w.events == {} && w.offered == {}
    && forall k :: k in w.disks ==> TableShows(w.disks[k]) && !w.disks[k].esp.Broken?
  }

  /** Single owner: in every run of moves, proper boots and claim commands, and flow-overs, a disk with
      an ESP is only ever booted by one identity. */
  lemma SingleOwner(worlds: seq<World>, steps: seq<Step>, i: nat, e: Event, f: Event)
    requires IsRun(worlds, steps) && Initial(worlds[0]) && AllProper(worlds, steps)
    requires i <= |steps| && e in worlds[i].events && f in worlds[i].events && e.disk == f.disk
    ensures e.identity == f.identity
  {
    RunKeepsOwned(worlds, steps, i);
  }

  /** Step `n`, if it looks at disk `k`, reads its claim, and it is not forced. */
  predicate RespectedAt(worlds: seq<World>, steps: seq<Step>, n: nat, k: nat)
    requires n < |steps| && |worlds| == |steps| + 1
  {
    Unforced(steps[n]) && Attentive(worlds[n], steps[n], k)
  }

  predicate Respected(worlds: seq<World>, steps: seq<Step>, i: nat, j: nat, k: nat)
    requires |worlds| == |steps| + 1 && i <= j <= |steps|
  {
    forall n :: i <= n < j ==> RespectedAt(worlds, steps, n, k)
  }

  /** If the disk is claimed in the one world, it is the same in the other. */
  predicate DiskKept(w: World, v: World, k: nat) {
    k in w.disks && ClaimOf(w.disks[k]).Some? ==> k in v.disks && v.disks[k] == w.disks[k]
  }

  lemma ClaimStep(worlds: seq<World>, steps: seq<Step>, n: nat, k: nat)
    requires IsRun(worlds, steps) && n < |steps| && Inv(worlds[n]) && RespectedAt(worlds, steps, n, k)
    ensures DiskKept(worlds[n], worlds[n + 1], k)
  {
    assert FollowsAt(worlds, steps, n);
    if k in worlds[n].disks && ClaimOf(worlds[n].disks[k]).Some? {
      StepKeepsClaims(worlds[n], steps[n], k);
    }
  }

  /** Claims last: as long as every step reads it and none is forced, a claim and the disk with it stay as
      they are, whatever else goes wrong: writes that fail, machines with no name, ESPs that lose other
      files. */
  lemma {:induction false} ClaimsLast(worlds: seq<World>, steps: seq<Step>, i: nat, j: nat, k: nat)
    requires IsRun(worlds, steps) && Inv(worlds[0]) && i <= j <= |steps| && Respected(worlds, steps, i, j, k)
    ensures DiskKept(worlds[i], worlds[j], k)
    decreases j
  {
    if i < j {
      ClaimsLast(worlds, steps, i, j - 1, k);
      RunKeepsInv(worlds, steps, j - 1);
      assert RespectedAt(worlds, steps, j - 1, k);
      ClaimStep(worlds, steps, j - 1, k);
    }
  }

  predicate HeldAt(w: World, k: nat, holder: string) {
    k in w.disks && Names(w.disks[k], holder)
  }

  ghost predicate OverwrittenAt(worlds: seq<World>, steps: seq<Step>, n: nat, k: nat, holder: string)
    requires n < |steps| && |worlds| == |steps| + 1
  {
    FollowsAt(worlds, steps, n) && Overwrites(worlds[n], steps[n], k, holder)
  }

  lemma HolderStep(worlds: seq<World>, steps: seq<Step>, n: nat, k: nat, holder: string)
    requires IsRun(worlds, steps) && n < |steps| && Inv(worlds[n]) && HeldAt(worlds[n], k, holder)
    ensures HeldAt(worlds[n + 1], k, holder) <==> !OverwrittenAt(worlds, steps, n, k, holder)
  {
    assert FollowsAt(worlds, steps, n);
    StepKeepsHolderExactly(worlds[n], steps[n], k, holder);
  }

  /** What lasts from each moment to the next exactly when nothing takes it lasts exactly when nothing
      ever does. */
  lemma {:induction false} LastsExactly(held: seq<bool>, taken: seq<bool>, i: nat, j: nat)
    requires |held| == |taken| + 1 && i <= j <= |taken| && held[i]
    requires forall n :: i <= n < j && held[n] ==> (held[n + 1] <==> !taken[n])
    ensures (forall n :: i <= n <= j ==> held[n]) <==> forall n :: i <= n < j ==> !taken[n]
    decreases j
  {
    if i < j {
      LastsExactly(held, taken, i, j - 1);
      assert (forall n :: i <= n <= j ==> held[n]) <==> (forall n :: i <= n <= j - 1 ==> held[n]) && held[j];
      assert (forall n :: i <= n < j ==> !taken[n]) <==> (forall n :: i <= n < j - 1 ==> !taken[n]) && !taken[j - 1];
    }
  }

  ghost function HeldOver(worlds: seq<World>, k: nat, holder: string): seq<bool> {
    seq(|worlds|, n requires 0 <= n < |worlds| => HeldAt(worlds[n], k, holder))
  }

  ghost function TakenOver(worlds: seq<World>, steps: seq<Step>, k: nat, holder: string): seq<bool>
    requires |worlds| == |steps| + 1
  {
    seq(|steps|, n requires 0 <= n < |steps| => OverwrittenAt(worlds, steps, n, k, holder))
  }

  lemma HeldUntilTaken(worlds: seq<World>, steps: seq<Step>, n: nat, k: nat, holder: string)
    requires IsRun(worlds, steps) && Inv(worlds[0]) && n < |steps| && HeldOver(worlds, k, holder)[n]
    ensures HeldOver(worlds, k, holder)[n + 1] <==> !TakenOver(worlds, steps, k, holder)[n]
  {
    HolderStepInRun(worlds, steps, n, k, holder);
  }

  lemma HolderStepInRun(worlds: seq<World>, steps: seq<Step>, n: nat, k: nat, holder: string)
    requires IsRun(worlds, steps) && Inv(worlds[0]) && n < |steps| && HeldAt(worlds[n], k, holder)
    ensures HeldAt(worlds[n + 1], k, holder) <==> !OverwrittenAt(worlds, steps, n, k, holder)
  {
    RunKeepsInv(worlds, steps, n);
    HolderStep(worlds, steps, n, k, holder);
  }

  /** And in any run whatever a disk stays its holder's throughout exactly when no step overwrites it. */
  lemma HoldersLastExactly(worlds: seq<World>, steps: seq<Step>, i: nat, j: nat, k: nat, holder: string)
    requires IsRun(worlds, steps) && Inv(worlds[0]) && i <= j <= |steps| && HeldAt(worlds[i], k, holder)
    ensures (forall n :: i <= n <= j ==> HeldAt(worlds[n], k, holder)) <==>
              forall n :: i <= n < j ==> !OverwrittenAt(worlds, steps, n, k, holder)
  {
    var held, taken := HeldOver(worlds, k, holder), TakenOver(worlds, steps, k, holder);
    forall n | i <= n < j && held[n] ensures held[n + 1] <==> !taken[n] {
      HeldUntilTaken(worlds, steps, n, k, holder);
    }
    LastsExactly(held, taken, i, j);
    InTermsOfRun(worlds, steps, i, j, k, holder);
  }

  lemma InTermsOfRun(worlds: seq<World>, steps: seq<Step>, i: nat, j: nat, k: nat, holder: string)
    requires |worlds| == |steps| + 1 && i <= j <= |steps|
    ensures (forall n :: i <= n <= j ==> HeldOver(worlds, k, holder)[n]) <==>
              forall n :: i <= n <= j ==> HeldAt(worlds[n], k, holder)
    ensures (forall n :: i <= n < j ==> !TakenOver(worlds, steps, k, holder)[n]) <==>
              forall n :: i <= n < j ==> !OverwrittenAt(worlds, steps, n, k, holder)
  {
    var held, taken := HeldOver(worlds, k, holder), TakenOver(worlds, steps, k, holder);
    assert forall n :: i <= n <= j ==> (held[n] <==> HeldAt(worlds[n], k, holder));
    assert forall n :: i <= n < j ==> (taken[n] <==> OverwrittenAt(worlds, steps, n, k, holder));
  }

  /** A disk that another node has claimed, as a machine that says who it is sees it when it reads the
      claim: not its own, not free, and where nothing but the claim speaks against it, the claimant's. */
  predicate HeldByAnother(m: Machine, bay: Bay, disk: Disk, reading: Reading, holder: string) {
    var v := LookAt(m, bay, disk, reading).verdict;
    var unclaimed := VerdictOf(m, DeviceIn(bay, disk), None);
    && !v.Mine? && !v.Blank?
    && (unclaimed.Mine? ==> v == AnotherNode(unclaimed.slabId, ClaimedBy(holder)))
  }

  /** And what a boot of that machine does to it: nothing. */
  predicate LeftAlone(w: World, id: nat, o: Occasion, k: nat, holder: string)
    requires WellPlugged(w, w.bays) && id in w.machines && k in w.disks
  {
    var m, bays := w.machines[id], w.bays[id];
    var b := BootOf(m, bays, w.disks, o);
    && (b.from.Some? ==> b.from.value < |bays| && bays[b.from.value].disk != k)
    && (b.offered.Some? ==> b.offered.value < |bays| && bays[b.offered.value].disk != k)
    && b.disks[k] == w.disks[k]
    && forall i :: 0 <= i < |bays| && bays[i].disk == k ==>
         HeldByAnother(m, bays[i], w.disks[k], ReadingOf(o, i), holder)
  }

  lemma OthersLeaveItAlone(w: World, id: nat, o: Occasion, k: nat, holder: string)
    requires Inv(w) && id in w.machines && k in w.disks && Attentive(w, PowerOn(id, o), k)
    requires Names(w.disks[k], holder)
    requires w.machines[id].identity.Some? && w.machines[id].identity.value != holder
    ensures LeftAlone(w, id, o, k, holder)
  {
    var m, bays := w.machines[id], w.bays[id];
    var b := BootOf(m, bays, w.disks, o);
    InitContract(m, bays, w.disks, o);
    if b.from.Some? {
      BootedDiskBoots(m, bays, w.disks, o);
      ClaimSeenOn(w.disks[k], ReadingOf(o, b.from.value));
    }
    OfferedHasNoEsp(w, id, o);
    BootTouchesItsDiskOnly(w, id, o, k);
    assert TableShows(w.disks[k]);
    forall i | 0 <= i < |bays| && bays[i].disk == k
      ensures HeldByAnother(m, bays[i], w.disks[k], ReadingOf(o, i), holder)
    {
      OthersVerdict(m, bays[i], w.disks[k], ReadingOf(o, i), holder);
    }
  }

  lemma OthersVerdict(m: Machine, bay: Bay, disk: Disk, reading: Reading, holder: string)
    requires TableShows(disk) && Names(disk, holder) && ReadsClaim(reading)
    requires m.identity.Some? && m.identity.value != holder
    ensures HeldByAnother(m, bay, disk, reading, holder)
  {
    var d, found := DeviceIn(bay, disk), FoundOn(disk, reading);
    ClaimSeenOn(disk, reading);
    MineExactly(m, d, found);
    GptIsNeverBlank(m, d, found);
    var unclaimed := VerdictOf(m, d, None);
    if unclaimed.Mine? {
      ClaimIsDecisive(m, d, found, unclaimed.slabId, unclaimed.role, unclaimed.slab);
    }
  }

  /** From the moment a disk is claimed, as long as its claim is read and nobody forces, each boot of
      every other machine that says who it is leaves the disk alone, wherever it has been moved to by
      then. */
  lemma ClaimedDisksAreLeftAlone(worlds: seq<World>, steps: seq<Step>, i: nat, j: nat, k: nat, holder: string)
    requires IsRun(worlds, steps) && Inv(worlds[0]) && i <= j < |steps| && Respected(worlds, steps, i, j + 1, k)
    requires HeldAt(worlds[i], k, holder)
    requires steps[j].PowerOn? && steps[j].id in worlds[j].machines
    requires var me := worlds[j].machines[steps[j].id].identity; me.Some? && me.value != holder
    ensures WellPlugged(worlds[j], worlds[j].bays) && k in worlds[j].disks
    ensures LeftAlone(worlds[j], steps[j].id, steps[j].o, k, holder)
  {
    ClaimsLast(worlds, steps, i, j, k);
    RunKeepsInv(worlds, steps, j);
    assert RespectedAt(worlds, steps, j, k);
    OthersLeaveItAlone(worlds[j], steps[j].id, steps[j].o, k, holder);
  }

  // ------------------------------------------------------------------ why each hypothesis is there

  /** Where no claim is seen, two machines see the same drives. */
  lemma WithoutClaimsAllSeeTheSame(m: Machine, n: Machine, bays: seq<Bay>, disks: map<nat, Disk>, o: Occasion)
    requires Plugged(bays, disks) && m.stormblock == n.stormblock
    requires forall i :: 0 <= i < |bays| ==> !HasClaim(FoundIn(bays, disks, o, i))
    ensures SurveyOf(m, bays, disks, o) == SurveyOf(n, bays, disks, o)
  {
    forall i | 0 <= i < |bays| ensures SurveyOf(m, bays, disks, o)[i] == SurveyOf(n, bays, disks, o)[i] {
      assert !HasClaim(FoundIn(bays, disks, o, i));
      SameSight(m, n, bays[i], disks[bays[i].disk], ReadingOf(o, i));
    }
  }

  lemma SameSight(m: Machine, n: Machine, bay: Bay, disk: Disk, reading: Reading)
    requires m.stormblock == n.stormblock && !HasClaim(FoundOn(disk, reading))
    ensures LookAt(m, bay, disk, reading) == LookAt(n, bay, disk, reading)
  {
  }

  /** A disk whose claim is not seen is anybody's: plugged in anywhere, every machine that says who it
      is, or does not, takes it for its own just as any other, with the same slab, and boots it as well. */
  lemma UnclaimedDisksAreAnybodys(m: Machine, n: Machine, bay: Bay, away: Bay, disk: Disk, reading: Reading)
    requires !HasClaim(FoundOn(disk, reading)) && m.stormblock == n.stormblock && bay.remote.None? && away.remote.None?
    ensures var d, e := LookAt(m, bay, disk, reading), LookAt(n, away, disk, reading);
            && (d.verdict.Mine? <==> e.verdict.Mine?)
            && (d.verdict.Mine? ==> e.verdict.slabId == d.verdict.slabId && (e.Boots() <==> d.Boots()))
            && VolumeNamed(d) == VolumeNamed(e)
  {
    var d, e := DeviceIn(bay, disk), DeviceIn(away, disk);
    assert AllSameButPath(d.parts, e.parts);
    VerdictMoves(m, n, d, e, FoundOn(disk, reading));
  }

  lemma LoneDriveBoots(n: Machine, away: Bay, disks: map<nat, Disk>, p: Occasion)
    requires away.disk in disks && p.lists
    requires var d := LookAt(n, away, disks[away.disk], ReadingOf(p, 0)); d.verdict.Mine? && d.Boots()
    ensures var d := LookAt(n, away, disks[away.disk], ReadingOf(p, 0));
            var b := BootOf(n, [away], disks, p);
            b.code == 0 && b.from == Some(0)
            && b.pairs == LocalPairs(away.path, d.verdict.slab, d.verdict.slabId, VolumeNamed(d))
  {
    var d := LookAt(n, away, disks[away.disk], ReadingOf(p, 0));
    assert SurveyOf(n, [away], disks, p) == [d];
    OnlyDrive(d);
    assert IndexOfPath([d], away.path) == 0;
  }

  lemma FilterOfOne(kind: Kind, d: Drive)
    ensures Filter(kind, [d]) == if Is(kind, d) then [d] else []
  {
    assert [d] == [d] + [] && [d][1..] == [];
  }

  /** A machine with one drive, and that ours, boots it or reports it. */
  lemma OnlyDrive(d: Drive)
    requires d.verdict.Mine?
    ensures d.Boots() ==> IntentOf([d]) == AlreadyMine(d.path, d.verdict.slab, d.verdict.slabId)
    ensures !d.Boots() ==> IntentOf([d]).MineButNoneBoots?
  {
    FilterOfOne(MineBoots, d);
    IntentByContents([d]);
    assert d in [d];
    assert d.Boots() ==> FirstLeast(ByRole, [d]) == Some(d);
  }

  /** What a boot boots from is plugged in here, a slab stormblock named, ours and bootable. */
  lemma BootedHere(m: Machine, bays: seq<Bay>, disks: map<nat, Disk>, o: Occasion)
    requires Plugged(bays, disks) && Addressed(bays) && BootOf(m, bays, disks, o).from.Some?
    ensures var b := BootOf(m, bays, disks, o);
            && b.from.value < |bays|
            && var i := b.from.value;
            var d := LookAt(m, bays[i], disks[bays[i].disk], ReadingOf(o, i));
            && m.stormblock && bays[i].remote.None? && d.verdict.Mine? && d.Boots()
            && b.pairs == LocalPairs(d.path, d.verdict.slab, d.verdict.slabId, VolumeNamed(d))
  {
    InitContract(m, bays, disks, o);
    BootedFrom(m, bays, disks, o);
    var i := BootOf(m, bays, disks, o).from.value;
    MineExactly(m, DeviceIn(bays[i], disks[bays[i].disk]), FoundIn(bays, disks, o, i));
  }

  /** So a boot that does not get its claim written, because claiming is off, the medium refuses, the
      ESP cannot be mounted or the machine has no name, binds nobody: any machine that is given the disk
      boots the same slab and volume off it, in whatever bay. */
  lemma UnwrittenClaimsBindNobody(m: Machine, n: Machine, bays: seq<Bay>, away: Bay, disks: map<nat, Disk>,
                                  o: Occasion, p: Occasion)
    requires Plugged(bays, disks) && Addressed(bays) && n.stormblock && away.remote.None? && p.lists
    requires var b := BootOf(m, bays, disks, o);
             && b.from.Some? && !b.wrote && b.from.value < |bays|
             && away.disk == bays[b.from.value].disk && ClaimOf(disks[away.disk]).None?
             && ReadingOf(p, 0) == ReadingOf(o, b.from.value)
    ensures var b := BootOf(m, bays, disks, o);
            && Plugged([away], b.disks)
            && var c := BootOf(n, [away], b.disks, p);
            c.code == 0 && c.from == Some(0) && c.pairs[3..] == b.pairs[3..]
  {
    var i := BootOf(m, bays, disks, o).from.value;
    var disk, reading := disks[away.disk], ReadingOf(o, i);
    BootWritesOneClaim(m, bays, disks, o);
    BootedHere(m, bays, disks, o);
    ClaimSeenOn(disk, reading);
    UnclaimedDisksAreAnybodys(m, n, bays[i], away, disk, reading);
    LoneDriveBoots(n, away, disks, p);
  }

  /** And a machine that will not say who it is boots what others have claimed: it sees every drive as
      if nobody had. */
  lemma NamelessMachinesIgnoreClaims(m: Machine, bay: Bay, disk: Disk, reading: Reading)
    requires m.identity.None?
    ensures LookAt(m, bay, disk, reading).verdict == VerdictOf(m, DeviceIn(bay, disk), None)
  {
    VerdictByClaim(m, DeviceIn(bay, disk), FoundOn(disk, reading), None);
  }

  // ------------------------------------------------------------------ a node gets its disk back

  /** Two disks that are alike but for the claim that is found, looked at in two bays. */
  lemma AlikeButForClaim(m: Machine, n: Machine, bay: Bay, away: Bay, disk: Disk, after: Disk, reading: Reading)
    requires n.stormblock == m.stormblock && bay.remote.None? && away.remote.None? && after.(esp := disk.esp) == disk
    requires !ClaimedByAnother(m, FoundOn(disk, reading)) && !ClaimedByAnother(n, FoundOn(disk, reading))
    requires !ClaimedByAnother(n, FoundOn(after, reading))
    ensures var d, e := LookAt(m, bay, disk, reading), LookAt(n, away, after, reading);
            && (d.verdict.Mine? <==> e.verdict.Mine?)
            && (d.verdict.Mine? ==> e.verdict.slabId == d.verdict.slabId && e.verdict.role == d.verdict.role)
  {
    var d, e := DeviceIn(bay, disk), DeviceIn(away, after);
    assert AllSameButPath(d.parts, e.parts);
    VerdictMoves(m, n, d, e, FoundOn(disk, reading));
    VerdictByClaim(n, e, FoundOn(disk, reading), FoundOn(after, reading));
  }

  lemma FoundAgain(m: Machine, disk: Disk, t: Stamp, claimed: bool, reading: Reading)
    requires m.identity.Some?
    requires BootsAsFound(FoundOn(disk, reading)) && !ClaimedByAnother(m, FoundOn(disk, reading))
    requires claimed ==> disk.esp.Mounted? && CanonicalNode(m.identity.value)
    ensures var after := if claimed then Claimed(disk, m.identity.value, t) else disk;
            var before, again := FoundOn(disk, reading), FoundOn(after, reading);
            && !ClaimedByAnother(m, again) && (before.None? <==> again.None?)
            && (before.Some? ==> again.value.boot == before.value.boot)
  {
    if claimed {
      FoundAfterClaim(disk, m.identity.value, t, reading);
    }
  }

  /** A disk a machine booted, with that machine's claim or as it was, looks to a machine of that name as
      it did, wherever it is plugged in by then. */
  lemma OwnDiskLooksTheSame(m: Machine, n: Machine, bay: Bay, away: Bay, disk: Disk, t: Stamp, claimed: bool, reading: Reading)
    requires m.identity.Some? && n.identity == m.identity && n.stormblock == m.stormblock
    requires bay.remote.None? && away.remote.None?
    requires BootsAsFound(FoundOn(disk, reading)) && !ClaimedByAnother(m, FoundOn(disk, reading))
    requires claimed ==> disk.esp.Mounted? && CanonicalNode(m.identity.value)
    ensures var after := if claimed then Claimed(disk, m.identity.value, t) else disk;
            var d, e := LookAt(m, bay, disk, reading), LookAt(n, away, after, reading);
            && (d.verdict.Mine? <==> e.verdict.Mine?)
            && (d.verdict.Mine? ==> e.verdict.slabId == d.verdict.slabId && (e.Boots() <==> d.Boots()))
            && VolumeNamed(e) == VolumeNamed(d)
  {
    FoundAgain(m, disk, t, claimed, reading);
    AlikeButForClaim(m, n, bay, away, disk, if claimed then Claimed(disk, m.identity.value, t) else disk, reading);
  }

  /** What a boot that left the disk named for its machine did, that machine does again in any bay. */
  lemma OwnDiskBootsAnywhere(m: Machine, bays: seq<Bay>, disks: map<nat, Disk>, o: Occasion,
                             n: Machine, away: Bay, later: map<nat, Disk>, p: Occasion)
    requires Plugged(bays, disks) && Addressed(bays)
    requires m.identity.Some? && n.identity == m.identity && n.stormblock && away.remote.None? && p.lists
    requires var b := BootOf(m, bays, disks, o);
             && b.from.Some? && b.from.value < |bays| && away.disk == bays[b.from.value].disk
             && away.disk in b.disks && Names(b.disks[away.disk], m.identity.value)
             && away.disk in later && later[away.disk] == b.disks[away.disk]
             && ReadingOf(p, 0) == ReadingOf(o, b.from.value)
    ensures var b, c := BootOf(m, bays, disks, o), BootOf(n, [away], later, p);
            c.code == 0 && c.from == Some(0) && c.pairs[3..] == b.pairs[3..]
  {
    var b := BootOf(m, bays, disks, o);
    BootWritesOneClaim(m, bays, disks, o);
    BootedDiskBoots(m, bays, disks, o);
    BootedHere(m, bays, disks, o);
    HoldersAreCanonical(b.disks[away.disk], m.identity.value);
    OwnDiskLooksTheSame(m, n, bays[b.from.value], away, disks[away.disk], o.t, b.wrote, ReadingOf(o, b.from.value));
    LoneDriveBoots(n, away, later, p);
  }

  /** A node gets its disk back: once it has booted off a disk that then carries its name, the disk may be
      moved about, booted next to and claimed at by anyone, as long as the claim is read and nobody
      forces; whenever a machine of that name is given it alone, in whatever bay, it boots the same slab
      and the same volume. */
  lemma NodesGetTheirDisksBack(worlds: seq<World>, steps: seq<Step>, i: nat, j: nat, n: Machine, away: Bay, p: Occasion)
    requires IsRun(worlds, steps) && Inv(worlds[0]) && i < j <= |steps|
    requires steps[i].PowerOn? && steps[i].id in worlds[i].machines && WellPlugged(worlds[i], worlds[i].bays)
    requires Respected(worlds, steps, i + 1, j, away.disk)
    requires var m, bays := worlds[i].machines[steps[i].id], worlds[i].bays[steps[i].id];
             var b := BootOf(m, bays, worlds[i].disks, steps[i].o);
             && m.identity.Some? && n.identity == m.identity
             && b.from.Some? && b.from.value < |bays| && away.disk == bays[b.from.value].disk
             && away.disk in b.disks && Names(b.disks[away.disk], m.identity.value)
             && ReadingOf(p, 0) == ReadingOf(steps[i].o, b.from.value)
    requires n.stormblock && away.remote.None? && p.lists
    ensures away.disk in worlds[j].disks
    ensures var b := BootOf(worlds[i].machines[steps[i].id], worlds[i].bays[steps[i].id], worlds[i].disks, steps[i].o);
            var c := BootOf(n, [away], worlds[j].disks, p);
            c.code == 0 && c.from == Some(0) && c.pairs[3..] == b.pairs[3..]
  {
    var m, bays := worlds[i].machines[steps[i].id], worlds[i].bays[steps[i].id];
    assert FollowsAt(worlds, steps, i);
    ClaimsLast(worlds, steps, i + 1, j, away.disk);
    OwnDiskBootsAnywhere(m, bays, worlds[i].disks, steps[i].o, n, away, worlds[j].disks, p);
  }
}
