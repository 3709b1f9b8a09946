/** One boot: what it prints for `init`, and the claims it leaves that decide the next one. */
module Decision {
  import opened Text
  import opened Utf8
  import opened Claims
  import opened Esp
  import opened Scan
  import opened Survey
  import opened Probe
  import opened Shell
  import opened Clock

  // ------------------------------------------------------------------ disks in bays

  /** A disk's ESP: none, one that no machine can mount, or one with a file system. */
  datatype EspState = NoEsp | Broken | Mounted(fs: Fs)

  /** A partition by the end of its name, with its bytes and what stormblock says of it. */
  datatype Part = Part(suffix: string, bytes: Result<Bytes>, answer: string)

  /** A disk, as it goes from chassis to chassis. What the ESP's files say is kept apart from the raw
      bytes the probes read. */
  datatype Disk = Disk(
    size: nat, rotational: bool, removable: bool,
    bytes: Result<Bytes>, answer: string, parts: seq<Part>, esp: EspState)

  /** Where a disk is attached: the path it gets there, and the network it came over if it did. */
  datatype Bay = Bay(path: string, disk: nat, remote: Option<string>)

  function DeviceIn(bay: Bay, disk: Disk): Device {
    Device(disk.size, disk.removable, bay.remote,
           Node(bay.path, disk.bytes, disk.answer),
           seq(|disk.parts|, i requires 0 <= i < |disk.parts| =>
             Node(bay.path + disk.parts[i].suffix, disk.parts[i].bytes, disk.parts[i].answer)))
  }

  /** The circumstances of a boot: whether the drives can be listed at all, whether claiming is on,
      whether the medium takes a write, how reading the ESP in each bay goes where it does not go well,
      the time, and the wording of the reason. */
  datatype Occasion = Occasion(
    lists: bool, claiming: bool, takes: bool, readings: map<nat, Reading>, t: Stamp, reason: string)

  function ReadingOf(o: Occasion, i: nat): Reading {
    if i in o.readings then o.readings[i] else Yields({})
  }

  /** An ESP that fails to read is no ESP. */
  function FoundOn(disk: Disk, reading: Reading): Option<Esp> {
    if disk.esp.Mounted? && reading.Yields? then Some(EspOf(Seen(disk.esp.fs, reading.lost))) else None
  }

  function LookAt(m: Machine, bay: Bay, disk: Disk, reading: Reading): Drive {
    var found := FoundOn(disk, reading);
    Drive(bay.path, disk.size, disk.rotational, found, VerdictOf(m, DeviceIn(bay, disk), found))
  }

  predicate Plugged(bays: seq<Bay>, disks: map<nat, Disk>) {
    forall i :: 0 <= i < |bays| ==> bays[i].disk in disks
  }

  /** One drive a path, and no path empty. */
  predicate Addressed(bays: seq<Bay>) {
    && (forall i :: 0 <= i < |bays| ==> bays[i].path != "")
    && (forall i, j :: 0 <= i < j < |bays| ==> bays[i].path != bays[j].path)
  }

  function SurveyOf(m: Machine, bays: seq<Bay>, disks: map<nat, Disk>, o: Occasion): seq<Drive>
    requires Plugged(bays, disks)
  {
    seq(|bays|, i requires 0 <= i < |bays| => LookAt(m, bays[i], disks[bays[i].disk], ReadingOf(o, i)))
  }

  function IndexOfPath(drives: seq<Drive>, path: string): (i: nat)
    ensures i <= |drives|
    ensures i < |drives| ==> drives[i].path == path
  {
    if drives == [] || drives[0].path == path then 0 else 1 + IndexOfPath(drives[1..], path)
  }

  // ------------------------------------------------------------------ claiming

  predicate HasClaim(found: Option<Esp>) {
    found.Some? && found.value.claim.Some?
  }

  /** No claim was seen, this machine says who it is, and there is an ESP to claim on. */
  predicate Claimable(m: Machine, disk: Disk, found: Option<Esp>) {
    m.identity.Some? && disk.esp.Mounted? && !HasClaim(found)
  }

  function Claimed(disk: Disk, node: string, t: Stamp): Disk
    requires disk.esp.Mounted?
  {
    disk.(esp := Mounted(WithClaim(disk.esp.fs, Claim(node, Clock.Render(t)))))
  }

  function ClaimOf(disk: Disk): Option<Claim> {
    if disk.esp.Mounted? then ClaimOn(disk.esp.fs) else None
  }

  /** What is seen of a claim is the claim, by the readings that read its file, and nothing by others. */
  lemma ClaimSeenOn(disk: Disk, reading: Reading)
    ensures HasClaim(FoundOn(disk, reading)) <==> ClaimOf(disk).Some? && ReadsClaim(reading)
    ensures HasClaim(FoundOn(disk, reading)) ==> FoundOn(disk, reading).value.claim == ClaimOf(disk)
  {
    if disk.esp.Mounted? && reading.Yields? {
      SeenClaim(disk.esp.fs, reading.lost);
    }
  }

  // ------------------------------------------------------------------ the boot

  /** What one boot comes to: exit code, output, disks afterwards, whether a claim was written, and the
      bays booted from or offered. */
  datatype Booted = Booted(
    code: int, pairs: seq<Pair>, disks: map<nat, Disk>, wrote: bool, from: Option<nat>, offered: Option<nat>)

  function VolumeNamed(d: Drive): string {
    if d.esp.Some? && d.esp.value.boot.Some? && d.esp.value.boot.value.bootVolume.Some?
    then d.esp.value.boot.value.bootVolume.value else ""
  }

  function AskPairs(reason: string, takeable: string): seq<Pair> {
    [Pair("ZB_ACTION", "ask-appliance"), Pair("ZB_REASON", reason), Pair("ZB_TAKEABLE", takeable)]
  }

  function LocalPairs(drive: string, slab: string, slabId: string, volume: string): seq<Pair> {
    [Pair("ZB_ACTION", "boot-local"), Pair("ZB_DRIVE", drive), Pair("ZB_SLAB", slab),
     Pair("ZB_SLAB_ID", slabId), Pair("ZB_VOLUME", volume)]
  }

  /** Whether booting off bay `i`, where `found` is what was found, writes a claim. */
  predicate Writes(m: Machine, bays: seq<Bay>, disks: map<nat, Disk>, i: nat, found: Option<Esp>, o: Occasion)
    requires Plugged(bays, disks)
  {
    o.claiming && o.takes && i < |bays| && Claimable(m, disks[bays[i].disk], found)
  }

  function DisksAfter(m: Machine, bays: seq<Bay>, disks: map<nat, Disk>, i: nat, found: Option<Esp>, o: Occasion):
    map<nat, Disk>
    requires Plugged(bays, disks)
  {
    if Writes(m, bays, disks, i, found, o)
    then disks[bays[i].disk := Claimed(disks[bays[i].disk], m.identity.value, o.t)]
    else disks
  }

  /** Booting off a drive of ours, found again by its path. */
  function BootedLocal(m: Machine, bays: seq<Bay>, disks: map<nat, Disk>, drives: seq<Drive>,
                       path: string, slab: string, slabId: string, o: Occasion): Booted
    requires Plugged(bays, disks) && |drives| == |bays|
  {
    var i := IndexOfPath(drives, path);
    var volume := if i < |drives| then VolumeNamed(drives[i]) else "";
    var found := if i < |drives| then drives[i].esp else None;
    Booted(0, LocalPairs(path, slab, slabId, volume),
           DisksAfter(m, bays, disks, i, found, o), Writes(m, bays, disks, i, found, o), Some(i), None)
  }

  /** What follows from an intent. */
  function Acted(m: Machine, bays: seq<Bay>, disks: map<nat, Disk>, drives: seq<Drive>, intent: Intent, o: Occasion):
    Booted
    requires Plugged(bays, disks) && |drives| == |bays|
  {
    match intent
    case AlreadyMine(path, slab, slabId) => BootedLocal(m, bays, disks, drives, path, slab, slabId, o)
    case TakeOver(path) =>
      Booted(2, AskPairs(o.reason, path), disks, false, None, Some(IndexOfPath(drives, path)))
    case MineButNoneBoots(_) => Booted(2, AskPairs(o.reason, ""), disks, false, None, None)
    case NothingToTake(_) => Booted(2, AskPairs(o.reason, ""), disks, false, None, None)
  }

  function ErrorPairs(reason: string): seq<Pair> {
    [Pair("ZB_ACTION", "error"), Pair("ZB_REASON", reason)]
  }

  function BootOf(m: Machine, bays: seq<Bay>, disks: map<nat, Disk>, o: Occasion): Booted
    requires Plugged(bays, disks)
  {
    if !o.lists then Booted(1, ErrorPairs(o.reason), disks, false, None, None)
    else
      var drives := SurveyOf(m, bays, disks, o);
      Acted(m, bays, disks, drives, IntentOf(drives), o)
  }

  /** What `zeroboot claim` does to a disk, or Err with the disk as it was. */
  function ClaimCommandOf(identity: Option<string>, node: Option<string>, disk: Disk, reading: Reading, force: bool,
                          takes: bool, t: Stamp): Result<Disk>
  {
    var me := if node.Some? then node else identity;
    var found := FoundOn(disk, reading);
    if me.None? || found.None? then Err else
      var held := found.value.claim;
      if held.Some? && held.value.node != me.value && !force then Err
      else if held.Some? && held.value.node == me.value then Ok(disk)
      else if !takes then Err
      else Ok(Claimed(disk, me.value, t))
  }

  /** A machine with its disks, and what it has printed. */
  class Chassis {
    const m: Machine
    const bays: seq<Bay>
    var disks: map<nat, Disk>
    var stdout: string

    constructor (m: Machine, bays: seq<Bay>, disks: map<nat, Disk>)
      ensures this.m == m && this.bays == bays && this.disks == disks && stdout == ""
    {
      this.m, this.bays, this.disks, stdout := m, bays, disks, "";
    }

    method SurveyDrives(o: Occasion) returns (drives: seq<Drive>)
      requires Plugged(bays, disks)
      ensures drives == SurveyOf(m, bays, disks, o)
    {
      drives := [];
      for i := 0 to |bays|
        invariant |drives| == i
        invariant forall j :: 0 <= j < i ==> drives[j] == LookAt(m, bays[j], disks[bays[j].disk], ReadingOf(o, j))
      {
        var disk := disks[bays[i].disk];
        var found := ReadEsp(disk, ReadingOf(o, i));
        var verdict := Judge(m, DeviceIn(bays[i], disk), found, true);
        drives := drives + [Drive(bays[i].path, disk.size, disk.rotational, found, verdict)];
      }
    }

    /** `esp::read(..).ok().flatten()`. */
    method ReadEsp(disk: Disk, reading: Reading) returns (found: Option<Esp>)
      ensures found == FoundOn(disk, reading)
    {
      if !disk.esp.Mounted? || reading.Fails? { return None; }
      var v := new Volume(Seen(disk.esp.fs, reading.lost));
      var esp := v.Read();
      found := Some(esp);
    }

    /** Write a claim on the disk in a bay, when it has an ESP and takes the write. */
    method WriteClaimIn(k: nat, node: string, takes: bool, t: Stamp) returns (ok: bool)
      requires k in disks
      modifies this`disks
      ensures ok == (takes && old(disks)[k].esp.Mounted?)
      ensures disks == if ok then old(disks)[k := Claimed(old(disks)[k], node, t)] else old(disks)
    {
      if !disks[k].esp.Mounted? { return false; }
      var v := new Volume(disks[k].esp.fs);
      ok := v.WriteClaim(Claim(node, Clock.Render(t)), takes);
      if ok {
        disks := disks[k := disks[k].(esp := Mounted(v.fs))];
      }
    }

    /** `claim_on_boot`. What counts is whether a claim was seen; a failed write is no reason not to
        boot. */
    method ClaimOnBoot(i: nat, found: Option<Esp>, o: Occasion)
      requires Plugged(bays, disks) && i < |bays| && o.claiming
      modifies this`disks
      ensures disks == DisksAfter(m, bays, old(disks), i, found, o)
    {
      if HasClaim(found) { return; }
      if m.identity.None? { return; }
      var wrote := WriteClaimIn(bays[i].disk, m.identity.value, o.takes, o.t);
    }

    method BootLocal(drives: seq<Drive>, path: string, slab: string, slabId: string, o: Occasion)
      returns (code: int, pairs: seq<Pair>)
      requires Plugged(bays, disks) && |drives| == |bays|
      modifies this`disks
      ensures var b := BootedLocal(m, bays, old(disks), drives, path, slab, slabId, o);
              code == b.code && disks == b.disks && pairs == b.pairs
    {
      var i := IndexOfPath(drives, path);
      var volume := if i < |drives| then VolumeNamed(drives[i]) else "";
      if o.claiming && i < |drives| {
        ClaimOnBoot(i, drives[i].esp, o);
      }
      return 0, LocalPairs(path, slab, slabId, volume);
    }

    /** The branches of `boot`, behind the survey. */
    method Act(drives: seq<Drive>, intent: Intent, o: Occasion) returns (code: int, pairs: seq<Pair>)
      requires Plugged(bays, disks) && |drives| == |bays|
      modifies this`disks
      ensures var b := Acted(m, bays, old(disks), drives, intent, o);
              code == b.code && disks == b.disks && pairs == b.pairs
    {
      match intent {
        case AlreadyMine(path, slab, slabId) => code, pairs := BootLocal(drives, path, slab, slabId, o);
        case TakeOver(path) => return 2, AskPairs(o.reason, path);
        case MineButNoneBoots(_) => return 2, AskPairs(o.reason, "");
        case NothingToTake(_) => return 2, AskPairs(o.reason, "");
      }
    }

    /** `boot`: look, decide, claim where there is something to claim, and print once. */
    method Boot(o: Occasion) returns (code: int)
      requires Plugged(bays, disks)
      modifies this
      ensures var b := BootOf(m, bays, old(disks), o);
              code == b.code && disks == b.disks && stdout == old(stdout) + Emitted(b.pairs)
    {
      var pairs := ErrorPairs(o.reason);
      code := 1;
      if o.lists {
        var drives := SurveyDrives(o);
        var intent := Decide(drives);
        code, pairs := Act(drives, intent, o);
      }
      var text := Emit(pairs);
      stdout := stdout + text;
    }

    /** `claim`, for the disk in a bay. */
    method ClaimCommand(i: nat, node: Option<string>, reading: Reading, force: bool, takes: bool, t: Stamp)
      returns (ok: bool)
      requires Plugged(bays, disks) && i < |bays|
      modifies this`disks
      ensures var k := bays[i].disk;
              var r := ClaimCommandOf(m.identity, node, old(disks)[k], reading, force, takes, t);
              ok == r.Ok? && disks == if r.Ok? then old(disks)[k := r.value] else old(disks)
    {
      var k := bays[i].disk;
      var me := if node.Some? then node else m.identity;
      if me.None? { return false; }
      var existing := ReadEsp(disks[k], reading);
      if existing.None? { return false; }
      if existing.value.claim.Some? {
        if existing.value.claim.value.node != me.value && !force { return false; }
        if existing.value.claim.value.node == me.value {
          assert disks[k := disks[k]] == disks;
          return true;
        }
      }
      ok := WriteClaimIn(k, me.value, takes, t);
    }
  }

  // ------------------------------------------------------------------ what init can rely on

  /** What a variable is left at by a list of assignments, where it was not set before. */
  function ValueOf(pairs: seq<Pair>, key: string): string {
    if pairs == [] then ""
    else if pairs[|pairs| - 1].key == key then pairs[|pairs| - 1].value
    else ValueOf(pairs[..|pairs| - 1], key)
  }

  lemma KeysAreNames()
    ensures IsName("ZB_ACTION") && IsName("ZB_REASON") && IsName("ZB_TAKEABLE")
    ensures IsName("ZB_DRIVE") && IsName("ZB_SLAB") && IsName("ZB_SLAB_ID") && IsName("ZB_VOLUME")
  {
  }

  lemma AskPairsAreNamed(reason: string, takeable: string)
    ensures NamesOnly(AskPairs(reason, takeable)) && NamesOnly(ErrorPairs(reason))
  {
    KeysAreNames();
  }

  lemma LocalPairsAreNamed(drive: string, slab: string, slabId: string, volume: string)
    ensures NamesOnly(LocalPairs(drive, slab, slabId, volume))
  {
    KeysAreNames();
  }

  lemma PairsAreNamed(m: Machine, bays: seq<Bay>, disks: map<nat, Disk>, drives: seq<Drive>, intent: Intent, o: Occasion)
    requires Plugged(bays, disks) && |drives| == |bays|
    ensures NamesOnly(Acted(m, bays, disks, drives, intent, o).pairs)
  {
    match intent {
      case AlreadyMine(path, slab, slabId) =>
        var i := IndexOfPath(drives, path);
        LocalPairsAreNamed(path, slab, slabId, if i < |drives| then VolumeNamed(drives[i]) else "");
      case TakeOver(path) => AskPairsAreNamed(o.reason, path);
      case _ => AskPairsAreNamed(o.reason, "");
    }
  }

  /** Whatever the drives and the reason say, the shell that evaluates the output makes the boot's
      assignments and does nothing else. */
  lemma OutputEvaluates(m: Machine, bays: seq<Bay>, disks: map<nat, Disk>, o: Occasion)
    requires Plugged(bays, disks)
    ensures var pairs := BootOf(m, bays, disks, o).pairs;
            Eval(Substituted(Emitted(pairs))) == Some(Flattened(pairs))
  {
    if o.lists {
      var drives := SurveyOf(m, bays, disks, o);
      PairsAreNamed(m, bays, disks, drives, IntentOf(drives), o);
    } else {
      AskPairsAreNamed(o.reason, "");
    }
    EvalOfSubstituted(BootOf(m, bays, disks, o).pairs);
  }

  lemma {:induction false} IndexOfPathFinds(drives: seq<Drive>, i: nat)
    requires i < |drives|
    ensures IndexOfPath(drives, drives[i].path) <= i
  {
    if i > 0 && drives[0].path != drives[i].path {
      IndexOfPathFinds(drives[1..], i - 1);
    }
  }

  /** With one drive a path, a path found again is the drive it was taken from. */
  lemma PathFindsDrive(m: Machine, bays: seq<Bay>, disks: map<nat, Disk>, o: Occasion, d: Drive)
    requires Plugged(bays, disks) && Addressed(bays) && d in SurveyOf(m, bays, disks, o)
    ensures var drives := SurveyOf(m, bays, disks, o);
            var i := IndexOfPath(drives, d.path);
            i < |bays| && drives[i] == d && bays[i].path == d.path && d.path != ""
  {
    var drives := SurveyOf(m, bays, disks, o);
    var j :| 0 <= j < |drives| && drives[j] == d;
    IndexOfPathFinds(drives, j);
    var i := IndexOfPath(drives, d.path);
    assert drives[i].path == bays[i].path && drives[j].path == bays[j].path;
  }

  /** The drive an intent to boot or to take is about. */
  lemma IntentNamesDrive(drives: seq<Drive>) returns (d: Drive)
    requires IntentOf(drives).AlreadyMine? || IntentOf(drives).TakeOver?
    ensures d in drives
    ensures IntentOf(drives).AlreadyMine? ==>
              && d.verdict.Mine? && d.Boots()
              && IntentOf(drives) == AlreadyMine(d.path, d.verdict.slab, d.verdict.slabId)
    ensures IntentOf(drives).TakeOver? ==>
              && d.verdict.Blank? && IntentOf(drives) == TakeOver(d.path)
              && forall e :: e in drives ==> !e.verdict.Mine?
  {
    IntentByContents(drives);
    if IntentOf(drives).AlreadyMine? {
      var candidates := Filter(MineBoots, drives);
      d := FirstLeast(ByRole, candidates).value;
      FirstLeastIsLeast(ByRole, candidates);
      FilterHas(MineBoots, drives, d);
    } else {
      var candidates := Filter(Free, drives);
      d := FirstLeast(ByPreference, candidates).value;
      FirstLeastIsLeast(ByPreference, candidates);
      FilterHas(Free, drives, d);
    }
  }

  lemma BootedFrom(m: Machine, bays: seq<Bay>, disks: map<nat, Disk>, o: Occasion)
    requires Plugged(bays, disks) && Addressed(bays) && o.lists
    requires IntentOf(SurveyOf(m, bays, disks, o)).AlreadyMine?
    ensures var b := BootOf(m, bays, disks, o);
            && b.from.Some? && b.from.value < |bays|
            && var d := SurveyOf(m, bays, disks, o)[b.from.value];
            && d.verdict.Mine? && d.Boots()
            && b.pairs == LocalPairs(d.path, d.verdict.slab, d.verdict.slabId, VolumeNamed(d))
  {
    var d := IntentNamesDrive(SurveyOf(m, bays, disks, o));
    PathFindsDrive(m, bays, disks, o, d);
  }

  lemma OnlyPathFindsDrive(drives: seq<Drive>, i: nat)
    requires i < |drives|
    requires forall j :: 0 <= j < |drives| && drives[j].path == drives[i].path ==> j == i
    ensures IndexOfPath(drives, drives[i].path) == i
  {
    IndexOfPathFinds(drives, i);
  }

  lemma ActedFrom(m: Machine, bays: seq<Bay>, disks: map<nat, Disk>, drives: seq<Drive>, intent: Intent, o: Occasion)
    requires Plugged(bays, disks) && |drives| == |bays| && intent.AlreadyMine?
    ensures Acted(m, bays, disks, drives, intent, o).from == Some(IndexOfPath(drives, intent.drive))
  {
  }

  lemma BootsFromFirst(m: Machine, bays: seq<Bay>, disks: map<nat, Disk>, o: Occasion, i: nat)
    requires Plugged(bays, disks) && Addressed(bays) && o.lists && BootsFirst(SurveyOf(m, bays, disks, o), i)
    ensures BootOf(m, bays, disks, o).from == Some(i)
  {
    var drives := SurveyOf(m, bays, disks, o);
    IntentBootsFirst(drives, i);
    assert forall j :: 0 <= j < |drives| ==> drives[j].path == bays[j].path;
    OnlyPathFindsDrive(drives, i);
    ActedFrom(m, bays, disks, drives, IntentOf(drives), o);
  }

  /** Which bay a boot is from, by what the survey shows before it. */
  lemma BootsFromExactly(m: Machine, bays: seq<Bay>, disks: map<nat, Disk>, o: Occasion, i: nat)
    requires Plugged(bays, disks) && Addressed(bays)
    ensures BootOf(m, bays, disks, o).from == Some(i) <==> o.lists && BootsFirst(SurveyOf(m, bays, disks, o), i)
  {
    if o.lists {
      var drives := SurveyOf(m, bays, disks, o);
      var j := SomeBootsFirst(drives);
      if BootsFirst(drives, j) {
        BootsFromFirst(m, bays, disks, o, j);
      } else {
        IntentBootsExactly(drives);
      }
      if BootsFirst(drives, i) {
        BootsFromFirst(m, bays, disks, o, i);
      }
    }
  }

  lemma ActedOffers(m: Machine, bays: seq<Bay>, disks: map<nat, Disk>, drives: seq<Drive>, intent: Intent, o: Occasion)
    requires Plugged(bays, disks) && |drives| == |bays|
    ensures Acted(m, bays, disks, drives, intent, o).offered
            == if intent.TakeOver? then Some(IndexOfPath(drives, intent.path)) else None
  {
  }

  lemma OffersFirstTaken(m: Machine, bays: seq<Bay>, disks: map<nat, Disk>, o: Occasion, i: nat)
    requires Plugged(bays, disks) && Addressed(bays) && o.lists && TakenFirst(SurveyOf(m, bays, disks, o), i)
    requires forall d :: d in SurveyOf(m, bays, disks, o) ==> !d.verdict.Mine?
    ensures BootOf(m, bays, disks, o).offered == Some(i)
  {
    var drives := SurveyOf(m, bays, disks, o);
    IntentTakesFirst(drives, i);
    assert forall j :: 0 <= j < |drives| ==> drives[j].path == bays[j].path;
    OnlyPathFindsDrive(drives, i);
    ActedOffers(m, bays, disks, drives, IntentOf(drives), o);
  }

  /** Which bay a boot offers, by what the survey shows before it. */
  lemma OffersFromSurvey(m: Machine, bays: seq<Bay>, disks: map<nat, Disk>, o: Occasion, i: nat)
    requires Plugged(bays, disks) && Addressed(bays)
    ensures var drives := SurveyOf(m, bays, disks, o);
            BootOf(m, bays, disks, o).offered == Some(i) <==>
              o.lists && (forall d :: d in drives ==> !d.verdict.Mine?) && TakenFirst(drives, i)
  {
    if o.lists {
      var drives := SurveyOf(m, bays, disks, o);
      var j := SomeIsTakenFirst(drives);
      IntentByContents(drives);
      ActedOffers(m, bays, disks, drives, IntentOf(drives), o);
      if forall d :: d in drives ==> !d.verdict.Mine? {
        if TakenFirst(drives, j) {
          OffersFirstTaken(m, bays, disks, o, j);
        }
        if TakenFirst(drives, i) {
          OffersFirstTaken(m, bays, disks, o, i);
        }
      }
    }
  }

  /** What ends in a format: the path offered is that of one bay, its drive is blank byte for covered
      byte and carries no partition table, and nothing on the machine is ours. */
  predicate SafeToTake(m: Machine, bays: seq<Bay>, disks: map<nat, Disk>, o: Occasion, i: nat)
    requires Plugged(bays, disks)
  {
    && i < |bays|
    && (forall j :: 0 <= j < |bays| && bays[j].path == bays[i].path ==> j == i)
    && (forall j :: 0 <= j < |bays| ==> !LookAt(m, bays[j], disks[bays[j].disk], ReadingOf(o, j)).verdict.Mine?)
    && var disk := disks[bays[i].disk];
    && disk.size != 0 && !disk.removable && disk.parts == [] && bays[i].remote.None?
    && disk.bytes.Ok? && AllCoveredZero(disk.bytes.value) && !ShowsGpt(disk.bytes.value)
  }

  lemma OfferedIsSafe(m: Machine, bays: seq<Bay>, disks: map<nat, Disk>, o: Occasion)
    requires Plugged(bays, disks) && Addressed(bays) && o.lists
    requires IntentOf(SurveyOf(m, bays, disks, o)).TakeOver?
    ensures var b := BootOf(m, bays, disks, o);
            && b.offered.Some? && SafeToTake(m, bays, disks, o, b.offered.value)
            && b.pairs == AskPairs(o.reason, bays[b.offered.value].path)
            && SurveyOf(m, bays, disks, o)[b.offered.value].verdict.Blank?
  {
    var drives := SurveyOf(m, bays, disks, o);
    var d := IntentNamesDrive(drives);
    PathFindsDrive(m, bays, disks, o, d);
    var i := IndexOfPath(drives, d.path);
    var disk := disks[bays[i].disk];
    BlankExactly(m, DeviceIn(bays[i], disk), FoundOn(disk, ReadingOf(o, i)));
    if disk.bytes.Ok? && ShowsGpt(disk.bytes.value) {
      GptIsNeverBlank(m, DeviceIn(bays[i], disk), FoundOn(disk, ReadingOf(o, i)));
    }
    forall j | 0 <= j < |bays| ensures !LookAt(m, bays[j], disks[bays[j].disk], ReadingOf(o, j)).verdict.Mine? {
      assert drives[j] in drives;
    }
  }

  lemma {:induction false} ValueAt(pairs: seq<Pair>, i: nat)
    requires i < |pairs| && forall j :: i < j < |pairs| ==> pairs[j].key != pairs[i].key
    ensures ValueOf(pairs, pairs[i].key) == pairs[i].value
    decreases |pairs|
  {
    if i < |pairs| - 1 {
      ValueAt(pairs[..|pairs| - 1], i);
    }
  }

  lemma {:induction false} NoValue(pairs: seq<Pair>, key: string)
    requires forall j :: 0 <= j < |pairs| ==> pairs[j].key != key
    ensures ValueOf(pairs, key) == ""
  {
    if pairs != [] {
      NoValue(pairs[..|pairs| - 1], key);
    }
  }

  lemma KeysAreDistinct()
    ensures "ZB_ACTION" != "ZB_REASON" && "ZB_ACTION" != "ZB_TAKEABLE" && "ZB_REASON" != "ZB_TAKEABLE"
    ensures "ZB_ACTION" != "ZB_DRIVE" && "ZB_ACTION" != "ZB_SLAB" && "ZB_ACTION" != "ZB_SLAB_ID" && "ZB_ACTION" != "ZB_VOLUME"
    ensures "ZB_DRIVE" != "ZB_SLAB" && "ZB_DRIVE" != "ZB_SLAB_ID" && "ZB_DRIVE" != "ZB_VOLUME"
    ensures "ZB_SLAB" != "ZB_SLAB_ID" && "ZB_SLAB" != "ZB_VOLUME" && "ZB_SLAB_ID" != "ZB_VOLUME"
    ensures "ZB_TAKEABLE" != "ZB_DRIVE" && "ZB_TAKEABLE" != "ZB_SLAB" && "ZB_TAKEABLE" != "ZB_SLAB_ID" && "ZB_TAKEABLE" != "ZB_VOLUME"
  {
    assert "ZB_ACTION"[3] == 'A' && "ZB_REASON"[3] == 'R' && "ZB_TAKEABLE"[3] == 'T';
    assert "ZB_DRIVE"[3] == 'D' && "ZB_SLAB"[3] == 'S' && "ZB_SLAB_ID"[3] == 'S' && "ZB_VOLUME"[3] == 'V';
    assert |"ZB_SLAB"| != |"ZB_SLAB_ID"|;
  }

  lemma AskedFor(reason: string, takeable: string)
    ensures var p := AskPairs(reason, takeable);
            && ValueOf(p, "ZB_ACTION") == "ask-appliance" && ValueOf(p, "ZB_REASON") == reason
            && ValueOf(p, "ZB_TAKEABLE") == takeable
    ensures var p := ErrorPairs(reason);
            && ValueOf(p, "ZB_ACTION") == "error" && ValueOf(p, "ZB_REASON") == reason && ValueOf(p, "ZB_TAKEABLE") == ""
  {
    KeysAreDistinct();
    var p, e := AskPairs(reason, takeable), ErrorPairs(reason);
    ValueAt(p, 0);
    ValueAt(p, 1);
    ValueAt(p, 2);
    ValueAt(e, 0);
    ValueAt(e, 1);
    NoValue(e, "ZB_TAKEABLE");
  }

  lemma LocalFor(drive: string, slab: string, slabId: string, volume: string)
    ensures var p := LocalPairs(drive, slab, slabId, volume);
            && ValueOf(p, "ZB_ACTION") == "boot-local" && ValueOf(p, "ZB_TAKEABLE") == ""
            && ValueOf(p, "ZB_DRIVE") == drive && ValueOf(p, "ZB_SLAB") == slab
            && ValueOf(p, "ZB_SLAB_ID") == slabId && ValueOf(p, "ZB_VOLUME") == volume
  {
    KeysAreDistinct();
    var p := LocalPairs(drive, slab, slabId, volume);
    ValueAt(p, 0);
    ValueAt(p, 1);
    ValueAt(p, 2);
    ValueAt(p, 3);
    ValueAt(p, 4);
    NoValue(p, "ZB_TAKEABLE");
  }

  /** The volume that what was found names, and nothing where it names none. */
  function NamedVolume(found: Option<Esp>): string {
    match found
    case Some(Esp(Some(Boot(_, _, Some(volume))), _, _)) => volume
    case _ => ""
  }

  /** What a boot off bay `i` has to tell `init`: of a slab of ours, on a drive whose ESP boots or, where no
      ESP was found, that is a system slab's, the drive, the slab, its id and the volume the ESP names. */
  predicate TellsOf(m: Machine, bays: seq<Bay>, disks: map<nat, Disk>, o: Occasion, i: nat, pairs: seq<Pair>)
    requires Plugged(bays, disks)
  {
    && i < |bays|
    && var found := FoundOn(disks[bays[i].disk], ReadingOf(o, i));
    && var verdict := VerdictOf(m, DeviceIn(bays[i], disks[bays[i].disk]), found);
    && verdict.Mine? && (match found case Some(esp) => esp.boot.Some? case None => verdict.role == "system")
    && ValueOf(pairs, "ZB_DRIVE") == bays[i].path && ValueOf(pairs, "ZB_SLAB") == verdict.slab
    && ValueOf(pairs, "ZB_SLAB_ID") == verdict.slabId && ValueOf(pairs, "ZB_VOLUME") == NamedVolume(found)
  }

  /** The contract with `init`, whatever the machine, of the pairs before they are quoted: code and action always agree, a takeable drive is
      named exactly when one is offered and then it is safe to take, and a slab to boot is one of ours
      on a drive that boots. */
  lemma InitContract(m: Machine, bays: seq<Bay>, disks: map<nat, Disk>, o: Occasion)
    requires Plugged(bays, disks) && Addressed(bays)
    ensures var b := BootOf(m, bays, disks, o);
            var action, takeable := ValueOf(b.pairs, "ZB_ACTION"), ValueOf(b.pairs, "ZB_TAKEABLE");
            && (b.code == 0 || b.code == 1 || b.code == 2)
            && (b.code == 0 <==> action == "boot-local")
            && (b.code == 1 <==> action == "error")
            && (b.code == 2 <==> action == "ask-appliance")
            && (b.code == 0 <==> b.from.Some?)
            && (takeable != "" <==> b.offered.Some?)
            && (b.offered.Some? ==> SafeToTake(m, bays, disks, o, b.offered.value)
                                    && takeable == bays[b.offered.value].path)
            && (b.code != 0 ==> ValueOf(b.pairs, "ZB_REASON") == o.reason)
            && (b.from.Some? ==> TellsOf(m, bays, disks, o, b.from.value, b.pairs))
  {
    var b := BootOf(m, bays, disks, o);
    ActionsDiffer();
    if !o.lists {
      AskedFor(o.reason, "");
    } else {
      var intent := IntentOf(SurveyOf(m, bays, disks, o));
      if intent.AlreadyMine? {
        BootedFrom(m, bays, disks, o);
        var d := SurveyOf(m, bays, disks, o)[b.from.value];
        LocalFor(d.path, d.verdict.slab, d.verdict.slabId, VolumeNamed(d));
      } else if intent.TakeOver? {
        OfferedIsSafe(m, bays, disks, o);
        AskedFor(o.reason, bays[b.offered.value].path);
      } else {
        AskedFor(o.reason, "");
      }
    }
  }

  // ------------------------------------------------------------------ as the shell has it

  lemma {:induction false} ValueOfFlattened(pairs: seq<Pair>, key: string)
    ensures ValueOf(Flattened(pairs), key) == Flat(ValueOf(pairs, key))
  {
    if pairs != [] {
      var init := pairs[..|pairs| - 1];
      ValueOfFlattened(init, key);
      assert Flattened(pairs)[..|pairs| - 1] == Flattened(init);
    }
  }

  /** A value on one line is left as it is. */
  lemma FlatOnOneLine(v: string)
    ensures Flat(v) == v <==> '\n' !in v && '\r' !in v
    ensures Flat(v) == "" <==> v == ""
  {
    FlatHasNoNewline(v);
    if '\n' in v || '\r' in v {
      var i :| 0 <= i < |v| && (v[i] == '\n' || v[i] == '\r');
      assert Flat(v)[i] != v[i];
    } else {
      assert forall i :: 0 <= i < |v| ==> v[i] in v;
    }
  }

  lemma ActionsAreOnOneLine()
    ensures forall v :: Flat(v) == "boot-local" <==> v == "boot-local"
    ensures forall v :: Flat(v) == "error" <==> v == "error"
    ensures forall v :: Flat(v) == "ask-appliance" <==> v == "ask-appliance"
  {
    FlatKeepsWord("boot-local");
    FlatKeepsWord("error");
    FlatKeepsWord("ask-appliance");
  }

  /** Nothing but the word itself turns into a word that has no blank in it. */
  lemma FlatKeepsWord(word: string)
    requires forall i :: 0 <= i < |word| ==> word[i] != ' ' && word[i] != '\n' && word[i] != '\r'
    ensures forall v :: Flat(v) == word <==> v == word
  {
    forall v ensures Flat(v) == word <==> v == word {
      FlatHasNoNewline(v);
      if Flat(v) == word {
        assert forall i :: 0 <= i < |v| ==> Flat(v)[i] == word[i];
      } else if v == word {
        FlatOnOneLine(v);
        assert false;
      }
    }
  }

  /** The contract again, of the variables the shell is left with: the exit code and `ZB_ACTION` agree,
      `ZB_TAKEABLE` is set exactly when a drive is offered, and every variable is what it should be with
      its line ends as blanks, which is what it should be exactly when that is on one line. */
  lemma ShellContract(m: Machine, bays: seq<Bay>, disks: map<nat, Disk>, o: Occasion) returns (vars: seq<Pair>)
    requires Plugged(bays, disks) && Addressed(bays)
    ensures var b := BootOf(m, bays, disks, o);
            && Eval(Substituted(Emitted(b.pairs))) == Some(vars)
            && (b.code == 0 <==> ValueOf(vars, "ZB_ACTION") == "boot-local")
            && (b.code == 1 <==> ValueOf(vars, "ZB_ACTION") == "error")
            && (b.code == 2 <==> ValueOf(vars, "ZB_ACTION") == "ask-appliance")
            && (b.code != 0 ==> ValueOf(vars, "ZB_REASON") == Flat(o.reason))
            && (b.offered.Some? <==> ValueOf(vars, "ZB_TAKEABLE") != "")
            && (b.offered.Some? ==>
                  && SafeToTake(m, bays, disks, o, b.offered.value)
                  && Arrives(ValueOf(vars, "ZB_TAKEABLE"), bays[b.offered.value].path))
            && (b.from.Some? ==> TellsShell(m, bays, disks, o, b.from.value, vars))
  {
    var b := BootOf(m, bays, disks, o);
    InitContract(m, bays, disks, o);
    OutputEvaluates(m, bays, disks, o);
    vars := Flattened(b.pairs);
    ActionsArrive(b.pairs);
    ValueOfFlattened(b.pairs, "ZB_REASON");
    ValueArrives(b.pairs, "ZB_TAKEABLE");
    if b.from.Some? {
      TellsTheShell(m, bays, disks, o, b.from.value, b.pairs);
    }
  }

  lemma ActionsArrive(pairs: seq<Pair>)
    ensures var sent, got := ValueOf(pairs, "ZB_ACTION"), ValueOf(Flattened(pairs), "ZB_ACTION");
            && (got == "boot-local" <==> sent == "boot-local") && (got == "error" <==> sent == "error")
            && (got == "ask-appliance" <==> sent == "ask-appliance")
  {
    ValueOfFlattened(pairs, "ZB_ACTION");
    ActionsAreOnOneLine();
  }

  lemma ValueArrives(pairs: seq<Pair>, key: string)
    ensures Arrives(ValueOf(Flattened(pairs), key), ValueOf(pairs, key))
    ensures ValueOf(Flattened(pairs), key) == "" <==> ValueOf(pairs, key) == ""
  {
    ValueOfFlattened(pairs, key);
    FlatOnOneLine(ValueOf(pairs, key));
  }

  lemma TellsTheShell(m: Machine, bays: seq<Bay>, disks: map<nat, Disk>, o: Occasion, i: nat, pairs: seq<Pair>)
    requires Plugged(bays, disks) && TellsOf(m, bays, disks, o, i, pairs)
    ensures TellsShell(m, bays, disks, o, i, Flattened(pairs))
  {
    ValueArrives(pairs, "ZB_DRIVE");
    ValueArrives(pairs, "ZB_SLAB");
    ValueArrives(pairs, "ZB_SLAB_ID");
    ValueArrives(pairs, "ZB_VOLUME");
  }

  /** A value as it arrives: line ends are blanks, so it is the one sent exactly when that has none. */
  predicate Arrives(got: string, sent: string) {
    got == Flat(sent) && (got == sent <==> '\n' !in sent && '\r' !in sent)
  }

  /** What `init` knows of a boot off bay `i`. */
  predicate TellsShell(m: Machine, bays: seq<Bay>, disks: map<nat, Disk>, o: Occasion, i: nat, vars: seq<Pair>)
    requires Plugged(bays, disks)
  {
    && i < |bays|
    && var found := FoundOn(disks[bays[i].disk], ReadingOf(o, i));
    && var verdict := VerdictOf(m, DeviceIn(bays[i], disks[bays[i].disk]), found);
    && verdict.Mine?
    && Arrives(ValueOf(vars, "ZB_DRIVE"), bays[i].path) && Arrives(ValueOf(vars, "ZB_SLAB"), verdict.slab)
    && Arrives(ValueOf(vars, "ZB_SLAB_ID"), verdict.slabId) && Arrives(ValueOf(vars, "ZB_VOLUME"), NamedVolume(found))
  }

  lemma ActionsDiffer()
    ensures "boot-local" != "error" && "boot-local" != "ask-appliance" && "error" != "ask-appliance"
  {
    assert "boot-local"[0] != "error"[0] && "boot-local"[0] != "ask-appliance"[0] && "error"[0] != "ask-appliance"[0];
  }
}
