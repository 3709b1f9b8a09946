/** A node that boots its own disk again: what the claim it wrote changes, and what it does not. */
module Reboot {
  import opened Text
  import opened Claims
  import opened Esp
  import opened Survey
  import opened Probe
  import opened Clock
  import opened Decision

  // ------------------------------------------------------------------ claims and the intent

  /** The drive as it would be reported without its claim. */
  function Unclaimed(d: Drive): Drive {
    if d.esp.None? then d else d.(esp := Some(d.esp.value.(claim := None)))
  }

  function UnclaimedAll(v: seq<Drive>): seq<Drive> {
    seq(|v|, i requires 0 <= i < |v| => Unclaimed(v[i]))
  }

  lemma UnclaimedCons(d: Drive, v: seq<Drive>)
    ensures UnclaimedAll([d] + v) == [Unclaimed(d)] + UnclaimedAll(v)
  {
  }

  lemma {:induction false} FilterUnclaimed(kind: Kind, v: seq<Drive>)
    ensures Filter(kind, UnclaimedAll(v)) == UnclaimedAll(Filter(kind, v))
  {
    if v != [] {
      FilterUnclaimed(kind, v[1..]);
      assert v == [v[0]] + v[1..];
      UnclaimedCons(v[0], v[1..]);
      assert UnclaimedAll(v)[1..] == UnclaimedAll(v[1..]);
      UnclaimedCons(v[0], Filter(kind, v[1..]));
    }
  }

  lemma {:induction false} FirstLeastUnclaimed(order: Order, v: seq<Drive>)
    ensures var d := FirstLeast(order, v);
            FirstLeast(order, UnclaimedAll(v)) == if d.Some? then Some(Unclaimed(d.value)) else None
  {
    if v != [] {
      FirstLeastUnclaimed(order, v[1..]);
      assert UnclaimedAll(v)[1..] == UnclaimedAll(v[1..]);
    }
  }

  lemma LinesUnclaimed(v: seq<Drive>, why: bool)
    ensures LinesOf(UnclaimedAll(v), why) == LinesOf(v, why)
  {
  }

  /** A claim counts through the verdict and in no other way: the intent cannot see it. */
  lemma IntentIgnoresClaims(v: seq<Drive>)
    ensures IntentOf(UnclaimedAll(v)) == IntentOf(v)
  {
    FilterUnclaimed(MineBoots, v);
    FirstLeastUnclaimed(ByRole, Filter(MineBoots, v));
    FilterUnclaimed(Free, v);
    FirstLeastUnclaimed(ByPreference, Filter(Free, v));
    FilterUnclaimed(SystemMine, v);
    FilterUnclaimed(OtherMine, v);
    var system, other := Filter(SystemMine, v), Filter(OtherMine, v);
    assert UnclaimedAll(system) + UnclaimedAll(other) == UnclaimedAll(system + other);
    LinesUnclaimed(MineOf(v), true);
    LinesUnclaimed(v, false);
  }

  // ------------------------------------------------------------------ claims and the verdict

  lemma VerdictByClaim(m: Machine, d: Device, a: Option<Esp>, b: Option<Esp>)
    requires !ClaimedByAnother(m, a) && !ClaimedByAnother(m, b)
    ensures VerdictOf(m, d, a) == VerdictOf(m, d, b)
  {
  }

  /** A time as text is fit to stand in a claim. */
  lemma TimesAreCanonical(node: string, t: Stamp)
    ensures Canonical(Claim(node, Clock.Render(t))) <==> CanonicalNode(node)
  {
    TimesAreOneLine(t);
  }

  /** What a disk's claim is once a name has been written on it. */
  lemma ClaimWritten(disk: Disk, me: string, t: Stamp)
    requires disk.esp.Mounted?
    ensures forall holder :: Names(Claimed(disk, me, t), holder) <==> NameRead(me) == Some(holder)
    ensures CanonicalNode(me) ==> ClaimOf(Claimed(disk, me, t)) == Some(Claim(me, Clock.Render(t)))
    ensures Names(Claimed(disk, me, t), me) <==> CanonicalNode(me)
  {
    ClaimIsParsed(disk, me, t);
    TimesAreOneLine(t);
    NameIsRead(Claim(me, Clock.Render(t)));
    NameReadsAsItself(me);
    if CanonicalNode(me) {
      ClaimRoundTrip(Claim(me, Clock.Render(t)));
    }
  }

  lemma ClaimIsParsed(disk: Disk, me: string, t: Stamp)
    requires disk.esp.Mounted?
    ensures ClaimOf(Claimed(disk, me, t)) == ParseClaim(Claims.Render(Claim(me, Clock.Render(t))))
  {
    ClaimChangesOnlyTheClaim(disk.esp.fs, Claim(me, Clock.Render(t)));
  }

  lemma TimesAreOneLine(t: Stamp)
    ensures Trimmed(Clock.Render(t)) && '\n' !in Clock.Render(t)
  {
    RenderIsPlain(t);
    var text := Clock.Render(t);
    assert Plain(text[0]) && Plain(text[|text| - 1]);
  }

  /** The disk carries a claim that names `node`. */
  predicate Names(disk: Disk, node: string) {
    ClaimOf(disk).Some? && ClaimOf(disk).value.node == node
  }

  /** What was found has all it takes to boot, if anything was found. */
  predicate BootsAsFound(found: Option<Esp>) {
    found.Some? ==> found.value.boot.Some?
  }

  lemma FoundAfterClaim(disk: Disk, me: string, t: Stamp, reading: Reading)
    requires disk.esp.Mounted? && CanonicalNode(me) && BootsAsFound(FoundOn(disk, reading))
    ensures var before, after := FoundOn(disk, reading), FoundOn(Claimed(disk, me, t), reading);
            && (before.None? <==> after.None?)
            && (before.Some? ==> after.value.boot == before.value.boot && after.value.missing == before.value.missing)
            && (HasClaim(after) <==> ReadsClaim(reading))
            && (HasClaim(after) ==> after.value.claim.value.node == me)
  {
    var claim := Claim(me, Clock.Render(t));
    ClaimWritten(disk, me, t);
    ClaimSeenOn(Claimed(disk, me, t), reading);
    if reading.Yields? {
      ClaimSeen(disk.esp.fs, claim, reading.lost);
      ClaimChangesOnlyTheClaim(Seen(disk.esp.fs, reading.lost), claim);
    }
  }

  /** Claiming a disk that boots, for the machine that looks at it, leaves the machine's view of it as
      it was, but for the claim, however well the ESP is read. */
  lemma OwnClaimChangesNoView(m: Machine, bay: Bay, disk: Disk, t: Stamp, reading: Reading)
    requires m.identity.Some? && CanonicalNode(m.identity.value) && disk.esp.Mounted?
    requires BootsAsFound(FoundOn(disk, reading)) && !ClaimedByAnother(m, FoundOn(disk, reading))
    ensures Unclaimed(LookAt(m, bay, Claimed(disk, m.identity.value, t), reading))
            == Unclaimed(LookAt(m, bay, disk, reading))
  {
    var after := Claimed(disk, m.identity.value, t);
    FoundAfterClaim(disk, m.identity.value, t, reading);
    assert DeviceIn(bay, after) == DeviceIn(bay, disk);
    VerdictByClaim(m, DeviceIn(bay, disk), FoundOn(disk, reading), FoundOn(after, reading));
  }

  // ------------------------------------------------------------------ booting again

  lemma PluggedAfter(m: Machine, bays: seq<Bay>, disks: map<nat, Disk>, o: Occasion)
    requires Plugged(bays, disks)
    ensures BootOf(m, bays, disks, o).disks.Keys == disks.Keys
    ensures forall all: seq<Bay> :: Plugged(all, disks) ==> Plugged(all, BootOf(m, bays, disks, o).disks)
  {
  }

  /** An occasion on which the drives can be listed and a claim can be written. */
  predicate Smooth(o: Occasion) {
    o.lists && o.claiming && o.takes
  }

  /** What the boot found on the ESP in bay `i`. */
  function FoundIn(bays: seq<Bay>, disks: map<nat, Disk>, o: Occasion, i: nat): Option<Esp>
    requires Plugged(bays, disks) && i < |bays|
  {
    FoundOn(disks[bays[i].disk], ReadingOf(o, i))
  }

  lemma ActedWrites(m: Machine, bays: seq<Bay>, disks: map<nat, Disk>, drives: seq<Drive>, intent: Intent, o: Occasion)
    requires Plugged(bays, disks) && |drives| == |bays|
    ensures var b := Acted(m, bays, disks, drives, intent, o);
            && (b.wrote <==> && b.from.Some? && b.from.value < |bays| && o.claiming && o.takes
                             && Claimable(m, disks[bays[b.from.value].disk], drives[b.from.value].esp))
            && b.disks == if b.wrote then
                            var k := bays[b.from.value].disk;
                            disks[k := Claimed(disks[k], m.identity.value, o.t)]
                          else disks
  {
  }

  /** The boot writes exactly when it boots off a drive with claiming on and a medium that takes the
      write, this machine says who it is, and there is an ESP on which it saw no claim; and what it
      writes is its claim, on the disk it boots from. */
  lemma BootWritesOneClaim(m: Machine, bays: seq<Bay>, disks: map<nat, Disk>, o: Occasion)
    requires Plugged(bays, disks)
    ensures var b := BootOf(m, bays, disks, o);
            && (b.wrote <==> && b.from.Some? && b.from.value < |bays| && o.claiming && o.takes
                             && Claimable(m, disks[bays[b.from.value].disk], FoundIn(bays, disks, o, b.from.value)))
            && b.disks == if b.wrote then
                            var k := bays[b.from.value].disk;
                            disks[k := Claimed(disks[k], m.identity.value, o.t)]
                          else disks
  {
    var drives := SurveyOf(m, bays, disks, o);
    ActedWrites(m, bays, disks, drives, IntentOf(drives), o);
  }

  lemma BootedDiskBoots(m: Machine, bays: seq<Bay>, disks: map<nat, Disk>, o: Occasion)
    requires Plugged(bays, disks) && Addressed(bays) && BootOf(m, bays, disks, o).from.Some?
    ensures var b := BootOf(m, bays, disks, o);
            && b.from.value < |bays|
            && var found := FoundIn(bays, disks, o, b.from.value);
            && BootsAsFound(found) && !ClaimedByAnother(m, found)
            && LookAt(m, bays[b.from.value], disks[bays[b.from.value].disk], ReadingOf(o, b.from.value)).verdict.Mine?
  {
    BootedFrom(m, bays, disks, o);
    var i := BootOf(m, bays, disks, o).from.value;
    MineExactly(m, DeviceIn(bays[i], disks[bays[i].disk]), FoundIn(bays, disks, o, i));
  }

  /** Exchanging a disk for one that looks the same, claims apart, leaves the survey as it was, claims
      apart. */
  lemma SurveyAfterChange(m: Machine, bays: seq<Bay>, disks: map<nat, Disk>, k: nat, d: Disk, o: Occasion, p: Occasion)
    requires Plugged(bays, disks) && k in disks && o.readings == p.readings
    requires forall i :: 0 <= i < |bays| && bays[i].disk == k ==>
               Unclaimed(LookAt(m, bays[i], d, ReadingOf(o, i))) == Unclaimed(LookAt(m, bays[i], disks[k], ReadingOf(o, i)))
    ensures Plugged(bays, disks[k := d])
    ensures UnclaimedAll(SurveyOf(m, bays, disks[k := d], p)) == UnclaimedAll(SurveyOf(m, bays, disks, o))
  {
  }

  /** Every path to a disk reads its ESP alike. */
  predicate ReadAlike(bays: seq<Bay>, o: Occasion) {
    forall i, j :: 0 <= i < |bays| && 0 <= j < |bays| && bays[i].disk == bays[j].disk ==> ReadingOf(o, i) == ReadingOf(o, j)
  }

  lemma SurveyAfterOwnClaim(m: Machine, bays: seq<Bay>, disks: map<nat, Disk>, i: nat, t: Stamp, o: Occasion, p: Occasion)
    requires Plugged(bays, disks) && i < |bays| && ReadAlike(bays, o) && o.readings == p.readings
    requires m.identity.Some? && CanonicalNode(m.identity.value) && disks[bays[i].disk].esp.Mounted?
    requires BootsAsFound(FoundIn(bays, disks, o, i)) && !ClaimedByAnother(m, FoundIn(bays, disks, o, i))
    ensures var k := bays[i].disk;
            var after := disks[k := Claimed(disks[k], m.identity.value, t)];
            && Plugged(bays, after)
            && UnclaimedAll(SurveyOf(m, bays, after, p)) == UnclaimedAll(SurveyOf(m, bays, disks, o))
  {
    var k := bays[i].disk;
    var d := Claimed(disks[k], m.identity.value, t);
    forall j | 0 <= j < |bays| && bays[j].disk == k
      ensures Unclaimed(LookAt(m, bays[j], d, ReadingOf(o, j))) == Unclaimed(LookAt(m, bays[j], disks[k], ReadingOf(o, j)))
    {
      OwnClaimChangesNoView(m, bays[j], disks[k], t, ReadingOf(o, j));
    }
    SurveyAfterChange(m, bays, disks, k, d, o, p);
  }

  lemma {:induction false} IndexOfPathUnclaimed(v: seq<Drive>, path: string)
    ensures IndexOfPath(UnclaimedAll(v), path) == IndexOfPath(v, path)
  {
    if v != [] {
      IndexOfPathUnclaimed(v[1..], path);
      assert UnclaimedAll(v)[1..] == UnclaimedAll(v[1..]);
    }
  }

  lemma SameViewSameBoot(m: Machine, bays: seq<Bay>, a: map<nat, Disk>, b: map<nat, Disk>, o: Occasion, p: Occasion)
    requires Plugged(bays, a) && Plugged(bays, b) && o.lists && p.lists
    requires UnclaimedAll(SurveyOf(m, bays, a, o)) == UnclaimedAll(SurveyOf(m, bays, b, p))
    requires BootOf(m, bays, a, o).code == 0
    ensures BootOf(m, bays, b, p).pairs == BootOf(m, bays, a, o).pairs
    ensures BootOf(m, bays, b, p).from == BootOf(m, bays, a, o).from
    ensures BootOf(m, bays, b, p).code == 0
  {
    var v, w := SurveyOf(m, bays, a, o), SurveyOf(m, bays, b, p);
    IntentIgnoresClaims(v);
    IntentIgnoresClaims(w);
    SameActs(m, bays, a, b, v, w, IntentOf(v), o, p);
  }

  lemma SameActs(m: Machine, bays: seq<Bay>, a: map<nat, Disk>, b: map<nat, Disk>, v: seq<Drive>, w: seq<Drive>,
                 intent: Intent, o: Occasion, p: Occasion)
    requires Plugged(bays, a) && Plugged(bays, b) && |v| == |w| == |bays| && UnclaimedAll(v) == UnclaimedAll(w)
    requires Acted(m, bays, a, v, intent, o).code == 0
    ensures Acted(m, bays, b, w, intent, p).pairs == Acted(m, bays, a, v, intent, o).pairs
    ensures Acted(m, bays, b, w, intent, p).from == Acted(m, bays, a, v, intent, o).from
    ensures Acted(m, bays, b, w, intent, p).code == 0
  {
    var path := intent.drive;
    IndexOfPathUnclaimed(v, path);
    IndexOfPathUnclaimed(w, path);
    var i := IndexOfPath(v, path);
    if i < |bays| {
      assert VolumeNamed(v[i]) == VolumeNamed(UnclaimedAll(v)[i]);
      assert VolumeNamed(w[i]) == VolumeNamed(UnclaimedAll(w)[i]);
    }
  }

  /** Two boots in a row on the same machine, its ESPs read as well the second time as the first. */
  predicate InARow(bays: seq<Bay>, first: Occasion, second: Occasion) {
    first.lists && second.lists && first.readings == second.readings && ReadAlike(bays, first)
  }

  lemma SameSurvey(m: Machine, bays: seq<Bay>, disks: map<nat, Disk>, o: Occasion, p: Occasion)
    requires Plugged(bays, disks) && o.readings == p.readings
    ensures SurveyOf(m, bays, disks, p) == SurveyOf(m, bays, disks, o)
  {
  }

  lemma ViewAfterBoot(m: Machine, bays: seq<Bay>, disks: map<nat, Disk>, first: Occasion, second: Occasion)
    requires Plugged(bays, disks) && Addressed(bays) && InARow(bays, first, second)
    requires BootOf(m, bays, disks, first).from.Some?
    requires BootOf(m, bays, disks, first).wrote ==> CanonicalNode(m.identity.value)
    ensures var after := BootOf(m, bays, disks, first).disks;
            && Plugged(bays, after)
            && UnclaimedAll(SurveyOf(m, bays, after, second)) == UnclaimedAll(SurveyOf(m, bays, disks, first))
  {
    var b := BootOf(m, bays, disks, first);
    BootedDiskBoots(m, bays, disks, first);
    BootWritesOneClaim(m, bays, disks, first);
    if b.wrote {
      SurveyAfterOwnClaim(m, bays, disks, b.from.value, first.t, first, second);
    } else {
      SameSurvey(m, bays, disks, first, second);
    }
  }

  /** What makes the second boot write: it could, and on the drive the first booted it sees no claim,
      because there was none to see before and the first wrote none, or none that is read. */
  predicate WritesAgain(m: Machine, bays: seq<Bay>, disks: map<nat, Disk>, first: Occasion, second: Occasion)
    requires Plugged(bays, disks)
  {
    var b := BootOf(m, bays, disks, first);
    && second.claiming && second.takes && b.from.Some? && b.from.value < |bays|
    && Claimable(m, disks[bays[b.from.value].disk], FoundIn(bays, disks, first, b.from.value))
    && (b.wrote ==> !ReadsClaim(ReadingOf(first, b.from.value)))
  }

  lemma SeenAfterBoot(m: Machine, bays: seq<Bay>, disks: map<nat, Disk>, first: Occasion, second: Occasion)
    requires Plugged(bays, disks) && Addressed(bays) && InARow(bays, first, second)
    requires BootOf(m, bays, disks, first).from.Some?
    requires BootOf(m, bays, disks, first).wrote ==> CanonicalNode(m.identity.value)
    ensures var b := BootOf(m, bays, disks, first);
            && Plugged(bays, b.disks) && b.from.value < |bays|
            && var i := b.from.value;
            (second.claiming && second.takes && Claimable(m, b.disks[bays[i].disk], FoundIn(bays, b.disks, second, i)))
            <==> WritesAgain(m, bays, disks, first, second)
  {
    var b := BootOf(m, bays, disks, first);
    PluggedAfter(m, bays, disks, first);
    BootedDiskBoots(m, bays, disks, first);
    BootWritesOneClaim(m, bays, disks, first);
    var i := b.from.value;
    if b.wrote {
      FoundAfterClaim(disks[bays[i].disk], m.identity.value, first.t, ReadingOf(first, i));
    }
  }

  /** A node never locks itself out: once it has booted off a drive, claimed it or not, booting again off
      the same drives does the same and says the same; and exactly when it writes can be told before. */
  lemma RebootIsTheSame(m: Machine, bays: seq<Bay>, disks: map<nat, Disk>, first: Occasion, second: Occasion)
    requires Plugged(bays, disks) && Addressed(bays) && InARow(bays, first, second)
    requires BootOf(m, bays, disks, first).code == 0
    requires BootOf(m, bays, disks, first).wrote ==> CanonicalNode(m.identity.value)
    ensures var b := BootOf(m, bays, disks, first);
            && Plugged(bays, b.disks) && b.from.Some?
            && var again := BootOf(m, bays, b.disks, second);
            && again.code == 0 && again.pairs == b.pairs && again.from == b.from
            && (again.wrote <==> WritesAgain(m, bays, disks, first, second))
            && (!again.wrote ==> again.disks == b.disks)
  {
    var b := BootOf(m, bays, disks, first);
    InitContract(m, bays, disks, first);
    ViewAfterBoot(m, bays, disks, first, second);
    SeenAfterBoot(m, bays, disks, first, second);
    SameViewSameBoot(m, bays, disks, b.disks, first, second);
    BootWritesOneClaim(m, bays, b.disks, second);
  }

  lemma BootIsTold(m: Machine, bays: seq<Bay>, disks: map<nat, Disk>, o: Occasion)
    requires Plugged(bays, disks) && Addressed(bays)
    ensures var b := BootOf(m, bays, disks, o);
            && (b.code == 0 <==> ValueOf(b.pairs, "ZB_ACTION") == "boot-local")
            && (b.code == 0 ==> b.from.Some? && b.from.value < |bays|
                                && ValueOf(b.pairs, "ZB_DRIVE") == bays[b.from.value].path)
  {
    InitContract(m, bays, disks, o);
  }

  lemma SamePairsSameBay(m: Machine, bays: seq<Bay>, a: map<nat, Disk>, b: map<nat, Disk>, o: Occasion, p: Occasion)
    requires Plugged(bays, a) && Plugged(bays, b) && Addressed(bays)
    requires BootOf(m, bays, a, o).code == 0
    requires BootOf(m, bays, b, p).pairs == BootOf(m, bays, a, o).pairs
    ensures BootOf(m, bays, b, p).from == BootOf(m, bays, a, o).from
  {
    BootIsTold(m, bays, a, o);
    BootIsTold(m, bays, b, p);
  }

  /** And that is so for exactly the identities that survive being written down, where the claim is one
      that gets read: otherwise the next boot claims again, or meets its own claim as another node's. */
  lemma RebootIsTheSameExactly(m: Machine, bays: seq<Bay>, disks: map<nat, Disk>, first: Occasion, second: Occasion)
    requires Plugged(bays, disks) && Addressed(bays) && InARow(bays, first, second) && Smooth(second)
    requires BootOf(m, bays, disks, first).wrote
    ensures var b := BootOf(m, bays, disks, first);
            && Plugged(bays, b.disks) && b.from.Some?
            && var again := BootOf(m, bays, b.disks, second);
            (again.pairs == b.pairs && !again.wrote) <==>
              CanonicalNode(m.identity.value) && ReadsClaim(ReadingOf(first, b.from.value))
  {
    var b := BootOf(m, bays, disks, first);
    PluggedAfter(m, bays, disks, first);
    BootWritesOneClaim(m, bays, disks, first);
    var again := BootOf(m, bays, b.disks, second);
    if CanonicalNode(m.identity.value) {
      RebootIsTheSame(m, bays, disks, first, second);
    } else if again.pairs == b.pairs {
      SamePairsSameBay(m, bays, disks, b.disks, first, second);
      BootedDiskBoots(m, bays, b.disks, second);
      BootWritesOneClaim(m, bays, b.disks, second);
      var k := bays[b.from.value].disk;
      MisreadClaim(m, disks[k], first.t, ReadingOf(second, b.from.value));
    }
  }

  /** A name that cannot be written down reads back as nobody's or as somebody else's. */
  lemma MisreadClaim(m: Machine, disk: Disk, t: Stamp, reading: Reading)
    requires m.identity.Some? && disk.esp.Mounted? && !CanonicalNode(m.identity.value)
    ensures var after := Claimed(disk, m.identity.value, t);
            Claimable(m, after, FoundOn(after, reading)) || ClaimedByAnother(m, FoundOn(after, reading))
  {
    ClaimWritten(disk, m.identity.value, t);
    ClaimSeenOn(Claimed(disk, m.identity.value, t), reading);
  }

  // ------------------------------------------------------------------ and again

  /** The disks after a row of boots. */
  function DisksThrough(m: Machine, bays: seq<Bay>, disks: map<nat, Disk>, os: seq<Occasion>): (after: map<nat, Disk>)
    requires Plugged(bays, disks)
    ensures after.Keys == disks.Keys
  {
    if os == [] then disks
    else
      PluggedAfter(m, bays, disks, os[0]);
      DisksThrough(m, bays, BootOf(m, bays, disks, os[0]).disks, os[1..])
  }

  /** So does every boot after that, however many and whatever claims they write. */
  lemma {:induction false} EveryRebootIsTheSame(
    m: Machine, bays: seq<Bay>, disks: map<nat, Disk>, first: Occasion, more: seq<Occasion>, last: Occasion)
    requires Plugged(bays, disks) && Addressed(bays) && InARow(bays, first, last)
    requires forall o :: o in more ==> InARow(bays, first, o)
    requires m.identity.Some? ==> CanonicalNode(m.identity.value)
    requires BootOf(m, bays, disks, first).code == 0
    ensures var b := BootOf(m, bays, disks, first);
            && Plugged(bays, b.disks)
            && var after := DisksThrough(m, bays, b.disks, more);
            && Plugged(bays, after)
            && var again := BootOf(m, bays, after, last);
            again.code == 0 && again.pairs == b.pairs && again.from == b.from
    decreases |more|
  {
    if more == [] {
      RebootIsTheSame(m, bays, disks, first, last);
    } else {
      assert more[0] in more;
      assert forall o :: o in more[1..] ==> o in more;
      RebootIsTheSame(m, bays, disks, first, more[0]);
      EveryRebootIsTheSame(m, bays, BootOf(m, bays, disks, first).disks, more[0], more[1..], last);
    }
  }

  /** And they leave the disks as the first boot left them, if none of them is one that would write. */
  lemma {:induction false} EveryRebootIsSilent(
    m: Machine, bays: seq<Bay>, disks: map<nat, Disk>, first: Occasion, more: seq<Occasion>)
    requires Plugged(bays, disks) && Addressed(bays) && BootOf(m, bays, disks, first).code == 0
    requires forall o :: o in more ==> InARow(bays, first, o) && !WritesAgain(m, bays, disks, first, o)
    requires BootOf(m, bays, disks, first).wrote ==> CanonicalNode(m.identity.value)
    ensures var b := BootOf(m, bays, disks, first);
            Plugged(bays, b.disks) && DisksThrough(m, bays, b.disks, more) == b.disks
  {
    if more != [] {
      assert more[0] in more;
      assert forall o :: o in more[1..] ==> o in more;
      RebootIsTheSame(m, bays, disks, first, more[0]);
      EveryRebootIsSilent(m, bays, disks, first, more[1..]);
    } else {
      PluggedAfter(m, bays, disks, first);
    }
  }

  // ------------------------------------------------------------------ the claim command

  /** `zeroboot claim`: it succeeds exactly when the ESP is read and the disk is seen to be the claimant's
      already, or the write is allowed and taken. Then the disk names the claimant exactly when the name
      is one that can be written down; and if it does, claiming again, forced or not, changes nothing as
      long as the claim is read. */
  lemma ClaimCommandClaims(me: string, disk: Disk, reading: Reading, force: bool, takes: bool, t: Stamp,
                           next: Reading, again: bool, takesAgain: bool, u: Stamp)
    ensures var found := FoundOn(disk, reading);
            var r := ClaimCommandOf(None, Some(me), disk, reading, force, takes, t);
            && (r.Ok? <==> found.Some?
                           && ((HasClaim(found) && found.value.claim.value.node == me)
                               || ((!HasClaim(found) || force) && takes)))
            && (r.Ok? ==> (Names(r.value, me) <==> CanonicalNode(me)))
            && (r.Ok? && CanonicalNode(me) && ReadsClaim(next) ==>
                  ClaimCommandOf(None, Some(me), r.value, next, again, takesAgain, u) == Ok(r.value))
  {
    var r := ClaimCommandOf(None, Some(me), disk, reading, force, takes, t);
    ClaimSeenOn(disk, reading);
    if r.Ok? {
      ClaimSeenOn(r.value, next);
      if ClaimOf(disk).Some? {
        ParsedIsCanonical(ReadFile(disk.esp.fs, CLAIM_PATH).value);
      }
      ClaimWritten(disk, me, t);
    }
  }
}
