/** What the verdicts come to in terms of the disk itself and the bay it is in, and what is offered. */
module Verdicts {
  import opened Text
  import opened Utf8
  import opened Scan
  import opened Esp
  import opened Survey
  import opened Probe
  import opened Decision

  // ------------------------------------------------------------------ the disk and its parts

  /** Node 0 is the whole disk, and node `n` its partition `n`. */
  function BytesOf(disk: Disk, n: nat): Result<Bytes>
    requires n <= |disk.parts|
  {
    if n == 0 then disk.bytes else disk.parts[n - 1].bytes
  }

  function AnswerOf(disk: Disk, n: nat): string
    requires n <= |disk.parts|
  {
    if n == 0 then disk.answer else disk.parts[n - 1].answer
  }

  function PathOf(bay: Bay, disk: Disk, n: nat): string
    requires n <= |disk.parts|
  {
    if n == 0 then bay.path else bay.path + disk.parts[n - 1].suffix
  }

  predicate StartsAsSlab(bytes: Result<Bytes>) {
    bytes.Ok? && At(bytes.value, 0, "STRMSLAB")
  }

  /** Node `n` starts as a slab does, and none before it does. */
  predicate SlabAt(disk: Disk, n: nat) {
    n <= |disk.parts| && StartsAsSlab(BytesOf(disk, n)) && forall j :: 0 <= j < n ==> !StartsAsSlab(BytesOf(disk, j))
  }

  predicate NoSlab(disk: Disk) {
    forall j :: 0 <= j <= |disk.parts| ==> !StartsAsSlab(BytesOf(disk, j))
  }

  /** There is a medium, it stays where it is, and it reads. */
  predicate Present(disk: Disk) {
    disk.size != 0 && !disk.removable && disk.bytes.Ok? && disk.bytes.value != []
  }

  /** This machine reads a claim on the disk that names another. */
  predicate SeesAnothers(m: Machine, disk: Disk, reading: Reading) {
    && m.identity.Some? && ReadsClaim(reading) && ClaimOf(disk).Some?
    && ClaimOf(disk).value.node != m.identity.value
  }

  lemma BearsWhatStarts(n: Node)
    ensures BearsSlab(n) <==> StartsAsSlab(n.bytes)
  {
    MagicIsText();
    if n.bytes.Ok? && n.bytes.value != [] {
      var head := EndsOf(n.bytes.value).value.head;
      StartsAt(head, Rule(0, SLAB_MAGIC, ""), Mark(0, "STRMSLAB", ""));
      assert At(head, 0, "STRMSLAB") <==> At(n.bytes.value, 0, "STRMSLAB");
    }
  }

  lemma MagicIsText()
    ensures SameMark(Rule(0, SLAB_MAGIC, ""), Mark(0, "STRMSLAB", ""))
  {
  }

  lemma NodeIs(bay: Bay, disk: Disk, n: nat)
    requires n <= |disk.parts|
    ensures var d := DeviceIn(bay, disk);
            |[d.whole] + d.parts| == |disk.parts| + 1
            && ([d.whole] + d.parts)[n] == Node(PathOf(bay, disk, n), BytesOf(disk, n), AnswerOf(disk, n))
  {
  }

  /** The slab a disk is judged by is the first on it. */
  lemma FirstSlabOnDisk(bay: Bay, disk: Disk) returns (n: nat)
    ensures var d := DeviceIn(bay, disk);
            var first := FirstSlab([d.whole] + d.parts);
            && (first.None? <==> NoSlab(disk))
            && (first.Some? ==> SlabAt(disk, n) && first.value == Node(PathOf(bay, disk, n), BytesOf(disk, n), AnswerOf(disk, n)))
  {
    var d := DeviceIn(bay, disk);
    var nodes := [d.whole] + d.parts;
    n := FirstSlabIsFirst(nodes);
    forall j | 0 <= j <= |disk.parts| ensures BearsSlab(nodes[j]) <==> StartsAsSlab(BytesOf(disk, j)) {
      NodeIs(bay, disk, j);
      BearsWhatStarts(nodes[j]);
    }
    if FirstSlab(nodes).Some? {
      NodeIs(bay, disk, n);
    }
  }

  lemma OneSlabIsFirst(disk: Disk, n: nat, k: nat)
    requires SlabAt(disk, n) && SlabAt(disk, k)
    ensures n == k
  {
    assert !(n < k) && !(k < n);
  }

  lemma AnothersAreSeen(m: Machine, disk: Disk, reading: Reading)
    ensures ClaimedByAnother(m, FoundOn(disk, reading)) <==> SeesAnothers(m, disk, reading)
  {
    ClaimSeenOn(disk, reading);
  }

  function VerdictIn(m: Machine, bay: Bay, disk: Disk, reading: Reading): Verdict {
    LookAt(m, bay, disk, reading).verdict
  }

  // ------------------------------------------------------------------ the verdicts

  /** Node `n` is the first slab and stormblock names it so. */
  predicate NamedSlab(disk: Disk, n: nat, id: string, role: string) {
    SlabAt(disk, n) && IdentifySlab(AnswerOf(disk, n)) == Some(SlabName(id, role))
  }

  /** Ours, which slab, in what role and on which device: that of the whole disk where it is the disk. */
  lemma MineOnDisk(m: Machine, bay: Bay, disk: Disk, reading: Reading, id: string, role: string, slab: string)
    ensures VerdictIn(m, bay, disk, reading) == Mine(id, role, slab) <==>
              && Present(disk) && bay.remote.None? && m.stormblock && !SeesAnothers(m, disk, reading)
              && exists n: nat :: NamedSlab(disk, n, id, role) && slab == PathOf(bay, disk, n)
  {
    var n := FirstSlabOnDisk(bay, disk);
    AnothersAreSeen(m, disk, reading);
    if VerdictIn(m, bay, disk, reading) == Mine(id, role, slab) {
      assert NamedSlab(disk, n, id, role);
    }
    if k: nat :| NamedSlab(disk, k, id, role) && slab == PathOf(bay, disk, k) {
      OneSlabIsFirst(disk, n, k);
    }
  }

  /** Another's: a slab that is named and came over a network, or has a claim on it that was read and names
      another. */
  lemma AnothersOnDisk(m: Machine, bay: Bay, disk: Disk, reading: Reading, id: string, owner: Owner)
    ensures VerdictIn(m, bay, disk, reading) == AnotherNode(id, owner) <==>
              && Present(disk) && m.stormblock && (exists n: nat, role: string :: NamedSlab(disk, n, id, role))
              && if bay.remote.Some? then owner == Transport(bay.remote.value)
                 else SeesAnothers(m, disk, reading) && owner == ClaimedBy(ClaimOf(disk).value.node)
  {
    var n := FirstSlabOnDisk(bay, disk);
    AnothersAreSeen(m, disk, reading);
    ClaimSeenOn(disk, reading);
    if VerdictIn(m, bay, disk, reading) == AnotherNode(id, owner) {
      assert NamedSlab(disk, n, id, IdentifySlab(AnswerOf(disk, n)).value.role);
    }
    if k: nat, role: string :| NamedSlab(disk, k, id, role) {
      OneSlabIsFirst(disk, n, k);
    }
  }

  lemma UnreadableOnDisk(m: Machine, bay: Bay, disk: Disk, reading: Reading)
    ensures VerdictIn(m, bay, disk, reading) == Unreadable(NoMedium) <==> disk.size == 0
    ensures VerdictIn(m, bay, disk, reading) == Unreadable(ReadFailed) <==>
              disk.size != 0 && !disk.removable && (disk.bytes.Err? || disk.bytes.value == [])
  {
    var n := FirstSlabOnDisk(bay, disk);
  }

  /** A slab that nobody can name is left alone, and so is what can be taken out. */
  lemma UnnamedOnDisk(m: Machine, bay: Bay, disk: Disk, reading: Reading, device: string)
    ensures VerdictIn(m, bay, disk, reading) == Foreign(Removable) <==> disk.size != 0 && disk.removable
    ensures VerdictIn(m, bay, disk, reading) == Foreign(UnnamedSlab(device)) <==>
              Present(disk) && !m.stormblock && exists n: nat :: SlabAt(disk, n) && device == PathOf(bay, disk, n)
    ensures VerdictIn(m, bay, disk, reading) == Foreign(RefusedSlab(device)) <==>
              Present(disk) && m.stormblock
              && exists n: nat :: SlabAt(disk, n) && device == PathOf(bay, disk, n) && IdentifySlab(AnswerOf(disk, n)).None?
  {
    var n := FirstSlabOnDisk(bay, disk);
    if k: nat :| SlabAt(disk, k) {
      OneSlabIsFirst(disk, n, k);
    }
  }

  /** What a disk without a slab is when it is not blank: attached from afar, partitioned, named by what is
      on it, or not empty. */
  lemma ForeignOnDisk(m: Machine, bay: Bay, disk: Disk, reading: Reading)
    requires Present(disk) && NoSlab(disk)
    ensures var v := VerdictIn(m, bay, disk, reading);
            var ends := EndsOf(disk.bytes.value).value;
            if bay.remote.Some? then v == Foreign(AttachedOver(bay.remote.value))
            else if |disk.parts| > 0 then
              v == Foreign(Partitioned(match Signature(ends) case Some(name) => name case None => "partition table", |disk.parts|))
            else if Signature(ends).Some? then v == Foreign(Named(Signature(ends).value))
            else if TailSignature(ends).Some? then v == Foreign(Named(TailSignature(ends).value))
            else if ScanOf(disk.bytes.value).Some? then v == Foreign(DataAt(ScanOf(disk.bytes.value).value))
            else v == Blank
  {
    var n := FirstSlabOnDisk(bay, disk);
  }

  /** Blank, in figures: there is a medium that stays and came over nothing, it reads, it has no partitions,
      and it is zero throughout if it is below a GiB, and otherwise in its first 64 MiB, in 64 KiB of every
      GiB behind them, and in its last MiB. */
  ghost predicate IsBlank(bay: Bay, disk: Disk) {
    Present(disk) && bay.remote.None? && |disk.parts| == 0 && ReadsAsZero(disk.bytes.value)
  }

  lemma BlankOnDisk(m: Machine, bay: Bay, disk: Disk, reading: Reading)
    ensures VerdictIn(m, bay, disk, reading) == Blank <==> IsBlank(bay, disk)
  {
    BlankExactly(m, DeviceIn(bay, disk), FoundOn(disk, reading));
    if disk.bytes.Ok? {
      CoveredInFigures(disk.bytes.value);
    }
  }

  // ------------------------------------------------------------------ the offer

  /** Disk `i` is blank, no blank disk is solid state where it spins or of its kind and larger, and every
      blank one before it is worse. */
  ghost predicate BestToTake(bays: seq<Bay>, disks: map<nat, Disk>, i: nat)
    requires Plugged(bays, disks)
  {
    && i < |bays| && IsBlank(bays[i], disks[bays[i].disk])
    && (forall j :: 0 <= j < |bays| && IsBlank(bays[j], disks[bays[j].disk]) ==>
          !IsBetter(disks[bays[j].disk], disks[bays[i].disk]))
    && forall j :: 0 <= j < i && IsBlank(bays[j], disks[bays[j].disk]) ==>
         IsBetter(disks[bays[i].disk], disks[bays[j].disk])
  }

  predicate IsBetter(a: Disk, b: Disk) {
    Better(a.rotational, a.size, b.rotational, b.size)
  }

  lemma BestIsTakenFirst(m: Machine, bays: seq<Bay>, disks: map<nat, Disk>, o: Occasion, i: nat)
    requires Plugged(bays, disks)
    ensures BestToTake(bays, disks, i) <==> TakenFirst(SurveyOf(m, bays, disks, o), i)
  {
    var drives := SurveyOf(m, bays, disks, o);
    forall j | 0 <= j < |bays|
      ensures drives[j].rotational == disks[bays[j].disk].rotational && drives[j].size == disks[bays[j].disk].size
      ensures drives[j].verdict.Blank? <==> IsBlank(bays[j], disks[bays[j].disk])
    {
      BlankOnDisk(m, bays[j], disks[bays[j].disk], ReadingOf(o, j));
    }
  }

  /** No drive is this node's already. */
  predicate NothingIsOurs(m: Machine, bays: seq<Bay>, disks: map<nat, Disk>, o: Occasion)
    requires Plugged(bays, disks)
  {
    forall j :: 0 <= j < |bays| ==> !VerdictIn(m, bays[j], disks[bays[j].disk], ReadingOf(o, j)).Mine?
  }

  lemma NothingOursInSurvey(m: Machine, bays: seq<Bay>, disks: map<nat, Disk>, o: Occasion)
    requires Plugged(bays, disks)
    ensures NothingIsOurs(m, bays, disks, o) <==> forall d :: d in SurveyOf(m, bays, disks, o) ==> !d.verdict.Mine?
  {
    var drives := SurveyOf(m, bays, disks, o);
    if forall d :: d in drives ==> !d.verdict.Mine? {
      forall j | 0 <= j < |bays| ensures !VerdictIn(m, bays[j], disks[bays[j].disk], ReadingOf(o, j)).Mine? {
        assert drives[j] in drives;
      }
    }
  }

  /** Which bay is offered: exactly when the drives are listed and nothing is ours, the best blank disk's. */
  lemma OffersExactly(m: Machine, bays: seq<Bay>, disks: map<nat, Disk>, o: Occasion, i: nat)
    requires Plugged(bays, disks) && Addressed(bays)
    ensures BootOf(m, bays, disks, o).offered == Some(i) <==>
              o.lists && NothingIsOurs(m, bays, disks, o) && BestToTake(bays, disks, i)
  {
    OffersFromSurvey(m, bays, disks, o, i);
    BestIsTakenFirst(m, bays, disks, o, i);
    NothingOursInSurvey(m, bays, disks, o);
  }
}
