/** Where `boot-image` puts the ESP and the slab on the disk it lays out. */
module Layout {
  import opened Text

  const MIB: nat := 1_048_576
  const RESERVE: nat := MIB
  const BLOCK: nat := 512
  /** Partition alignment, in blocks. */
  const ALIGN: nat := 2048

  // Section 5.3 of the UEFI 2.10 specification: a header block and 32 blocks of entries at each end,
  // and the protective MBR in front.
  const FIRST_USABLE: nat := 34

  function LastUsable(blocks: nat): int {
    blocks - 34
  }

  datatype Extent = Extent(first: nat, size: nat) {
    function End(): nat { first + size }
    function LastLba(): int { first + size - 1 }
  }

  predicate Disjoint(a: Extent, b: Extent) {
    a.size == 0 || b.size == 0 || a.End() <= b.first || b.End() <= a.first
  }

  /** An aligned place for `size` blocks among what is usable and not taken. */
  predicate Fits(taken: seq<Extent>, blocks: nat, size: nat, start: nat) {
    && start % ALIGN == 0 && FIRST_USABLE <= start && start + size <= LastUsable(blocks) + 1
    && forall i :: 0 <= i < |taken| ==> Disjoint(taken[i], Extent(start, size))
  }

  /** Adding a partition: the first place that fits. */
  method Place(taken: seq<Extent>, blocks: nat, size: nat) returns (place: Option<nat>)
    ensures place.Some? ==> Fits(taken, blocks, size, place.value)
    ensures place.Some? ==> forall start: nat :: start < place.value ==> !Fits(taken, blocks, size, start)
    ensures place.None? ==> forall start: nat :: !Fits(taken, blocks, size, start)
  {
    var start: nat := 0;
    while start + size <= LastUsable(blocks) + 1
      invariant start % ALIGN == 0
      invariant forall s: nat :: s < start ==> !Fits(taken, blocks, size, s)
      decreases LastUsable(blocks) + 1 - start
    {
      var free := FIRST_USABLE <= start;
      for i := 0 to |taken|
        invariant free <==> FIRST_USABLE <= start
                            && forall j :: 0 <= j < i ==> Disjoint(taken[j], Extent(start, size))
      {
        if !Disjoint(taken[i], Extent(start, size)) {
          free := false;
        }
      }
      if free { return Some(start); }
      assert forall s: nat :: start < s < start + ALIGN ==> s % ALIGN != 0;
      start := start + ALIGN;
    }
    return None;
  }

  datatype Plan = Plan(total: nat, esp: Extent, slab: Extent)

  /** The bytes of the disk that the ESP's reader opens. */
  function ReaderRange(p: Extent): (int, int) {
    (p.first * BLOCK, (p.LastLba() + 1) * BLOCK)
  }

  /** What a plan has to be: both partitions on MiB boundaries, clear of each other and of both GPT
      copies; the reader opens the bytes the writer formatted, and the payload stays in its partition. */
  predicate Sound(plan: Plan, espMib: nat, slabBytes: nat) {
    var blocks := plan.total / BLOCK;
    && plan.total % MIB == 0
    && plan.esp.first * BLOCK % MIB == 0 && plan.slab.first * BLOCK % MIB == 0
    && plan.esp.size * BLOCK % MIB == 0 && plan.slab.size * BLOCK % MIB == 0
    && Disjoint(plan.esp, plan.slab)
    && FIRST_USABLE <= plan.esp.first && plan.esp.End() <= blocks - 33
    && FIRST_USABLE <= plan.slab.first && plan.slab.End() <= blocks - 33
    && ReaderRange(plan.esp) == (plan.esp.first * BLOCK, plan.esp.first * BLOCK + espMib * MIB)
    && slabBytes <= plan.slab.size * BLOCK < slabBytes + MIB
  }

  function Mibs(bytes: nat): nat {
    (bytes + MIB - 1) / MIB
  }

  /** The plan for a slab that is not empty, with no room lost: a MiB at each end and the partitions
      between them. */
  function PlanOf(espMib: nat, slabBytes: nat): Plan {
    Plan(RESERVE + espMib * MIB + Mibs(slabBytes) * MIB + RESERVE,
         Extent(ALIGN, ALIGN * espMib), Extent(ALIGN + ALIGN * espMib, ALIGN * Mibs(slabBytes)))
  }

  lemma PlanIsSound(espMib: nat, slabBytes: nat)
    ensures Sound(PlanOf(espMib, slabBytes), espMib, slabBytes)
  {
    var plan := PlanOf(espMib, slabBytes);
    assert plan.total == BLOCK * (2 * ALIGN + ALIGN * espMib + ALIGN * Mibs(slabBytes));
    assert plan.total == MIB * (2 + espMib + Mibs(slabBytes));
    assert plan.slab.first * BLOCK == MIB * (1 + espMib);
    assert plan.slab.size * BLOCK == MIB * Mibs(slabBytes) && plan.esp.size * BLOCK == MIB * espMib;
  }

  /** The layout part of `build`. The writer formats `espMib` MiB from the ESP's first block and copies
      `slabBytes` bytes from the slab's. */
  method Build(espMib: nat, slabBytes: nat) returns (r: Result<Plan>)
    ensures r.Ok? <==> espMib >= 64
    ensures r.Ok? ==> Sound(r.value, espMib, slabBytes)
    ensures r.Ok? && slabBytes > 0 ==> r.value == PlanOf(espMib, slabBytes)
  {
    if espMib < 64 { return Err; }
    var espBytes := espMib * MIB;
    var slabMib := (slabBytes + MIB - 1) / MIB;
    var slabAligned := slabMib * MIB;
    var total := RESERVE + espBytes + slabAligned + RESERVE;
    var blocks := total / BLOCK;
    var espSize, slabSize := espBytes / BLOCK, slabAligned / BLOCK;
    assert espSize == ALIGN * espMib && slabSize == ALIGN * slabMib;
    assert blocks == 2 * ALIGN + espSize + slabSize;

    var espFirst := Place([], blocks, espSize);
    assert Fits([], blocks, espSize, ALIGN);
    assert espFirst == Some(ALIGN);
    var esp := Extent(ALIGN, espSize);

    var slabFirst := Place([esp], blocks, slabSize);
    FirstAfterEsp(esp, espMib, blocks, slabMib);
    r := Ok(Plan(total, esp, Extent(slabFirst.value, slabSize)));
  }

  lemma FirstAfterEsp(esp: Extent, espMib: nat, blocks: nat, slabMib: nat)
    requires espMib >= 64 && esp == Extent(ALIGN, ALIGN * espMib)
    requires blocks == 2 * ALIGN + ALIGN * espMib + ALIGN * slabMib
    ensures Fits([esp], blocks, ALIGN * slabMib, esp.End())
    ensures slabMib > 0 ==> forall s: nat :: s < esp.End() ==> !Fits([esp], blocks, ALIGN * slabMib, s)
  {
    forall s: nat | slabMib > 0 && s < esp.End()
      ensures !Fits([esp], blocks, ALIGN * slabMib, s)
    {
      if s % ALIGN == 0 && FIRST_USABLE <= s {
        assert !Disjoint([esp][0], Extent(s, ALIGN * slabMib));
      }
    }
  }

  /** The plan in figures: the ESP from the second MiB on, the slab behind it, and a MiB behind that; and
      the range in bytes that a partition's reader opens. */
  lemma PlanInFigures(espMib: nat, slabBytes: nat)
    ensures var plan := PlanOf(espMib, slabBytes);
            var slabMib := (slabBytes + 1_048_575) / 1_048_576;
            && ReaderRange(plan.esp) == (1_048_576, 1_048_576 + espMib * 1_048_576)
            && ReaderRange(plan.slab) == ((1 + espMib) * 1_048_576, (1 + espMib + slabMib) * 1_048_576)
            && plan.total == (2 + espMib + slabMib) * 1_048_576
  {
  }
}
