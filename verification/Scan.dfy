/** Reading a drive: the ends of it on sight, and as much of the rest as is affordable before it may
    be called blank. */
module Scan {
  import opened Text
  import opened Utf8

  const HEAD: nat := 0x10_0000
  const TAIL: nat := 0x10_0000
  const CHUNK: nat := 0x10_0000
  const DEEP: nat := 0x400_0000
  const SAMPLE: nat := 0x1_0000
  const STRIDE: nat := 0x4000_0000

  // ------------------------------------------------------------------ what is covered

  /** How much of the front is read whole. */
  function Whole(len: nat): nat {
    if len < STRIDE then len else DEEP
  }

  /** The start of the sample that `x` would be in. */
  function SampleStart(len: nat, x: nat): nat
    requires Whole(len) <= x
  {
    x - (x - Whole(len)) % STRIDE
  }

  /** A zone of the device: the front with the grain behind it, and the last megabyte. */
  datatype Zone = Front | Back

  predicate In(zone: Zone, len: nat, x: nat) {
    match zone
    case Front => x < Whole(len) || (x < SampleStart(len, x) + SAMPLE <= len)
    case Back => Whole(len) + TAIL < len && len - TAIL <= x < len
  }

  predicate Covered(len: nat, x: nat) {
    In(Front, len, x) || In(Back, len, x)
  }

  // ------------------------------------------------------------------ the simple scan

  /** The first byte of a zone, from `x` on, that is not zero: every byte looked at, one by one. */
  function Least(zone: Zone, bytes: Bytes, x: nat): Option<nat>
    decreases |bytes| - x
  {
    if x >= |bytes| then None
    else if In(zone, |bytes|, x) && bytes[x] != 0 then Some(x)
    else Least(zone, bytes, x + 1)
  }

  /** Front and grain first, and the last megabyte after them. */
  function ScanOf(bytes: Bytes): Option<nat> {
    var front := Least(Front, bytes, 0);
    if front.Some? then front else Least(Back, bytes, 0)
  }

  predicate ZeroUpTo(zone: Zone, bytes: Bytes, end: nat) {
    forall x :: 0 <= x < |bytes| && x < end && In(zone, |bytes|, x) ==> bytes[x] == 0
  }

  predicate AllCoveredZero(bytes: Bytes) {
    forall x :: 0 <= x < |bytes| && Covered(|bytes|, x) ==> bytes[x] == 0
  }

  lemma {:induction false} LeastIsLeast(zone: Zone, bytes: Bytes, from: nat)
    requires ZeroUpTo(zone, bytes, from)
    ensures var r := Least(zone, bytes, from);
            && (r.None? <==> ZeroUpTo(zone, bytes, |bytes|))
            && (r.Some? ==> r.value < |bytes| && In(zone, |bytes|, r.value) && bytes[r.value] != 0
                            && ZeroUpTo(zone, bytes, r.value))
    decreases |bytes| - from
  {
    if from < |bytes| && !(In(zone, |bytes|, from) && bytes[from] != 0) {
      LeastIsLeast(zone, bytes, from + 1);
    }
  }

  /** Finding a zone's first non-zero byte any other way is finding the same one. */
  lemma LeastIs(zone: Zone, bytes: Bytes, x: nat)
    requires x < |bytes| && In(zone, |bytes|, x) && bytes[x] != 0 && ZeroUpTo(zone, bytes, x)
    ensures Least(zone, bytes, 0) == Some(x)
  {
    LeastIsLeast(zone, bytes, 0);
  }

  /** The scan comes back empty exactly when every covered byte is zero. */
  lemma ScanIsExact(bytes: Bytes)
    ensures ScanOf(bytes).None? <==> AllCoveredZero(bytes)
  {
    LeastIsLeast(Front, bytes, 0);
    LeastIsLeast(Back, bytes, 0);
    if AllCoveredZero(bytes) {
      assert ZeroUpTo(Front, bytes, |bytes|) && ZeroUpTo(Back, bytes, |bytes|);
    }
  }

  /** An offset that is returned is covered and not zero, and everything scanned before it is zero. */
  lemma ScanFinds(bytes: Bytes)
    requires ScanOf(bytes).Some?
    ensures var x := ScanOf(bytes).value;
            && x < |bytes| && Covered(|bytes|, x) && bytes[x] != 0
            && (if In(Front, |bytes|, x) then ZeroUpTo(Front, bytes, x)
                else ZeroUpTo(Front, bytes, |bytes|) && ZeroUpTo(Back, bytes, x))
  {
    LeastIsLeast(Front, bytes, 0);
    LeastIsLeast(Back, bytes, 0);
  }

  /** It is the least covered offset that is not zero, unless a sample inside the last megabyte found
      it, with the rest of that megabyte still to be read. */
  lemma ScanFindsLeast(bytes: Bytes)
    requires ScanOf(bytes).Some?
    requires !(In(Front, |bytes|, ScanOf(bytes).value) && In(Back, |bytes|, ScanOf(bytes).value))
    ensures forall y :: 0 <= y < ScanOf(bytes).value && Covered(|bytes|, y) ==> bytes[y] == 0
  {
    ScanFinds(bytes);
  }

  /** A device shorter than the stride is read to the last byte: it scans as empty exactly when it is
      zero throughout, and otherwise its first byte that is not zero is found. */
  lemma SmallDevicesAreReadWhole(bytes: Bytes)
    requires |bytes| < STRIDE
    ensures ScanOf(bytes).None? <==> forall x :: 0 <= x < |bytes| ==> bytes[x] == 0
    ensures ScanOf(bytes).Some? ==>
              && ScanOf(bytes).value < |bytes| && bytes[ScanOf(bytes).value] != 0
              && forall x :: 0 <= x < ScanOf(bytes).value ==> bytes[x] == 0
  {
    assert forall x :: 0 <= x < |bytes| ==> In(Front, |bytes|, x);
    ScanIsExact(bytes);
    if ScanOf(bytes).Some? {
      ScanFinds(bytes);
    }
  }

  // ------------------------------------------------------------------ how long a run can hide

  predicate Missed(len: nat, a: nat, n: nat) {
    a + n <= len && forall x :: a <= x < a + n ==> !Covered(len, x)
  }

  lemma NextSampleStart(d: nat)
    ensures (d - d % STRIDE + STRIDE) % STRIDE == 0
  {
    assert d - d % STRIDE + STRIDE == (d / STRIDE + 1) * STRIDE;
  }

  /** Behind a sample the next covered byte is no further than the next sample, or the last megabyte
      where that comes first. */
  lemma NextCovered(len: nat, a: nat) returns (x: nat)
    requires Whole(len) <= a && SAMPLE <= (a - Whole(len)) % STRIDE
    requires SampleStart(len, a) + STRIDE < len
    ensures a <= x <= SampleStart(len, a) + STRIDE && Covered(len, x)
  {
    var next := SampleStart(len, a) + STRIDE;
    NextSampleStart(a - Whole(len));
    x := if next + SAMPLE <= len then next else if len - TAIL < a then a else len - TAIL;
  }

  /** Any run longer than a stride less a sample has a covered byte in it, wherever it lies. */
  lemma LongRunsAreCovered(len: nat, a: nat, n: nat) returns (x: nat)
    requires a + n <= len && STRIDE - SAMPLE < n
    ensures a <= x < a + n && Covered(len, x)
  {
    x := a;
    if Whole(len) <= a && SAMPLE <= (a - Whole(len)) % STRIDE {
      x := NextCovered(len, a);
    }
  }

  /** So such a run of bytes that are not zero is never taken for blank. */
  lemma LongRunsAreSeen(bytes: Bytes, a: nat, n: nat)
    requires a + n <= |bytes| && STRIDE - SAMPLE < n
    requires forall x :: a <= x < a + n ==> bytes[x] != 0
    ensures ScanOf(bytes).Some?
  {
    var x := LongRunsAreCovered(|bytes|, a, n);
    ScanIsExact(bytes);
  }

  lemma GapAfterFirstSample(len: nat)
    requires DEEP + STRIDE + TAIL <= len
    ensures Missed(len, DEEP + SAMPLE, STRIDE - SAMPLE)
  {
    forall x | DEEP + SAMPLE <= x < DEEP + STRIDE ensures !Covered(len, x) {
      assert (x - DEEP) % STRIDE == x - DEEP;
    }
  }

  lemma MissedRunsFillAGap(len: nat, a: nat)
    requires Missed(len, a, STRIDE - SAMPLE)
    ensures DEEP + STRIDE + TAIL <= len
  {
    assert !Covered(len, a);
    var q := (a - Whole(len)) % STRIDE;
    assert SAMPLE <= q;
    if SAMPLE < q {
      var x := NextCovered(len, a);
      assert false;
    }
    var last := a + (STRIDE - SAMPLE) - 1;
    assert !Covered(len, last);
  }

  predicate HidesARun(len: nat, a: nat) {
    Missed(len, a, STRIDE - SAMPLE)
  }

  /** The bound is tight: a run one byte shorter can be missed, on a device of a given length exactly
      when there is room for a whole gap between two samples in front of the last megabyte. */
  lemma MissedRunsExist(len: nat)
    ensures (exists a: nat :: HidesARun(len, a)) <==> DEEP + STRIDE + TAIL <= len
  {
    if DEEP + STRIDE + TAIL <= len {
      GapAfterFirstSample(len);
      assert HidesARun(len, DEEP + SAMPLE);
    }
    if a: nat :| HidesARun(len, a) {
      MissedRunsFillAGap(len, a);
    }
  }

  function GapFilled(len: nat): Bytes {
    seq(len, i requires 0 <= i < len => if DEEP + SAMPLE <= i < DEEP + STRIDE then 1 else 0)
  }

  /** And the device that fills it is taken for blank with all those bytes on it. */
  lemma AFilledGapLooksBlank(len: nat)
    requires DEEP + STRIDE + TAIL <= len
    ensures ScanOf(GapFilled(len)).None?
    ensures forall i :: DEEP + SAMPLE <= i < DEEP + STRIDE ==> GapFilled(len)[i] != 0
  {
    GapAfterFirstSample(len);
    ScanIsExact(GapFilled(len));
  }

  // ------------------------------------------------------------------ the device

  /** An open device. A read may always deliver less than it was asked for. On an honest device a read
      that succeeds delivers something until the end; on a steady one every read succeeds. */
  class File {
    const bytes: Bytes
    const honest: bool
    const steady: bool
    var pos: nat
    ghost var delivered: nat

    constructor (bytes: Bytes, honest: bool, steady: bool)
      ensures this.bytes == bytes && this.honest == honest && this.steady == steady && delivered == 0
    {
      this.bytes := bytes;
      this.honest := honest;
      this.steady := steady;
      pos, delivered := 0, 0;
    }

    /** `read(&mut buf[from..])`. */
    method Read(buf: array<byte>, from: nat) returns (n: Result<nat>)
      requires from <= buf.Length
      modifies this, buf
      ensures n.Ok? ==> from + n.value <= buf.Length && pos == old(pos) + n.value
      ensures n.Ok? && n.value > 0 ==> pos <= |bytes|
      ensures n.Ok? ==> forall j :: from <= j < from + n.value ==> buf[j] == bytes[old(pos) + (j - from)]
      ensures forall j :: 0 <= j < from ==> buf[j] == old(buf[j])
      ensures delivered == old(delivered) + if n.Ok? then n.value else 0
      ensures steady ==> n.Ok?
      ensures honest && n.Ok? && from < buf.Length && old(pos) < |bytes| ==> n.value > 0
    {
      var fails: bool := *;
      if fails && !steady { return Err; }
      var room := buf.Length - from;
      var left: nat := if pos < |bytes| then |bytes| - pos else 0;
      var most: nat := if room < left then room else left;
      var some: int := *;
      var count: nat := if 0 <= some <= most then some else most;
      if count == 0 && honest { count := most; }
      forall i | 0 <= i < count {
        buf[from + i] := bytes[pos + i];
      }
      pos, delivered := pos + count, delivered + count;
      n := Ok(count);
    }

    /** `region`: seek, and read until there is enough or nothing more comes. */
    method Region(off: nat, len: nat) returns (r: Result<Bytes>)
      modifies this
      ensures r.Ok? ==> |r.value| <= len
      ensures r.Ok? && r.value != [] ==> off + |r.value| <= |bytes| && r.value == bytes[off..off + |r.value|]
      ensures r.Ok? ==> delivered == old(delivered) + |r.value|
      ensures delivered <= old(delivered) + len
      ensures steady ==> r.Ok?
      ensures honest && r.Ok? && off + len <= |bytes| ==> |r.value| == len
    {
      pos := off;
      var buf := new byte[len];
      var got := 0;
      while got < buf.Length
        invariant got <= buf.Length && pos == off + got
        invariant got > 0 ==> pos <= |bytes|
        invariant forall j :: 0 <= j < got ==> buf[j] == bytes[off + j]
        invariant delivered == old(delivered) + got
        decreases buf.Length - got
      {
        var n := Read(buf, got);
        if n.Err? { return Err; }
        if n.value == 0 { break; }
        got := got + n.value;
      }
      r := Ok(buf[..got]);
    }

    /** What a phase may report: an offset that is covered and not zero. */
    predicate Sound(r: Result<Option<nat>>) {
      r.Ok? && r.value.Some? ==>
        r.value.value < |bytes| && Covered(|bytes|, r.value.value) && bytes[r.value.value] != 0
    }

    /** The first phase: the front, read whole. */
    method ReadWhole(whole: nat) returns (r: Result<Option<nat>>)
      requires whole == Whole(|bytes|)
      modifies this
      ensures Sound(r)
      ensures delivered <= old(delivered) + whole
      ensures steady ==> r.Ok?
      ensures honest && r.Ok? && r.value.Some? ==> Least(Front, bytes, 0) == r.value
      ensures honest && r.Ok? && r.value.None? ==> ZeroUpTo(Front, bytes, whole)
    {
      var off: nat := 0;
      while off < whole
        invariant off <= whole
        invariant honest ==> ZeroUpTo(Front, bytes, off)
        invariant delivered == old(delivered) + off
        decreases whole - off
      {
        var chunk := Region(off, if CHUNK < whole - off then CHUNK else whole - off);
        if chunk.Err? { return Err; }
        if chunk.value == [] { break; }
        var i := Position(chunk.value);
        assert forall x :: off <= x < off + |chunk.value| ==> bytes[x] == chunk.value[x - off];
        if i < |chunk.value| {
          if honest { LeastIs(Front, bytes, off + i); }
          return Ok(Some(off + i));
        }
        off := off + |chunk.value|;
      }
      return Ok(None);
    }

    /** The second phase: the grain, a sample every stride. */
    method ReadGrain(whole: nat) returns (r: Result<Option<nat>>, ghost samples: nat)
      requires whole == Whole(|bytes|)
      requires honest ==> ZeroUpTo(Front, bytes, whole)
      modifies this
      ensures Sound(r)
      ensures samples <= Samples(|bytes|)
      ensures r == Ok(None) ==> samples == Samples(|bytes|)
      ensures delivered <= old(delivered) + samples * SAMPLE
      ensures steady ==> r.Ok?
      ensures honest && r.Ok? ==> r.value == Least(Front, bytes, 0)
    {
      samples := 0;
      var len := |bytes|;
      var at := whole;
      while at + SAMPLE <= len
        invariant at == whole + samples * STRIDE
        invariant samples > 0 ==> at - STRIDE + SAMPLE <= len
        invariant honest ==> ZeroUpTo(Front, bytes, at)
        invariant delivered <= old(delivered) + samples * SAMPLE
        decreases len - at
      {
        var chunk := Region(at, SAMPLE);
        SampleAt(len, samples, at);
        SamplesBound(len, samples);
        samples := samples + 1;
        if chunk.Err? { return Err, samples; }
        var i := Position(chunk.value);
        assert forall x :: at <= x < at + |chunk.value| ==> bytes[x] == chunk.value[x - at];
        if i < |chunk.value| {
          assert In(Front, len, at + i);
          if honest { LeastIs(Front, bytes, at + i); }
          return Ok(Some(at + i)), samples;
        }
        at := at + STRIDE;
      }
      SamplesTaken(len, samples, at);
      GrainEnds(len, samples, at);
      if honest {
        assert ZeroUpTo(Front, bytes, len);
        LeastIsLeast(Front, bytes, 0);
      }
      return Ok(None), samples;
    }

    /** The third phase: the last megabyte, when it is not in the front already. */
    method ReadBack(whole: nat) returns (r: Result<Option<nat>>)
      requires whole == Whole(|bytes|)
      modifies this
      ensures Sound(r)
      ensures delivered <= old(delivered) + TAIL
      ensures steady ==> r.Ok?
      ensures honest && r.Ok? ==> r.value == Least(Back, bytes, 0)
    {
      var len := |bytes|;
      if len > whole + TAIL {
        var chunk := Region(len - TAIL, TAIL);
        if chunk.Err? { return Err; }
        var i := Position(chunk.value);
        assert forall x :: len - TAIL <= x < len - TAIL + |chunk.value| ==> bytes[x] == chunk.value[x - (len - TAIL)];
        if i < |chunk.value| {
          if honest { LeastIs(Back, bytes, len - TAIL + i); }
          return Ok(Some(len - TAIL + i));
        }
        if honest { assert ZeroUpTo(Back, bytes, len); }
      }
      LeastIsLeast(Back, bytes, 0);
      return Ok(None);
    }

    /** `first_nonzero`. On an honest device, however short its reads are, it fails or is the simple
        scan; on any device it ends, and an offset it names is covered and not zero. */
    method FirstNonzero() returns (r: Result<Option<nat>>, ghost samples: nat)
      modifies this
      ensures steady ==> r.Ok?
      ensures honest && r.Ok? ==> r.value == ScanOf(bytes)
      ensures Sound(r)
      ensures samples <= Samples(|bytes|)
      ensures r == Ok(None) ==> samples == Samples(|bytes|)
      ensures delivered <= old(delivered) + Whole(|bytes|) + samples * SAMPLE + TAIL
    {
      samples := 0;
      var len := |bytes|;
      var whole := if len < STRIDE then len else DEEP;
      r := ReadWhole(whole);
      if r != Ok(None) { return; }
      r, samples := ReadGrain(whole);
      if r != Ok(None) { return; }
      r := ReadBack(whole);
    }

    /** `sniff`: the first and the last megabyte. */
    method Sniff() returns (r: Result<Ends>)
      modifies this
      ensures honest && r.Ok? ==> r == EndsOf(bytes)
      ensures honest && steady ==> r == EndsOf(bytes)
    {
      var len := |bytes|;
      var head := Region(0, if HEAD < len then HEAD else len);
      if head.Err? || head.value == [] { return Err; }
      var tail: Bytes := [];
      if len > HEAD + TAIL {
        var last := Region(len - TAIL, TAIL);
        if last.Err? { return Err; }
        tail := last.value;
      }
      assert bytes[0..|head.value|] == bytes[..|head.value|] && bytes[len - |tail|..len] == bytes[len - |tail|..];
      r := Ok(Ends(head.value, tail));
    }
  }

  datatype Ends = Ends(head: Bytes, tail: Bytes)

  function EndsOf(bytes: Bytes): Result<Ends> {
    if bytes == [] then Err
    else Ok(Ends(bytes[..if HEAD < |bytes| then HEAD else |bytes|],
                 if |bytes| > HEAD + TAIL then bytes[|bytes| - TAIL..] else []))
  }

  /** `iter().position(|b| *b != 0)`, the length when there is none. */
  method Position(chunk: Bytes) returns (i: nat)
    ensures i <= |chunk|
    ensures forall j :: 0 <= j < i ==> chunk[j] == 0
    ensures i < |chunk| ==> chunk[i] != 0
  {
    i := 0;
    while i < |chunk| && chunk[i] == 0
      invariant i <= |chunk|
      invariant forall j :: 0 <= j < i ==> chunk[j] == 0
    {
      i := i + 1;
    }
  }

  // ------------------------------------------------------------------ the grain, counted

  /** The samples a full scan takes. */
  function Samples(len: nat): nat {
    if len < STRIDE then 0 else (len - DEEP - SAMPLE) / STRIDE + 1
  }

  /** From one sample to the next only the sample itself is covered. */
  lemma SampleAt(len: nat, k: nat, at: nat)
    requires at == Whole(len) + k * STRIDE && at + SAMPLE <= len
    ensures forall x :: at <= x < at + STRIDE ==> (In(Front, len, x) <==> x < at + SAMPLE)
  {
    forall x | at <= x < at + STRIDE ensures SampleStart(len, x) == at {
      assert (x - Whole(len)) % STRIDE == x - at;
    }
  }

  lemma SamplesBound(len: nat, k: nat)
    requires Whole(len) + k * STRIDE + SAMPLE <= len
    ensures k + 1 <= Samples(len)
  {
  }

  lemma SamplesTaken(len: nat, k: nat, at: nat)
    requires at == Whole(len) + k * STRIDE && at + SAMPLE > len
    requires k > 0 ==> at - STRIDE + SAMPLE <= len
    ensures k == Samples(len)
  {
  }

  /** Past the last sample that fits there is no more grain. */
  lemma GrainEnds(len: nat, k: nat, at: nat)
    requires at == Whole(len) + k * STRIDE && at + SAMPLE > len
    ensures forall x :: at <= x < len ==> !In(Front, len, x)
  {
    forall x | at <= x < len ensures !In(Front, len, x) {
      assert (x - Whole(len)) % STRIDE == x - at;
    }
  }

  // ------------------------------------------------------------------ in figures

  predicate ZeroRange(bytes: Bytes, from: nat, to: nat) {
    forall x :: from <= x < to && x < |bytes| ==> bytes[x] == 0
  }

  /** Of the 64 KiB that start each gigabyte behind the first 64 MiB, those of gigabyte `k`, if they fit. */
  predicate SampleIsZero(bytes: Bytes, k: nat) {
    var start := 67_108_864 + k * 1_073_741_824;
    start + 65_536 <= |bytes| ==> ZeroRange(bytes, start, start + 65_536)
  }

  /** All of a device below 1 GiB is zero; of a larger one the first 64 MiB, 64 KiB of every GiB behind
      them, and the last MiB. */
  ghost predicate ReadsAsZero(bytes: Bytes) {
    if |bytes| < 1_073_741_824 then forall x :: 0 <= x < |bytes| ==> bytes[x] == 0
    else
      && ZeroRange(bytes, 0, 67_108_864)
      && (forall k: nat :: SampleIsZero(bytes, k))
      && ZeroRange(bytes, |bytes| - 1_048_576, |bytes|)
  }

  lemma SampleIsCovered(bytes: Bytes, k: nat)
    requires AllCoveredZero(bytes) && 1_073_741_824 <= |bytes|
    ensures SampleIsZero(bytes, k)
  {
    var start := 67_108_864 + k * 1_073_741_824;
    if start + 65_536 <= |bytes| {
      SampleAt(|bytes|, k, start);
      assert forall x :: start <= x < start + 65_536 ==> Covered(|bytes|, x);
    }
  }

  lemma SampledByte(bytes: Bytes, x: nat)
    requires ReadsAsZero(bytes) && 1_073_741_824 <= |bytes| && 67_108_864 <= x < |bytes| && In(Front, |bytes|, x)
    ensures bytes[x] == 0
  {
    var k := (x - 67_108_864) / 1_073_741_824;
    assert SampleStart(|bytes|, x) == 67_108_864 + k * 1_073_741_824;
    assert SampleIsZero(bytes, k);
  }

  /** What is covered, in bytes. */
  lemma CoveredInFigures(bytes: Bytes)
    ensures AllCoveredZero(bytes) <==> ReadsAsZero(bytes)
  {
    if |bytes| < 1_073_741_824 {
      assert forall x :: 0 <= x < |bytes| ==> Covered(|bytes|, x);
    } else {
      if AllCoveredZero(bytes) {
        assert forall x :: 0 <= x < 67_108_864 ==> Covered(|bytes|, x);
        assert forall x :: |bytes| - 1_048_576 <= x < |bytes| ==> Covered(|bytes|, x);
        forall k: nat ensures SampleIsZero(bytes, k) {
          SampleIsCovered(bytes, k);
        }
      }
      if ReadsAsZero(bytes) {
        forall x | 0 <= x < |bytes| && Covered(|bytes|, x) ensures bytes[x] == 0 {
          if 67_108_864 <= x && In(Front, |bytes|, x) {
            SampledByte(bytes, x);
          }
        }
      }
    }
  }

  /** What hides and what does not, in bytes: runs of 1073676289 that are not zero are always seen, and
      runs one byte shorter always where the device has fewer than 1141899264 bytes. */
  lemma DetectionInFigures(bytes: Bytes, a: nat, n: nat)
    requires a + n <= |bytes| && forall x :: a <= x < a + n ==> bytes[x] != 0
    requires n >= 1_073_676_289 || (n == 1_073_676_288 && |bytes| < 1_141_899_264)
    ensures ScanOf(bytes).Some?
  {
    if n >= 1_073_676_289 {
      LongRunsAreSeen(bytes, a, n);
    } else {
      if Missed(|bytes|, a, n) {
        MissedRunsFillAGap(|bytes|, a);
      }
      ScanIsExact(bytes);
    }
  }

  /** What a scan may read, in bytes. */
  lemma BudgetInFigures(len: nat)
    ensures Whole(len) + Samples(len) * SAMPLE + TAIL ==
              if len < 1_073_741_824 then len + 1_048_576
              else 67_108_864 + ((len - 67_174_400) / 1_073_741_824 + 1) * 65_536 + 1_048_576
  {
  }

  /** What is sniffed, in bytes: the first MiB or all there is, and the last MiB of more than two. */
  lemma EndsInFigures(bytes: Bytes)
    requires bytes != []
    ensures var ends := EndsOf(bytes).value;
            && |ends.head| == (if |bytes| < 1_048_576 then |bytes| else 1_048_576)
            && ends.head == bytes[..|ends.head|]
            && |ends.tail| == (if |bytes| <= 2_097_152 then 0 else 1_048_576)
            && ends.tail == bytes[|bytes| - |ends.tail|..]
  {
  }
}
