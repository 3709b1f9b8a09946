/** The image `boot-image` writes, in place, and the partitions as the ranges of it that they are. */
module Image {
  import opened Text
  import opened Utf8
  import opened Layout
  import opened Scan
  import opened Probe

  // ------------------------------------------------------------------ bytes written in place

  function Written(s: Bytes, at: nat, data: Bytes): (t: Bytes)
    requires at + |data| <= |s|
    ensures |t| == |s|
  {
    s[..at] + data + s[at + |data|..]
  }

  predicate Holds(s: Bytes, at: nat, data: Bytes) {
    at + |data| <= |s| && s[at..at + |data|] == data
  }

  lemma HoldsWhatIsWritten(s: Bytes, at: nat, data: Bytes)
    requires at + |data| <= |s|
    ensures Holds(Written(s, at, data), at, data)
  {
  }

  lemma HoldsWhatIsElsewhere(s: Bytes, at: nat, data: Bytes, where: nat, other: Bytes)
    requires at + |data| <= |s| && Holds(s, where, other)
    requires data == [] || where + |other| <= at || at + |data| <= where
    ensures Holds(Written(s, at, data), where, other)
  {
    var t := Written(s, at, data);
    assert data == [] ==> t == s;
    forall i | 0 <= i < |other| ensures t[where + i] == other[i] {
      assert s[where..where + |other|][i] == other[i];
    }
  }

  /** A file copied into the image at an offset, a buffer at a time, until a read comes back empty. */
  method CopyInto(src: File, image: array<byte>, at: nat) returns (r: Result<nat>)
    requires src.pos == 0 && at + |src.bytes| <= image.Length
    modifies src, image
    ensures r.Ok? ==> r.value <= |src.bytes| && image[..] == Written(old(image[..]), at, src.bytes[..r.value])
    ensures src.honest && r.Ok? ==> r.value == |src.bytes|
    ensures src.steady ==> r.Ok?
  {
    var buf := new byte[CHUNK];
    var copied: nat := 0;
    assert image[..] == Written(image[..], at, src.bytes[..0]);
    while true
      invariant copied == src.pos <= |src.bytes|
      invariant fresh(buf) && buf.Length == CHUNK
      invariant image[..] == Written(old(image[..]), at, src.bytes[..copied])
      decreases |src.bytes| - copied
    {
      var n := src.Read(buf, 0);
      if n.Err? { return Err; }
      if n.value == 0 { break; }
      assert forall j :: 0 <= j < n.value ==> buf[j] == src.bytes[copied + j];
      CopyOut(buf, n.value, image, at + copied);
      MoreWritten(old(image[..]), at, src.bytes, copied, n.value, buf[..n.value]);
      copied := copied + n.value;
    }
    return Ok(copied);
  }

  lemma MoreWritten(s: Bytes, at: nat, bytes: Bytes, copied: nat, n: nat, chunk: Bytes)
    requires copied + n <= |bytes| && at + |bytes| <= |s| && chunk == bytes[copied..copied + n]
    ensures Written(Written(s, at, bytes[..copied]), at + copied, chunk) == Written(s, at, bytes[..copied + n])
  {
  }

  /** `write_all(&buf[..n])`. */
  method CopyOut(buf: array<byte>, n: nat, image: array<byte>, at: nat)
    requires n <= buf.Length && at + n <= image.Length && buf != image
    modifies image
    ensures image[..] == Written(old(image[..]), at, buf[..n])
  {
    forall i | 0 <= i < n {
      image[at + i] := buf[i];
    }
  }

  method WriteAll(data: Bytes, image: array<byte>, at: nat)
    requires at + |data| <= image.Length
    modifies image
    ensures image[..] == Written(old(image[..]), at, data)
  {
    forall i | 0 <= i < |data| {
      image[at + i] := data[i];
    }
  }

  // ------------------------------------------------------------------ the image

  /** What the partition table comes to on the disk: in front the protective MBR, which starts with no
      boot code, the header and the entries, and at the end the entries and the header again. */
  datatype Table = Table(front: Bytes, back: Bytes) {
    predicate Valid() {
      && |front| == FIRST_USABLE * BLOCK && front[0] == 0 && front[512..520] == GPT_MAGIC
      && |back| == 33 * BLOCK && back[|back| - 512..|back| - 504] == GPT_MAGIC
    }
  }

  predicate Fitting(plan: Plan, table: Table, fat: Bytes, payload: Bytes) {
    table.Valid() && |fat| == plan.esp.size * BLOCK && |fat| % MIB == 0 && |fat| > 0
    && Sound(plan, |fat| / MIB, |payload|)
  }

  function Zeros(n: nat): Bytes {
    seq(n, _ => 0)
  }

  function ImageOf(plan: Plan, table: Table, fat: Bytes, payload: Bytes): (image: Bytes)
    requires Fitting(plan, table, fat, payload)
    ensures |image| == plan.total
  {
    Written(Written(Written(Written(Zeros(plan.total), 0, table.front),
                            plan.total - |table.back|, table.back),
                    plan.esp.first * BLOCK, fat),
            plan.slab.first * BLOCK, payload)
  }

  /** The writing part of `build`: partition table, ESP, slab. A slab that comes short is an error. */
  method LayImage(plan: Plan, table: Table, fat: Bytes, slab: File) returns (r: Result<array<byte>>)
    requires slab.pos == 0 && Fitting(plan, table, fat, slab.bytes)
    modifies slab
    ensures r.Ok? ==> fresh(r.value) && r.value[..] == ImageOf(plan, table, fat, slab.bytes)
    ensures slab.honest && slab.steady ==> r.Ok?
  {
    PartsAreApart(plan, table, fat, slab.bytes);
    var end, esp, part := plan.total - |table.back|, plan.esp.first * BLOCK, plan.slab.first * BLOCK;
    var image := LayThree(plan.total, 0, table.front, end, table.back, esp, fat);
    var copied := CopyInto(slab, image, part);
    if copied.Err? || copied.value != |slab.bytes| { return Err; }
    assert slab.bytes[..copied.value] == slab.bytes;
    return Ok(image);
  }

  method LayThree(total: nat, p: nat, a: Bytes, q: nat, b: Bytes, r: nat, c: Bytes) returns (image: array<byte>)
    requires p + |a| <= total && q + |b| <= total && r + |c| <= total
    ensures fresh(image) && image[..] == Written(Written(Written(Zeros(total), p, a), q, b), r, c)
  {
    image := new byte[total](_ => 0);
    assert image[..] == Zeros(total);
    WriteAll(a, image, p);
    WriteAll(b, image, q);
    WriteAll(c, image, r);
  }

  function PartBytes(image: Bytes, p: Extent): Bytes
    requires p.End() * BLOCK <= |image|
  {
    image[p.first * BLOCK..p.End() * BLOCK]
  }

  /** Writing `a` at `p` leaves alone what `b` is at `q`. */
  predicate Apart(p: nat, a: Bytes, q: nat, b: Bytes) {
    a == [] || p + |a| <= q || q + |b| <= p
  }

  /** Nothing written later is in the way of what was written before. */
  lemma FourWrites(s: Bytes, p: nat, a: Bytes, q: nat, b: Bytes, r: nat, c: Bytes, t: nat, d: Bytes)
    requires p + |a| <= |s| && q + |b| <= |s| && r + |c| <= |s| && t + |d| <= |s|
    requires Apart(q, b, p, a) && Apart(r, c, p, a) && Apart(t, d, p, a)
    requires Apart(r, c, q, b) && Apart(t, d, q, b) && Apart(t, d, r, c)
    ensures var image := Written(Written(Written(Written(s, p, a), q, b), r, c), t, d);
            Holds(image, p, a) && Holds(image, q, b) && Holds(image, r, c) && Holds(image, t, d)
  {
    var one := Written(s, p, a);
    var two := Written(one, q, b);
    var three := Written(two, r, c);
    HoldsWhatIsWritten(s, p, a);
    HoldsWhatIsWritten(one, q, b);
    HoldsWhatIsWritten(two, r, c);
    HoldsWhatIsWritten(three, t, d);
    HoldsWhatIsElsewhere(one, q, b, p, a);
    HoldsWhatIsElsewhere(two, r, c, p, a);
    HoldsWhatIsElsewhere(three, t, d, p, a);
    HoldsWhatIsElsewhere(two, r, c, q, b);
    HoldsWhatIsElsewhere(three, t, d, q, b);
    HoldsWhatIsElsewhere(three, t, d, r, c);
  }

  lemma PartsAreApart(plan: Plan, table: Table, fat: Bytes, payload: Bytes)
    requires Fitting(plan, table, fat, payload)
    ensures var end, esp, slab := plan.total - |table.back|, plan.esp.first * BLOCK, plan.slab.first * BLOCK;
            && |table.front| <= esp && esp + |fat| <= end
            && |table.front| <= slab && slab + |payload| <= end
            && (payload == [] || esp + |fat| <= slab || slab + |payload| <= esp)
  {
  }

  lemma ImageHolds(plan: Plan, table: Table, fat: Bytes, payload: Bytes)
    requires Fitting(plan, table, fat, payload)
    ensures var image := ImageOf(plan, table, fat, payload);
            && Holds(image, 0, table.front) && Holds(image, plan.total - |table.back|, table.back)
            && Holds(image, plan.esp.first * BLOCK, fat) && Holds(image, plan.slab.first * BLOCK, payload)
  {
    PartsAreApart(plan, table, fat, payload);
    FourWrites(Zeros(plan.total), 0, table.front, plan.total - |table.back|, table.back,
               plan.esp.first * BLOCK, fat, plan.slab.first * BLOCK, payload);
  }

  lemma HoldsPiece(s: Bytes, at: nat, data: Bytes, from: nat, to: nat)
    requires Holds(s, at, data) && from <= to <= |data|
    ensures at + to <= |s| && s[at + from..at + to] == data[from..to]
  {
    var part := s[at..at + |data|];
    assert forall i :: 0 <= i < |part| ==> part[i] == s[at + i];
    assert part[from..to] == s[at + from..at + to];
  }

  /** So the image shows its GPT at both ends, and each partition holds what was meant for it. */
  lemma ImageHasItsParts(plan: Plan, table: Table, fat: Bytes, payload: Bytes)
    requires Fitting(plan, table, fat, payload)
    ensures var image := ImageOf(plan, table, fat, payload);
            && |image| >= 1024 && image[0] == 0 && image[512..520] == GPT_MAGIC
            && image[|image| - 512..|image| - 504] == GPT_MAGIC
            && plan.esp.End() * BLOCK <= |image| && plan.slab.End() * BLOCK <= |image|
            && PartBytes(image, plan.esp) == fat
            && |payload| <= |PartBytes(image, plan.slab)| && PartBytes(image, plan.slab)[..|payload|] == payload
  {
    var image := ImageOf(plan, table, fat, payload);
    ImageHolds(plan, table, fat, payload);
    var end := plan.total - |table.back|;
    HoldsPiece(image, 0, table.front, 0, 1);
    HoldsPiece(image, 0, table.front, 512, 520);
    HoldsPiece(image, end, table.back, |table.back| - 512, |table.back| - 504);
    assert image[0] == image[0..1][0] == table.front[0..1][0];
  }
}
