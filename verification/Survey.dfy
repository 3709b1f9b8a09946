/** Every drive on the machine, judged, and what follows from it. */
module Survey {
  import opened Text
  import opened Esp

  datatype Owner = Transport(via: string) | ClaimedBy(node: string)

  datatype What =
    | Removable
    | UnnamedSlab(device: string)
    | RefusedSlab(device: string)
    | AttachedOver(via: string)
    | Partitioned(table: string, count: nat)
    | Named(name: string)
    | DataAt(offset: nat)

  datatype Why = NoMedium | ReadFailed

  datatype Verdict =
    | Mine(slabId: string, role: string, slab: string)
    | AnotherNode(slabId: string, owner: Owner)
    | Foreign(what: What)
    | Blank
    | Unreadable(why: Why)

  datatype Drive = Drive(path: string, size: nat, rotational: bool, esp: Option<Esp>, verdict: Verdict) {
    predicate HasSystemSlab() {
      verdict.Mine? && verdict.role == "system"
    }

    /** An ESP says whether it boots; without one a system slab is taken at its word. */
    predicate Boots() {
      if esp.Some? then esp.value.boot.Some? else HasSystemSlab()
    }
  }

  // ------------------------------------------------------------------ sorting

  /** What the drives are put in order by. */
  datatype Order = ByRole | ByPreference

  /** A sort key, compared major before minor. */
  datatype Rank = Rank(major: int, minor: int)

  function RankOf(order: Order, d: Drive): Rank {
    match order
    case ByRole => Rank(if d.HasSystemSlab() then 0 else 1, 0)
    case ByPreference => Rank(if d.rotational then 1 else 0, -(d.size as int))
  }

  predicate Before(a: Rank, b: Rank) {
    a.major < b.major || (a.major == b.major && a.minor < b.minor)
  }

  predicate Sorted(order: Order, v: seq<Drive>) {
    forall i, j :: 0 <= i < j < |v| ==> !Before(RankOf(order, v[j]), RankOf(order, v[i]))
  }

  function WithRank(order: Order, v: seq<Drive>, r: Rank): seq<Drive> {
    if v == [] then []
    else if RankOf(order, v[0]) == r then [v[0]] + WithRank(order, v[1..], r)
    else WithRank(order, v[1..], r)
  }

  /** What a stable sort promises: sorted, and of each rank the same drives in the same order. */
  ghost predicate StablySorted(order: Order, v: seq<Drive>, s: seq<Drive>) {
    Sorted(order, s) && forall r :: WithRank(order, s, r) == WithRank(order, v, r)
  }

  lemma {:induction false} WithRankConcat(order: Order, a: seq<Drive>, b: seq<Drive>, r: Rank)
    ensures WithRank(order, a + b, r) == WithRank(order, a, r) + WithRank(order, b, r)
  {
    if a == [] {
      assert a + b == b;
    } else {
      assert (a + b)[1..] == a[1..] + b;
      WithRankConcat(order, a[1..], b, r);
    }
  }

  lemma {:induction false} WithRankAbsent(order: Order, v: seq<Drive>, r: Rank)
    requires forall i :: 0 <= i < |v| ==> RankOf(order, v[i]) != r
    ensures WithRank(order, v, r) == []
  {
    if v != [] {
      assert forall i :: 0 <= i < |v| - 1 ==> v[1..][i] == v[i + 1];
      WithRankAbsent(order, v[1..], r);
    }
  }

  lemma {:induction false} WithRankHas(order: Order, v: seq<Drive>, r: Rank, d: Drive)
    ensures d in WithRank(order, v, r) <==> d in v && RankOf(order, d) == r
  {
    if v != [] {
      WithRankHas(order, v[1..], r, d);
      assert v == [v[0]] + v[1..];
    }
  }

  /** A stable sort has one outcome: whichever algorithm the library uses, this is what it returns. */
  lemma {:induction false} StableSortIsUnique(order: Order, a: seq<Drive>, b: seq<Drive>)
    requires Sorted(order, a) && Sorted(order, b)
    requires forall r :: WithRank(order, a, r) == WithRank(order, b, r)
    ensures a == b
    decreases |a|
  {
    if a == [] {
      if b != [] {
        var r := RankOf(order, b[0]);
        assert b[0] in b;
        WithRankHas(order, b, r, b[0]);
        WithRankHas(order, a, r, b[0]);
        assert false;
      }
    } else {
      var r := RankOf(order, a[0]);
      assert a[0] in a;
      WithRankHas(order, a, r, a[0]);
      WithRankHas(order, b, r, a[0]);
      var s := RankOf(order, b[0]);
      assert b[0] in b;
      WithRankHas(order, b, s, b[0]);
      WithRankHas(order, a, s, b[0]);
      FirstIsLeast(order, a, b[0]);
      FirstIsLeast(order, b, a[0]);
      assert r == s;
      assert WithRank(order, a, r)[0] == a[0] && WithRank(order, b, r)[0] == b[0];
      assert a[0] == b[0];
      forall q ensures WithRank(order, a[1..], q) == WithRank(order, b[1..], q) {
        RestAgrees(order, a, b, q);
      }
      StableSortIsUnique(order, a[1..], b[1..]);
      assert a == [a[0]] + a[1..] && b == [b[0]] + b[1..];
    }
  }

  lemma RestAgrees(order: Order, a: seq<Drive>, b: seq<Drive>, r: Rank)
    requires a != [] && b != [] && a[0] == b[0] && WithRank(order, a, r) == WithRank(order, b, r)
    ensures WithRank(order, a[1..], r) == WithRank(order, b[1..], r)
  {
    if RankOf(order, a[0]) == r {
      assert WithRank(order, a[1..], r) == WithRank(order, a, r)[1..];
      assert WithRank(order, b[1..], r) == WithRank(order, b, r)[1..];
    }
  }

  lemma FirstIsLeast(order: Order, v: seq<Drive>, d: Drive)
    requires Sorted(order, v) && d in v
    ensures !Before(RankOf(order, d), RankOf(order, v[0]))
  {
  }

  /** The library's stable sort, as insertion of each drive behind its equals. */
  method Sort(order: Order, v: seq<Drive>) returns (s: seq<Drive>)
    ensures StablySorted(order, v, s)
    ensures multiset(s) == multiset(v)
  {
    s := [];
    for n := 0 to |v|
      invariant StablySorted(order, v[..n], s)
      invariant multiset(s) == multiset(v[..n])
    {
      assert v[..n + 1] == v[..n] + [v[n]];
      s := InsertBehind(order, v[..n], s, v[n]);
    }
    assert v[..|v|] == v;
  }

  method InsertBehind(order: Order, ghost v: seq<Drive>, s: seq<Drive>, d: Drive) returns (t: seq<Drive>)
    requires StablySorted(order, v, s)
    ensures StablySorted(order, v + [d], t)
    ensures multiset(t) == multiset(s) + multiset{d}
  {
    var i := |s|;
    while i > 0 && Before(RankOf(order, d), RankOf(order, s[i - 1]))
      invariant 0 <= i <= |s|
      invariant forall j :: i <= j < |s| ==> Before(RankOf(order, d), RankOf(order, s[j]))
    {
      i := i - 1;
    }
    t := s[..i] + [d] + s[i..];
    InsertedIsSorted(order, s, d, i);
    forall r ensures WithRank(order, t, r) == WithRank(order, v + [d], r) {
      InsertedKeepsRanks(order, s, d, i, r);
      WithRankConcat(order, v, [d], r);
      WithRankConcat(order, s, [d], r);
    }
    InsertedKeepsContents(s, d, i);
  }

  lemma InsertedKeepsContents(s: seq<Drive>, d: Drive, i: nat)
    requires i <= |s|
    ensures multiset(s[..i] + [d] + s[i..]) == multiset(s) + multiset{d}
  {
    assert s == s[..i] + s[i..];
  }

  lemma InsertedIsSorted(order: Order, s: seq<Drive>, d: Drive, i: nat)
    requires Sorted(order, s) && i <= |s|
    requires forall j :: i <= j < |s| ==> Before(RankOf(order, d), RankOf(order, s[j]))
    requires i > 0 ==> !Before(RankOf(order, d), RankOf(order, s[i - 1]))
    ensures Sorted(order, s[..i] + [d] + s[i..])
  {
  }

  lemma InsertedKeepsRanks(order: Order, s: seq<Drive>, d: Drive, i: nat, r: Rank)
    requires i <= |s|
    requires forall j :: i <= j < |s| ==> Before(RankOf(order, d), RankOf(order, s[j]))
    ensures WithRank(order, s[..i] + [d] + s[i..], r) == WithRank(order, s + [d], r)
  {
    WithRankConcat(order, s[..i] + [d], s[i..], r);
    WithRankConcat(order, s[..i], [d], r);
    WithRankConcat(order, s, [d], r);
    WithRankConcat(order, s[..i], s[i..], r);
    assert s == s[..i] + s[i..];
    if RankOf(order, d) == r {
      WithRankAbsent(order, s[i..], r);
    }
  }

  // ------------------------------------------------------------------ mine and available

  datatype Kind = AnyMine | SystemMine | OtherMine | Free | AnyBoots | MineBoots | Kept

  predicate Is(kind: Kind, d: Drive) {
    match kind
    case AnyMine => d.verdict.Mine?
    case SystemMine => d.HasSystemSlab()
    case OtherMine => d.verdict.Mine? && !d.HasSystemSlab()
    case Free => d.verdict.Blank?
    case AnyBoots => d.Boots()
    case MineBoots => d.verdict.Mine? && d.Boots()
    case Kept => d.verdict.Mine? || d.verdict.Blank?
  }

  function Filter(kind: Kind, v: seq<Drive>): seq<Drive> {
    if v == [] then []
    else if Is(kind, v[0]) then [v[0]] + Filter(kind, v[1..])
    else Filter(kind, v[1..])
  }

  lemma {:induction false} FilterConcat(kind: Kind, a: seq<Drive>, b: seq<Drive>)
    ensures Filter(kind, a + b) == Filter(kind, a) + Filter(kind, b)
  {
    if a == [] {
      assert a + b == b;
    } else {
      var ab := a + b;
      assert ab[1..] == a[1..] + b && ab[0] == a[0];
      FilterConcat(kind, a[1..], b);
      if Is(kind, a[0]) {
        assert Filter(kind, a) + Filter(kind, b) == [a[0]] + (Filter(kind, a[1..]) + Filter(kind, b));
      }
    }
  }

  lemma {:induction false} FilterHas(kind: Kind, v: seq<Drive>, d: Drive)
    ensures d in Filter(kind, v) <==> d in v && Is(kind, d)
  {
    if v != [] {
      FilterHas(kind, v[1..], d);
      assert v == [v[0]] + v[1..];
    }
  }

  /** Collecting the drives of a kind, in the order they were seen. */
  method Collect(kind: Kind, drives: seq<Drive>) returns (v: seq<Drive>)
    ensures v == Filter(kind, drives)
  {
    v := [];
    for i := 0 to |drives|
      invariant v == Filter(kind, drives[..i])
    {
      assert drives[..i + 1] == drives[..i] + [drives[i]];
      FilterConcat(kind, drives[..i], [drives[i]]);
      if Is(kind, drives[i]) {
        v := v + [drives[i]];
      }
    }
    assert drives[..|drives|] == drives;
  }

  /** System drives first, and otherwise the order the drives were seen in. */
  function MineOf(drives: seq<Drive>): seq<Drive> {
    Filter(SystemMine, drives) + Filter(OtherMine, drives)
  }

  function BootableOf(drives: seq<Drive>): seq<Drive> {
    Filter(AnyBoots, MineOf(drives))
  }

  lemma {:induction false} RanksOfMine(drives: seq<Drive>, r: Rank)
    ensures WithRank(ByRole, Filter(AnyMine, drives), r)
            == if r == Rank(0, 0) then Filter(SystemMine, drives)
               else if r == Rank(1, 0) then Filter(OtherMine, drives) else []
  {
    if drives != [] {
      RanksOfMine(drives[1..], r);
      var head := if Is(AnyMine, drives[0]) then [drives[0]] else [];
      WithRankConcat(ByRole, head, Filter(AnyMine, drives[1..]), r);
    }
  }

  lemma MineOfIsStablySorted(drives: seq<Drive>)
    ensures StablySorted(ByRole, Filter(AnyMine, drives), MineOf(drives))
  {
    var system, other := Filter(SystemMine, drives), Filter(OtherMine, drives);
    forall i | 0 <= i < |system| ensures RankOf(ByRole, system[i]) == Rank(0, 0) {
      FilterHas(SystemMine, drives, system[i]);
    }
    forall i | 0 <= i < |other| ensures RankOf(ByRole, other[i]) == Rank(1, 0) {
      FilterHas(OtherMine, drives, other[i]);
    }
    forall r ensures WithRank(ByRole, MineOf(drives), r) == WithRank(ByRole, Filter(AnyMine, drives), r) {
      RanksOfMine(drives, r);
      WithRankConcat(ByRole, system, other, r);
      WithRankUniform(ByRole, system, Rank(0, 0), r);
      WithRankUniform(ByRole, other, Rank(1, 0), r);
    }
  }

  lemma {:induction false} WithRankUniform(order: Order, v: seq<Drive>, all: Rank, r: Rank)
    requires forall i :: 0 <= i < |v| ==> RankOf(order, v[i]) == all
    ensures WithRank(order, v, r) == if r == all then v else []
  {
    if v != [] {
      assert forall i :: 0 <= i < |v| - 1 ==> v[1..][i] == v[i + 1];
      WithRankUniform(order, v[1..], all, r);
      assert v == [v[0]] + v[1..];
    }
  }

  /** `mine`: what sorting by role comes to is the system drives and then the others, each in the
      order seen. */
  method Mine(drives: seq<Drive>) returns (v: seq<Drive>)
    ensures v == MineOf(drives)
  {
    v := Collect(AnyMine, drives);
    v := Sort(ByRole, v);
    MineOfIsStablySorted(drives);
    StableSortIsUnique(ByRole, v, MineOf(drives));
  }

  method Bootable(drives: seq<Drive>) returns (v: seq<Drive>)
    ensures v == BootableOf(drives)
  {
    v := Mine(drives);
    v := Collect(AnyBoots, v);
  }

  /** `available`: the blank drives, all of them and no others, solid state before spinning and the
      larger first, ties in the order seen. */
  method Available(drives: seq<Drive>) returns (v: seq<Drive>)
    ensures StablySorted(ByPreference, Filter(Free, drives), v)
    ensures multiset(v) == multiset(Filter(Free, drives))
    ensures v == [] <==> forall d :: d in drives ==> !d.verdict.Blank?
    ensures v != [] ==> Some(v[0]) == Best(drives)
  {
    v := Collect(Free, drives);
    ghost var free := v;
    v := Sort(ByPreference, v);
    forall d ensures d in v <==> d in drives && d.verdict.Blank? {
      FilterHas(Free, drives, d);
      assert d in v <==> d in multiset(v);
      assert d in free <==> d in multiset(free);
    }
    if v != [] {
      FirstIsBest(drives, v);
    }
  }

  // ------------------------------------------------------------------ the best free drive

  /** The first drive of `v` that no other beats. */
  function FirstLeast(order: Order, v: seq<Drive>): Option<Drive> {
    if v == [] then None else
      var rest := FirstLeast(order, v[1..]);
      if rest.Some? && Before(RankOf(order, rest.value), RankOf(order, v[0])) then rest else Some(v[0])
  }

  /** The drive to offer: of the blank ones, the first that none beats. */
  function Best(drives: seq<Drive>): Option<Drive> {
    FirstLeast(ByPreference, Filter(Free, drives))
  }

  lemma {:induction false} FirstLeastIsLeast(order: Order, v: seq<Drive>)
    requires v != []
    ensures var d := FirstLeast(order, v);
            && d.Some? && d.value in v
            && (forall e :: e in v ==> !Before(RankOf(order, e), RankOf(order, d.value)))
            && WithRank(order, v, RankOf(order, d.value)) != []
            && WithRank(order, v, RankOf(order, d.value))[0] == d.value
  {
    assert v == [v[0]] + v[1..];
    if |v| > 1 {
      FirstLeastIsLeast(order, v[1..]);
    }
  }

  lemma FirstIsBest(drives: seq<Drive>, v: seq<Drive>)
    requires StablySorted(ByPreference, Filter(Free, drives), v) && v != []
    ensures Best(drives) == Some(v[0])
  {
    var free := Filter(Free, drives);
    var r := RankOf(ByPreference, v[0]);
    assert v[0] in v;
    WithRankHas(ByPreference, v, r, v[0]);
    WithRankHas(ByPreference, free, r, v[0]);
    FirstLeastIsLeast(ByPreference, free);
    var best := Best(drives).value;
    var s := RankOf(ByPreference, best);
    WithRankHas(ByPreference, free, s, best);
    WithRankHas(ByPreference, v, s, best);
    FirstIsLeast(ByPreference, v, best);
    assert s == r;
    assert WithRank(ByPreference, v, r)[0] == v[0];
  }

  // ------------------------------------------------------------------ largest first?

  predicate NoneLarger(drives: seq<Drive>, size: nat) {
    forall d :: d in drives && d.verdict.Blank? ==> d.size <= size
  }

  /** A solid-state drive that no blank drive is larger than. */
  predicate LargestSolid(drives: seq<Drive>, d: Drive) {
    d in drives && d.verdict.Blank? && !d.rotational && NoneLarger(drives, d.size)
  }

  predicate OnlySpinning(drives: seq<Drive>) {
    forall d :: d in drives && d.verdict.Blank? ==> d.rotational
  }

  /** The drive offered is a largest one exactly when all the blank drives spin, or one that does not is
      as large as any. */
  lemma LargestIsOffered(drives: seq<Drive>)
    requires Best(drives).Some?
    ensures NoneLarger(drives, Best(drives).value.size) <==>
              OnlySpinning(drives) || exists d :: LargestSolid(drives, d)
  {
    var free, best := Filter(Free, drives), Best(drives).value;
    forall d ensures d in free <==> d in drives && d.verdict.Blank? {
      FilterHas(Free, drives, d);
    }
    FirstLeastIsLeast(ByPreference, free);
    if NoneLarger(drives, best.size) && !OnlySpinning(drives) {
      assert LargestSolid(drives, best);
    }
    if d :| LargestSolid(drives, d) {
      assert d in free;
    }
  }

  /** What is said of the order, largest first, is not so: of a spinning drive and a solid-state one
      that is smaller, the smaller is offered. */
  lemma SmallerIsOffered(large: nat, small: nat)
    requires small < large
    ensures var spinning := Drive("/dev/sda", large, true, None, Blank);
            var solid := Drive("/dev/sdb", small, false, None, Blank);
            Best([spinning, solid]) == Some(solid) && IntentOf([spinning, solid]) == TakeOver("/dev/sdb")
  {
    var spinning := Drive("/dev/sda", large, true, None, Blank);
    var solid := Drive("/dev/sdb", small, false, None, Blank);
    var drives := [spinning, solid];
    assert drives[1..] == [solid] && [solid][1..] == [];
    assert Filter(Free, [solid]) == [solid];
    assert Filter(Free, drives) == drives;
    assert FirstLeast(ByPreference, [solid]) == Some(solid);
    IntentByContents(drives);
    assert solid in drives;
  }

  // ------------------------------------------------------------------ the intent

  datatype WhyNot =
    | RoleDoesNotBoot(role: string)
    | NothingThatBoots
    | NothingBootableOnEsp
    | Lacking(missing: seq<Missing>)

  function WhyNotOf(d: Drive): WhyNot {
    if d.esp.None? then
      if d.verdict.Mine? then RoleDoesNotBoot(d.verdict.role) else NothingThatBoots
    else if d.esp.value.missing == [] then NothingBootableOnEsp
    else Lacking(d.esp.value.missing)
  }

  /** A line of a reason: which drive, what it is, and why it does not boot where that is the point. */
  datatype Line = Line(path: string, verdict: Verdict, why: Option<WhyNot>)

  function LineOf(d: Drive, why: bool): Line {
    Line(d.path, d.verdict, if why then Some(WhyNotOf(d)) else None)
  }

  function LinesOf(v: seq<Drive>, why: bool): seq<Line> {
    seq(|v|, i requires 0 <= i < |v| => LineOf(v[i], why))
  }

  datatype Intent =
    | AlreadyMine(drive: string, slab: string, slabId: string)
    | MineButNoneBoots(because: seq<Line>)
    | TakeOver(path: string)
    | NothingToTake(because: seq<Line>)

  function IntentOf(drives: seq<Drive>): Intent {
    var boots := FirstLeast(ByRole, Filter(MineBoots, drives));
    if boots.Some? && boots.value.verdict.Mine? then
      AlreadyMine(boots.value.path, boots.value.verdict.slab, boots.value.verdict.slabId)
    else if MineOf(drives) != [] then MineButNoneBoots(LinesOf(MineOf(drives), true))
    else if Best(drives).Some? then TakeOver(Best(drives).value.path)
    else NothingToTake(LinesOf(drives, false))
  }

  /** The first of the bootable drives is the first that no other bootable drive of ours outranks. */
  lemma BootableStartsWithLeast(drives: seq<Drive>)
    ensures BootableOf(drives) == [] <==> Filter(MineBoots, drives) == []
    ensures BootableOf(drives) != [] ==>
              FirstLeast(ByRole, Filter(MineBoots, drives)) == Some(BootableOf(drives)[0])
              && BootableOf(drives)[0].verdict.Mine?
  {
    FilterConcat(AnyBoots, Filter(SystemMine, drives), Filter(OtherMine, drives));
    BootableByRank(drives);
    var candidates := Filter(MineBoots, drives);
    if candidates != [] {
      FirstLeastIsLeast(ByRole, candidates);
      var d := FirstLeast(ByRole, candidates).value;
      FilterHas(MineBoots, drives, d);
      if !d.HasSystemSlab() && WithRank(ByRole, candidates, Rank(0, 0)) != [] {
        var e := WithRank(ByRole, candidates, Rank(0, 0))[0];
        WithRankHas(ByRole, candidates, Rank(0, 0), e);
      }
    }
  }

  lemma {:induction false} BootableByRank(drives: seq<Drive>)
    ensures WithRank(ByRole, Filter(MineBoots, drives), Rank(0, 0)) == Filter(AnyBoots, Filter(SystemMine, drives))
    ensures WithRank(ByRole, Filter(MineBoots, drives), Rank(1, 0)) == Filter(AnyBoots, Filter(OtherMine, drives))
    ensures Filter(MineBoots, drives) == [] <==>
              Filter(AnyBoots, Filter(SystemMine, drives)) == [] && Filter(AnyBoots, Filter(OtherMine, drives)) == []
  {
    if drives != [] {
      var d, rest := drives[0], drives[1..];
      BootableByRank(rest);
      var head := if Is(MineBoots, d) then [d] else [];
      WithRankConcat(ByRole, head, Filter(MineBoots, rest), Rank(0, 0));
      WithRankConcat(ByRole, head, Filter(MineBoots, rest), Rank(1, 0));
      FilterConcat(AnyBoots, if Is(SystemMine, d) then [d] else [], Filter(SystemMine, rest));
      FilterConcat(AnyBoots, if Is(OtherMine, d) then [d] else [], Filter(OtherMine, rest));
    }
  }

  /** `intent`. */
  method Decide(drives: seq<Drive>) returns (intent: Intent)
    ensures intent == IntentOf(drives)
  {
    var bootable := Bootable(drives);
    BootableStartsWithLeast(drives);
    if bootable != [] {
      var d := bootable[0];
      return AlreadyMine(d.path, d.verdict.slab, d.verdict.slabId);
    }
    var mine := Mine(drives);
    if mine != [] {
      return MineButNoneBoots(LinesOf(mine, true));
    }
    var available := Available(drives);
    if available != [] {
      return TakeOver(available[0].path);
    }
    NoneIsBest(drives);
    return NothingToTake(LinesOf(drives, false));
  }

  lemma NoneIsBest(drives: seq<Drive>)
    ensures Best(drives).None? <==> forall d :: d in drives ==> !d.verdict.Blank?
  {
    var free := Filter(Free, drives);
    forall d ensures d in free <==> d in drives && d.verdict.Blank? {
      FilterHas(Free, drives, d);
    }
    if free != [] {
      assert free[0] in free;
    }
  }

  // ------------------------------------------------------------------ which drive is chosen

  /** Drive `i` is of the kind, none of the kind beats it, and none of the kind seen before it is as
      good. */
  predicate FirstOf(order: Order, kind: Kind, v: seq<Drive>, i: nat) {
    && i < |v| && Is(kind, v[i])
    && (forall j :: 0 <= j < |v| && Is(kind, v[j]) ==> !Before(RankOf(order, v[j]), RankOf(order, v[i])))
    && forall j :: 0 <= j < i && Is(kind, v[j]) ==> Before(RankOf(order, v[i]), RankOf(order, v[j]))
  }

  lemma {:induction false} SomeIsFirst(order: Order, kind: Kind, v: seq<Drive>) returns (i: nat)
    ensures Filter(kind, v) != [] ==> FirstOf(order, kind, v, i)
    ensures Filter(kind, v) == [] ==> forall j :: 0 <= j < |v| ==> !Is(kind, v[j])
  {
    i := 0;
    if v != [] {
      var k := SomeIsFirst(order, kind, v[1..]);
      assert forall j :: 1 <= j < |v| ==> v[j] == v[1..][j - 1];
      if Filter(kind, v[1..]) != []
         && (!Is(kind, v[0]) || Before(RankOf(order, v[k + 1]), RankOf(order, v[0]))) {
        i := k + 1;
      }
    }
  }

  /** That drive is the one chosen. */
  lemma {:induction false} FirstIsChosen(order: Order, kind: Kind, v: seq<Drive>, i: nat)
    requires FirstOf(order, kind, v, i)
    ensures FirstLeast(order, Filter(kind, v)) == Some(v[i])
  {
    assert v == [v[0]] + v[1..];
    assert forall j :: 1 <= j < |v| ==> v[j] == v[1..][j - 1];
    if i > 0 {
      FirstIsChosen(order, kind, v[1..], i - 1);
    } else {
      forall e | e in Filter(kind, v) ensures !Before(RankOf(order, e), RankOf(order, v[0])) {
        FilterHas(kind, v, e);
      }
      TiesGoToTheFirstSeen(order, Filter(kind, v), 0);
    }
  }

  /** What it takes to start the node: an ESP that boots, or, where no ESP was found, a system slab. */
  predicate StartsNode(d: Drive) {
    d.verdict.Mine? && match d.esp
                       case Some(esp) => esp.boot.Some?
                       case None => d.verdict.role == "system"
  }

  /** Drive `i` starts the node, it is a system slab's if any drive that does is, and no other such drive
      comes before it. */
  predicate BootsFirst(v: seq<Drive>, i: nat) {
    && i < |v| && StartsNode(v[i])
    && (forall j :: 0 <= j < |v| && StartsNode(v[j]) && v[j].verdict.role == "system" ==> v[i].verdict.role == "system")
    && forall j :: 0 <= j < i && StartsNode(v[j]) ==> v[i].verdict.role == "system" && v[j].verdict.role != "system"
  }

  lemma BootsFirstIsFirst(v: seq<Drive>, i: nat)
    ensures BootsFirst(v, i) <==> FirstOf(ByRole, MineBoots, v, i)
  {
  }

  /** The intent in words: which drive is booted off, and by which slab. */
  lemma IntentBootsFirst(v: seq<Drive>, i: nat)
    requires BootsFirst(v, i)
    ensures IntentOf(v) == AlreadyMine(v[i].path, v[i].verdict.slab, v[i].verdict.slabId)
  {
    BootsFirstIsFirst(v, i);
    FirstIsChosen(ByRole, MineBoots, v, i);
  }

  lemma SomeBootsFirst(v: seq<Drive>) returns (i: nat)
    ensures BootsFirst(v, i) || forall j :: 0 <= j < |v| ==> !StartsNode(v[j])
  {
    i := SomeIsFirst(ByRole, MineBoots, v);
    BootsFirstIsFirst(v, i);
  }

  /** A node boots exactly when one of its drives starts it. */
  lemma IntentBootsExactly(v: seq<Drive>)
    ensures IntentOf(v).AlreadyMine? <==> exists d :: d in v && StartsNode(d)
  {
    IntentByContents(v);
    forall d ensures StartsNode(d) <==> d.verdict.Mine? && d.Boots() {
    }
  }

  /** A node whose drives are data slabs without an ESP does not boot, and takes no other drive either. */
  lemma DataSlabsDoNotBoot(v: seq<Drive>)
    requires exists d :: d in v && d.verdict.Mine?
    requires forall d :: d in v && d.verdict.Mine? ==> d.esp.None? && d.verdict.role != "system"
    ensures IntentOf(v).MineButNoneBoots?
  {
    IntentByContents(v);
  }

  /** The better drive to take: solid state before spinning, and of the same the larger. */
  predicate Better(rotational: bool, size: nat, thanRotational: bool, thanSize: nat) {
    (!rotational && thanRotational) || (rotational == thanRotational && size > thanSize)
  }

  /** Drive `i` is blank, no blank drive is better, and every blank one before it is worse. */
  predicate TakenFirst(v: seq<Drive>, i: nat) {
    && i < |v| && v[i].verdict.Blank?
    && (forall j :: 0 <= j < |v| && v[j].verdict.Blank? ==> !Better(v[j].rotational, v[j].size, v[i].rotational, v[i].size))
    && forall j :: 0 <= j < i && v[j].verdict.Blank? ==> Better(v[i].rotational, v[i].size, v[j].rotational, v[j].size)
  }

  lemma TakenFirstIsFirst(v: seq<Drive>, i: nat)
    ensures TakenFirst(v, i) <==> FirstOf(ByPreference, Free, v, i)
  {
  }

  lemma IntentTakesFirst(v: seq<Drive>, i: nat)
    requires TakenFirst(v, i) && forall d :: d in v ==> !d.verdict.Mine?
    ensures IntentOf(v) == TakeOver(v[i].path)
  {
    TakenFirstIsFirst(v, i);
    FirstIsChosen(ByPreference, Free, v, i);
    assert v[i] in v;
    IntentByContents(v);
  }

  lemma SomeIsTakenFirst(v: seq<Drive>) returns (i: nat)
    ensures TakenFirst(v, i) || forall j :: 0 <= j < |v| ==> !v[j].verdict.Blank?
  {
    i := SomeIsFirst(ByPreference, Free, v);
    TakenFirstIsFirst(v, i);
  }

  // ------------------------------------------------------------------ what decides the intent

  lemma MineOfHas(drives: seq<Drive>, d: Drive)
    ensures d in MineOf(drives) <==> d in drives && d.verdict.Mine?
  {
    FilterHas(SystemMine, drives, d);
    FilterHas(OtherMine, drives, d);
  }

  /** Which of the four answers it is depends on what drives there are and not on where they are. */
  lemma IntentByContents(drives: seq<Drive>)
    ensures IntentOf(drives).AlreadyMine? <==> exists d :: d in drives && d.verdict.Mine? && d.Boots()
    ensures IntentOf(drives).MineButNoneBoots? <==>
              (exists d :: d in drives && d.verdict.Mine?)
              && forall d :: d in drives && d.verdict.Mine? ==> !d.Boots()
    ensures IntentOf(drives).TakeOver? <==>
              (forall d :: d in drives ==> !d.verdict.Mine?) && exists d :: d in drives && d.verdict.Blank?
    ensures IntentOf(drives).NothingToTake? <==>
              forall d :: d in drives ==> !d.verdict.Mine? && !d.verdict.Blank?
  {
    var candidates, mine := Filter(MineBoots, drives), MineOf(drives);
    forall d ensures d in candidates <==> d in drives && d.verdict.Mine? && d.Boots() {
      FilterHas(MineBoots, drives, d);
    }
    forall d ensures d in mine <==> d in drives && d.verdict.Mine? {
      MineOfHas(drives, d);
    }
    NoneIsBest(drives);
    if candidates != [] {
      FirstLeastIsLeast(ByRole, candidates);
    }
    if mine != [] {
      assert mine[0] in mine;
    }
  }

  lemma {:induction false} MineOfCounts(drives: seq<Drive>)
    ensures |MineOf(drives)| == |Filter(AnyMine, drives)|
  {
    if drives != [] {
      MineOfCounts(drives[1..]);
    }
  }

  predicate Mentions(lines: seq<Line>, d: Drive) {
    exists i :: 0 <= i < |lines| && lines[i].path == d.path && lines[i].verdict == d.verdict
  }

  /** The line is about a drive of ours and says why that does not boot: for want of an ESP by the slab's
      role, and otherwise by what the ESP lacks. */
  predicate Explains(line: Line, drives: seq<Drive>) {
    exists i :: 0 <= i < |drives|
      && var d := drives[i];
      && line.path == d.path && line.verdict == d.verdict && d.verdict.Mine?
      && match d.esp
         case None => line.why == Some(RoleDoesNotBoot(d.verdict.role))
         case Some(esp) => line.why == Some(if esp.missing == [] then NothingBootableOnEsp else Lacking(esp.missing))
  }

  /** A reason speaks of every drive it is about, once: of all of them when there is nothing to take,
      and of the node's own, and only those, when none of them boots. */
  lemma ReasonsNameTheDrives(drives: seq<Drive>)
    ensures var intent := IntentOf(drives);
            && (intent.NothingToTake? ==>
                  |intent.because| == |drives| && forall d :: d in drives ==> Mentions(intent.because, d))
            && (intent.MineButNoneBoots? ==>
                  && |intent.because| == |Filter(AnyMine, drives)|
                  && (forall d :: d in drives && d.verdict.Mine? ==> Mentions(intent.because, d))
                  && forall i :: 0 <= i < |intent.because| ==> Explains(intent.because[i], drives))
  {
    var intent, mine := IntentOf(drives), MineOf(drives);
    MineOfCounts(drives);
    if intent.NothingToTake? {
      LinesNameAll(drives, false);
    } else if intent.MineButNoneBoots? {
      LinesNameAll(mine, true);
      forall d ensures d in mine <==> d in drives && d.verdict.Mine? {
        MineOfHas(drives, d);
      }
      forall i | 0 <= i < |mine| ensures Explains(intent.because[i], drives) {
        assert mine[i] in mine;
        LineExplains(drives, mine[i]);
      }
    }
  }

  lemma LineExplains(drives: seq<Drive>, d: Drive)
    requires d in drives && d.verdict.Mine?
    ensures Explains(LineOf(d, true), drives)
  {
    var k :| 0 <= k < |drives| && drives[k] == d;
  }

  lemma LinesNameAll(v: seq<Drive>, why: bool)
    ensures forall d :: d in v ==> Mentions(LinesOf(v, why), d)
  {
    forall d | d in v ensures Mentions(LinesOf(v, why), d) {
      var i :| 0 <= i < |v| && v[i] == d;
      assert LinesOf(v, why)[i].path == d.path;
    }
  }

  /** Two surveys of the same drives, in whatever order the ports gave them. */
  ghost predicate SameDrives(a: seq<Drive>, b: seq<Drive>) {
    forall d :: d in a <==> d in b
  }

  lemma IntentIgnoresPortOrder(a: seq<Drive>, b: seq<Drive>)
    requires multiset(a) == multiset(b)
    ensures IntentOf(a).AlreadyMine? == IntentOf(b).AlreadyMine?
    ensures IntentOf(a).MineButNoneBoots? == IntentOf(b).MineButNoneBoots?
    ensures IntentOf(a).TakeOver? == IntentOf(b).TakeOver?
    ensures IntentOf(a).NothingToTake? == IntentOf(b).NothingToTake?
  {
    PermutedIsSame(a, b);
    IntentByContents(a);
    IntentByContents(b);
  }

  lemma PermutedIsSame(a: seq<Drive>, b: seq<Drive>)
    requires multiset(a) == multiset(b)
    ensures SameDrives(a, b)
  {
    forall d ensures d in a <==> d in b {
      assert d in multiset(a) <==> d in multiset(b);
    }
  }

  /** The drives among which the intent chooses one, and what it chooses by. */
  function Candidates(intent: Intent, drives: seq<Drive>): seq<Drive> {
    Filter(if intent.AlreadyMine? then MineBoots else Free, drives)
  }

  function OrderOf(intent: Intent): Order {
    if intent.AlreadyMine? then ByRole else ByPreference
  }

  /** Nothing else is as good as the best candidate. */
  ghost predicate Untied(drives: seq<Drive>) {
    var order, candidates := OrderOf(IntentOf(drives)), Candidates(IntentOf(drives), drives);
    var best := FirstLeast(order, candidates);
    best.Some? ==> forall d :: d in candidates && d != best.value ==> Before(RankOf(order, best.value), RankOf(order, d))
  }

  lemma ChoiceIgnoresPortOrder(a: seq<Drive>, b: seq<Drive>)
    requires multiset(a) == multiset(b) && Untied(a)
    requires IntentOf(a).AlreadyMine? || IntentOf(a).TakeOver?
    ensures IntentOf(b) == IntentOf(a)
  {
    IntentIgnoresPortOrder(a, b);
    ChosenIgnoresPortOrder(a, b);
  }

  lemma ChosenIgnoresPortOrder(a: seq<Drive>, b: seq<Drive>)
    requires multiset(a) == multiset(b) && Untied(a)
    requires IntentOf(a).AlreadyMine? || IntentOf(a).TakeOver?
    ensures Chosen(b) == Chosen(a)
  {
    IntentIgnoresPortOrder(a, b);
    PermutedIsSame(a, b);
    var kind := if IntentOf(a).AlreadyMine? then MineBoots else Free;
    forall d ensures d in Filter(kind, a) <==> d in Filter(kind, b) {
      FilterHas(kind, a, d);
      FilterHas(kind, b, d);
    }
    LeastIsChosen(OrderOf(IntentOf(a)), Filter(kind, a), Filter(kind, b));
  }

  lemma LeastIsChosen(order: Order, a: seq<Drive>, b: seq<Drive>)
    requires a != [] && SameDrives(a, b)
    requires forall d :: d in a && d != FirstLeast(order, a).value ==>
               Before(RankOf(order, FirstLeast(order, a).value), RankOf(order, d))
    ensures FirstLeast(order, b) == FirstLeast(order, a)
  {
    assert a[0] in b;
    FirstLeastIsLeast(order, a);
    FirstLeastIsLeast(order, b);
  }

  /** Where candidates are tied, the one seen first is chosen: the drive that none beats and that beats
      all before it. */
  lemma {:induction false} TiesGoToTheFirstSeen(order: Order, v: seq<Drive>, i: nat)
    requires i < |v|
    requires forall e :: e in v ==> !Before(RankOf(order, e), RankOf(order, v[i]))
    requires forall j :: 0 <= j < i ==> Before(RankOf(order, v[i]), RankOf(order, v[j]))
    ensures FirstLeast(order, v) == Some(v[i])
  {
    assert v == [v[0]] + v[1..];
    if i > 0 {
      TiesGoToTheFirstSeen(order, v[1..], i - 1);
    } else if |v| > 1 {
      FirstLeastIsLeast(order, v[1..]);
    }
  }

  function Chosen(drives: seq<Drive>): Option<Drive> {
    FirstLeast(OrderOf(IntentOf(drives)), Candidates(IntentOf(drives), drives))
  }

  lemma MovedToFront(a: seq<Drive>, i: nat)
    requires i < |a|
    ensures multiset([a[i]] + (a[..i] + a[i + 1..])) == multiset(a)
  {
    assert a == a[..i] + ([a[i]] + a[i + 1..]);
  }

  /** A drive that ties with the chosen one is chosen instead when its port comes first. */
  lemma TiedDriveCanBeChosen(a: seq<Drive>, d: Drive) returns (b: seq<Drive>)
    requires IntentOf(a).AlreadyMine? || IntentOf(a).TakeOver?
    requires var order, candidates := OrderOf(IntentOf(a)), Candidates(IntentOf(a), a);
             d in candidates && Chosen(a).Some? && !Before(RankOf(order, Chosen(a).value), RankOf(order, d))
    ensures multiset(b) == multiset(a) && Chosen(b) == Some(d)
  {
    var kind := if IntentOf(a).AlreadyMine? then MineBoots else Free;
    var order := OrderOf(IntentOf(a));
    FilterHas(kind, a, d);
    var i :| 0 <= i < |a| && a[i] == d;
    b := [a[i]] + (a[..i] + a[i + 1..]);
    MovedToFront(a, i);
    IntentIgnoresPortOrder(a, b);
    PermutedIsSame(a, b);
    FirstLeastIsLeast(order, Filter(kind, a));
    var best := Chosen(a).value;
    assert b[0] == d;
    forall e | e in Filter(kind, b) ensures !Before(RankOf(order, e), RankOf(order, d)) {
      FilterHas(kind, b, e);
      FilterHas(kind, a, e);
      assert !Before(RankOf(order, e), RankOf(order, best));
    }
    TiesGoToTheFirstSeen(order, Filter(kind, b), 0);
  }

  /** So the order of the ports decides nothing exactly when the best candidate is not tied. */
  lemma ChoiceIgnoresPortOrderExactly(a: seq<Drive>)
    requires IntentOf(a).AlreadyMine? || IntentOf(a).TakeOver?
    ensures (forall b :: multiset(b) == multiset(a) ==> Chosen(b) == Chosen(a)) <==> Untied(a)
  {
    if Untied(a) {
      forall b | multiset(b) == multiset(a) ensures Chosen(b) == Chosen(a) {
        ChosenIgnoresPortOrder(a, b);
      }
    } else {
      var order, candidates := OrderOf(IntentOf(a)), Candidates(IntentOf(a), a);
      var d :| d in candidates && d != Chosen(a).value && !Before(RankOf(order, Chosen(a).value), RankOf(order, d));
      var b := TiedDriveCanBeChosen(a, d);
    }
  }

  // ------------------------------------------------------------------ drives that do not matter

  lemma {:induction false} FilterOfKept(kind: Kind, v: seq<Drive>)
    requires kind in {AnyMine, SystemMine, OtherMine, Free, MineBoots}
    ensures Filter(kind, Filter(Kept, v)) == Filter(kind, v)
  {
    if v != [] {
      FilterOfKept(kind, v[1..]);
      FilterConcat(kind, if Is(Kept, v[0]) then [v[0]] else [], Filter(Kept, v[1..]));
    }
  }

  /** Drives that are neither ours nor blank decide nothing: surveys that agree on the others agree on
      the intent, except for the lines that report them. */
  lemma IntentDependsOnKept(a: seq<Drive>, b: seq<Drive>)
    requires Filter(Kept, a) == Filter(Kept, b)
    ensures IntentOf(b) == if IntentOf(a).NothingToTake? then NothingToTake(LinesOf(b, false)) else IntentOf(a)
  {
    FilterOfKept(MineBoots, a);
    FilterOfKept(MineBoots, b);
    FilterOfKept(SystemMine, a);
    FilterOfKept(SystemMine, b);
    FilterOfKept(OtherMine, a);
    FilterOfKept(OtherMine, b);
    FilterOfKept(Free, a);
    FilterOfKept(Free, b);
  }

  /** `a` with `b` put into it, one element at a time: where `mask` says so the next is of `a`, and
      elsewhere of `b`. */
  function Weave<T>(mask: seq<bool>, a: seq<T>, b: seq<T>): seq<T>
    decreases |a| + |b|
  {
    if a == [] then b
    else if b == [] then a
    else if mask == [] then [a[0]] + Weave(mask, a[1..], b)
    else if mask[0] then [a[0]] + Weave(mask[1..], a[1..], b)
    else [b[0]] + Weave(mask[1..], a, b[1..])
  }

  lemma {:induction false} NothingKept(v: seq<Drive>)
    requires forall d :: d in v ==> !Is(Kept, d)
    ensures Filter(Kept, v) == []
  {
    if v != [] {
      assert v[0] in v;
      assert forall d :: d in v[1..] ==> d in v;
      NothingKept(v[1..]);
    }
  }

  lemma {:induction false} KeptOfWeave(mask: seq<bool>, a: seq<Drive>, b: seq<Drive>)
    requires forall d :: d in b ==> !Is(Kept, d)
    ensures Filter(Kept, Weave(mask, a, b)) == Filter(Kept, a)
    decreases |a| + |b|
  {
    if a == [] {
      NothingKept(b);
    } else if b != [] {
      assert b[0] in b;
      assert forall d :: d in b[1..] ==> d in b;
      if mask == [] {
        KeptOfWeave(mask, a[1..], b);
      } else if mask[0] {
        KeptOfWeave(mask[1..], a[1..], b);
      } else {
        KeptOfWeave(mask[1..], a, b[1..]);
      }
      FilterOfCons(Weave(mask, a, b));
    }
  }

  lemma FilterOfCons(v: seq<Drive>)
    requires v != []
    ensures Filter(Kept, v) == (if Is(Kept, v[0]) then [v[0]] else []) + Filter(Kept, v[1..])
  {
  }

  lemma LinesCons(d: Drive, v: seq<Drive>, why: bool)
    ensures LinesOf([d] + v, why) == [LineOf(d, why)] + LinesOf(v, why)
  {
  }

  lemma LinesTail(v: seq<Drive>, why: bool)
    requires v != []
    ensures LinesOf(v, why)[0] == LineOf(v[0], why) && LinesOf(v, why)[1..] == LinesOf(v[1..], why)
  {
  }

  lemma {:induction false} LinesOfWeave(mask: seq<bool>, a: seq<Drive>, b: seq<Drive>, why: bool)
    ensures LinesOf(Weave(mask, a, b), why) == Weave(mask, LinesOf(a, why), LinesOf(b, why))
    decreases |a| + |b|
  {
    if a != [] && b != [] {
      LinesTail(a, why);
      LinesTail(b, why);
      if mask == [] {
        LinesOfWeave(mask, a[1..], b, why);
        LinesCons(a[0], Weave(mask, a[1..], b), why);
      } else if mask[0] {
        LinesOfWeave(mask[1..], a[1..], b, why);
        LinesCons(a[0], Weave(mask[1..], a[1..], b), why);
      } else {
        LinesOfWeave(mask[1..], a, b[1..], why);
        LinesCons(b[0], Weave(mask[1..], a, b[1..]), why);
      }
    }
  }

  /** So putting any number of foreign, unreadable or other nodes' drives into a survey, each wherever
      it pleases, leaves the answer alone, and where there was nothing to take it puts their lines where
      they are seen and changes no other. */
  lemma ForeignDrivesOnlyAddLines(mask: seq<bool>, drives: seq<Drive>, extra: seq<Drive>)
    requires forall d :: d in extra ==> d.verdict.Foreign? || d.verdict.Unreadable? || d.verdict.AnotherNode?
    ensures var was, now := IntentOf(drives), IntentOf(Weave(mask, drives, extra));
            && (!was.NothingToTake? ==> now == was)
            && (was.NothingToTake? ==>
                  && was == NothingToTake(LinesOf(drives, false))
                  && now == NothingToTake(Weave(mask, LinesOf(drives, false), LinesOf(extra, false))))
  {
    KeptOfWeave(mask, drives, extra);
    IntentDependsOnKept(drives, Weave(mask, drives, extra));
    IntentDependsOnKept(drives, drives);
    LinesOfWeave(mask, drives, extra, false);
  }

  /** A drive of ours, wherever it is seen, rules out taking another. */
  lemma OursRulesOutTaking(drives: seq<Drive>, d: Drive)
    requires d in drives && d.verdict.Mine?
    ensures !IntentOf(drives).TakeOver?
  {
    IntentByContents(drives);
  }
}
