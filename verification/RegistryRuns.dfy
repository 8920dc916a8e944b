/** Whole runs of the SMEM registry with its ELF image: which runs keep all six tables rendering one
    list, and that they then equal a registry built from scratch. */
module RegistryRuns {
  import opened Kernel
  import opened Sequences
  import opened Regions
  import opened ElfImage
  import opened ElfMemory
  import opened Registry
  import opened RegistryLaws
  import opened TableRuns

  predicate SameAddressesAt(live: seq<Region>, i: nat, r: Region) {
    i < |live| ==> r.virt == live[i].virt && r.phys == live[i].phys
  }

  /** When an update leaves the ELF image in step with the tables. One that is not even valid touches
      nothing. Nothing having been pending at probe, one that is taken patches its own headers. A
      refused one must change nothing, and with regions pending the headers patched are those of
      others. */
  predicate UpdateClean(fx: Frame, b: Book, p: nat, regno: nat, r: Region)
    requires p <= |b.live|
  {
    || !ValidRegion(r) || regno >= fx.max
    || if Taken(fx.max, b, regno, r) && regno < |b.live| then p == 0 || PatchAgrees(fx, b.live, p, regno, r)
       else SameAddressesAt(b.live, regno + p, r) && TailHolds(fx, b.live[p..], regno, r)
  }

  /** A removal takes out the headers of the very region it names, or names nothing. */
  predicate RemoveClean(live: seq<Region>, p: nat, r: Region) {
    var k := EntryNum(live, r.name);
    k < |live| ==> OnlyAt(live, r.name, k) && p <= k && Clean(live[p..], r, k - p)
  }

  /** What a run of a registry with `p` regions pending at probe may contain for its ELF image to stay
      in step: exactly the steps that keep it so. An add must leave the sections their places. */
  predicate StepClean(fx: Frame, b: Book, p: nat, op: Op) {
    && p <= |b.live|
    && match op
       case Add(r) => |Added(fx.max, b.live, r)| - p + 4 <= fx.max
       case Update(regno, r) => (regno < b.first ==> regno < |b.live|) && UpdateClean(fx, b, p, regno, r)
       case Remove(r) => RemoveClean(b.live, p, r)
  }

  predicate RunClean(fx: Frame, b: Book, p: nat, ops: seq<Op>)
    decreases |ops|
  {
    ops == [] || (StepClean(fx, b, p, ops[0]) && RunClean(fx, Next(fx.max, b, ops[0]), p, ops[1..]))
  }

  lemma CanonEntry(s: Smem, live: seq<Region>, p: nat)
    requires Canon(s, live, p)
    ensures s.entry == live && p <= |live| < s.fx.max
  {
  }

  /** An add keeps the image in step if and only if the sections still have their places, or it is
      refused. */
  lemma AddExact(s: Smem, live: seq<Region>, p: nat, r: Region)
    requires Canon(s, live, p)
    ensures AddInBounds(s, r) && p <= |Added(s.fx.max, live, r)|
    ensures Canon(AddRegion(s, r).0, Added(s.fx.max, live, r), p) <==> |Added(s.fx.max, live, r)| - p + 4 <= s.fx.max
  {
    hide Tables, AddRegion, AddInBounds, Depicts, AllValid;
    CanonOrderly(s, live, p);
    AddKeepsCanon(s, live, p, r);
  }

  /** An update keeps the image in step if and only if it is clean. */
  lemma UpdateExact(s: Smem, live: seq<Region>, p: nat, regno: nat, r: Region)
    requires Canon(s, live, p) && HandleKnown(s, regno)
    ensures UpdateInBounds(s, regno, r) && p <= |live|
    ensures Canon(UpdateRegion(s, regno, r).0, Next(s.fx.max, Book(live, s.first), Update(regno, r)).live, p) <==>
            UpdateClean(s.fx, Book(live, s.first), p, regno, r)
  {
    hide Canon, Tables, UpdateRegion, UpdateInBounds, UpdateAnswer, TailHolds, PatchAgrees;
    CanonEntry(s, live, p);
    CanonTables(s, live, p);
    UpdateKeepsTables(s, live, regno, r);
    UpdateAnswers(s, regno, r);
    if ValidRegion(r) && regno < s.fx.max {
      if UpdateAnswer(s, regno, r) != 0 {
        RefusedUpdateExact(s, live, p, regno, r);
      } else if p == 0 {
        UpdateKeepsCanon(s, live, regno, r);
      } else {
        PendingUpdateExact(s, live, p, regno, r);
      }
    }
  }

  lemma UpdateAnswers(s: Smem, regno: nat, r: Region)
    requires UpdateInBounds(s, regno, r)
    ensures ValidRegion(r) && regno < s.fx.max ==> UpdateRegion(s, regno, r).1 == UpdateAnswer(s, regno, r)
    ensures !ValidRegion(r) || regno >= s.fx.max ==> UpdateRegion(s, regno, r) == (s, -EINVAL)
  {
  }

  /** A clean removal succeeds, unless it names nothing, and keeps the image in step. (That no other
      removal does is `RemoveExact`.) */
  lemma RemoveStep(s: Smem, live: seq<Region>, p: nat, r: Region)
    requires Canon(s, live, p) && RemoveClean(live, p, r)
    ensures RemoveInBounds(s, r)
    ensures var (t, ret) := RemoveRegion(s, r);
            && Canon(t, Next(s.fx.max, Book(live, s.first), Remove(r)).live, p)
            && (ret == 0 || EntryNum(live, r.name) == |live|)
  {
    hide Canon, RemoveRegion, RemoveInBounds, Tables, Refused;
    CanonEntry(s, live, p);
    var k := EntryNum(live, r.name);
    if k < |live| {
      CanonValid(s, live, p, k);
      RemoveExact(s, live, p, k, r);
      assert live[p..][k - p] == live[k];
    } else {
      assert Tables(s, live) by { CanonTables(s, live, p); }
      RemoveAbsent(s, live, r);
    }
  }

  lemma CanonValid(s: Smem, live: seq<Region>, p: nat, k: nat)
    requires Canon(s, live, p) && k < |live|
    ensures ValidRegion(live[k])
  {
  }

  lemma CanonTables(s: Smem, live: seq<Region>, p: nat)
    requires Canon(s, live, p)
    ensures Tables(s, live)
  {
  }

  /** One clean step is in bounds, is a step of the tables' runs, and keeps every table. */
  lemma StepKeepsCanon(s: Smem, live: seq<Region>, op: Op, p: nat)
    requires Canon(s, live, p) && StepClean(s.fx, Book(live, s.first), p, op)
    ensures StepOk(s, op) && Canon(Step(s, op).0, Next(s.fx.max, Book(live, s.first), op).live, p)
  {
    hide Canon, Tables, AddRegion, AddInBounds, UpdateRegion, UpdateInBounds, RemoveRegion, RemoveInBounds, Clean;
    CanonEntry(s, live, p);
    match op
    case Add(r) => AddExact(s, live, p, r);
    case Update(regno, r) => UpdateExact(s, live, p, regno, r);
    case Remove(r) => RemoveStep(s, live, p, r);
  }

  /** Every clean run keeps every table rendering the users' list. */
  lemma {:induction false} RunKeepsCanon(s: Smem, live: seq<Region>, ops: seq<Op>, p: nat)
    requires Canon(s, live, p) && RunClean(s.fx, Book(live, s.first), p, ops)
    ensures RunOk(s, ops)
    ensures var t, b := Final(s, ops), After(s.fx.max, Book(live, s.first), ops);
            Canon(t, b.live, p) && t.first == b.first && t.fx == s.fx && (s.tocInit ==> t.tocInit)
    ensures DistinctNames(live) ==> DistinctNames(After(s.fx.max, Book(live, s.first), ops).live)
    decreases |ops|
  {
    if ops != [] {
      hide Canon, Step, StepOk, StepClean, InBounds, Next, Tables;
      CanonTables(s, live, p);
      CleanHead(s.fx, Book(live, s.first), p, ops);
      StepKeepsCanon(s, live, ops[0], p);
      StepInRange(s, ops[0]);
      StepKeepsTables(s, live, ops[0]);
      RunKeepsCanon(Step(s, ops[0]).0, Next(s.fx.max, Book(live, s.first), ops[0]).live, ops[1..], p);
    }
  }

  lemma CleanHead(fx: Frame, b: Book, p: nat, ops: seq<Op>)
    requires RunClean(fx, b, p, ops) && ops != []
    ensures StepClean(fx, b, p, ops[0]) && RunClean(fx, Next(fx.max, b, ops[0]), p, ops[1..])
  {
  }

  lemma StepInRange(s: Smem, op: Op)
    requires StepOk(s, op)
    ensures InBounds(s, op)
  {
  }

  // ------------------------------------------------------------------ regions of positive size

  predicate PositiveSizes(live: seq<Region>) {
    forall i | 0 <= i < |live| :: live[i].size > 0
  }

  /** An add of something that is not empty and leaves the sections their places, an accepted update, or
      the removal of a valid region. */
  predicate SizedStep(s: Smem, op: Op) {
    && StepOk(s, op)
    && match op
       case Add(r) => r.size > 0 && |Added(s.fx.max, s.entry, r)| + 4 <= s.fx.max
       case Update(_, _) => Step(s, op).1 == 0
       case Remove(r) => ValidRegion(r)
  }

  predicate SizedRun(s: Smem, ops: seq<Op>)
    decreases |ops|
  {
    ops == [] || (SizedStep(s, ops[0]) && SizedRun(Step(s, ops[0]).0, ops[1..]))
  }

  /** With nothing pending at probe and no empty regions, accepted updates and successful removals are
      clean. */
  lemma SizedStepIsClean(s: Smem, live: seq<Region>, op: Op)
    requires Canon(s, live, 0) && PositiveSizes(live) && SizedStep(s, op)
    ensures StepClean(s.fx, Book(live, s.first), 0, op)
    ensures PositiveSizes(Next(s.fx.max, Book(live, s.first), op).live)
  {
    hide Canon, Tables, Clean, RemoveRegion, RemoveInBounds, UpdateRegion, AddRegion, AddInBounds;
    CanonEntry(s, live, 0);
    CanonTables(s, live, 0);
    match op
    case Add(r) =>
    case Update(regno, r) => UpdateKeepsTables(s, live, regno, r);
    case Remove(r) =>
      var k := EntryNum(live, r.name);
      assert live[0..] == live;
      if k < |live| { RemoveSized(s, live, 0, k, r); }
  }

  /** So is every run of them. */
  lemma {:induction false} SizedRunIsClean(s: Smem, live: seq<Region>, ops: seq<Op>)
    requires Canon(s, live, 0) && PositiveSizes(live) && SizedRun(s, ops)
    ensures RunClean(s.fx, Book(live, s.first), 0, ops)
    decreases |ops|
  {
    if ops != [] {
      hide Canon, Step, StepOk, StepClean, InBounds, Next, Tables, PositiveSizes;
      SizedHead(s, ops);
      CanonTables(s, live, 0);
      SizedStepIsClean(s, live, ops[0]);
      StepKeepsCanon(s, live, ops[0], 0);
      StepKeepsTables(s, live, ops[0]);
      SizedRunIsClean(Step(s, ops[0]).0, Next(s.fx.max, Book(live, s.first), ops[0]).live, ops[1..]);
    }
  }

  lemma SizedHead(s: Smem, ops: seq<Op>)
    requires SizedRun(s, ops) && ops != []
    ensures SizedStep(s, ops[0]) && StepOk(s, ops[0]) && InBounds(s, ops[0]) && SizedRun(Step(s, ops[0]).0, ops[1..])
  {
  }

  // ------------------------------------------------------------------ the same state from scratch

  predicate Registrable(max: nat, live: seq<Region>) {
    |live| < max && AllValid(live) && DistinctNames(live)
  }

  /** The regions of `live` added one after another to a fresh registry. */
  function Rebuild(fx: Frame, live: seq<Region>): (s: Smem)
    requires Registrable(fx.max, live)
    ensures Settled(s, live, 0) && s.fx == fx && s.first == INT_MAX && s.tocInit
    decreases |live|
  {
    if live == [] then FreshIsCanon(fx); Fresh(fx)
    else
      var n := |live| - 1;
      LastIsNew(fx.max, live);
      var s := Rebuild(fx, live[..n]);
      AddKeepsSettled(s, live[..n], 0, live[n]);
      AddRegion(s, live[n]).0
  }

  lemma LastIsNew(max: nat, live: seq<Region>)
    requires Registrable(max, live) && live != []
    ensures var n := |live| - 1;
            && Registrable(max, live[..n]) && ValidRegion(live[n]) && OnlyAt(live[..n], live[n].name, n)
            && live[..n] + [live[n]] == live
  {
  }

  /** Whatever was added, updated and removed on the way, the tables, the ELF headers, the string
      table and the running totals are those of adding the survivors from scratch, in order. Only
      the mark of the lowest removed position differs, and what lies in headers not in use. */
  lemma RunEqualsRebuild(fx: Frame, ops: seq<Op>)
    requires RunClean(fx, Book([], INT_MAX), 0, ops)
    ensures RunOk(Fresh(fx), ops) && Registrable(fx.max, After(fx.max, Book([], INT_MAX), ops).live)
    ensures SameState(Final(Fresh(fx), ops), Rebuild(fx, After(fx.max, Book([], INT_MAX), ops).live))
  {
    FreshIsCanon(fx);
    hide RunClean, RunOk, Final, Fresh, After, Canon, Orderly, SameState;
    RunKeepsCanon(Fresh(fx), [], ops, 0);
    var live := After(fx.max, Book([], INT_MAX), ops).live;
    CanonRegistrable(Final(Fresh(fx), ops), live);
    SameCanon(Final(Fresh(fx), ops), Rebuild(fx, live), live);
  }

  /** The same for adds, accepted updates and successful removals of regions that are not empty. */
  lemma SizedRunEqualsRebuild(fx: Frame, ops: seq<Op>)
    requires SizedRun(Fresh(fx), ops)
    ensures RunOk(Fresh(fx), ops) && Registrable(fx.max, After(fx.max, Book([], INT_MAX), ops).live)
    ensures SameState(Final(Fresh(fx), ops), Rebuild(fx, After(fx.max, Book([], INT_MAX), ops).live))
  {
    FreshIsCanon(fx);
    hide SizedRun, RunClean, RunOk, Final, Fresh, After, Canon, SameState;
    SizedRunIsClean(Fresh(fx), [], ops);
    RunEqualsRebuild(fx, ops);
  }

  /** Two registries with the same tables, counters and ELF image. */
  predicate SameState(s: Smem, t: Smem) {
    && s.fx == t.fx && s.entry == t.entry && s.regions == t.regions && s.count == t.count && s.tocInit == t.tocInit
    && Image(s.elf) == Image(t.elf)
  }

  lemma FreshIsCanon(fx: Frame)
    ensures Canon(Fresh(fx), [], 0) && Orderly(Fresh(fx), [], 0)
    ensures Fresh(fx).first == INT_MAX && Fresh(fx).fx == fx && Fresh(fx).tocInit
  {
    hide Depicts, NewHeader, RenderToc, Counted;
    NewHeaderDepicts(fx);
    DepictsCounted(NewHeader(fx), fx, []);
  }

  lemma CanonRegistrable(s: Smem, live: seq<Region>)
    requires Canon(s, live, 0) && DistinctNames(live)
    ensures Registrable(s.fx.max, live) && Placed(s.fx, live)
  {
    hide RenderToc, Depicts;
    assert live[0..] == live;
    DepictsPlaced(s.elf, s.fx, live);
  }

  lemma SameCanon(s: Smem, t: Smem, live: seq<Region>)
    requires Canon(s, live, 0) && Canon(t, live, 0) && s.fx == t.fx && s.tocInit == t.tocInit
    ensures SameState(s, t)
  {
    hide Render, RenderToc, Image;
  }

  /** Two regions of a run never overlap in the dump file, and neither overlaps the header. */
  lemma PayloadsDisjoint(s: Smem, live: seq<Region>, p: nat, i: nat, j: nat)
    requires Canon(s, live, p) && i < j < |live| - p
    ensures |Image(s.elf).phdr| == |live| - p + 1
    ensures var e := Image(s.elf); var a, b := e.phdr[i + 1], e.phdr[j + 1];
            s.fx.ElfhSize() <= a.offset && a.offset + a.filesz <= b.offset && b.offset + b.filesz <= e.offset
  {
    hide Render, Image, Tables;
    PayloadsOrdered(s.fx, live[p..], i, j);
  }

  lemma PayloadsOrdered(fx: Frame, E: seq<Region>, i: nat, j: nat)
    requires Fits(fx, E) && i < j < |E|
    ensures |Render(fx, E).phdr| == |E| + 1
    ensures var e := Render(fx, E); var a, b := e.phdr[i + 1], e.phdr[j + 1];
            fx.ElfhSize() <= a.offset && a.offset + a.filesz <= b.offset && b.offset + b.filesz <= e.offset
  {
    hide CStr, Table, NameAt, Render, PayloadAt;
    HeaderCounts(fx, E);
    PayloadsTile(fx, E, i);
    PayloadsTile(fx, E, j);
    PayloadsRise(fx, E, 0, i);
    PayloadsRise(fx, E, i + 1, j);
  }

  lemma PayloadsRise(fx: Frame, E: seq<Region>, i: nat, j: nat)
    requires i <= j <= |E|
    ensures PayloadAt(fx, E, i) <= PayloadAt(fx, E, j)
  {
    PrefixMonotone(Sizes(E), i, j);
  }

  // ------------------------------------------------------------------ early registration

  /** Draining the pending list leaves both tables rendering it, and no ELF header. */
  lemma {:induction false} DrainRenders(fx: Frame, pending: seq<Region>)
    requires |pending| < fx.max && AllValid(pending)
    ensures Fresh(fx).count + |pending| <= |Fresh(fx).regions|
    ensures Canon(Drain(Fresh(fx), pending), pending, |pending|)
    ensures Drain(Fresh(fx), pending).first == INT_MAX && Drain(Fresh(fx), pending).tocInit
            && Drain(Fresh(fx), pending).fx == fx
    ensures Drain(Fresh(fx), pending).elf == NewHeader(fx)
    decreases |pending|
  {
    hide Depicts, RenderToc, NewSs, NewHeader;
    if pending == [] {
      FreshIsCanon(fx);
    } else {
      var n := |pending| - 1;
      DrainRenders(fx, pending[..n]);
      DrainedOne(Drain(Fresh(fx), pending[..n]), pending[..n], pending[n]);
      assert pending[..n] + [pending[n]] == pending;
    }
  }

  /** One more pending region in both tables, none in the ELF image. */
  lemma DrainedOne(s: Smem, live: seq<Region>, r: Region)
    requires Canon(s, live, |live|) && |live| + 1 < s.fx.max && ValidRegion(r) && s.count < |s.regions|
    ensures Canon(AddToc(s, r), live + [r], |live| + 1)
  {
    hide Depicts, RenderToc, NewSs;
    AddTocRenders(s.fx, live, r);
    assert (live + [r])[|live| + 1..] == [] && live[|live|..] == [];
  }

  /** From boot on: the handle of a pending region is accepted, with a valid update of that name, until the
      first removal at or below its position. */
  lemma HandleFromBoot(fx: Frame, pending: seq<Region>, ops: seq<Op>, h: nat, q: Region)
    requires |pending| < fx.max && AllValid(pending) && Fresh(fx).count + |pending| <= |Fresh(fx).regions|
    requires RunOk(Drain(Fresh(fx), pending), ops) && h < |pending| && ValidRegion(q) && q.name == pending[h].name
    ensures var s := Drain(Fresh(fx), pending);
            var t := Final(s, ops);
            && UpdateInBounds(t, h, q)
            && (UpdateRegion(t, h, q).1 == 0 <==> h < 0x7fff_ffff && forall p | p in RemovedAt(s, ops) :: h < p)
  {
    DrainRenders(fx, pending);
    CanonTables(Drain(Fresh(fx), pending), pending, |pending|);
    hide Drain, Fresh, RunOk, Final, RemovedAt, UpdateRegion, UpdateInBounds, Tables, Canon;
    HandleAccepted(Drain(Fresh(fx), pending), pending, ops, h, q);
  }

  /** `msm_minidump_add_region` before the driver is ready: no check for the name, the region goes to
      the pending list, and `num_regions`, which counts that list, is returned. */
  function AddPending(max: nat, pending: seq<Region>, r: Region, alloc: bool): (seq<Region>, int) {
    if !ValidRegion(r) then (pending, -EINVAL)
    else if |pending| >= max || !alloc then (pending, -ENOMEM)
    else (pending + [r], |pending|)
  }

  /** Every answer before probe, in numbers; names are not compared. */
  lemma PendingAnswers(max: nat, pending: seq<Region>, r: Region, alloc: bool)
    ensures var ok, (next, ret) := |r.name| <= 12 && r.virt != 0 && r.size % 4 == 0, AddPending(max, pending, r, alloc);
            && ret == (if !ok then -22 else if |pending| >= max || !alloc then -12 else |pending|)
            && next == if ret < 0 then pending else pending + [r]
  {
  }

  /** Added one after another before probe, the regions are returned their positions. */
  predicate PendingReturnsPositions(max: nat, pending: seq<Region>, rs: seq<Region>)
    decreases |rs|
  {
    rs == [] || (AddPending(max, pending, rs[0], true) == (pending + [rs[0]], |pending|)
                 && PendingReturnsPositions(max, pending + [rs[0]], rs[1..]))
  }

  lemma {:induction false} PendingIsAccepted(max: nat, pending: seq<Region>, rs: seq<Region>)
    requires AllValid(rs) && |pending| + |rs| <= max
    ensures PendingReturnsPositions(max, pending, rs)
    decreases |rs|
  {
    if rs != [] { PendingIsAccepted(max, pending + [rs[0]], rs[1..]); }
  }

  /** Any valid regions up to the capacity are accepted before probe, but the drain stays inside the
      bootloader's table if and only if there are fewer: its first cell is the header's. */
  lemma DrainBoundExact(fx: Frame, pending: seq<Region>)
    requires AllValid(pending) && |pending| <= fx.max
    ensures PendingReturnsPositions(fx.max, [], pending)
    ensures Fresh(fx).count + |pending| <= |Fresh(fx).regions| <==> |pending| < fx.max
  {
    PendingIsAccepted(fx.max, [], pending);
    hide NewHeader, RenderToc;
  }

  /** The same for adds to a registry that has been probed. */
  predicate AddsReturnPositions(s: Smem, rs: seq<Region>, base: nat)
    decreases |rs|
  {
    rs == [] || (AddInBounds(s, rs[0]) && AddRegion(s, rs[0]).1 == base
                 && AddsReturnPositions(AddRegion(s, rs[0]).0, rs[1..], base + 1))
  }

  lemma NextIsNew(max: nat, live: seq<Region>, rs: seq<Region>)
    requires Registrable(max, live + rs) && rs != []
    ensures ValidRegion(rs[0]) && OnlyAt(live, rs[0].name, |live|) && |live| + 1 < max
    ensures Registrable(max, (live + [rs[0]]) + rs[1..])
  {
    var both := live + rs;
    assert (live + [rs[0]]) + rs[1..] == both;
    assert both[|live|] == rs[0];
    assert ValidRegion(both[|live|]);
    forall j | 0 <= j < |live| ensures live[j].name != rs[0].name { assert both[j] == live[j]; }
  }

  lemma {:induction false} AddsAreAccepted(s: Smem, live: seq<Region>, p: nat, rs: seq<Region>)
    requires Orderly(s, live, p) && Registrable(s.fx.max, live + rs)
    ensures AddsReturnPositions(s, rs, |live|)
    decreases |rs|
  {
    hide Orderly, AddRegion, AddInBounds, Registrable, ValidRegion, OnlyAt, AddsReturnPositions, AddHeaders;
    if rs == [] {
      NoPositions(s, |live|);
    } else {
      NextIsNew(s.fx.max, live, rs);
      AddKeepsOrder(s, live, p, rs[0]);
      AddsAreAccepted(AddRegion(s, rs[0]).0, live + [rs[0]], p, rs[1..]);
      PositionFirst(s, rs, |live|);
    }
  }

  lemma NoPositions(s: Smem, base: nat)
    ensures AddsReturnPositions(s, [], base)
  {
  }

  lemma PositionFirst(s: Smem, rs: seq<Region>, base: nat)
    requires rs != [] && AddInBounds(s, rs[0]) && AddRegion(s, rs[0]).1 == base
    requires AddsReturnPositions(AddRegion(s, rs[0]).0, rs[1..], base + 1)
    ensures AddsReturnPositions(s, rs, base)
  {
    hide AddRegion, AddInBounds;
  }

  /** Registering before probe and draining gives the tables and handles of probing first and
      registering in the same order. What differs is the ELF half: it lacks exactly the regions
      that were pending. */
  lemma EarlyRegistration(fx: Frame, rs: seq<Region>)
    requires Registrable(fx.max, rs)
    ensures Fresh(fx).count + |rs| <= |Fresh(fx).regions|
    ensures PendingReturnsPositions(fx.max, [], rs) && AddsReturnPositions(Fresh(fx), rs, 0)
    ensures var early, late := Drain(Fresh(fx), rs), Rebuild(fx, rs);
            && early.(elf := late.elf) == late
            && Depicts(early.elf, fx, []) && (Depicts(late.elf, fx, rs) <==> Placed(fx, rs))
  {
    FreshIsCanon(fx);
    hide RenderToc, Drain, AddRegion, Depicts, NewHeader, Counted;
    PendingIsAccepted(fx.max, [], rs);
    DrainRenders(fx, rs);
    assert [] + rs == rs;
    AddsAreAccepted(Fresh(fx), [], 0, rs);
    assert rs[0..] == rs && rs[|rs|..] == [];
    var late := Rebuild(fx, rs);
    if Depicts(late.elf, fx, rs) { DepictsPlaced(late.elf, fx, rs); }
  }
}
