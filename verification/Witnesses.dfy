/** Reachable inputs on which the drivers depart from what they promise, one for each theorem that
    has to carry a condition. */
module Witnesses {
  import opened Kernel
  import opened Sequences
  import opened Regions
  import opened ElfImage
  import opened ElfMemory
  import opened Registry
  import opened RegistryLaws
  import opened TableRuns
  import opened RegistryRuns
  import Layout
  import RmProtocol
  import RmLaws
  import RmSlots
  import D = RegDump
  import G = RegDumpGuards
  import SprDump
  import VmapPieces

  const A := Region("a", 0, 16, 64, 4)
  /** Another name for the memory of `A`. */
  const TWIN := Region("b", 0, 32, 64, 4)
  /** The name of `A` again, elsewhere. */
  const SECOND := Region("a", 0, 48, 128, 4)

  lemma SettledCanon(s: Smem, live: seq<Region>)
    requires Settled(s, live, 0) && Placed(s.fx, live)
    ensures Canon(s, live, 0)
  {
    assert live[0..] == live;
    hide Canon, Orderly;
  }

  /** Two names for one piece of memory: the second cannot be removed, and by the time that is found
      out both tables have lost it and the bootloader's is off. */
  lemma TwinCannotBeRemoved(fx: Frame)
    ensures Registrable(fx.max, [A, TWIN]) && RemoveInBounds(Rebuild(fx, [A, TWIN]), TWIN)
    ensures var (t, ret) := RemoveRegion(Rebuild(fx, [A, TWIN]), TWIN);
            ret == -EINVAL && !t.tocInit && t.entry == [A, ZERO_REGION] && t.count == 3
  {
    hide Rebuild, Canon, RemoveRegion, RemoveInBounds, ClearMemory, Clean, Refused, RenderToc, Tables;
    var live := [A, TWIN];
    assert Registrable(fx.max, live) && OnlyAt(live, "b", 1) && live[0..] == live;
    var s := Rebuild(fx, live);
    SettledCanon(s, live);
    CanonTables(s, live, 0);
    TablesEntry(s, live);
    assert !FirstOfItsSpan(live, 1) by { assert live[0].phys == live[1].phys && live[0].size == live[1].size; }
    RemoveSized(s, live, 0, 1, TWIN);
    RemoveExact(s, live, 0, 1, TWIN);
    RemoveKeepsTables(s, live, 1, TWIN);
    assert Drop(live, 1) == [A];
  }

  /** An update under a name nobody has is refused, and yet the ELF headers of its handle now carry
      the refused addresses. */
  lemma RefusedUpdateShows(fx: Frame)
    ensures Registrable(fx.max, [A])
    ensures var s, r := Rebuild(fx, [A]), Region("x", 0, 80, 80, 4);
            && UpdateInBounds(s, 0, r) && UpdateRegion(s, 0, r).1 == -ENOENT
            && !exists other :: Canon(UpdateRegion(s, 0, r).0, other, 0)
  {
    hide Rebuild, Canon, Tables, UpdateRegion, UpdateInBounds;
    var live, r := [A], Region("x", 0, 80, 80, 4);
    assert Registrable(fx.max, live);
    var s := Rebuild(fx, live);
    SettledCanon(s, live);
    CanonTables(s, live, 0);
    TablesEntry(s, live);
    assert UpdateAnswer(s, 0, r) == -ENOENT;
    UpdateKeepsTables(s, live, 0, r);
    UpdateAnswers(s, 0, r);
    RefusedUpdateExact(s, live, 0, 0, r);
  }

  /** One region pending at probe, one added after it: an accepted update of the first patches the
      headers of the second. */
  lemma PendingUpdateHitsAnother(fx: Frame)
    ensures Fresh(fx).count + 1 <= |Fresh(fx).regions| && AddInBounds(Drain(Fresh(fx), [A]), TWIN)
    ensures var s, r := AddRegion(Drain(Fresh(fx), [A]), TWIN).0, A.(virt := 80, phys := 80);
            && UpdateInBounds(s, 0, r) && UpdateRegion(s, 0, r).1 == 0
            && !Canon(UpdateRegion(s, 0, r).0, [r, TWIN], 1)
  {
    hide Drain, Fresh, RenderToc, Canon, Tables, AddRegion, AddInBounds, UpdateRegion, UpdateInBounds, TailHolds;
    DrainRenders(fx, [A]);
    var d, r := Drain(Fresh(fx), [A]), A.(virt := 80, phys := 80);
    AddKeepsCanon(d, [A], 1, TWIN);
    var s, live := AddRegion(d, TWIN).0, [A, TWIN];
    assert [A] + [TWIN] == live;
    CanonTables(s, live, 1);
    UpdateKeepsTables(s, live, 0, r);
    assert EntryNum(live, "a") < |live| by { assert live[0].name == "a"; }
    PendingUpdateExact(s, live, 1, 0, r);
    assert live[0 := Readdress(live[0], r)] == [r, TWIN];
  }

  /** A name registered twice before probe and removed once: the local table keeps the second of the
      two, the bootloader's table the first. */
  lemma DuplicateSplitsTables(fx: Frame)
    ensures Fresh(fx).count + 2 <= |Fresh(fx).regions| && RemoveInBounds(Drain(Fresh(fx), [A, SECOND]), A)
    ensures var (t, ret) := RemoveRegion(Drain(Fresh(fx), [A, SECOND]), A);
            ret == -EINVAL && |t.regions| > 2 && t.entry[0] == SECOND && t.regions[1].base == A.phys
  {
    var live := [A, SECOND];
    DrainRenders(fx, live);
    var s := Drain(Fresh(fx), live);
    hide Drain, Fresh, Depicts, RemoveRegion, RemoveInBounds;
    assert live[2..] == [];
    RemoveDuplicate(s, live, 2, 0, 1, A);
    assert s.regions == RenderToc(fx, live) && s.count == 3 && s.regions[1] == TocCell(fx, live, 1);
    var k := EntryNum(live, "a");
    assert k == 0 by { assert live[0].name == "a"; }
  }

  /** A region may be called like the banner section, and a removal may spell that section out: it
      succeeds and takes the banner's headers. */
  lemma BannerCanBeRemoved(fx: Frame)
    ensures var r := A.(name := "linux_banner");
            var q := Region("linux_banner", 0, fx.bannerVa, fx.bannerPa, BANNER_SIZE);
            && Registrable(fx.max, [r]) && RemoveInBounds(Rebuild(fx, [r]), q)
            && RemoveRegion(Rebuild(fx, [r]), q).1 == 0
  {
    var r, q := A.(name := "linux_banner"), Region("linux_banner", 0, fx.bannerVa, fx.bannerPa, BANNER_SIZE);
    assert Registrable(fx.max, [r]) && OnlyAt([r], q.name, 0);
    SettledCanon(Rebuild(fx, [r]), [r]);
    hide Rebuild, Canon, RemoveRegion, RemoveInBounds;
    RemoveUnvalidated(Rebuild(fx, [r]), [r], 0, 0, q);
  }

  const B := Region("b", 0, 32, 128, 4)
  const C := Region("c", 0, 48, 256, 4)
  /** An update under a name nobody has. */
  const NOBODY := Region("x", 0, 80, 80, 4)

  /** Distinct names and places, the third region last and alone at its place. */
  lemma ThreeRegions(max: Capacity)
    ensures var live := [A, B, C];
            && Registrable(max, live) && OnlyAt(live, C.name, 2) && FirstOfItsSpan(live, 2) && live[0..] == live
            && live[0].phys != C.phys && live[1].phys != C.phys && C.size > 0
            && EntryNum(live, NOBODY.name) == 3 && ValidRegion(NOBODY) && NOBODY.virt != C.size
  {
    var live := [A, B, C];
    assert live[0].name == "a" && live[1].name == "b" && live[2].name == "c" && NOBODY.name == "x";
    assert live[0].phys == 64 && live[1].phys == 128 && live[2].phys == 256;
  }

  /** An update by handle `regno` is refused for its name, and yet region `r`, whose removal would have
      succeeded, has another size in memory after it and cannot be removed. */
  predicate BreaksRemoval(s: Smem, regno: nat, q: Region, r: Region, i: nat) {
    && UpdateInBounds(s, regno, q) && RemoveInBounds(s, r) && RemoveRegion(s, r).1 == 0
    && var (t, ret) := UpdateRegion(s, regno, q);
       && ret == -ENOENT && i < |Image(t.elf).phdr| && Image(t.elf).phdr[i].memsz == q.virt != r.size
       && RemoveInBounds(t, r) && RemoveRegion(t, r).1 == -EINVAL
  }

  /** The last handle and the third region. */
  lemma LastHandleBreaksRemoval(fx: Frame)
    requires fx.max <= INT_MAX
    ensures Registrable(fx.max, [A, B, C]) && BreaksRemoval(Rebuild(fx, [A, B, C]), fx.max - 1, NOBODY, C, 3)
  {
    hide *;
    ThreeRegions(fx.max);
    BuiltCanon(fx, [A, B, C]);
    LastHandle(Rebuild(fx, [A, B, C]), [A, B, C], C, NOBODY);
  }

  /** A small registry built from scratch. */
  lemma BuiltCanon(fx: Frame, live: seq<Region>)
    requires Registrable(fx.max, live) && |live| <= 13
    ensures Canon(Rebuild(fx, live), live, 0) && Rebuild(fx, live).fx == fx && Rebuild(fx, live).first == INT_MAX
  {
    hide Canon, Orderly, Registrable;
    var s := Rebuild(fx, live);
    assert live[0..] == live;
    assert Placed(fx, live);
  }

  lemma LastHandle(s: Smem, live: seq<Region>, r: Region, q: Region)
    requires Canon(s, live, 0) && |live| == 3 && live[2] == r && OnlyAt(live, r.name, 2) && FirstOfItsSpan(live, 2)
    requires live[0..] == live && live[0].phys != r.phys && live[1].phys != r.phys && r.size > 0
    requires ValidRegion(q) && EntryNum(live, q.name) == 3 && q.virt != r.size && s.fx.max <= s.first
    ensures BreaksRemoval(s, s.fx.max - 1, q, r, 3)
  {
    hide Canon, RemoveRegion, RemoveInBounds, Tables, UpdateRegion, UpdateInBounds, UpdateHeader, Clean, Image,
        Clearable, Depicts, Render, ValidRegion, PatchHeaders, EntryNum, Fits, OnlyAt, FirstOfItsSpan, Sized,
        SameCounts;
    CanonTables(s, live, 0);
    TablesEntry(s, live);
    CanonDepicts(s, live);
    CanonValid(s, live, 0, 2);
    RemoveSized(s, live, 0, 2, r);
    RefusedUpdateState(s, s.fx.max - 1, q);
    PatchDepicts(s.elf, s.fx, live, s.fx.max - 1, q);
    OnlyHeaders(s, live, PatchHeaders(s.elf, s.fx.max - 1, q));
    LastHandleImage(s.fx, live, r, q);
    HiddenByPatch(UpdateRegion(s, s.fx.max - 1, q).0, live, r);
  }

  lemma RefusedUpdateState(s: Smem, regno: nat, r: Region)
    requires ValidRegion(r) && regno < s.fx.max && UpdateAnswer(s, regno, r) != 0
    ensures UpdateInBounds(s, regno, r)
    ensures UpdateRegion(s, regno, r) == (s.(elf := PatchHeaders(s.elf, regno, r)), UpdateAnswer(s, regno, r))
  {
    hide PatchHeaders;
  }

  lemma OnlyHeaders(s: Smem, live: seq<Region>, h: Header)
    requires Tables(s, live)
    ensures Tables(s.(elf := h), live)
  {
    hide RenderToc;
  }

  lemma CanonDepicts(s: Smem, live: seq<Region>)
    requires Canon(s, live, 0)
    ensures Depicts(s.elf, s.fx, live) && Fits(s.fx, live)
  {
    assert live[0..] == live;
  }

  /** The last handle's stores in the image of three regions. */
  lemma LastHandleImage(fx: Frame, live: seq<Region>, r: Region, q: Region)
    requires Fits(fx, live) && |live| == 3 && live[2] == r && live[0].phys != r.phys && live[1].phys != r.phys
    requires q.virt != r.size
    ensures var e := UpdateHeader(fx.max, Render(fx, live), fx.max - 1, q);
            |e.phdr| == 4 && e.phdr[3].memsz == q.virt && !Clearable(e, r)
  {
    var f := Render(fx, live);
    HeaderCounts(fx, live);
    TableFront(fx, live);
    assert ValidRegion(r) by { assert ValidRegion(live[2]); }
    assert f.phdr[0].memsz == BANNER_SIZE && f.phdr[1].paddr == live[0].phys && f.phdr[2].paddr == live[1].phys by {
      hide Table, NameAt, PayloadAt;
    }
    hide Render, Bytes, WithBytes, ShdrMatches;
    TailStoresAre(fx.max, f, fx.max - 1, q);
    var e := UpdateHeader(fx.max, f, fx.max - 1, q);
    hide UpdateHeader, Rewritten;
    assert e.phdr[3] == Overlaid(f.phdr[3], 3, q.virt) && forall i | 0 <= i < 3 :: e.phdr[i] == f.phdr[i];
    assert forall i | 0 <= i < 4 :: !PhdrMatches(e.phdr[i], r);
    assert FindPhdr(e, r) == 4;
  }

  lemma HiddenByPatch(t: Smem, live: seq<Region>, r: Region)
    requires Tables(t, live) && |live| == 3 && OnlyAt(live, r.name, 2) && !Clearable(Image(t.elf), r)
    ensures RemoveInBounds(t, r) && RemoveRegion(t, r).1 == -EINVAL
  {
    hide Clearable, Image, EraseHeaders, Tables, RemoveRegion;
    InBoundsOf(t, live, r);
    RemoveKeepsTables(t, live, 2, r);
  }

  lemma InBoundsOf(t: Smem, live: seq<Region>, r: Region)
    requires Tables(t, live) && !Clearable(Image(t.elf), r)
    ensures RemoveInBounds(t, r)
  {
    hide Clearable, Image;
    TablesEntry(t, live);
  }

  lemma TwoRegions(max: Capacity)
    ensures var live := [A, B];
            && Registrable(max, live) && OnlyAt(live, B.name, 1) && FirstOfItsSpan(live, 1)
            && live[0..] == live && B.size > 0
            && Drop(live, 1) == [A] && [A][0..] == [A] && EntryNum([A], A.name) == 0
  {
    var live := [A, B];
    assert live[0].name == "a" && live[1].name == "b" && [A][0].name == "a";
    assert live[0].phys == 64 && live[1].phys == 128;
  }

  /** `NOBODY` at an address that is not the banner's. */
  function NotTheBanner(fx: Frame): (r: Region)
    ensures ValidRegion(r) && r.virt != fx.bannerVa
  {
    NOBODY.(virt := fx.bannerVa + 1)
  }

  /** Two regions, the second removed, and a refused update by the fourth last handle: it is the banner that
      now has the refused address, and the tables together render no list any more. */
  lemma LateHandleHitsBanner(fx: Frame)
    ensures Registrable(fx.max, [A, B]) && RemoveInBounds(Rebuild(fx, [A, B]), B)
    ensures var s := RemoveRegion(Rebuild(fx, [A, B]), B).0;
            && UpdateInBounds(s, fx.max - 4, NotTheBanner(fx))
            && var (t, ret) := UpdateRegion(s, fx.max - 4, NotTheBanner(fx));
               ret == -EINVAL && !exists other :: Canon(t, other, 0)
  {
    hide *;
    TwoRegions(fx.max);
    BuiltCanon(fx, [A, B]);
    LateHandle(Rebuild(fx, [A, B]), [A, B], B, NotTheBanner(fx));
  }

  lemma LateHandle(s: Smem, live: seq<Region>, r: Region, q: Region)
    requires Canon(s, live, 0) && |live| == 2 && live[1] == r && OnlyAt(live, r.name, 1) && FirstOfItsSpan(live, 1)
    requires live[0..] == live && r.size > 0 && ValidRegion(q) && q.virt != s.fx.bannerVa
    ensures RemoveInBounds(s, r)
    ensures var t := RemoveRegion(s, r).0;
            && UpdateInBounds(t, s.fx.max - 4, q)
            && var (u, ret) := UpdateRegion(t, s.fx.max - 4, q); ret == -EINVAL && !exists other :: Canon(u, other, 0)
  {
    hide Canon, RemoveRegion, RemoveInBounds, Tables, UpdateRegion, UpdateInBounds, Clean, ValidRegion;
    CanonValid(s, live, 0, 1);
    RemoveSized(s, live, 0, 1, r);
    var t, rest := RemoveRegion(s, r).0, Drop(live, 1);
    CanonTables(t, rest, 0);
    TablesEntry(t, rest);
    UpdateKeepsTables(t, rest, s.fx.max - 4, q);
    UpdateAnswers(t, s.fx.max - 4, q);
    RefusedUpdateExact(t, rest, 0, s.fx.max - 4, q);
    assert !TailHolds(s.fx, rest[0..], s.fx.max - 4, q);
  }

  /** An update by the last handle that names a live region stores behind the bootloader's table. */
  lemma LastHandleOverruns(fx: Frame)
    requires fx.max <= INT_MAX
    ensures Registrable(fx.max, [A]) && !UpdateInBounds(Rebuild(fx, [A]), fx.max - 1, A)
  {
    hide *;
    OneRegion(fx.max);
    BuiltCanon(fx, [A]);
    OwnLastHandle(Rebuild(fx, [A]), [A], A);
  }

  lemma OneRegion(max: Capacity)
    ensures Registrable(max, [A]) && EntryNum([A], A.name) == 0 && ValidRegion(A)
  {
    assert [A][0].name == "a";
  }

  lemma OwnLastHandle(s: Smem, live: seq<Region>, r: Region)
    requires Canon(s, live, 0) && s.first == INT_MAX && s.fx.max <= INT_MAX && ValidRegion(r)
             && EntryNum(live, r.name) < |live|
    ensures !UpdateInBounds(s, s.fx.max - 1, r)
  {
    hide Canon, UpdateInBounds, ValidRegion;
    CanonTables(s, live, 0);
    UpdateBoundsExact(s, live, s.fx.max - 1, r);
  }

  lemma FourteenRegistrable()
    ensures Registrable(17, Fourteen())
  {
    var names := "abcdefghijklmn";
    assert forall i, j | 0 <= i < j < 14 :: names[i] != names[j];
    assert forall i | 0 <= i < 14 :: Fourteen()[i].name == [names[i]];
    forall i, j | 0 <= i < j < 14 ensures Fourteen()[i].name != Fourteen()[j].name {
      assert Fourteen()[i].name[0] != Fourteen()[j].name[0];
    }
  }

  /** Fourteen regions in a registry of seventeen: all are accepted, and the sections run into the
      program headers, so that the allocation holds the image of no list at all. */
  lemma LayoutOverrun(fx: Frame)
    requires fx.max == 17
    ensures Registrable(17, Fourteen()) && AddsReturnPositions(Fresh(fx), Fourteen(), 0) && !Layout.Sound(fx, 14)
    ensures !exists E :: Depicts(Rebuild(fx, Fourteen()).elf, fx, E)
  {
    hide *;
    FourteenRegistrable();
    var s := Rebuild(fx, Fourteen());
    Fifteen(s);
    Layout.GuardExceedsLayout(fx, Fourteen(), s.elf);
    Layout.SoundIff(fx, 14);
    forall E ensures !Depicts(s.elf, fx, E) { NeverFifteen(s.elf, fx, E); }
  }

  lemma NeverFifteen(h: Header, fx: Frame, E: seq<Region>)
    requires fx.max == 17 && h.phnum == 15
    ensures !Depicts(h, fx, E)
  {
    hide Depicts;
    if Depicts(h, fx, E) { DepictsPlaced(h, fx, E); }
  }

  /** Fourteen regions with headers, and the banner. */
  lemma Fifteen(s: Smem)
    requires Settled(s, Fourteen(), 0)
    ensures s.elf.phnum == 15
  {
    assert Fourteen()[0..] == Fourteen();
  }

  function Fourteen(): (rs: seq<Region>)
    ensures |rs| == 14
  {
    seq(14, i requires 0 <= i < 14 => Region(["abcdefghijklmn"[i]], 0, 1, 4 * i, 4))
  }

  /** One region registered with the resource manager and looked up again cannot be removed with what
      the lookup gave. */
  lemma SwappedLookup(fx: Frame)
    ensures var evs := [RmProtocol.Start, RmProtocol.Call(RmProtocol.Slot(1)), RmProtocol.Finish];
            && RmLaws.RunOk(RmLaws.Probed(fx, [A]), evs)
            && var t := RmLaws.Final(RmLaws.Probed(fx, [A]), evs); var q := RmLaws.GetRegion(t, "a");
               && q.virt == A.phys && q.phys == A.virt
               && ClearInBounds(Image(t.elf), q) && ClearMemory(t.elf, q) == (t.elf, -EINVAL)
  {
    var s := RmLaws.Probed(fx, [A]);
    RmLaws.ProbedInv(fx, [A]);
    var evs := [RmProtocol.Start, RmProtocol.Call(RmProtocol.Slot(1)), RmProtocol.Finish];
    OneRegistration(fx, s, evs);
    var t := RmLaws.Final(s, evs);
    hide RmLaws.Probed, RmProtocol.Inv, RmLaws.RunOk, RmLaws.Final, RmLaws.Headers, RmLaws.RunClean, ClearMemory,
        RmProtocol.TableInv, ClearInBounds, Image;
    InvTable(s, []);
    RmLaws.RunKeeps(s, [], evs);
    RmLaws.GetRegionSwaps(t, [A], 0);
  }

  lemma InvTable(s: RmProtocol.Rm, D: seq<Region>)
    requires RmProtocol.Inv(s, D)
    ensures RmProtocol.TableInv(s, D)
  {
  }

  lemma OneRegistration(fx: Frame, s: RmProtocol.Rm, evs: seq<RmProtocol.Event>)
    requires s == RmLaws.Probed(fx, [A]) && RmProtocol.Inv(s, [])
    requires evs == [RmProtocol.Start, RmProtocol.Call(RmProtocol.Slot(1)), RmProtocol.Finish]
    ensures RmLaws.RunOk(s, evs) && RmLaws.Headers(s, [], evs) == [A] && RmLaws.RunClean(s, [], evs)
  {
    hide RmProtocol.TableInv, Depicts, NewHeader, AddHeaders, HasRoom;
    assert s.queue == [RmProtocol.Request(RmProtocol.AddCmd, A)] && s.entries == [RmProtocol.RmEntry("a", 0)];
    var s1 := RmProtocol.OnStart(s);
    assert RmProtocol.RmEntryNum(s.entries, "a") == 0;
    assert s1.worker == RmProtocol.Adding(A, 0) && s1.granted == map[];
    var s2 := RmProtocol.OnCall(s1, RmProtocol.Slot(1));
    RmLaws.StepKeepsTable(s, [], evs[0]);
    RmLaws.StepKeepsTable(s1, [], evs[1]);
    RmLaws.NeverCorrupt(s2, []);
    assert evs[1..] == [evs[1], evs[2]] && evs[1..][1..] == [evs[2]] && evs[1..][1..][1..] == [];
    LastStep(s2, evs[2]);
    EarlierStep(s1, s2, evs[1..]);
    EarlierStep(s, s1, evs);
  }

  predicate Registers(s: RmProtocol.Rm, evs: seq<RmProtocol.Event>) {
    RmLaws.RunOk(s, evs) && RmLaws.Headers(s, [], evs) == [A] && RmLaws.RunClean(s, [], evs)
  }

  lemma LastStep(s: RmProtocol.Rm, ev: RmProtocol.Event)
    requires ev.Finish? && RmProtocol.FinishReady(s) && s.worker == RmProtocol.Added(A, 0, Some(1))
    ensures Registers(s, [ev])
  {
    hide AddHeaders, HasRoom;
    assert RmLaws.NextHeaders(s, [], ev) == [A] && RmLaws.FinishClean(s, []);
    NothingMore(RmProtocol.Next(s, ev));
    assert [ev][1..] == [];
    hide RmProtocol.Next, RmLaws.FinishClean, RmLaws.NextHeaders, RmProtocol.FinishReady;
  }

  lemma NothingMore(s: RmProtocol.Rm)
    ensures RmLaws.RunOk(s, []) && RmLaws.Headers(s, [A], []) == [A] && RmLaws.RunClean(s, [A], [])
  {
  }

  lemma EarlierStep(s: RmProtocol.Rm, t: RmProtocol.Rm, evs: seq<RmProtocol.Event>)
    requires evs != [] && RmLaws.EventOk(s, evs[0]) && !evs[0].Finish? && t == RmProtocol.Next(s, evs[0])
    requires Registers(t, evs[1..])
    ensures Registers(s, evs)
  {
    hide RmProtocol.Next, RmProtocol.Enabled, RmLaws.FinishClean;
  }

  /** One region pending, and another added in the moment between the drain of the pending list and the end
      of the probe: it is told it has position 1, and its name is nowhere. */
  lemma LostInTheWindow(fx: Frame)
    ensures var s := RmLaws.Probed(fx, [A]); var t := RmProtocol.OnAdd(s, B, true);
            && |s.entries| == 1 && RmProtocol.AddAnswer(s, B, true) == 1
            && t == s.(entries := s.entries + [RmProtocol.RmEntry("", 0)])
            && !exists E :: RmProtocol.TableInv(t, E)
  {
    hide *;
    OnePending(fx);
    RmLaws.ProbedInv(fx, [A]);
    InvTable(RmLaws.Probed(fx, [A]), []);
    EarlyAnswer(RmLaws.Probed(fx, [A]), B);
    RmLaws.WindowExact(RmLaws.Probed(fx, [A]), [], B, true);
  }

  lemma OnePending(fx: Frame)
    ensures AllValid([A]) && DistinctNames([A]) && ValidRegion(B)
    ensures var s := RmLaws.Probed(fx, [A]); |s.entries| == 1 && !s.ready && s.fx == fx
  {
    hide NewHeader;
  }

  /** What a probe that is not over tells a caller. */
  lemma EarlyAnswer(s: RmProtocol.Rm, r: Region)
    requires !s.ready && ValidRegion(r) && |s.entries| < s.fx.max
    ensures RmProtocol.AddAnswer(s, r, true) == |s.entries|
  {
  }

  /** A region that has been given slot 7 and is to be removed, the resource manager refusing: the slot is
      granted still, but in no cell and with nobody, and no later removal gives it back. */
  lemma DeniedSlotIsLost(fx: Frame)
    ensures var s := RmLaws.Probed(fx, [A]);
            && s.worker.Idle? && s.queue != [] && RmProtocol.ReplyOk(RmProtocol.OnStart(s), RmProtocol.Slot(7))
            && RmProtocol.FinishReady(RmProtocol.OnCall(RmProtocol.OnStart(s), RmProtocol.Slot(7)))
    ensures var t := RmProtocol.OnRemove(WithSlot(fx), A, true);
            && t.worker.Idle? && t.queue != [] && RmProtocol.ReplyOk(RmProtocol.OnStart(t), RmProtocol.Denied)
            && var u := RmProtocol.OnCall(RmProtocol.OnStart(t), RmProtocol.Denied);
               && u.worker.Idle? && 7 in u.granted && u.entries == [RmProtocol.RmEntry("a", 0)]
               && var v := RmProtocol.OnRemove(u, A, true);
                  v.queue != [] && v.worker.Idle? && RmProtocol.OnStart(v) == u
  {
    Granted7(fx);
    assert A.name == "a";
    hide *;
    DeniedRemoval(WithSlot(fx), A, 7);
  }

  /** A removal denied the release of slot `g`, and another one after it. */
  lemma DeniedRemoval(w: RmProtocol.Rm, r: Region, g: nat)
    requires w.ready && w.worker.Idle? && w.queue == [] && w.entries == [RmProtocol.RmEntry(r.name, g)] && g != 0
    requires RmProtocol.TableInv(w, [r]) && ClearInBounds(Image(w.elf), r)
    ensures var t := RmProtocol.OnRemove(w, r, true);
            && t.worker.Idle? && t.queue != [] && RmProtocol.ReplyOk(RmProtocol.OnStart(t), RmProtocol.Denied)
            && var u := RmProtocol.OnCall(RmProtocol.OnStart(t), RmProtocol.Denied);
               && u == w.(entries := [RmProtocol.RmEntry(r.name, 0)])
               && var v := RmProtocol.OnRemove(u, r, true);
                  v.queue != [] && v.worker.Idle? && RmProtocol.OnStart(v) == u
  {
    var q := RmProtocol.Request(RmProtocol.RemoveCmd, r);
    var t, u := w.(queue := [q]), w.(entries := [RmProtocol.RmEntry(r.name, 0)]);
    RmSlots.FoundAt(w.entries, 0);
    RmSlots.FoundAt(u.entries, 0);
    hide RmProtocol.TableInv, ClearInBounds, Image, RmProtocol.RmEntryNum;
    assert RmProtocol.OnRemove(w, r, true) == t && RmProtocol.OnRemove(u, r, true) == u.(queue := [q]);
    assert RmProtocol.OnStart(u.(queue := [q])) == u;
    RmLaws.EnqueueKeeps(w, [r], q);
    hide RmProtocol.OnStart, RmProtocol.OnCall, RmProtocol.OnRemove, RmProtocol.ReplyOk;
    RmSlots.RemoveCarriedOut(t, [r], 0, r);
    assert w.entries[0 := RmProtocol.RmEntry(r.name, 0)] == u.entries && [q][1..] == [];
  }

  /** The probe over, and the slot granted to the one region that was pending. */
  function WithSlot(fx: Frame): RmProtocol.Rm {
    var s := RmLaws.Probed(fx, [A]);
    s.(entries := [RmProtocol.RmEntry("a", 7)], queue := [], granted := map[7 := "a"], ready := true,
       elf := if HasRoom(s.elf, A) then AddHeaders(s.elf, A) else s.elf)
  }

  lemma Granted7(fx: Frame)
    ensures var s := RmLaws.Probed(fx, [A]);
            && s.worker.Idle? && s.queue == [RmProtocol.Request(RmProtocol.AddCmd, A)]
            && RmProtocol.ReplyOk(RmProtocol.OnStart(s), RmProtocol.Slot(7))
            && RmProtocol.FinishReady(RmProtocol.OnCall(RmProtocol.OnStart(s), RmProtocol.Slot(7)))
            && var t := RmProtocol.OnFinish(RmProtocol.OnCall(RmProtocol.OnStart(s), RmProtocol.Slot(7)));
               t.(ready := true) == WithSlot(fx)
    ensures var w := WithSlot(fx);
            && w.ready && w.worker.Idle? && w.queue == [] && w.entries == [RmProtocol.RmEntry("a", 7)] && 7 in w.granted
            && RmProtocol.TableInv(w, [A]) && ClearInBounds(Image(w.elf), A)
  {
    assert A.virt != 0 && A.name == "a" && |A.name| <= MAX_NAME_LENGTH;
    ProbedA(fx);
    hide *;
    var s, w := RmLaws.Probed(fx, [A]), WithSlot(fx);
    RmSlots.AddFromHead(s, [], A, 7);
    var u := RmProtocol.OnFinish(RmProtocol.OnCall(RmProtocol.OnStart(s), RmProtocol.Slot(7)));
    SlotState(fx, u);
    assert [] + [A] == [A];
    RmLaws.ReadyKeeps(u, [A]);
    RmLaws.CountsOf(w, [A]);
    ClearCounted(w.elf, w.fx, [A], A);
  }

  lemma ProbedA(fx: Frame)
    ensures var s := RmLaws.Probed(fx, [A]);
            && s.worker.Idle? && s.entries == [RmProtocol.RmEntry("a", 0)] && s.granted == map[]
            && s.queue == [RmProtocol.Request(RmProtocol.AddCmd, A)] && RmProtocol.TableInv(s, [])
  {
    OnePending(fx);
    RmLaws.ProbedInv(fx, [A]);
    hide RmProtocol.TableInv, Depicts, NewHeader;
  }

  lemma SlotState(fx: Frame, u: RmProtocol.Rm)
    requires var s := RmLaws.Probed(fx, [A]);
             && s.worker.Idle? && s.entries == [RmProtocol.RmEntry("a", 0)] && s.granted == map[] && HasRoom(s.elf, A)
             && u == s.(queue := [], entries := s.entries[0 := RmProtocol.RmEntry("a", 7)],
                        granted := s.granted[7 := "a"], elf := AddHeaders(s.elf, A))
    ensures var w := WithSlot(fx);
            && w == u.(ready := true) && w.worker.Idle? && w.queue == [] && w.entries == [RmProtocol.RmEntry("a", 7)]
            && 7 in w.granted
  {
    hide RmLaws.Probed, AddHeaders, HasRoom;
  }

  /** Two modules of one page each whose names agree in the nine characters that a digit and an underscore
      leave: the second one's page is not registered. */
  lemma ModulesCollide(pageOf: nat -> nat)
    ensures var a, b := "qca_cld3_wlan", "qca_cld3_wifi";
            var x, y := VmapPieces.Pieces(0, 4096, 4096, a, pageOf), VmapPieces.Pieces(0, 8192, 4096, b, pageOf);
            VmapPieces.AddAll(201, VmapPieces.AddAll(201, [], x), y) != [] + x + y
  {
    var a: CString, b: CString := "qca_cld3_wlan", "qca_cld3_wifi";
    assert VmapPieces.Decimal(0) == "0";
    assert VmapPieces.Cut(a, 1) == a[..9] == b[..9] == VmapPieces.Cut(b, 1);
    hide VmapPieces.Pieces, VmapPieces.AddAll, VmapPieces.Cut, VmapPieces.Decimal;
    VmapPieces.TwoModules(201, [], 4096, 8192, a, 8192, 12288, b, pageOf);
  }

  /** A block of eight bytes read from offset 0 is admitted, and never shown. */
  lemma ZeroBlockIsLost()
    ensures var q := D.Parsed(4, 0, 8, 'r', 1); var c := D.Item(0, 8, 'r');
            && G.AcceptAll([q], 1, [], [], 1, 100) == ([c], [])
            && D.Fits(1, [c], [], 25) && D.Show(D.Render(1, [c], [], 25), 1, []) != D.Listing([c], [])
  {
    ZeroBlockAdmitted();
    ZeroBlockFits();
    hide D.Render, D.Show, D.Listing, D.Fits, G.AcceptAll, D.WellFormed;
    var c := D.Item(0, 8, 'r');
    D.ShowExact(1, [c], [], 25);
    assert D.ZeroBlock([c][0]);
  }

  lemma ZeroBlockAdmitted()
    ensures var q := D.Parsed(4, 0, 8, 'r', 1); G.AcceptAll([q], 1, [], [], 1, 100) == ([D.Item(0, 8, 'r')], [])
  {
    var q, c := D.Parsed(4, 0, 8, 'r', 1), D.Item(0, 8, 'r');
    assert D.Words([]) == [] && D.Reserved([]) == 0;
    assert D.ItemOf(q) == c && [] + [c] == [c] && [c][..0] == [];
    assert D.Reserved([c]) == D.Reserved([]) + 8;
    assert G.Admitted(q, 1, [], [], 1, 100);
    hide G.Admitted, D.UsedBytes, D.WellFormed, D.Words, D.Reserved;
    assert [q][1..] == [];
    assert G.AcceptAll([], 1, [c], [], 1, 100) == ([c], []);
  }

  lemma ZeroBlockFits()
    ensures D.Fits(1, [D.Item(0, 8, 'r')], [], 25)
  {
    assert D.Words([]) == [];
  }

  /** The table-size check lets a table of two thousand million registers into 256 bytes, and the SPR
      check a register into a buffer it does not fit. */
  lemma GuardsWrap()
    ensures G.TableRoom(0x7FFF_FFFF, 256) && 4 * (D.SystemStart(0x7FFF_FFFF) + 1) >= 256
    ensures SprDump.SprUsed(357913939) < 0xFFFF_FFFF <= SprDump.SprUsed(357913940)
    ensures SprDump.SprRoom(SprDump.SprUsed(357913939), 0xFFFF_FFFF)
  {
    G.TableGuardWraps(0x7FFF_FFFF, 256);
  }

  /** The first piece of a range that starts inside a page is given the address of the page. */
  lemma UnalignedPiece(name: CString, pageOf: nat -> nat)
    ensures var r := VmapPieces.Pieces(0, 100, 8, name, pageOf)[0];
            r.virt == 100 && r.phys == pageOf(0) != pageOf(0) + 100
  {
    assert VmapPieces.PieceSize(100, 8) == 8;
  }
}
