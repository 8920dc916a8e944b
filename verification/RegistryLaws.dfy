/** What every registry operation keeps. */
module RegistryLaws {
  import opened Kernel
  import opened Sequences
  import opened Regions
  import opened ElfImage
  import opened ElfMemory
  import opened ElfShapes
  import opened Registry

  // ------------------------------------------------------------------ the bootloader's table

  lemma {:induction false} OccursAgrees(live: seq<Region>, other: seq<Region>, i: nat, name: CString)
    requires i <= |live| + 1 && i <= |other| + 1
    requires forall j | 0 <= j < i - 1 :: live[j].name == other[j].name
    ensures Occurs(live, i, name) == Occurs(other, i, name)
  {
    if i > 0 { OccursAgrees(live, other, i - 1, name); }
  }

  lemma {:induction false} OccursMonotone(live: seq<Region>, i: nat, j: nat, name: CString)
    requires i <= j <= |live| + 1
    ensures Occurs(live, i, name) <= Occurs(live, j, name)
    ensures i < j && TocName(live, i) == name ==> Occurs(live, i, name) < Occurs(live, j, name)
  {
    if i < j { OccursMonotone(live, i, j - 1, name); }
  }

  lemma {:induction false} OccursDrop(live: seq<Region>, k: nat, i: nat, name: CString)
    requires k < |live| && i <= |live| && name != live[k].name
    ensures Occurs(Drop(live, k), i, name) == Occurs(live, if i <= k + 1 then i else i + 1, name)
    ensures i == k + 1 ==> Occurs(live, i, name) == Occurs(live, i + 1, name)
  {
    if i > 0 {
      OccursDrop(live, k, i - 1, name);
      OccursDropStep(live, k, i, name);
    }
  }

  lemma OccursDropStep(live: seq<Region>, k: nat, i: nat, name: CString)
    requires k < |live| && 0 < i <= |live| && name != live[k].name
    requires Occurs(Drop(live, k), i - 1, name) == Occurs(live, if i - 1 <= k + 1 then i - 1 else i, name)
    ensures Occurs(Drop(live, k), i, name) == Occurs(live, if i <= k + 1 then i else i + 1, name)
    ensures i == k + 1 ==> Occurs(live, i, name) == Occurs(live, i + 1, name)
  {
    hide Drop, TocName, Occurs;
    TocNameDrop(live, k, i - 1);
    OccursStep(Drop(live, k), i, name);
    OccursStep(live, i, name);
    OccursStep(live, i + 1, name);
    if i == k + 2 { OccursStep(live, k + 2, name); TocNameAt(live, k + 1); }
    if i == k + 1 { TocNameAt(live, k + 1); }
  }

  lemma TocNameAt(live: seq<Region>, i: nat)
    requires 0 < i <= |live|
    ensures TocName(live, i) == live[i - 1].name
  {
  }

  lemma OccursStep(live: seq<Region>, i: nat, name: CString)
    requires 0 < i <= |live| + 1
    ensures Occurs(live, i, name) == Occurs(live, i - 1, name) + if TocName(live, i - 1) == name then 1 else 0
  {
  }

  lemma TocNameDrop(live: seq<Region>, k: nat, i: nat)
    requires k < |live| && i < |live|
    ensures TocName(Drop(live, k), i) == TocName(live, if i <= k then i else i + 1)
    ensures i == k ==> TocName(live, i + 1) == live[k].name
  {
  }

  /** The scan finds the highest sequence number in use: cells of one name are numbered from
      zero in table order. */
  lemma {:induction false} RegionNumRendered(fx: Frame, live: seq<Region>, name: CString, n: nat)
    requires |live| < fx.max && n <= |live| + 1
    ensures RegionNum(RenderToc(fx, live), name, n).0 < 0 <==> Occurs(live, n, name) == 0
    ensures RegionNum(RenderToc(fx, live), name, n).1 ==
            if Occurs(live, n, name) == 0 then 0 else Occurs(live, n, name) - 1
  {
    if n > 0 {
      hide RenderToc, TocCell, TocName;
      CellKey(fx, live, n - 1);
      RegionNumRendered(fx, live, name, n - 1);
      var t, last := RenderToc(fx, live), Occurs(live, n - 1, name);
      assert Occurs(live, n, name) == last + if t[n - 1].name == name then 1 else 0;
      assert t[n - 1].name == name ==> t[n - 1].seqNum == last;
      RegionNumStep(t, name, n);
      hide RegionNum, Occurs;
    }
  }

  lemma RegionNumStep(t: seq<SsRegion>, name: CString, n: nat)
    requires 0 < n <= |t|
    ensures var (at, seqNum) := RegionNum(t, name, n - 1);
            && (t[n - 1].name != name ==> RegionNum(t, name, n) == (at, seqNum))
            && (t[n - 1].name == name ==>
                  RegionNum(t, name, n) == (n - 1, if t[n - 1].seqNum > seqNum then t[n - 1].seqNum else seqNum))
  {
  }

  lemma CellKey(fx: Frame, live: seq<Region>, i: nat)
    requires |live| < fx.max && i <= |live|
    ensures var c := RenderToc(fx, live)[i]; c.name == TocName(live, i) && c.seqNum == Occurs(live, i, TocName(live, i))
  {
    assert RenderToc(fx, live)[i] == TocCell(fx, live, i);
  }

  lemma AddTocRenders(fx: Frame, live: seq<Region>, r: Region)
    requires |live| + 1 < fx.max
    ensures RenderToc(fx, live)[|live| + 1 := NewSs(RenderToc(fx, live), |live| + 1, r)] == RenderToc(fx, live + [r])
  {
    var t, n := RenderToc(fx, live), |live| + 1;
    RegionNumRendered(fx, live, r.name, n);
    forall i, name | 0 <= i <= n { OccursAgrees(live, live + [r], i, name); }
    var u := t[n := NewSs(t, n, r)];
    forall i | 0 <= i < |u| ensures u[i] == RenderToc(fx, live + [r])[i] {
      if i < n { assert t[i] == TocCell(fx, live, i) == TocCell(fx, live + [r], i); }
    }
  }

  lemma UpdateTocRenders(fx: Frame, live: seq<Region>, k: nat, r: Region)
    requires k < |live| < fx.max
    ensures var t := RenderToc(fx, live);
            t[k + 1 := t[k + 1].(base := r.phys)] == RenderToc(fx, live[k := Readdress(live[k], r)])
  {
    var other := live[k := Readdress(live[k], r)];
    var t := RenderToc(fx, live);
    forall i, name | 0 <= i <= |live| { OccursAgrees(live, other, i, name); }
    assert t[k + 1] == TocCell(fx, live, k + 1);
    forall i | 0 <= i < |t| ensures t[k + 1 := t[k + 1].(base := r.phys)][i] == RenderToc(fx, other)[i] {
      if i <= |live| { assert t[i] == TocCell(fx, live, i); }
    }
  }

  /** Closing the table over the only cell of its name renumbers nobody. */
  lemma DropTocRenders(fx: Frame, live: seq<Region>, k: nat)
    requires k < |live| < fx.max && OnlyAt(live, live[k].name, k)
    ensures ShiftOut(RenderToc(fx, live), |live| + 1, k + 1) == RenderToc(fx, Drop(live, k))
  {
    var t, rest := RenderToc(fx, live), Drop(live, k);
    var u := ShiftOut(t, |live| + 1, k + 1);
    forall i | 0 <= i < |u| ensures u[i] == RenderToc(fx, rest)[i] {
      if 0 < i <= |rest| {
        OccursDrop(live, k, i, rest[i - 1].name);
        assert t[i] == TocCell(fx, live, i) && t[i + 1] == TocCell(fx, live, i + 1);
      } else if i == 0 {
        assert t[0] == TocCell(fx, live, 0);
      }
    }
  }

  lemma RegionNumUnique(fx: Frame, live: seq<Region>, k: nat)
    requires k < |live| < fx.max && OnlyAt(live, live[k].name, k)
    ensures RegionNum(RenderToc(fx, live), live[k].name, |live| + 1).0 == k + 1
  {
    var t := RenderToc(fx, live);
    RegionNumBounds(t, live[k].name, |live| + 1);
    assert t[k + 1] == TocCell(fx, live, k + 1);
    forall j | k + 1 < j <= |live| ensures t[j].name != live[k].name { assert t[j] == TocCell(fx, live, j); }
  }

  /** No two cells of the bootloader's table share name and sequence number, and every counted
      cell is complete and marked valid. */
  lemma KeysUnique(fx: Frame, live: seq<Region>)
    requires |live| < fx.max
    ensures forall i, j | 0 <= i < j <= |live| && RenderToc(fx, live)[i].name == RenderToc(fx, live)[j].name ::
              RenderToc(fx, live)[i].seqNum < RenderToc(fx, live)[j].seqNum
    ensures forall i | 0 <= i <= |live| :: RenderToc(fx, live)[i].valid == MD_REGION_VALID
  {
    var t := RenderToc(fx, live);
    forall i, j | 0 <= i < j <= |live| && t[i].name == t[j].name ensures t[i].seqNum < t[j].seqNum {
      assert t[i] == TocCell(fx, live, i) && t[j] == TocCell(fx, live, j);
      OccursMonotone(live, i, j, t[j].name);
    }
    forall i | 0 <= i <= |live| ensures t[i].valid == MD_REGION_VALID { assert t[i] == TocCell(fx, live, i); }
  }

  /** The places before cell `n` that carry `name`. */
  function Earlier(t: seq<SsRegion>, n: nat, name: CString): set<nat>
    requires n <= |t|
  {
    set j: nat | j < n && t[j].name == name
  }

  lemma EarlierStep(t: seq<SsRegion>, n: nat, name: CString)
    requires n < |t|
    ensures |Earlier(t, n + 1, name)| == |Earlier(t, n, name)| + if t[n].name == name then 1 else 0
  {
    var front := Earlier(t, n, name);
    assert Earlier(t, n + 1, name) == if t[n].name == name then front + {n} else front;
  }

  lemma {:induction false} OccursCounts(fx: Frame, live: seq<Region>, n: nat, name: CString)
    requires |live| < fx.max && n <= |live| + 1
    ensures |Earlier(RenderToc(fx, live), n, name)| == Occurs(live, n, name)
  {
    if n > 0 {
      hide RenderToc, Occurs, TocName, Earlier;
      OccursCounts(fx, live, n - 1, name);
      CellKey(fx, live, n - 1);
      OccursStep(live, n, name);
      EarlierStep(RenderToc(fx, live), n - 1, name);
    } else {
      assert Earlier(RenderToc(fx, live), 0, name) == {};
    }
  }

  /** What the bootloader reads of region `i` in any state whose tables are in step: its name, the number of
      cells before it that carry the same name, the mark 'V' 'A' 'L' 'I', its physical address and size. */
  lemma CellTells(s: Smem, live: seq<Region>, i: nat)
    requires Tables(s, live) && i < |live|
    ensures s.count == |live| + 1 <= |s.regions| && i + 1 < s.count
    ensures var c, r := s.regions[i + 1], live[i];
            && c.name == r.name && c.seqNum == |Earlier(s.regions, i + 1, r.name)|
            && c.valid == 0x100_0000 * 'V' as nat + 0x1_0000 * 'A' as nat + 0x100 * 'L' as nat + 'I' as nat
            && c.base == r.phys && c.size == r.size
  {
    OccursCounts(s.fx, live, i + 1, live[i].name);
    assert s.regions[i + 1] == TocCell(s.fx, live, i + 1);
    OccursStep(live, i + 1, live[i].name);
    hide RenderToc, Occurs;
  }

  /** Every answer of an add and of an update, in numbers. */
  lemma SmemAnswers(s: Smem, live: seq<Region>, regno: nat, r: Region)
    requires Tables(s, live) && UpdateInBounds(s, regno, r)
    ensures var ok := |r.name| <= 12 && r.virt != 0 && r.size % 4 == 0;
            var known := exists k :: 0 <= k < |live| && live[k].name == r.name;
            && AddAnswer(s, r) == (if !ok then -22 else if |live| + 1 >= s.fx.max then -12 else if known then -17
                                   else |live|)
            && UpdateRegion(s, regno, r).1 == if !ok || regno >= s.fx.max || regno >= s.first then -22
                                              else if !known then -2 else 0
  {
    hide RenderToc, PatchHeaders;
  }

  // ------------------------------------------------------------------ add

  lemma CanonOrderly(s: Smem, live: seq<Region>, p: nat)
    requires Canon(s, live, p)
    ensures Orderly(s, live, p) && Placed(s.fx, live[p..])
  {
    hide Tables;
    DepictsCounted(s.elf, s.fx, live[p..]);
    DepictsPlaced(s.elf, s.fx, live[p..]);
  }

  lemma AddedTail(live: seq<Region>, p: nat, r: Region)
    requires p <= |live|
    ensures (live + [r])[p..] == live[p..] + [r]
  {
  }

  lemma AllValidAnd(live: seq<Region>, r: Region)
    requires AllValid(live) && ValidRegion(r)
    ensures AllValid(live + [r])
  {
  }

  /** An add is accepted exactly when the region is valid, a cell is left and its name is new; it then
      returns its position and extends both tables by it, and otherwise it changes nothing. */
  lemma AddKeepsOrder(s: Smem, live: seq<Region>, p: nat, r: Region)
    requires Orderly(s, live, p)
    ensures AddInBounds(s, r)
    ensures var (t, ret) := AddRegion(s, r);
            && (ret >= 0 <==> ValidRegion(r) && |live| + 1 < s.fx.max && OnlyAt(live, r.name, |live|))
            && (ret >= 0 ==>
                  ret == |live| && Orderly(t, live + [r], p) && t.elf == AddHeaders(s.elf, r)
                  && t.first == s.first && t.tocInit == s.tocInit && t.fx == s.fx)
            && (ret < 0 ==> t == s)
  {
    hide RenderToc, NewSs, HasRoom, Counted, AddHeaders, AllValid;
    if AddAnswer(s, r) >= 0 {
      AddCounted(s.elf, s.fx, live[p..], r);
      AddTocRenders(s.fx, live, r);
      AddedTail(live, p, r);
      AllValidAnd(live, r);
    }
    var k := EntryNum(live, r.name);
    assert k == |live| <==> OnlyAt(live, r.name, |live|);
  }

  /** In a canonical state an accepted add extends every table, the ELF image if and only if its sections
      still have their places. */
  lemma AddKeepsCanon(s: Smem, live: seq<Region>, p: nat, r: Region)
    requires Canon(s, live, p)
    ensures AddInBounds(s, r)
    ensures var (t, ret) := AddRegion(s, r);
            && (ret >= 0 <==> ValidRegion(r) && |live| + 1 < s.fx.max && OnlyAt(live, r.name, |live|))
            && (ret >= 0 ==>
                  ret == |live| && (Canon(t, live + [r], p) <==> |live| - p + 5 <= s.fx.max)
                  && t.first == s.first && t.tocInit == s.tocInit && t.fx == s.fx)
            && (ret < 0 ==> t == s)
  {
    hide Depicts, AddRegion, AddInBounds, Tables, Counted, AllValid;
    CanonOrderly(s, live, p);
    AddKeepsOrder(s, live, p, r);
    if AddRegion(s, r).1 >= 0 {
      AddDepicts(s.elf, s.fx, live[p..], r);
      AddedTail(live, p, r);
    }
  }

  /** Tables and counts are in order, and so is the ELF image as long as all sections have their places. */
  predicate Settled(s: Smem, live: seq<Region>, p: nat) {
    Orderly(s, live, p) && (Placed(s.fx, live[p..]) ==> Canon(s, live, p))
  }

  lemma AddKeepsSettled(s: Smem, live: seq<Region>, p: nat, r: Region)
    requires Settled(s, live, p)
    ensures AddInBounds(s, r)
    ensures var (t, ret) := AddRegion(s, r);
            && (ret >= 0 <==> ValidRegion(r) && |live| + 1 < s.fx.max && OnlyAt(live, r.name, |live|))
            && (ret >= 0 ==> ret == |live| && Settled(t, live + [r], p) && t.fx == s.fx)
            && (ret >= 0 ==> t.first == s.first && t.tocInit == s.tocInit)
            && (ret < 0 ==> t == s)
  {
    hide Canon, Tables, Counted, AllValid, AddRegion, AddInBounds, AddHeaders;
    AddKeepsOrder(s, live, p, r);
    if Placed(s.fx, live[p..]) { AddKeepsCanon(s, live, p, r); }
  }

  // ------------------------------------------------------------------ update

  lemma UpdateFits(fx: Frame, live: seq<Region>, k: nat, r: Region)
    requires Fits(fx, live) && k < |live| && r.virt != 0
    ensures Fits(fx, live[k := Readdress(live[k], r)])
  {
    assert ValidRegion(live[k]);
  }

  lemma UpdateValid(live: seq<Region>, k: nat, r: Region)
    requires AllValid(live) && k < |live| && r.virt != 0
    ensures AllValid(live[k := Readdress(live[k], r)])
  {
    assert ValidRegion(live[k]);
  }

  /** The list after an update: readdressed when it was accepted. */
  function Updated(live: seq<Region>, regno: nat, r: Region, ret: int): seq<Region> {
    if ret == 0 && regno < |live| then live[regno := Readdress(live[regno], r)] else live
  }

  /** Both tables follow any update, accepted or refused, whatever the ELF image holds. */
  lemma UpdateKeepsTables(s: Smem, live: seq<Region>, regno: nat, r: Region)
    requires Tables(s, live) && HandleKnown(s, regno)
    ensures UpdateInBounds(s, regno, r)
    ensures var (t, ret) := UpdateRegion(s, regno, r);
            && Tables(t, Updated(live, regno, r, ret)) && t.first == s.first && t.fx == s.fx && t.tocInit == s.tocInit
            && (ret == 0 <==> ValidRegion(r) && regno < s.fx.max && regno < s.first && EntryNum(live, r.name) < |live|)
            && (ret == 0 ==> regno < |live|)
            && t.elf == if ValidRegion(r) && regno < s.fx.max then PatchHeaders(s.elf, regno, r) else s.elf
  {
    hide RenderToc, PatchHeaders;
    if UpdateAnswer(s, regno, r) == 0 { UpdateTocRenders(s.fx, live, regno, r); }
  }

  /** No add ever returns the last handle, but nothing refuses it before the first removal: an update that
      names a live region then stores behind the bootloader's table. No other update does. */
  lemma UpdateBoundsExact(s: Smem, live: seq<Region>, regno: nat, r: Region)
    requires Tables(s, live)
    ensures UpdateInBounds(s, regno, r) <==>
            !(ValidRegion(r) && regno == s.fx.max - 1 && regno < s.first && EntryNum(live, r.name) < |live|)
  {
    hide RenderToc;
  }

  /** A handle that no add has returned is accepted too. Both tables then differ in the base address of a
      cell that does not count, and the ELF headers as after a refused update: nothing shows if and
      only if that address is zero and the handle's stores change no header in use. */
  lemma UnknownHandleExact(s: Smem, live: seq<Region>, p: nat, regno: nat, r: Region)
    requires Canon(s, live, p) && !HandleKnown(s, regno) && UpdateInBounds(s, regno, r)
             && UpdateRegion(s, regno, r).1 == 0
    ensures |live| <= regno && regno + 1 < |s.regions|
    ensures UpdateRegion(s, regno, r).0 ==
            s.(regions := s.regions[regno + 1 := s.regions[regno + 1].(base := r.phys)],
               elf := PatchHeaders(s.elf, regno, r))
    ensures Image(PatchHeaders(s.elf, regno, r)) == UpdateHeader(s.fx.max, Image(s.elf), regno, r)
    ensures Canon(UpdateRegion(s, regno, r).0, live, p) <==> r.phys == 0 && TailHolds(s.fx, live[p..], regno, r)
  {
    hide Render, UpdateHeader, PatchHeaders, Image, TailHolds;
    var t := UpdateRegion(s, regno, r).0;
    PatchDepicts(s.elf, s.fx, live[p..], regno, r);
    UpdateHeaderInvisible(s.fx, live[p..], regno, r);
    assert s.regions[regno + 1] == ZERO_SS && t.regions[regno + 1].base == r.phys;
    if r.phys == 0 { assert t.regions == s.regions; }
  }

  /** An update with a live handle, nothing having been pending at probe, patches the addresses
      of that one region in all tables when it is accepted. */
  lemma UpdateKeepsCanon(s: Smem, live: seq<Region>, regno: nat, r: Region)
    requires Canon(s, live, 0) && HandleKnown(s, regno)
    requires UpdateInBounds(s, regno, r) && UpdateRegion(s, regno, r).1 == 0
    ensures regno < |live| && UpdateRegion(s, regno, r).0.first == s.first && UpdateRegion(s, regno, r).0.fx == s.fx
    ensures Canon(UpdateRegion(s, regno, r).0, live[regno := Readdress(live[regno], r)], 0)
  {
    hide Render, RenderToc, UpdateHeader, Tables, PatchHeaders, Image, UpdateRegion;
    UpdateKeepsTables(s, live, regno, r);
    assert live[0..] == live;
    assert live[regno := Readdress(live[regno], r)][0..] == live[regno := Readdress(live[regno], r)];
    UpdateFits(s.fx, live, regno, r);
    PatchDepicts(s.elf, s.fx, live, regno, r);
    UpdateHeaderRenders(s.fx, live, regno, r);
  }

  /** A refused update still patches the ELF headers of handle `regno`, which belong to region
      `regno + p`: the tables keep rendering one list exactly when there is no such region, or the
      request repeats the addresses recorded for it, and the stores of the last four handles change
      nothing where they land. */
  lemma RefusedUpdateExact(s: Smem, live: seq<Region>, p: nat, regno: nat, r: Region)
    requires Canon(s, live, p) && ValidRegion(r) && regno < s.fx.max && UpdateAnswer(s, regno, r) != 0
    ensures UpdateRegion(s, regno, r).1 != 0
    ensures var t := UpdateRegion(s, regno, r).0;
            (exists other :: Canon(t, other, p)) <==>
            (regno + p < |live| ==> SameAddresses(r, live[regno + p])) && TailHolds(s.fx, live[p..], regno, r)
    ensures Canon(UpdateRegion(s, regno, r).0, live, p) <==>
            (regno + p < |live| ==> SameAddresses(r, live[regno + p])) && TailHolds(s.fx, live[p..], regno, r)
  {
    hide Render, RenderToc, UpdateHeader, Fits, TailHolds, PatchHeaders, Image;
    var t := UpdateRegion(s, regno, r).0;
    PatchDepicts(s.elf, s.fx, live[p..], regno, r);
    UpdateHeaderInvisible(s.fx, live[p..], regno, r);
    assert t == s.(elf := PatchHeaders(s.elf, regno, r));
    assert forall other | Canon(t, other, p) :: other == live;
    assert Canon(t, live, p) <==> Image(t.elf) == Image(s.elf);
  }

  /** When an accepted update of a registry with `p > 0` regions pending at probe changes nothing but its
      own region. Header `regno` belongs to region `regno + p`, whose addresses must be the requested
      ones, as must be those that the region's own headers carry, if it has any; and the stores of
      the last four handles must change nothing, or make the one change that is due: the physical
      address of the first region with headers, under the third last handle. */
  predicate PatchAgrees(fx: Frame, live: seq<Region>, p: nat, regno: nat, r: Region)
    requires regno < |live| && p <= |live|
  {
    && (regno + p < |live| ==> SameAddresses(r, live[regno + p]))
    && (regno >= p ==> r.virt == live[regno].virt)
    && (regno >= p && !(regno == p && regno + 3 == fx.max) ==> r.phys == live[regno].phys)
    && TailHolds(fx, live[regno := Readdress(live[regno], r)][p..], regno, r)
  }

  /** With `p > 0` regions pending at probe an accepted update keeps the tables in step exactly when its
      header stores agree with it. */
  lemma PendingUpdateExact(s: Smem, live: seq<Region>, p: nat, regno: nat, r: Region)
    requires Canon(s, live, p) && HandleKnown(s, regno) && p > 0
    requires UpdateInBounds(s, regno, r) && UpdateRegion(s, regno, r).1 == 0
    ensures regno < |live|
    ensures Canon(UpdateRegion(s, regno, r).0, live[regno := Readdress(live[regno], r)], p) <==>
            PatchAgrees(s.fx, live, p, regno, r)
  {
    hide Render, RenderToc, UpdateHeader, TailHolds, PatchHeaders, Image, UpdateRegion, UpdateInBounds;
    UpdateKeepsTables(s, live, regno, r);
    var t, other := UpdateRegion(s, regno, r).0, live[regno := Readdress(live[regno], r)];
    var E := live[p..];
    UpdateValid(live, regno, r);
    hide Tables;
    assert other[p..] == if regno >= p then E[regno - p := Readdress(E[regno - p], r)] else E;
    if regno >= p { UpdateFits(s.fx, E, regno - p, r); }
    PatchDepicts(s.elf, s.fx, E, regno, r);
    assert Canon(t, other, p) <==> UpdateHeader(s.fx.max, Render(s.fx, E), regno, r) == Render(s.fx, other[p..]);
    UpdateHeaderMisses(s.fx, E, other[p..], regno, p, r);
    assert regno < |E| ==> E[regno] == live[regno + p];
    assert regno >= p ==> E[regno - p] == live[regno];
  }

  /** What the headers of region `k` hold. */
  lemma RegionHeaders(fx: Frame, E: seq<Region>, k: nat)
    requires Fits(fx, E) && k < |E|
    ensures var e := Render(fx, E);
            && |e.phdr| == |E| + 1 && |e.shdr| == |E| + 4
            && e.phdr[k + 1].vaddr == E[k].virt && e.phdr[k + 1].paddr == E[k].phys && e.shdr[k + 4].addr == E[k].virt
  {
    hide Table, NameAt, PayloadAt;
  }

  /** The stores of handle `i`, made while region `i - p` was to be readdressed. */
  lemma UpdateHeaderMisses(fx: Frame, E: seq<Region>, F: seq<Region>, i: nat, p: nat, r: Region)
    requires Fits(fx, E) && Placed(fx, E) && Fits(fx, F) && p > 0 && i < |E| + p && i < fx.max && r.virt != 0
    requires F == if i >= p then E[i - p := Readdress(E[i - p], r)] else E
    ensures UpdateHeader(fx.max, Render(fx, E), i, r) == Render(fx, F) <==>
            && (i < |E| ==> SameAddresses(r, E[i]))
            && (i >= p ==> r.virt == E[i - p].virt)
            && (i >= p && !(i == p && i + 3 == fx.max) ==> r.phys == E[i - p].phys)
            && TailHolds(fx, F, i, r)
  {
    UpdateHeaderInvisible(fx, E, i, r);
    if i >= p {
      RegionHeaders(fx, E, i - p);
      ReaddressRenders(fx, E, i - p, r);
      if i + 4 < fx.max {
        HeadMisses(fx, E, F, i, p, r);
      } else {
        TailMisses(fx, E, F, i, p, r);
      }
    }
    hide Render, UpdateHeader, Bytes;
  }

  /** With headers in their own places, nothing but the requested addresses may be there already. */
  lemma HeadMisses(fx: Frame, E: seq<Region>, F: seq<Region>, i: nat, p: nat, r: Region)
    requires Fits(fx, E) && Placed(fx, E) && Fits(fx, F) && 0 < p <= i < |E| + p && i + 4 < fx.max && r.virt != 0
    requires F == E[i - p := Readdress(E[i - p], r)]
    ensures UpdateHeader(fx.max, Render(fx, E), i, r) == Render(fx, F) <==>
            (i < |E| ==> SameAddresses(r, E[i])) && SameAddresses(r, E[i - p])
  {
    hide Render, TailHolds, UpdateHeader, Fits;
    var k := i - p;
    if SameAddresses(r, E[k]) {
      assert F == E;
      UpdateHeaderInvisible(fx, E, i, r);
      NoTail(fx, E, i, r);
    } else {
      RegionHeaders(fx, E, k);
      RegionHeaders(fx, F, k);
      OtherPhdrKept(fx.max, Render(fx, E), i, k, r);
    }
  }

  lemma NoTail(fx: Frame, E: seq<Region>, i: nat, r: Region)
    requires i + 4 < fx.max
    ensures TailHolds(fx, E, i, r)
  {
  }

  /** Handle `i` leaves program header `k + 1` to region `k`. */
  lemma OtherPhdrKept(max: nat, e: Elf, i: nat, k: nat, r: Region)
    requires i + 4 < max && k < i && k + 1 < |e.phdr|
    ensures |UpdateHeader(max, e, i, r).phdr| == |e.phdr| && UpdateHeader(max, e, i, r).phdr[k + 1] == e.phdr[k + 1]
  {
  }

  /** One program header with a field overlaid against one with new addresses. */
  lemma OverlayMeets(p: seq<Phdr>, x: nat, j: nat, r: Region)
    requires 0 < x < |p| && j < 4
    ensures (if j < |p| then p[j := Overlaid(p[j], j, r.virt)] else p)
            == p[x := p[x].(vaddr := r.virt, paddr := r.phys)]
            <==>
            && p[x].vaddr == r.virt && (!(x == 1 && j == 1) ==> p[x].paddr == r.phys)
            && (j < |p| ==> if x == 1 && j == 1 then r.virt == r.phys else Overlaid(p[j], j, r.virt) == p[j])
  {
    var a := if j < |p| then p[j := Overlaid(p[j], j, r.virt)] else p;
    var b := p[x := p[x].(vaddr := r.virt, paddr := r.phys)];
    if a == b {
      assert a[x] == b[x];
      if j < |p| { assert a[j] == b[j]; }
    } else {
      var y :| 0 <= y < |p| && a[y] != b[y];
      assert y == x || y == j;
    }
  }

  lemma TailMisses(fx: Frame, E: seq<Region>, F: seq<Region>, i: nat, p: nat, r: Region)
    requires Fits(fx, E) && Placed(fx, E) && Fits(fx, F) && 0 < p <= i < |E| + p && fx.max <= i + 4 < fx.max + 4
             && r.virt != 0
    requires F == E[i - p := Readdress(E[i - p], r)]
    ensures UpdateHeader(fx.max, Render(fx, E), i, r) == Render(fx, F) <==>
            && r.virt == E[i - p].virt
            && (!(i == p && i + 3 == fx.max) ==> r.phys == E[i - p].phys)
            && TailHolds(fx, F, i, r)
  {
    hide Render, SpellsNames, UpdateHeader, Overlapped, Fits;
    TailParts(fx, E, i, i - p, r);
    ReaddressRenders(fx, E, i - p, r);
    TailFields(fx, E, F, i, p, r);
  }

  /** The image after the stores of handle `i`, part by part, against the image with region `k`
      readdressed. */
  lemma TailParts(fx: Frame, E: seq<Region>, i: nat, k: nat, r: Region)
    requires Fits(fx, E) && Placed(fx, E) && k < |E| <= i && fx.max <= i + 4 < fx.max + 4
    ensures |Render(fx, E).phdr| == |E| + 1 && |Render(fx, E).shdr| == |E| + 4
    ensures var j := i + 4 - fx.max;
            UpdateHeader(fx.max, Render(fx, E), i, r) == Readdressed(Render(fx, E), k, r) <==>
            r.virt == E[k].virt && TailPhdr(fx, E, k, j, r) && (i + 1 == fx.max ==> SpellsNames(r))
  {
    var e, j := Render(fx, E), i + 4 - fx.max;
    RegionHeaders(fx, E, k);
    TextRewritten(fx, E, r);
    TailPhdrs(fx, E, k, j, r);
    TailStoresAre(fx.max, e, i, r);
    hide *;
    var ph := if j < |e.phdr| then e.phdr[j := Overlaid(e.phdr[j], j, r.virt)] else e.phdr;
    var text := if i + 1 == fx.max then Rewritten(e.strtab, r) else e.strtab;
    ReaddressedParts(e, ph, text, k, r);
  }

  lemma ReaddressedParts(e: Elf, ph: seq<Phdr>, text: seq<char>, k: nat, r: Region)
    requires k + 1 < |e.phdr| && k + 4 < |e.shdr|
    ensures e.(phdr := ph, strtab := text) == Readdressed(e, k, r) <==>
            && ph == e.phdr[k + 1 := e.phdr[k + 1].(vaddr := r.virt, paddr := r.phys)]
            && text == e.strtab && e.shdr[k + 4].addr == r.virt
  {
    var sh := e.shdr[k + 4 := e.shdr[k + 4].(addr := r.virt)];
    if e.shdr == sh { assert e.shdr[k + 4] == sh[k + 4]; }
    if e.shdr[k + 4].addr == r.virt { assert e.shdr == sh; }
  }

  predicate TailPhdr(fx: Frame, E: seq<Region>, k: nat, j: nat, r: Region)
    requires k < |E| && j < 4
  {
    && (!(k == 0 && j == 1) ==> r.phys == E[k].phys)
    && (j <= |E| ==> r.virt == if k == 0 && j == 1 then r.phys else Overlapped(fx, E, j))
  }

  lemma TailPhdrs(fx: Frame, E: seq<Region>, k: nat, j: nat, r: Region)
    requires Fits(fx, E) && k < |E| && j < 4
    ensures var p, x := Render(fx, E).phdr, k + 1;
            && |p| == |E| + 1
            && ((if j < |p| then p[j := Overlaid(p[j], j, r.virt)] else p)
                == p[x := p[x].(vaddr := r.virt, paddr := r.phys)]
                <==> r.virt == E[k].virt && TailPhdr(fx, E, k, j, r))
  {
    RegionHeaders(fx, E, k);
    if j <= |E| { OverlappedField(fx, E, j); }
    hide Render, Overlaid, Overlapped;
    OverlayMeets(Render(fx, E).phdr, k + 1, j, r);
  }

  /** The field a section store lands in belongs to no other region than the one readdressed only if that
      is the first, and the field its physical address. */
  lemma TailFields(fx: Frame, E: seq<Region>, F: seq<Region>, i: nat, p: nat, r: Region)
    requires |E| + 4 <= fx.max && 0 < p <= i < |E| + p && fx.max <= i + 4 < fx.max + 4
    requires F == E[i - p := Readdress(E[i - p], r)]
    ensures var j := i + 4 - fx.max;
            j <= |E| ==> Overlapped(fx, F, j) == if i == p && j == 1 then r.phys else Overlapped(fx, E, j)
  {
  }

  // ------------------------------------------------------------------ remove

  lemma DropTail(live: seq<Region>, p: nat, k: nat)
    requires p <= k < |live|
    ensures Drop(live[p..], k - p) == Drop(live, k)[p..]
  {
  }

  /** A removal that succeeds leaves both tables rendering the list without the region, and one that
      the ELF search refuses leaves them closed, uncounted and switched off, whatever the image. */
  lemma RemoveKeepsTables(s: Smem, live: seq<Region>, k: nat, r: Region)
    requires Tables(s, live) && k < |live| && OnlyAt(live, r.name, k) && RemoveInBounds(s, r)
    ensures var (t, ret) := RemoveRegion(s, r);
            && (t.elf, ret) == ClearMemory(s.elf, r)
            && t.first == Min(s.first, k) <= k && t.first <= s.first && (t.first == s.first || t.first == k)
            && t.fx == s.fx
            && (ret == 0 ==> Tables(t, Drop(live, k)) && t.tocInit)
            && (ret != 0 ==> !t.tocInit && t.count == s.count && t.entry == Drop(live, k) + [ZERO_REGION]
                             && t.regions == RenderToc(s.fx, Drop(live, k)))
  {
    hide RenderToc, ClearMemory, ClearInBounds, ShiftOut, RegionNum;
    assert EntryNum(live, r.name) == k;
    DropAppended(live, k);
    RegionNumUnique(s.fx, live, k);
    DropTocRenders(s.fx, live, k);
  }

  /** Removing a region of a name that occurs once succeeds exactly when it had headers and the ELF
      search does not refuse it; all tables then render the list without it exactly when the clear
      was clean. */
  lemma RemoveExact(s: Smem, live: seq<Region>, p: nat, k: nat, r: Region)
    requires Canon(s, live, p) && k < |live| && OnlyAt(live, r.name, k) && r.virt != 0 && r.size % 4 == 0
    ensures RemoveInBounds(s, r)
    ensures var (t, ret) := RemoveRegion(s, r);
            && (ret == 0 <==> p <= k && !Refused(live[p..], r, k - p))
            && (ret == 0 ==> Tables(t, Drop(live, k)) && t.first == Min(s.first, k) && t.tocInit && t.fx == s.fx)
            && (ret == 0 && Canon(t, Drop(live, k), p) <==> p <= k && Clean(live[p..], r, k - p))
            && (ret != 0 ==> ret == -EINVAL && !t.tocInit && t.elf == s.elf)
  {
    hide Render, RenderToc, ClearHeaders, ClearInBounds, ShiftOut, RegionNum, Refused, Clean, ClearMemory, Image,
        RemoveRegion;
    var E := live[p..];
    CanonOrderly(s, live, p);
    assert ValidRegion(r) by { assert ValidRegion(live[k]); }
    ClearOfTail(s.fx, live, p, k, r);
    ClearDepicts(s.elf, s.fx, E, r);
    RemoveKeepsTables(s, live, k, r);
    ClearRefused(s.elf, r);
    if p <= k {
      RefusedNotCleanAt(E, r, k - p);
      DropTail(live, p, k);
      DropValid(live, k);
    }
    hide Tables;
  }

  lemma DropValid(live: seq<Region>, k: nat)
    requires AllValid(live) && k < |live|
    ensures AllValid(Drop(live, k))
  {
    assert forall q | q in Drop(live, k) :: q in live;
  }

  lemma RefusedNotCleanAt(E: seq<Region>, r: Region, k: nat)
    requires k < |E|
    ensures Clean(E, r, k) ==> !Refused(E, r, k)
  {
    if Refused(E, r, k) { RefusedNotClean(E, r, k); }
  }

  /** What the ELF search makes of the only region of a name, with and without headers. */
  lemma ClearOfTail(fx: Frame, live: seq<Region>, p: nat, k: nat, r: Region)
    requires p <= |live| && Fits(fx, live[p..]) && k < |live| && OnlyAt(live, r.name, k) && ValidRegion(r)
    ensures var e := Render(fx, live[p..]);
            && ClearInBounds(e, r) && (ClearHeaders(e, r).1 != 0 ==> ClearHeaders(e, r) == (e, -EINVAL))
            && (ClearHeaders(e, r).1 == 0 <==> p <= k && !Refused(live[p..], r, k - p))
            && (p <= k ==> Fits(fx, Drop(live[p..], k - p))
                           && (ClearHeaders(e, r) == (Render(fx, Drop(live[p..], k - p)), 0)
                             <==> Clean(live[p..], r, k - p)))
  {
    hide Render, ClearHeaders, ClearInBounds, Refused, Clean, Erase, EraseInBounds;
    var E := live[p..];
    if p <= k {
      assert OnlyAt(E, r.name, k - p) by { assert forall j | 0 <= j < |E| :: E[j] == live[j + p]; }
      RefusedExact(fx, E, r, k - p);
      CleanExact(fx, E, r, k - p);
    } else {
      assert OnlyAt(E, r.name, |E|) by { assert forall j | 0 <= j < |E| :: E[j] == live[j + p]; }
      ClearHeadersAbsent(fx, E, r);
    }
  }

  /** Region `k` is the only one of its name, has its ELF headers, the request carries its
      addresses and size, and no earlier region with headers has its span. */
  predicate Removable(live: seq<Region>, p: nat, k: nat, r: Region) {
    && p <= k < |live| && OnlyAt(live, r.name, k) && SameSpan(live[k], r)
    && FirstOfItsSpan(live[p..], k - p)
  }

  /** For a positive size a removal that succeeds is clean, and succeeds exactly for a removable
      region. */
  lemma RemoveSized(s: Smem, live: seq<Region>, p: nat, k: nat, r: Region)
    requires Canon(s, live, p) && k < |live| && OnlyAt(live, r.name, k) && ValidRegion(r)
    requires r.size > 0 || live[k].size > 0
    ensures RemoveInBounds(s, r)
    ensures var (t, ret) := RemoveRegion(s, r);
            && (ret == 0 <==> Removable(live, p, k, r))
            && (ret == 0 ==> Canon(t, Drop(live, k), p) && t.first == Min(s.first, k) && t.tocInit && t.fx == s.fx)
            && (p <= k ==> (Removable(live, p, k, r) <==> Clean(live[p..], r, k - p)))
  {
    hide Canon, RemoveRegion, RemoveInBounds, Refused, Clean, Tables;
    RemoveExact(s, live, p, k, r);
    if p <= k {
      SizedIsTidy(live[p..], r, k - p);
      RefusedNotCleanAt(live[p..], r, k - p);
    }
  }

  /** Removal requests are not validated. One that no region could satisfy is refused, the tables
      being closed already, unless it spells out the banner: then the banner's headers go with the
      region. */
  lemma RemoveUnvalidated(s: Smem, live: seq<Region>, p: nat, k: nat, r: Region)
    requires Canon(s, live, p) && k < |live| && OnlyAt(live, r.name, k)
    requires !(r.virt != 0 && r.size % 4 == 0)
    ensures RemoveInBounds(s, r)
    ensures RemoveRegion(s, r).1 == 0 <==> IsBanner(s.fx, r)
  {
    hide Render, RenderToc, ClearInBounds, ShiftOut, RegionNum, Clearable, ClearMemory, Image;
    assert ValidRegion(live[k]);
    UnvalidatedClear(s.fx, live[p..], r);
    UnvalidatedAnswer(s.elf, s.fx, live[p..], r);
    RemoveKeepsTables(s, live, k, r);
    hide Tables, RemoveRegion;
  }

  lemma UnvalidatedAnswer(h: Header, fx: Frame, E: seq<Region>, r: Region)
    requires Depicts(h, fx, E) && ClearInBounds(Render(fx, E), r)
    ensures ClearMemory(h, r).1 == 0 <==> Clearable(Render(fx, E), r)
  {
    hide Clearable, EraseHeaders, Render;
  }

  /** Removing a name that is not registered changes nothing. */
  lemma RemoveAbsent(s: Smem, live: seq<Region>, r: Region)
    requires Tables(s, live) && OnlyAt(live, r.name, |live|)
    ensures RemoveInBounds(s, r) && RemoveRegion(s, r) == (s, -ENOENT)
  {
    hide RenderToc;
  }

  /** A name registered twice before probe has no headers, so its removal is refused; by then the
      local table has lost its first entry of that name and the bootloader's table its last cell of
      it, and both counts still include the cell emptied at the end. */
  lemma RemoveDuplicate(s: Smem, live: seq<Region>, p: nat, i: nat, j: nat, r: Region)
    requires Canon(s, live, p) && ValidRegion(r) && i < j < |live|
    requires live[i].name == live[j].name == r.name && OnlyAt(live[p..], r.name, |live| - p)
    ensures RemoveInBounds(s, r)
    ensures var (t, ret) := RemoveRegion(s, r);
            var k, g := EntryNum(live, r.name), RegionNum(s.regions, r.name, s.count).0;
            && ret == -EINVAL && k <= i && j + 1 <= g <= |live| && live[g - 1].name == r.name
            && (forall m | g <= m < |live| :: live[m].name != r.name)
            && t.entry == Drop(live, k) + [ZERO_REGION] && t.regions == ShiftOut(s.regions, s.count, g)
            && t.elf == s.elf && t.count == s.count && !t.tocInit
  {
    hide Render, ClearHeaders, ClearInBounds, ShiftOut, RegionNum, ClearMemory, Image;
    ClearHeadersAbsent(s.fx, live[p..], r);
    ClearRefused(s.elf, r);
    RegionNumBounds(s.regions, r.name, s.count);
    LastOfName(s.fx, live, r.name);
    hide RenderToc;
  }

  lemma LastOfName(fx: Frame, live: seq<Region>, name: CString)
    requires |live| < fx.max
    ensures var t := RenderToc(fx, live); forall m | 0 <= m < |live| :: t[m + 1].name == live[m].name
  {
    forall m | 0 <= m < |live| ensures RenderToc(fx, live)[m + 1].name == live[m].name { CellKey(fx, live, m + 1); }
  }
}
