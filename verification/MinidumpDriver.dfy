/** The SMEM back end as the driver runs it: tables changed in place. Every store that the bootloader
    could see goes through one of three methods that record what it would then find. */
module MinidumpDriver {
  import opened Kernel
  import opened Sequences
  import opened Regions
  import opened ElfImage
  import opened ElfMemory
  import opened ElfHeaders
  import opened Registry

  /** What the bootloader reads: whether the table is switched on, and its counted cells. */
  datatype BootView = BootView(init: bool, listed: seq<SsRegion>)

  /** Of the views from `mark` on all but the last show the list there was, or the table off. */
  predicate UntilLast(h: seq<BootView>, mark: nat, before: seq<SsRegion>) {
    forall i | mark <= i < |h| - 1 && h[i].init :: h[i].listed == before
  }

  /** A bootloader that finds the table switched on during a probe finds the header and the first
      of the pending regions, in order. */
  predicate SomePending(b: BootView, fx: Frame, pending: seq<Region>)
    requires |pending| < fx.max
  {
    b.init ==> 1 <= |b.listed| <= |pending| + 1 && b.listed == Drained(fx, pending, |b.listed| - 1)
  }

  predicate AllSomePending(h: seq<BootView>, mark: nat, fx: Frame, pending: seq<Region>)
    requires |pending| < fx.max
  {
    forall i | mark <= i < |h| :: SomePending(h[i], fx, pending)
  }

  /** No view lists fewer cells than the one before. */
  predicate Growing(h: seq<BootView>) {
    forall i | 0 < i < |h| :: |h[i - 1].listed| <= |h[i].listed|
  }

  function Drained(fx: Frame, pending: seq<Region>, n: nat): seq<SsRegion>
    requires n <= |pending| < fx.max
  {
    Drain(Fresh(fx), pending[..n]).regions[..n + 1]
  }

  /** The stores a new cell takes: its fields, the sequence number only for a name that occurs, and
      the count. */
  function AddStores(t: seq<SsRegion>, n: nat, name: CString): (k: nat)
    requires n <= |t|
    ensures 5 <= k <= 6
  {
    if RegionNum(t, name, n).0 >= 0 then 6 else 5
  }

  function DrainStores(s: Smem, pending: seq<Region>): nat
    requires s.count + |pending| <= |s.regions|
    decreases |pending|
  {
    if pending == [] then 0
    else
      var n := |pending| - 1;
      var t := Drain(s, pending[..n]);
      DrainStores(s, pending[..n]) + AddStores(t.regions, t.count, pending[n].name)
  }

  /** The stores of a removal: the switch, one cell after another, and, unless the ELF search refuses,
      the count and the switch again. */
  function RemoveStores(s: Smem, r: Region): nat
    requires RemoveInBounds(s, r)
  {
    var k, g := Registry.EntryNum(s.entry, r.name), RegionNum(s.regions, r.name, s.count).0;
    if k == |s.entry| || g < 0 || g >= s.count then 0
    else 1 + (s.count - g) + if RemoveRegion(s, r).1 == 0 then 2 else 0
  }

  class Minidump {
    const fx: Frame
    const entry: array<Region>
    const regions: array<SsRegion>
    const elf: ElfHeader
    var numRegions: nat
    var count: nat
    var tocInit: bool
    var firstRemoved: int
    ghost var history: seq<BootView>

    ghost predicate Valid()
      reads this, entry, regions, elf, elf.mem, elf.strtab
    {
      && entry.Length == fx.max && regions.Length == fx.max && elf.fx == fx && elf.Valid()
      && numRegions <= fx.max && count <= fx.max
    }

    ghost function View(): Smem
      requires Valid()
      reads this, entry, regions, elf, elf.mem, elf.strtab
    {
      Smem(fx, entry[..numRegions], regions[..], count, tocInit, elf.View(), firstRemoved)
    }

    ghost function Boot(): BootView
      requires count <= regions.Length
      reads this, regions
    {
      BootView(tocInit, regions[..count])
    }

    /** `n` views have been recorded behind those of `before`, the last of them the present one. */
    ghost predicate Watched(before: seq<BootView>, n: nat)
      requires count <= regions.Length
      reads this, regions
    {
      before <= history && |history| == |before| + n && (n > 0 ==> history[|history| - 1] == Boot())
    }

    // ---------------------------------------------------------------- the stores

    method StoreCell(i: nat, c: SsRegion)
      requires i < regions.Length && count <= regions.Length
      modifies this`history, regions
      ensures regions[..] == old(regions[..])[i := c] && history == old(history) + [Boot()]
    {
      regions[i] := c;
      history := history + [Boot()];
    }

    method StoreCount(n: nat)
      requires n <= regions.Length
      modifies this`count, this`history
      ensures count == n && history == old(history) + [Boot()]
    {
      count := n;
      history := history + [Boot()];
    }

    method StoreInit(on: bool)
      requires count <= regions.Length
      modifies this`tocInit, this`history
      ensures tocInit == on && history == old(history) + [Boot()]
    {
      tocInit := on;
      history := history + [Boot()];
    }

    // ---------------------------------------------------------------- the operations

    /** The probe, `pending` having been registered before it: `num_regions` already counts them.
        Each turn of the drain also stores the region in the cell past the last one, where
        nothing ever looks. */
    constructor Probe(frame: Frame, pending: seq<Region>)
      requires |pending| < frame.max
      ensures Valid() && fx == frame && fresh(entry) && fresh(regions) && fresh(elf)
      ensures fresh(elf.mem) && fresh(elf.strtab)
      ensures View() == Drain(Fresh(frame), pending)
      ensures Watched([], 5 + DrainStores(Fresh(frame), pending))
      ensures forall i | 0 <= i < 4 :: !history[i].init
      ensures history[4] == BootView(true, [SsRegion("KELF_HDR", 0, 0x5641_4C49, frame.ehdrPa, frame.ElfhSize())])
      ensures AllSomePending(history, 0, frame, pending) && Growing(history)
    {
      hide NewHeader, Drain, RenderToc, AllSomePending, DrainStores, Drained, Depicts, AlignUp4, Fresh;
      fx := frame;
      entry := new Region[frame.max](_ => ZERO_REGION);
      regions := new SsRegion[frame.max](_ => ZERO_SS);
      elf := new ElfHeader(frame);
      numRegions := |pending|;
      count, tocInit, firstRemoved := 1, false, INT_MAX;
      history := [];
      new;
      Open(pending);
    }

    /** The part of the probe that the bootloader could watch. */
    method Open(pending: seq<Region>)
      requires Valid() && !tocInit && count == 1 && firstRemoved == INT_MAX && history == []
               && elf.View() == NewHeader(fx)
      requires forall i | 0 <= i < regions.Length :: regions[i] == ZERO_SS
      requires numRegions == |pending| < fx.max
      modifies this`count, this`tocInit, this`history, entry, regions
      ensures Valid() && View() == Drain(Fresh(fx), pending)
      ensures Watched([], 5 + DrainStores(Fresh(fx), pending))
      ensures (forall i | 0 <= i < 4 :: !history[i].init) && history[4] == BootView(true, [HeaderSs(fx)])
      ensures AllSomePending(history, 0, fx, pending) && Growing(history)
    {
      hide NewHeader, Drain, RenderToc, DrainStores, Drained, Growing, HeaderSs;
      OpenToc();
      NothingDrained(fx, pending);
      DrainStart(fx, pending);
      assert pending[..|pending|] == pending;
      DrainPending(pending);
      FirstViews(history, fx, pending);
      DrainFrame(Fresh(fx), pending);
    }

    /** The header's own record, its valid mark last; then the table is switched on. */
    method OpenToc()
      requires !tocInit && count == 1 && history == [] && regions.Length == fx.max
      requires forall i | 0 <= i < regions.Length :: regions[i] == ZERO_SS
      modifies this`tocInit, this`history, regions
      ensures tocInit && regions[..] == RenderToc(fx, []) && Watched([], 5) && Growing(history)
      ensures (forall i | 0 <= i < 4 :: !history[i].init) && history[4] == BootView(true, [HeaderSs(fx)])
    {
      var h := HeaderSs(fx);
      StoreCell(0, regions[0].(name := h.name));
      StoreCell(0, regions[0].(base := h.base));
      StoreCell(0, regions[0].(size := h.size));
      StoreCell(0, regions[0].(valid := MD_REGION_VALID));
      StoreInit(true);
      assert regions[..count] == [h];
      forall i | 0 <= i < fx.max ensures regions[i] == RenderToc(fx, [])[i] {
        if i == 0 { assert RenderToc(fx, [])[0] == TocCell(fx, [], 0); }
      }
    }

    /** The first `i` pending regions are in both tables, and every view since `h0` shows some of them. */
    ghost predicate Draining(pending: seq<Region>, i: nat, h0: seq<BootView>)
      requires i <= |pending| < fx.max
      reads this, entry, regions
    {
      && numRegions == |pending| && fx.max == entry.Length == regions.Length && count == i + 1
      && entry[..i] == Drain(Fresh(fx), pending[..i]).entry && regions[..] == Drain(Fresh(fx), pending[..i]).regions
      && h0 <= history && |history| == |h0| + DrainStores(Fresh(fx), pending[..i])
      && history != [] && history[|history| - 1] == Boot() && Growing(history)
      && AllSomePending(history, |h0|, fx, pending)
    }

    /** The loop over the pending list. */
    method DrainPending(pending: seq<Region>)
      requires |pending| < fx.max && Draining(pending, 0, history)
      modifies this`count, this`history, entry, regions
      ensures Draining(pending, |pending|, old(history))
    {
      hide *;
      for i := 0 to |pending|
        invariant Draining(pending, i, old(history))
      {
        DrainOne(pending, i, old(history));
      }
    }

    /** One turn of that loop. */
    method DrainOne(pending: seq<Region>, i: nat, ghost h0: seq<BootView>)
      requires i < |pending| < fx.max && Draining(pending, i, h0)
      modifies this`count, this`history, entry, regions
      ensures Draining(pending, i + 1, h0)
    {
      hide NewHeader, RenderToc, NewSs, Drain, DrainStores, AddStores, Growing;
      ghost var h := history;
      DrainNext(fx, pending, i);
      assert regions[..count] == Drained(fx, pending, i);
      entry[i] := pending[i];
      AddSsToc(pending[i]);
      assert regions[..count] == Drained(fx, pending, i + 1);
      GrowingOn(h, history, i + 1);
    }

    /** `md_region_num`. */
    method RegionNum(name: CString) returns (ret: int, seqno: nat)
      requires count <= regions.Length
      ensures (ret, seqno) == Registry.RegionNum(regions[..], name, count)
    {
      ret, seqno := -1, 0;
      for i := 0 to count
        invariant (ret, seqno) == Registry.RegionNum(regions[..], name, i)
      {
        if regions[i].name == name {
          ret := i;
          if regions[i].seqNum > seqno { seqno := regions[i].seqNum; }
        }
      }
    }

    /** `md_entry_num`, with the table length for "not found". */
    method EntryNum(name: CString) returns (i: nat)
      requires numRegions <= entry.Length
      ensures i == Registry.EntryNum(entry[..numRegions], name)
    {
      i := 0;
      while i < numRegions && entry[i].name != name
        invariant i <= numRegions
        invariant forall j | 0 <= j < i :: entry[j].name != name
      {
        i := i + 1;
      }
      assert i < numRegions ==> entry[..numRegions][i].name == name;
    }

    /** `md_add_ss_toc`: the local record goes to the cell behind the live ones, the bootloader's
        to the cell behind the counted ones, which only then becomes counted. */
    method AddSsToc(r: Region)
      requires count < regions.Length && numRegions < entry.Length
      modifies this`count, this`history, entry, regions
      ensures count == old(count) + 1
      ensures entry[..] == old(entry[..])[numRegions := r]
      ensures regions[..] == old(regions[..])[old(count) := NewSs(old(regions[..]), old(count), r)]
      ensures Watched(old(history), AddStores(old(regions[..]), old(count), r.name))
      ensures forall i | |old(history)| <= i < |history| - 1 :: history[i].listed == old(regions[..count])
    {
      hide NewSs, AddStores;
      ghost var before, mark := regions[..count], |history|;
      entry[numRegions] := r;
      WriteCell(r, before);
      StoreCount(count + 1);
    }

    /** Fills the cell behind the counted ones, field by field, the valid mark last. */
    method WriteCell(r: Region, ghost before: seq<SsRegion>)
      requires count < regions.Length && regions[..count] == before
      modifies this`history, regions
      ensures regions[..] == old(regions[..])[count := NewSs(old(regions[..]), count, r)]
      ensures Watched(old(history), AddStores(old(regions[..]), count, r.name) - 1)
      ensures forall i | |old(history)| <= i < |history| :: history[i].listed == before
    {
      var c := count;
      ghost var t := regions[..];
      WriteField(c, regions[c].(name := r.name), before);
      WriteField(c, regions[c].(base := r.phys), before);
      WriteField(c, regions[c].(size := r.size), before);
      RegionNumPrefix(t, regions[..], r.name, c);
      var at, seqNum := RegionNum(r.name);
      if at >= 0 { WriteField(c, regions[c].(seqNum := seqNum + 1), before); }
      WriteField(c, regions[c].(valid := MD_REGION_VALID), before);
      assert regions[..] == t[c := NewSs(t, c, r)];
    }

    /** A store to the cell behind the counted ones, which the bootloader does not list. */
    method WriteField(c: nat, cell: SsRegion, ghost before: seq<SsRegion>)
      requires count == c < regions.Length && regions[..count] == before
      modifies this`history, regions
      ensures regions[..] == old(regions[..])[c := cell] && regions[..count] == before
      ensures history == old(history) + [Boot()] && Boot().listed == before
    {
      StoreCell(c, cell);
    }

    /** `msm_minidump_add_region` once the table is initialised. */
    method AddRegion(r: Region) returns (ret: int)
      requires Valid() && AddInBounds(View(), r)
      modifies this, entry, regions, elf, elf.mem, elf.strtab
      ensures Valid() && (View(), ret) == Registry.AddRegion(old(View()), r)
      ensures Watched(old(history), if ret < 0 then 0 else AddStores(old(View()).regions, old(count), r.name))
      ensures UntilLast(history, |old(history)|, old(Boot().listed))
    {
      if |r.name| > MAX_NAME_LENGTH || r.virt == 0 || r.size % 4 != 0 { return -EINVAL; }
      if numRegions >= fx.max { return -ENOMEM; }
      if count >= fx.max { return -ENOMEM; }
      var found := EntryNum(r.name);
      if found < numRegions { return -EEXIST; }
      hide NewSs, AddHeaders, AddStores, AddToc, Registry.EntryNum;
      ret := numRegions;
      AddEverywhere(r);
    }

    /** An accepted region, in every table. */
    method AddEverywhere(r: Region)
      requires Valid() && count < fx.max && numRegions < fx.max && HasRoom(elf.View(), r)
      modifies this, entry, regions, elf, elf.mem, elf.strtab
      ensures Valid() && View() == AddToc(old(View()), r).(elf := AddHeaders(old(View()).elf, r))
      ensures Watched(old(history), AddStores(old(View()).regions, old(count), r.name))
      ensures UntilLast(history, |old(history)|, old(Boot().listed))
    {
      hide NewSs, AddHeaders, AddStores;
      AddSsToc(r);
      elf.AddHeader(r);
      numRegions := numRegions + 1;
      assert entry[..numRegions] == old(entry[..numRegions]) + [r];
    }

    /** `msm_minidump_update_region`. */
    method UpdateRegion(regno: nat, r: Region) returns (ret: int)
      requires Valid() && UpdateInBounds(View(), regno, r)
      modifies this`history, entry, regions, elf.mem, elf.strtab
      ensures Valid() && (View(), ret) == Registry.UpdateRegion(old(View()), regno, r)
      ensures Watched(old(history), if ret == 0 then 1 else 0)
      ensures UntilLast(history, |old(history)|, old(Boot().listed))
    {
      if |r.name| > MAX_NAME_LENGTH || r.virt == 0 || r.size % 4 != 0 || regno >= fx.max { return -EINVAL; }
      hide Patched, PatchHeaders;
      ret := UpdateSsToc(regno, r);
      ghost var mid, boot := View(), Boot();
      elf.UpdateHeader(regno, r);
      assert View() == mid.(elf := PatchHeaders(mid.elf, regno, r));
      assert Boot() == boot;
    }

    /** `md_update_ss_toc`. */
    method UpdateSsToc(regno: nat, r: Region) returns (ret: int)
      requires Valid() && UpdateInBounds(View(), regno, r) && ValidRegion(r) && regno < fx.max
      modifies this`history, entry, regions
      ensures Valid() && ret == UpdateAnswer(old(View()), regno, r)
      ensures View() == if ret != 0 then old(View()) else Patched(old(View()), regno, r)
      ensures Watched(old(history), if ret == 0 then 1 else 0)
      ensures UntilLast(history, |old(history)|, old(Boot().listed))
    {
      if regno >= firstRemoved { return -EINVAL; }
      var found := EntryNum(r.name);
      if found == numRegions { return -ENOENT; }
      PatchRecords(regno, r);
      ret := 0;
    }

    /** The three stores of an accepted update, the bootloader's last. */
    method PatchRecords(regno: nat, r: Region)
      requires regno < entry.Length && regno + 1 < regions.Length && count <= regions.Length
      modifies this`history, entry, regions
      ensures entry[..] == old(entry[..])[regno := Readdress(old(entry[regno]), r)]
      ensures regions[..] == old(regions[..])[regno + 1 := old(regions[regno + 1]).(base := r.phys)]
      ensures history == old(history) + [Boot()]
    {
      entry[regno] := entry[regno].(virt := r.virt);
      entry[regno] := entry[regno].(phys := r.phys);
      StoreCell(regno + 1, regions[regno + 1].(base := r.phys));
    }

    /** `md_remove_ss_toc`: the table is switched off before the first of its cells moves, and on
        again after the last counter is down. */
    method RemoveRegion(r: Region) returns (ret: int)
      requires Valid() && RemoveInBounds(View(), r)
      modifies this, entry, regions, elf, elf.mem, elf.strtab
      ensures Valid() && (View(), ret) == Registry.RemoveRegion(old(View()), r)
      ensures Watched(old(history), RemoveStores(old(View()), r))
      ensures UntilLast(history, |old(history)|, old(Boot().listed))
    {
      RegionNumBounds(regions[..], r.name, count);
      hide Closed, Reopened, Registry.RegionNum, ClearMemory, ClearInBounds, Image;
      var entryno := EntryNum(r.name);
      if entryno == numRegions { return -ENOENT; }
      var rgno, seqno := RegionNum(r.name);
      if rgno < 0 { return -EINVAL; }
      ret := RemoveFound(entryno, rgno, r);
    }

    method RemoveFound(entryno: nat, rgno: nat, r: Region) returns (ret: int)
      requires Valid() && ClearInBounds(Image(View().elf), r) && entryno < numRegions && rgno < count
      modifies this, entry, regions, elf, elf.mem, elf.strtab
      ensures Valid() && ret == ClearMemory(old(View()).elf, r).1
      ensures var t := Closed(old(View()), entryno, rgno).(elf := ClearMemory(old(View()).elf, r).0);
              View() == if ret != 0 then t else Reopened(t)
      ensures Watched(old(history), 1 + (old(count) - rgno) + if ret == 0 then 2 else 0)
      ensures UntilLast(history, |old(history)|, old(Boot().listed))
    {
      hide Closed, Reopened, ClearMemory, ClearInBounds, Image;
      CloseTables(entryno, rgno);
      ghost var mid, boot := View(), Boot();
      ret := elf.ClearHeaders(r);
      assert View() == mid.(elf := elf.View()) && Boot() == boot;
      if ret == 0 { OpenTables(); }
    }

    /** Switches the table off and closes both tables over the cells found. */
    method CloseTables(entryno: nat, rgno: nat)
      requires Valid() && entryno < numRegions && rgno < count
      modifies this`firstRemoved, this`tocInit, this`history, entry, regions
      ensures Valid() && View() == Closed(old(View()), entryno, rgno) && !tocInit
      ensures Watched(old(history), 1 + (count - rgno))
      ensures forall i | |old(history)| <= i < |history| :: !history[i].init
    {
      hide ShiftOut;
      if firstRemoved > entryno { firstRemoved := entryno; }
      StoreInit(false);
      CloseEntries(entryno);
      ShiftRegions(rgno);
    }

    /** The memmove and memset that close the local table over cell `entryno`. */
    method CloseEntries(entryno: nat)
      requires entryno < numRegions <= entry.Length
      modifies entry
      ensures entry[..numRegions] == Drop(old(entry[..numRegions]), entryno) + [ZERO_REGION]
    {
      ghost var s := entry[..];
      MoveDown(entry, entryno, entryno + 1, numRegions - entryno - 1);
      entry[numRegions - 1] := ZERO_REGION;
      MovedCloses(s, entryno, numRegions);
    }

    /** Takes the removed cell out of the counts and switches the table on again. */
    method OpenTables()
      requires Valid() && count > 0 && numRegions > 0 && !tocInit
      modifies this`count, this`tocInit, this`numRegions, this`history
      ensures Valid() && View() == Reopened(old(View()))
      ensures Watched(old(history), 2)
      ensures !history[|old(history)|].init
    {
      StoreCount(count - 1);
      StoreInit(true);
      numRegions := numRegions - 1;
    }

    /** The memmove and memset that close the bootloader's table over cell `rgno`. */
    method ShiftRegions(rgno: nat)
      requires !tocInit && rgno < count <= regions.Length
      modifies this`history, regions
      ensures regions[..] == ShiftOut(old(regions[..]), count, rgno)
      ensures Watched(old(history), count - rgno)
      ensures forall i | |old(history)| <= i < |history| :: !history[i].init
    {
      for i := rgno to count - 1
        invariant forall j | 0 <= j < regions.Length ::
          regions[j] == if rgno <= j < i then old(regions[j + 1]) else old(regions[j])
        invariant old(history) <= history && |history| == |old(history)| + (i - rgno)
        invariant forall j | |old(history)| <= j < |history| :: !history[j].init
      {
        StoreCell(i, regions[i + 1]);
      }
      StoreCell(count - 1, ZERO_SS);
    }

    /** `md_get_region`. */
    method GetRegion(name: CString) returns (r: Region)
      requires Valid()
      ensures r == Registry.GetRegion(View(), name)
    {
      var i := EntryNum(name);
      r := if i < numRegions then entry[i] else ZERO_REGION;
    }

    /** `msm_minidump_get_available_region`. */
    method AvailableRegions() returns (n: nat)
      requires Valid()
      ensures n == fx.max - |View().entry|
    {
      n := fx.max - numRegions;
    }
  }

  lemma MovedCloses(s: seq<Region>, k: nat, n: nat)
    requires k < n <= |s|
    ensures Moved(s, k, k + 1, n - k - 1)[n - 1 := ZERO_REGION][..n] == Drop(s[..n], k) + [ZERO_REGION]
  {
  }

  lemma GrowingOn(h: seq<BootView>, g: seq<BootView>, n: nat)
    requires Growing(h) && h != [] && |h[|h| - 1].listed| == n && h <= g && |h| < |g|
    requires (forall i | |h| <= i < |g| - 1 :: |g[i].listed| == n) && |g[|g| - 1].listed| == n + 1
    ensures Growing(g)
  {
    forall i | 0 < i < |g| ensures |g[i - 1].listed| <= |g[i].listed| {
      if i < |h| { assert g[i - 1] == h[i - 1] && g[i] == h[i]; }
    }
  }

  lemma DrainNone(s: Smem, pending: seq<Region>)
    requires s.count + |pending| <= |s.regions|
    ensures Drain(s, pending[..0]) == s && DrainStores(s, pending[..0]) == 0
  {
  }

  /** The views before the drain show none of the pending regions. */
  lemma FirstViews(h: seq<BootView>, fx: Frame, pending: seq<Region>)
    requires |pending| < fx.max && |h| >= 5 && AllSomePending(h, 5, fx, pending)
    requires (forall i | 0 <= i < 4 :: !h[i].init) && h[4] == BootView(true, [HeaderSs(fx)])
    ensures AllSomePending(h, 0, fx, pending)
  {
    NothingDrained(fx, pending);
    hide Drained, HeaderSs;
  }

  lemma DrainStart(fx: Frame, pending: seq<Region>)
    requires |pending| < fx.max
    ensures var s := Fresh(fx);
            && s.entry == [] && s.count == 1 && |s.regions| == fx.max
            && Drain(s, pending[..0]) == s && DrainStores(s, pending[..0]) == 0
  {
    hide NewHeader, RenderToc;
    DrainNone(Fresh(fx), pending);
  }

  lemma NothingDrained(fx: Frame, pending: seq<Region>)
    requires |pending| < fx.max
    ensures Drained(fx, pending, 0) == [HeaderSs(fx)]
  {
    DrainNone(Fresh(fx), pending);
    hide Drain, NewHeader;
    assert RenderToc(fx, [])[0] == TocCell(fx, [], 0);
  }

  lemma DrainNext(fx: Frame, pending: seq<Region>, i: nat)
    requires i < |pending| < fx.max
    ensures var s, t := Drain(Fresh(fx), pending[..i]), Drain(Fresh(fx), pending[..i + 1]);
            && t.entry == s.entry + [pending[i]] && s.count == i + 1
            && t.regions == s.regions[i + 1 := NewSs(s.regions, i + 1, pending[i])]
            && DrainStores(Fresh(fx), pending[..i + 1])
               == DrainStores(Fresh(fx), pending[..i]) + AddStores(s.regions, i + 1, pending[i].name)
  {
    hide NewHeader, RenderToc, NewSs, AddStores;
    assert pending[..i + 1][..i] == pending[..i];
  }

  lemma {:induction false} DrainFrame(s: Smem, pending: seq<Region>)
    requires s.count + |pending| <= |s.regions|
    ensures var t := Drain(s, pending);
            t == s.(entry := t.entry, regions := t.regions, count := s.count + |pending|)
    decreases |pending|
  {
    if pending != [] { DrainFrame(s, pending[..|pending| - 1]); }
  }

  lemma {:induction false} RegionNumPrefix(t: seq<SsRegion>, u: seq<SsRegion>, name: CString, n: nat)
    requires n <= |t| && n <= |u| && forall i | 0 <= i < n :: t[i] == u[i]
    ensures Registry.RegionNum(t, name, n) == Registry.RegionNum(u, name, n)
  {
    if n > 0 { RegionNumPrefix(t, u, name, n - 1); }
  }
}
