/** The resizing of a memory dump over the registry: the dump's size and address follow the one
    live region of its name through every allocation failure. */
module Resize {
  import opened Kernel
  import opened Sequences
  import opened Regions
  import opened ElfImage
  import opened Registry
  import opened RegistryLaws
  import opened RegistryRuns
  import opened MinidumpDriver

  const SZ_1M: nat := 0x10_0000
  /** Sizes travel through an `int`; requests, in megabytes, stay below this. */
  const MAX_REQUEST: nat := 2048

  /** What the contiguous allocator answers. */
  datatype Cma = NoMemory | Pages(virt: nat, phys: nat)

  /** An allocation of no pages fails. */
  function CmaAlloc(pages: nat, answer: Cma): Cma { if pages == 0 then NoMemory else answer }

  /** The allocator hands out an address, and memory that no region of another name covers. */
  predicate Honest(live: seq<Region>, name: CString, answer: Cma, size: nat) {
    answer.Pages? ==>
      && answer.virt != 0
      && forall i | 0 <= i < |live| && live[i].name != name ::
           answer.phys + size <= live[i].phys || live[i].phys + live[i].size <= answer.phys
  }

  predicate Apart(live: seq<Region>) {
    forall i, j | 0 <= i < j < |live| ::
      live[i].phys + live[i].size <= live[j].phys || live[j].phys + live[j].size <= live[i].phys
  }

  /** A registry without pending regions and without overlaps. */
  predicate Sane(s: Smem, live: seq<Region>) {
    Settled(s, live, 0) && PositiveSizes(live) && DistinctNames(live) && Apart(live)
  }

  lemma AddKeepsSane(s: Smem, live: seq<Region>, name: CString, answer: Cma, size: nat)
    requires Sane(s, live) && Honest(live, name, answer, size) && answer.Pages? && size > 0 && size % 4 == 0
    requires 0 < |name| <= MAX_NAME_LENGTH
    ensures AddInBounds(s, Region(name, 0, answer.virt, answer.phys, size))
    ensures var r := Region(name, 0, answer.virt, answer.phys, size); var (t, ret) := AddRegion(s, r);
            && (ret >= 0 <==> |live| + 1 < s.fx.max && OnlyAt(live, name, |live|))
            && (ret >= 0 ==> Sane(t, live + [r]) && t.fx == s.fx && OnlyAt(live + [r], name, |live|))
            && (ret < 0 ==> t == s)
  {
    hide Settled, AddRegion, AddInBounds, Apart, PositiveSizes, DistinctNames, Honest, OnlyAt;
    var r := Region(name, 0, answer.virt, answer.phys, size);
    assert ValidRegion(r) by { HonestAddress(live, name, answer, size); }
    AddKeepsSettled(s, live, 0, r);
    if OnlyAt(live, name, |live|) { AppendKeeps(live, name, answer, size); }
  }

  lemma HonestAddress(live: seq<Region>, name: CString, answer: Cma, size: nat)
    requires Honest(live, name, answer, size) && answer.Pages?
    ensures answer.virt != 0
  {
  }

  lemma AppendKeeps(live: seq<Region>, name: CString, answer: Cma, size: nat)
    requires PositiveSizes(live) && DistinctNames(live) && Apart(live) && OnlyAt(live, name, |live|)
    requires Honest(live, name, answer, size) && answer.Pages? && size > 0
    ensures var next := live + [Region(name, 0, answer.virt, answer.phys, size)];
            PositiveSizes(next) && DistinctNames(next) && Apart(next) && OnlyAt(next, name, |live|)
  {
  }

  lemma RemoveKeepsSane(s: Smem, live: seq<Region>, k: nat)
    requires Sane(s, live) && k < |live| && Placed(s.fx, live)
    ensures var r := live[k].(id := 0);
            && RemoveInBounds(s, r) && RemoveRegion(s, r).1 == 0
            && Sane(RemoveRegion(s, r).0, Drop(live, k)) && RemoveRegion(s, r).0.fx == s.fx
            && OnlyAt(Drop(live, k), live[k].name, |live| - 1)
  {
    hide Canon, Orderly, RemoveRegion, RemoveInBounds, Apart, PositiveSizes, DistinctNames, Tables;
    var r := live[k].(id := 0);
    Alone(live, k);
    CanonValid(s, live, 0, k);
    assert live[0..] == live && OnlyAt(live, r.name, k);
    RemoveSized(s, live, 0, k, r);
    CanonOrderly(RemoveRegion(s, r).0, Drop(live, k), 0);
    DropKeeps(live, k);
  }

  lemma Alone(live: seq<Region>, k: nat)
    requires k < |live| && DistinctNames(live) && Apart(live) && PositiveSizes(live)
    ensures OnlyAt(live, live[k].name, k) && FirstOfItsSpan(live, k) && live[k].size > 0
  {
  }

  lemma DropKeeps(live: seq<Region>, k: nat)
    requires k < |live| && DistinctNames(live) && Apart(live) && PositiveSizes(live)
    ensures var rest := Drop(live, k);
            DistinctNames(rest) && Apart(rest) && PositiveSizes(rest) && OnlyAt(rest, live[k].name, |rest|)
  {
  }

  /** A region is found by its name with its own, nonzero, address. */
  lemma SaneEntry(s: Smem, live: seq<Region>, name: CString)
    requires Sane(s, live)
    ensures s.entry == live && |live| < s.fx.max
    ensures var k := EntryNum(live, name); if k < |live| then GetRegion(s, name) == live[k] && live[k].virt != 0
            else GetRegion(s, name).virt == 0
  {
    var k := EntryNum(live, name);
    if k < |live| { assert ValidRegion(live[k]); }
  }

  lemma EntryGone(live: seq<Region>, k: nat)
    requires k < |live|
    ensures OnlyAt(Drop(live, k), live[k].name, |live| - 1) ==> EntryNum(Drop(live, k), live[k].name) == |live| - 1
  {
  }

  lemma HonestDrop(live: seq<Region>, k: nat, name: CString, answer: Cma, size: nat)
    requires k < |live| && Honest(live, name, answer, size)
    ensures Honest(Drop(live, k), name, answer, size)
  {
  }

  class MemoryDump {
    const md: Minidump
    const name: CString
    /** NULL, which is 0, while the dump is disabled. */
    var addr: nat
    var dumpSize: nat
    ghost var live: seq<Region>

    ghost predicate Valid()
      reads this`live, md, md.entry, md.regions, md.elf, md.elf.mem, md.elf.strtab
    {
      && 0 < |name| <= MAX_NAME_LENGTH && md.Valid() && Sane(md.View(), live)
    }

    /** Address and size are those of the one live region of this name, or zero. */
    ghost predicate Tracks()
      reads this
    {
      var k := EntryNum(live, name);
      if k < |live| then addr == live[k].virt != 0 && dumpSize == live[k].size > 0
      else addr == 0 && dumpSize == 0
    }

    /** The dump is a live region of this size at these addresses. */
    ghost predicate IsOn(virt: nat, phys: nat, size: nat)
      reads this
    {
      var k := EntryNum(live, name);
      k < |live| && live[k] == Region(name, 0, virt, phys, size) && addr == virt && dumpSize == size
    }

    ghost predicate IsOff()
      reads this
    {
      EntryNum(live, name) == |live| && addr == 0 && dumpSize == 0
    }

    /** After a request: what was asked for, what there was, or nothing. */
    ghost predicate Outcome(was: nat, size: nat, first: Cma, second: Cma, room: bool)
      reads this
    {
      if size > 0 && first.Pages? && room then IsOn(first.virt, first.phys, size * SZ_1M)
      else if size > 0 && first.NoMemory? && second.Pages? && was >= PAGE_SIZE then IsOn(second.virt, second.phys, was)
      else IsOff()
    }

    /** The regions of other names. */
    ghost function Others(): seq<Region>
      reads this
    {
      var k := EntryNum(live, name);
      if k < |live| then Drop(live, k) else live
    }

    /** The driver at boot: the default size is set before anything is registered. */
    constructor (m: Minidump, n: CString, regions: seq<Region>, size: nat)
      requires m.Valid() && Sane(m.View(), regions) && 0 < |n| <= MAX_NAME_LENGTH
      ensures Valid() && md == m && name == n && live == regions && addr == 0 && dumpSize == size
    {
      md, name, addr, dumpSize, live := m, n, 0, size, regions;
    }

    /** `md_register_memory_dump`: succeeds exactly when the allocator and the registry both have
        room and the name is new. */
    method Register(size: nat, answer: Cma) returns (ok: bool)
      requires Valid() && size < MAX_REQUEST * SZ_1M && size % 4 == 0 && Honest(live, name, answer, size)
      modifies `addr, `live, md, md.entry, md.regions, md.elf, md.elf.mem, md.elf.strtab
      ensures Valid()
      ensures ok <==>
              && size >= PAGE_SIZE && answer.Pages?
              && |old(live)| + 1 < md.fx.max && EntryNum(old(live), name) == |old(live)|
      ensures ok ==> live == old(live) + [Region(name, 0, answer.virt, answer.phys, size)] && addr == answer.virt != 0
      ensures ok ==> EntryNum(live, name) == |old(live)| < |live|
      ensures Others() == old(Others())
      ensures !ok ==> live == old(live) && addr == old(addr) && md.View() == old(md.View())
    {
      hide Sane, AddRegion, AddInBounds;
      var page := CmaAlloc(size / PAGE_SIZE, answer);
      if page.NoMemory? { return false; }
      AddKeepsSane(md.View(), live, name, answer, size);
      var r := Region(name, 0, page.virt, page.phys, size);
      var ret := md.AddRegion(r);
      if ret < 0 { return false; }
      live := live + [r];
      addr := page.virt;
      ok := true;
    }

    /** `md_unregister_memory_dump`: succeeds exactly when the name is live. */
    method Unregister() returns (ok: bool)
      requires Valid() && (EntryNum(live, name) < |live| ==> Placed(md.fx, live))
      modifies `live, md, md.entry, md.regions, md.elf, md.elf.mem, md.elf.strtab
      ensures Valid()
      ensures ok <==> EntryNum(old(live), name) < |old(live)|
      ensures ok ==> live == Drop(old(live), EntryNum(old(live), name)) && EntryNum(live, name) == |live|
      ensures ok ==> |live| + 1 == |old(live)| < md.fx.max
      ensures Others() == old(Others())
      ensures !ok ==> live == old(live) && md.View() == old(md.View())
    {
      hide Sane, RemoveRegion, RemoveInBounds, Canon;
      ghost var k := EntryNum(live, name);
      SaneEntry(md.View(), live, name);
      var mdr := md.GetRegion(name);
      if mdr.virt == 0 { return false; }
      RemoveKeepsSane(md.View(), live, k);
      EntryGone(live, k);
      var ret := md.RemoveRegion(mdr.(id := 0));
      if ret < 0 { return false; }
      live := Drop(live, k);
      ok := true;
    }

    /** `update_dump_size`. With the dump live, the old region goes, and the answers of the
        allocator decide whether the new size, the old one, or nothing takes its place. With the
        dump off, a request is a registration. A dump that has a size but no region, as after a
        failed registration at boot, never changes again. A live dump is taken to be in a registry
        whose sections have their places; its changes then keep that, as no other region comes or
        goes. */
    method Update(size: nat, first: Cma, second: Cma)
      requires Valid() && size < MAX_REQUEST && dumpSize < MAX_REQUEST * SZ_1M && dumpSize % 4 == 0
      requires dumpSize != 0 && EntryNum(live, name) < |live| ==> Placed(md.fx, live)
      requires Honest(live, name, first, size * SZ_1M) && Honest(live, name, second, dumpSize)
      modifies this, md, md.entry, md.regions, md.elf, md.elf.mem, md.elf.strtab
      ensures Valid() && (old(Tracks()) ==> Tracks()) && dumpSize < MAX_REQUEST * SZ_1M && dumpSize % 4 == 0
      ensures old(Tracks()) ==>
                var room := old(dumpSize) > 0 || |old(live)| + 1 < md.fx.max;
                if size > 0 && first.Pages? && room then IsOn(first.virt, first.phys, size * 0x10_0000)
                else if size > 0 && first.NoMemory? && second.Pages? && old(dumpSize) >= 4096
                then IsOn(second.virt, second.phys, old(dumpSize))
                else IsOff()
      ensures Others() == old(Others())
      ensures old(dumpSize) != 0 && EntryNum(old(live), name) == |old(live)| ==>
                dumpSize == old(dumpSize) && addr == old(addr) && live == old(live) && md.View() == old(md.View())
    {
      hide Valid, Honest, Drop, Sane, Registry.EntryNum;
      if dumpSize == 0 { Enable(size, first); } else { Switch(size, first, second); }
    }

    /** The dump has a size: without its region nothing happens, otherwise the region is replaced. */
    method Switch(size: nat, first: Cma, second: Cma)
      requires Valid() && size < MAX_REQUEST && 0 < dumpSize < MAX_REQUEST * SZ_1M && dumpSize % 4 == 0
      requires Honest(live, name, first, size * SZ_1M) && Honest(live, name, second, dumpSize)
      requires EntryNum(live, name) < |live| ==> Placed(md.fx, live)
      modifies this, md, md.entry, md.regions, md.elf, md.elf.mem, md.elf.strtab
      ensures Valid() && dumpSize < MAX_REQUEST * SZ_1M && dumpSize % 4 == 0 && Others() == old(Others())
      ensures EntryNum(old(live), name) < |old(live)| ==>
                Tracks() && Outcome(old(dumpSize), size, first, second, true)
      ensures EntryNum(old(live), name) == |old(live)| ==>
                dumpSize == old(dumpSize) && addr == old(addr) && live == old(live) && md.View() == old(md.View())
    {
      hide *;
      var gone := Unregister();
      if gone {
        HonestDrop(old(live), EntryNum(old(live), name), name, first, size * SZ_1M);
        HonestDrop(old(live), EntryNum(old(live), name), name, second, dumpSize);
        Replace(size, first, second);
      }
    }

    /** The dump is off: a registration of the new size, if there is room for it. */
    method Enable(size: nat, first: Cma)
      requires Valid() && size < MAX_REQUEST && dumpSize == 0 && Honest(live, name, first, size * SZ_1M)
      modifies this, md, md.entry, md.regions, md.elf, md.elf.mem, md.elf.strtab
      ensures Valid() && (old(Tracks()) ==> Tracks()) && dumpSize < MAX_REQUEST * SZ_1M && dumpSize % 4 == 0
      ensures old(Tracks()) ==> Outcome(0, size, first, first, |old(live)| + 1 < md.fx.max)
      ensures Others() == old(Others())
    {
      hide Valid, Honest, Sane, Registry.EntryNum;
      var ok := Register(size * SZ_1M, first);
      if ok { dumpSize := size * SZ_1M; }
    }

    /** The region is gone: the new size, else the old one, else nothing. */
    method Replace(size: nat, first: Cma, second: Cma)
      requires Valid() && size < MAX_REQUEST && 0 < dumpSize < MAX_REQUEST * SZ_1M && dumpSize % 4 == 0
      requires EntryNum(live, name) == |live| && |live| + 1 < md.fx.max
      requires Honest(live, name, first, size * SZ_1M) && Honest(live, name, second, dumpSize)
      modifies this, md, md.entry, md.regions, md.elf, md.elf.mem, md.elf.strtab
      ensures Valid() && Tracks() && Outcome(old(dumpSize), size, first, second, true)
      ensures dumpSize < MAX_REQUEST * SZ_1M && dumpSize % 4 == 0 && Others() == old(Others())
    {
      hide Valid, Honest, Sane, Registry.EntryNum;
      addr := 0;
      if size == 0 {
        dumpSize := 0;
        return;
      }
      var ok := Register(size * SZ_1M, first);
      if ok {
        dumpSize := size * SZ_1M;
      } else {
        var back := Register(dumpSize, second);
        if !back { dumpSize := 0; }
      }
    }
  }
}
