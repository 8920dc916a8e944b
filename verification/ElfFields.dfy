/** The header allocation of a list of regions word by word, in the numbers of chapters 4 and 5 of the
    System V gABI: what a debugger reads, wherever it got its own definitions from. */
module ElfFields {
  import opened Regions
  import opened ElfImage
  import opened ElfMemory

  /** The words of section `i`: name and type, flags, address, offset, size, entry size. */
  predicate SectionWords(h: Header, i: nat, kind: nat, flags: nat, addr: nat, offset: nat, size: nat, name: string) {
    var a := 8 * i;
    && a + 8 <= |h.mem| && Lo(h.mem[a]) <= |h.strtab| && CStr(h.strtab, Lo(h.mem[a])) == name && Hi(h.mem[a]) == kind
    && Long(h.mem[a + 1]) == flags && Long(h.mem[a + 2]) == addr && Long(h.mem[a + 3]) == offset
    && Long(h.mem[a + 4]) == size && Long(h.mem[a + 7]) == 0
  }

  /** The words of program header `i`, behind the places of the sections: type and flags, offset, the two
      addresses, size in the file and in memory. */
  predicate ProgramWords(h: Header, i: nat, kind: nat, flags: nat, offset: nat, virt: nat, phys: nat, size: nat) {
    var a := 8 * h.max + 7 * i;
    && a + 7 <= |h.mem| && Lo(h.mem[a]) == kind && Hi(h.mem[a]) == flags && Long(h.mem[a + 1]) == offset
    && Long(h.mem[a + 2]) == virt && Long(h.mem[a + 3]) == phys
    && Long(h.mem[a + 4]) == size && Long(h.mem[a + 5]) == size
  }

  /** The bytes of the regions before `k`. */
  function Before(E: seq<Region>, k: nat): nat
    requires k <= |E|
  {
    if k == 0 then 0 else Before(E, k - 1) + E[k - 1].size
  }

  lemma {:induction false} PayloadIs(fx: Frame, E: seq<Region>, k: nat)
    requires k <= |E|
    ensures PayloadAt(fx, E, k) == fx.ElfhSize() + Before(E, k)
  {
    if k > 0 { PayloadIs(fx, E, k - 1); }
  }

  lemma SectionOf(h: Header, i: nat, s: Shdr, name: string)
    requires Sized(h) && i < h.max && ShdrOf(h, i) == s
    requires s.entsize == 0 && s.name <= |h.strtab| && CStr(h.strtab, s.name) == name
    ensures SectionWords(h, i, s.stype, s.flags, s.addr, s.offset, s.size, name)
  {
    hide CStr;
  }

  lemma ProgramOf(h: Header, i: nat, p: Phdr)
    requires Sized(h) && i < h.max && PhdrOf(h, i) == p && p.filesz == p.memsz
    ensures ProgramWords(h, i, p.ptype, p.flags, p.offset, p.vaddr, p.paddr, p.filesz)
  {
  }

  /** What the image says of header words. */
  lemma Headers(h: Header, fx: Frame, E: seq<Region>)
    requires Depicts(h, fx, E)
    ensures Placed(fx, E) && Sized(h) && h.max == fx.max && Fits(fx, E)
    ensures h.phnum == |E| + 1 && h.shnum == |E| + 4 && h.strtab == Render(fx, E).strtab
    ensures |Render(fx, E).phdr| == |E| + 1 && |Render(fx, E).shdr| == |E| + 4
    ensures forall i | 0 <= i < h.phnum :: PhdrOf(h, i) == Render(fx, E).phdr[i]
    ensures forall j | 0 <= j < h.shnum :: ShdrOf(h, j) == Render(fx, E).shdr[j]
  {
    DepictsPlaced(h, fx, E);
    HeaderCounts(fx, E);
    hide Render, PhdrOf, ShdrOf;
    assert forall i | 0 <= i < h.phnum :: PhdrOf(h, i) == Image(h).phdr[i];
    assert forall j | 0 <= j < h.shnum :: ShdrOf(h, j) == Image(h).shdr[j];
  }

  lemma RegionRendered(fx: Frame, E: seq<Region>, k: nat)
    requires Fits(fx, E) && k < |E|
    ensures var e, at := Render(fx, E), PayloadAt(fx, E, k);
            && |e.phdr| == |E| + 1 && |e.shdr| == |E| + 4
            && e.phdr[k + 1] == LoadPhdr(E[k], at) && e.shdr[k + 4] == ProgShdr(E[k], e.shdr[k + 4].name, at)
  {
    hide CStr, Table, NameAt, PayloadAt;
  }

  lemma BannerRendered(fx: Frame, E: seq<Region>)
    requires Fits(fx, E)
    ensures |Render(fx, E).phdr| > 0 && Render(fx, E).phdr[0] == BannerPhdr(fx)
  {
    PhdrOfRender(fx, E);
    hide Render;
  }

  /** The headers of region `k`: loadable, readable and writable, at the region's own addresses, with its own
      size and name, and both with the file offset behind the header and all earlier payloads. */
  lemma RegionWords(h: Header, fx: Frame, E: seq<Region>, k: nat)
    requires Depicts(h, fx, E) && k < |E|
    ensures var r, offset := E[k], fx.ElfhSize() + Before(E, k);
            && ProgramWords(h, k + 1, 1, 6, offset, r.virt, r.phys, r.size)
            && SectionWords(h, k + 4, 1, 1, r.virt, offset, r.size, r.name)
  {
    hide Render, CStr, ProgramWords, SectionWords, PhdrOf, ShdrOf, Depicts, PayloadAt, Before, NameAt, Fits;
    Headers(h, fx, E);
    SectionName(fx, E, k + 4);
    PayloadIs(fx, E, k);
    RegionRendered(fx, E, k);
    ProgramOf(h, k + 1, Render(fx, E).phdr[k + 1]);
    SectionOf(h, k + 4, Render(fx, E).shdr[k + 4], E[k].name);
  }

  /** The headers every image has: the null section, the string table, which is where the header says, the
      table's address, the banner in its section and its program header, behind the string table. */
  lemma FixedWords(h: Header, fx: Frame, E: seq<Region>)
    requires Depicts(h, fx, E)
    ensures h.phnum == |E| + 1 && h.shnum == |E| + 4 && |h.mem| == 15 * fx.max && |h.strtab| == 16 * fx.max
    ensures var text, banner := 64 + 8 * |h.mem|, 64 + 8 * |h.mem| + |h.strtab|;
            && SectionWords(h, 0, 0, 0, 0, 0, 0, "")
            && SectionWords(h, 1, 3, 0, 0, text, |h.strtab|, "STR_TBL")
            && SectionWords(h, 2, 1, 0, fx.tableVa, 0, 0, "minidump_table")
            && SectionWords(h, 3, 1, 1, fx.bannerVa, banner, 6, "linux_banner")
            && ProgramWords(h, 0, 1, 6, banner, fx.bannerVa, fx.bannerPa, 6)
  {
    hide Render, SectionWords, ProgramWords, PhdrOf, ShdrOf, Depicts;
    Headers(h, fx, E);
    FixedSection(h, fx, E, 0);
    FixedSection(h, fx, E, 1);
    FixedSection(h, fx, E, 2);
    FixedSection(h, fx, E, 3);
    BannerRendered(fx, E);
    ProgramOf(h, 0, BannerPhdr(fx));
  }

  lemma FixedSection(h: Header, fx: Frame, E: seq<Region>, j: nat)
    requires Depicts(h, fx, E) && j < 4
    ensures var s := FixedShdr(fx, j);
            SectionWords(h, j, s.stype, s.flags, s.addr, s.offset, s.size, FIXED_NAMES[j])
  {
    Headers(h, fx, E);
    SectionName(fx, E, j);
    assert Render(fx, E).shdr[j] == FixedShdr(fx, j) by { hide CStr, Table, NameAt, PayloadAt; }
    hide Render, CStr, SectionWords, PhdrOf, ShdrOf, Depicts, NameAt;
    SectionOf(h, j, FixedShdr(fx, j), FIXED_NAMES[j]);
  }
}
