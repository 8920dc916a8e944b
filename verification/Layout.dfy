/** Where the parts of the header allocation lie, and how many regions they really hold. */
module Layout {
  import opened Sequences
  import opened Regions
  import opened ElfImage
  import opened ElfMemory
  import opened Registry
  import opened RegistryLaws
  import opened RegistryRuns

  datatype Span = Span(lo: nat, hi: nat)

  predicate Apart(a: Span, b: Span) { a.hi <= b.lo || b.hi <= a.lo }

  /** The bytes in use with `n` regions that have headers: ELF header, sections, program headers,
      string table, banner. */
  function Parts(fx: Frame, n: nat): seq<Span> {
    var phdrOffset := EHDR_SIZE + SHDR_SIZE * fx.max;
    [Span(0, EHDR_SIZE),
     Span(EHDR_SIZE, EHDR_SIZE + SHDR_SIZE * (n + 4)),
     Span(phdrOffset, phdrOffset + PHDR_SIZE * (n + 1)),
     Span(fx.StrtabOffset(), fx.StrtabOffset() + fx.StrtabSize()),
     Span(fx.BannerOffset(), fx.BannerOffset() + BANNER_SIZE)]
  }

  /** All parts lie in the first `size` bytes. */
  predicate Covers(fx: Frame, n: nat, size: nat) { forall i | 0 <= i < 5 :: Parts(fx, n)[i].hi <= size }

  predicate Sound(fx: Frame, n: nat) {
    && (forall i, j | 0 <= i < j < 5 :: Apart(Parts(fx, n)[i], Parts(fx, n)[j]))
    && Covers(fx, n, fx.ElfhSize())
  }

  /** The parts are pairwise disjoint and inside the allocation exactly while the sections fit
      the MAX_NUM_ENTRIES places in front of the program headers. */
  lemma SoundIff(fx: Frame, n: nat)
    ensures Sound(fx, n) <==> n + 4 <= fx.max
  {
    var parts := Parts(fx, n);
    if n + 4 <= fx.max {
      assert parts[0].hi == parts[1].lo && parts[1].hi <= parts[2].lo && parts[2].hi <= parts[3].lo
        && parts[3].hi == parts[4].lo;
    } else {
      assert parts[2].lo < parts[1].hi && parts[1].lo < parts[2].hi;
      assert !Apart(parts[1], parts[2]);
    }
  }

  /** In every consistent state the bootloader's first cell is the header allocation: it starts where that
      starts and covers every part of it, is a whole number of words, goes beyond the banner by nothing
      but the four spare places of both kinds and the padding, and ends where the first payload of the
      dump file starts. */
  lemma HeaderCellCovers(s: Smem, live: seq<Region>, p: nat)
    requires Canon(s, live, p)
    ensures |s.regions| > 0 && |Image(s.elf).phdr| == |live| - p + 1
    ensures var c := s.regions[0];
            && c.name == "KELF_HDR" && c.seqNum == 0 && c.valid == 0x56414C49 && c.base == s.fx.ehdrPa
            && Covers(s.fx, |live| - p, c.size)
            && c.size % 4 == 0 && 480 <= c.size - Parts(s.fx, |live| - p)[4].hi < 484
            && c.size == if p == |live| then Image(s.elf).offset else Image(s.elf).phdr[1].offset
  {
    var E := live[p..];
    CanonOrderly(s, live, p);
    CanonImage(s, live, p);
    SpaceToSpare(s.fx, |E|);
    FirstPayload(s.fx, E);
    hide Render, RenderToc, Image, Depicts, Parts;
    assert s.regions[0] == TocCell(s.fx, live, 0);
  }

  /** The size of the allocation against its parts. */
  lemma SpaceToSpare(fx: Frame, n: nat)
    requires n + 4 <= fx.max
    ensures Covers(fx, n, fx.ElfhSize())
    ensures fx.ElfhSize() % 4 == 0 && 480 <= fx.ElfhSize() - Parts(fx, n)[4].hi < 484
  {
    SoundIff(fx, n);
  }

  lemma FirstPayload(fx: Frame, E: seq<Region>)
    requires Fits(fx, E)
    ensures |Render(fx, E).phdr| == |E| + 1
    ensures fx.ElfhSize() == if E == [] then Render(fx, E).offset else Render(fx, E).phdr[1].offset
  {
    HeaderCounts(fx, E);
    if E != [] { PayloadsTile(fx, E, 0); }
    hide CStr;
  }

  lemma CanonImage(s: Smem, live: seq<Region>, p: nat)
    requires Canon(s, live, p)
    ensures Fits(s.fx, live[p..]) && Image(s.elf) == Render(s.fx, live[p..])
  {
  }

  /** The registry's own guard is wider: it accepts any distinct valid regions up to one less than the
      capacity. The header allocation then holds the image of the list exactly when the parts for it
      are sound, and no memory holds it otherwise. */
  lemma GuardExceedsLayout(fx: Frame, live: seq<Region>, h: Header)
    requires Registrable(fx.max, live)
    ensures AddsReturnPositions(Fresh(fx), live, 0)
    ensures Depicts(Rebuild(fx, live).elf, fx, live) <==> Sound(fx, |live|)
    ensures Depicts(h, fx, live) ==> Sound(fx, |live|)
  {
    hide Depicts, Rebuild, Sound;
    SoundIff(fx, |live|);
    EarlyRegistration(fx, live);
    if Depicts(h, fx, live) { DepictsPlaced(h, fx, live); }
  }

  /** With `n` regions the string index is at most 37 + 13 * n, and the table has room for the
      name of a further region and for the bytes a removal moves. */
  lemma StringTableRoom(fx: Frame, E: seq<Region>)
    requires Fits(fx, E)
    ensures Render(fx, E).strIdx <= 37 + 13 * |E|
    ensures forall r: Region | ValidRegion(r) :: RoomFor(Render(fx, E), r)
    ensures forall k | 0 <= k < |E| :: EraseInBounds(Render(fx, E), k + 4, |E[k].name| + 1)
  {
    NamesBound(E, |E|);
    NamesFit(fx, E);
    forall k | 0 <= k < |E| ensures EraseInBounds(Render(fx, E), k + 4, |E[k].name| + 1) { DropRenders(fx, E, k); }
  }

  /** An image with the first two program headers as the section behind the last place leaves them when it
      is stored over them: of the banner's only the size in memory is left, and the first region's has
      lost its type and flags. */
  function Overrun(e: Elf, r: Region, nameIdx: nat, offset: nat): Elf
    requires |e.phdr| >= 2
  {
    e.(phdr := e.phdr[0 := Phdr(nameIdx, SHF_WRITE, r.virt, offset, r.size, e.phdr[0].memsz, SHT_PROGBITS)]
                     [1 := e.phdr[1].(ptype := 0, flags := 0)])
  }

  /** The first section without a place of its own. Its add is answered like any other, and it is stored,
      but over the banner and the first region. */
  lemma FirstOverrun(h: Header, fx: Frame, E: seq<Region>, r: Region)
    requires Depicts(h, fx, E) && |E| + 4 == fx.max && ValidRegion(r)
    ensures HasRoom(h, r) && Fits(fx, E + [r]) && |Render(fx, E + [r]).phdr| == |E| + 2
    ensures Image(AddHeaders(h, r)) == Overrun(Render(fx, E + [r]), r, h.strIdx, h.offset)
    ensures Sized(AddHeaders(h, r)) && AddHeaders(h, r).max == fx.max
  {
    AddDepicts(h, fx, E, r);
    DepictsPlaced(h, fx, E);
    AddHeaderRenders(fx, E, r);
    HeaderCounts(fx, E + [r]);
    hide Render, AddHeader;
    OverrunImage(h, r);
  }

  lemma OverrunImage(h: Header, r: Region)
    requires Sized(h) && HasRoom(h, r) && h.shnum == h.max && 10 <= h.phnum < h.max && RoomFor(Image(h), r)
    ensures Sized(AddHeaders(h, r)) && AddHeaders(h, r).max == h.max
    ensures Image(AddHeaders(h, r)) == Overrun(AddHeader(Image(h), r), r, h.strIdx, h.offset)
  {
    hide PutShdr, PutPhdr, PhdrOf, ShdrOf, WithName;
    var s, p := ProgShdr(r, h.strIdx, h.offset), LoadPhdr(r, h.offset);
    var a := PutName(h, r.name);
    var b := PutShdr(a, h.max, s);
    var c := PutPhdr(b, h.phnum, p);
    PutBehind(a, s);
    PutBehindOnly(a, s);
    PutPhdrIs(b, h.phnum, p);
    var g := AddHeaders(h, r);
    SameFront(a, h);
    SameFront(c, b);
    SameFront(g, c);
    forall i | 0 <= i < h.max ensures ShdrOf(g, i) == ShdrOf(h, i) { ShdrFrame(g, h, i); }
    forall i | 2 <= i < h.phnum ensures PhdrOf(g, i) == PhdrOf(h, i) { PhdrFrame(g, h, i); }
    PhdrFrame(g, c, h.phnum);
    ImageIs(g, Overrun(AddHeader(Image(h), r), r, h.strIdx, h.offset));
  }

  lemma PutBehind(h: Header, s: Shdr)
    requires Sized(h)
    ensures var g := PutShdr(h, h.max, s);
            && Sized(g) && PhdrOf(g, 0) == Phdr(s.name, s.flags, s.addr, s.offset, s.size, PhdrOf(h, 0).memsz, s.stype)
            && PhdrOf(g, 1) == PhdrOf(h, 1).(ptype := Lo(Whole(s.entsize)), flags := Hi(Whole(s.entsize)))
            && ShdrOf(g, h.max) == s
  {
    hide StoreBytes;
  }

  lemma PutBehindOnly(h: Header, s: Shdr)
    requires Sized(h)
    ensures OnlyWords(PutShdr(h, h.max, s), h, ShdrAt(h.max), ShdrAt(h.max) + 8)
  {
  }

  /** The first two program headers, and the section that shares their words. */
  lemma SameFront(g: Header, h: Header)
    requires Sized(h) && g.max == h.max && |g.mem| == |h.mem|
    requires forall b | 8 * h.max <= b < 8 * h.max + 14 :: g.mem[b] == h.mem[b]
    ensures PhdrOf(g, 0) == PhdrOf(h, 0) && PhdrOf(g, 1) == PhdrOf(h, 1) && ShdrOf(g, h.max) == ShdrOf(h, h.max)
  {
  }

  /** Removing that region again does not undo it: the removal succeeds, and as it wipes the section it wipes
      the banner's program header. No later list is that of such an image either. */
  lemma OverrunNotUndone(h: Header, fx: Frame, E: seq<Region>, r: Region)
    requires Depicts(h, fx, E) && |E| + 4 == fx.max && ValidRegion(r)
    requires OnlyAt(E, r.name, |E|) && FirstSpan(E, r) == |E|
    ensures HasRoom(h, r) && ClearInBounds(Image(AddHeaders(h, r)), r)
    ensures var (g, ret) := ClearMemory(AddHeaders(h, r), r);
            ret == 0 && PhdrOf(g, 0) == ZERO_PHDR && forall F :: !Depicts(g, fx, F)
  {
    FirstOverrun(h, fx, E, r);
    OverrunFound(fx, E, r, h.strIdx, h.offset);
    hide *;
    var g := AddHeaders(h, r);
    OverrunCounts(h, fx, E, r);
    ClearedLast(g, r);
    forall F ensures !Depicts(ClearMemory(g, r).0, fx, F) { NoBanner(ClearMemory(g, r).0, fx, F); }
  }

  lemma ClearedLast(h: Header, r: Region)
    requires Sized(h) && h.shnum == h.max + 1 && 10 < h.phnum <= h.max
    requires Clearable(Image(h), r) && ClearInBounds(Image(h), r)
    requires FindPhdr(Image(h), r) == h.phnum - 1 && FindShdr(Image(h), r) == h.max
    ensures ClearMemory(h, r).1 == 0 && PhdrOf(ClearMemory(h, r).0, 0) == ZERO_PHDR
  {
    hide Clearable, FindPhdr, FindShdr, EraseHeaders, Image, PhdrOf, Sized;
    EraseLast(h, r.size, |r.name| + 1);
  }

  lemma OverrunCounts(h: Header, fx: Frame, E: seq<Region>, r: Region)
    requires Depicts(h, fx, E) && HasRoom(h, r)
    ensures AddHeaders(h, r).phnum == |E| + 2 && AddHeaders(h, r).shnum == |E| + 5 && |E| + 4 <= fx.max
  {
    DepictsPlaced(h, fx, E);
    hide PutShdr, PutPhdr;
  }

  /** The searches in the overrun image: neither the banner's remains nor the first region's match
      differently. */
  lemma OverrunFound(fx: Frame, E: seq<Region>, r: Region, nameIdx: nat, offset: nat)
    requires Fits(fx, E + [r]) && ValidRegion(r) && OnlyAt(E, r.name, |E|) && FirstSpan(E, r) == |E| > 0
    requires |Render(fx, E + [r]).phdr| == |E| + 2
    ensures var e := Overrun(Render(fx, E + [r]), r, nameIdx, offset);
            && FindPhdr(e, r) == |E| + 1 && FindShdr(e, r) == |E| + 4 && Clearable(e, r)
            && EraseInBounds(e, |E| + 4, |r.name| + 1) && ClearInBounds(e, r)
  {
    hide *;
    var F := E + [r];
    var f, e := Render(fx, F), Overrun(Render(fx, F), r, nameIdx, offset);
    LastFound(fx, E, r);
    BannerSize(fx, F);
    OddSize(r);
    OverrunParts(f, r, nameIdx, offset);
    SameShdrSearch(e, f, r);
    OverrunMatches(f, r, nameIdx, offset);
    SamePhdrSearch(e, f, r);
    FoundIsClearable(e, r);
  }

  lemma OddSize(r: Region)
    requires ValidRegion(r)
    ensures r.size != BANNER_SIZE
  {
  }

  /** The searches for the last region of a list. */
  lemma LastFound(fx: Frame, E: seq<Region>, r: Region)
    requires Fits(fx, E + [r]) && ValidRegion(r) && OnlyAt(E, r.name, |E|) && FirstSpan(E, r) == |E| > 0
    ensures var f := Render(fx, E + [r]);
            && |f.phdr| == |E| + 2 && |f.shdr| == |E| + 5
            && FindPhdr(f, r) == |E| + 1 && FindShdr(f, r) == |E| + 4
            && f.phdr[|E| + 1].offset == f.shdr[|E| + 4].offset && EraseInBounds(f, |E| + 4, |r.name| + 1)
  {
    var F := E + [r];
    LastSpan(E, r);
    FindPhdrRendered(fx, F, r);
    FindShdrRendered(fx, F, r, |E|);
    DropRenders(fx, F, |E|);
    LastOffsets(fx, F);
    hide Render, ShdrMatches, CStr, FirstSpan, FindPhdr, FindShdr, OnlyAt, Fits, Erase, ValidRegion;
  }

  /** What the overrun leaves alone. */
  lemma OverrunParts(f: Elf, r: Region, nameIdx: nat, offset: nat)
    requires |f.phdr| > 2
    ensures var e := Overrun(f, r, nameIdx, offset);
            && e.shdr == f.shdr && e.strtab == f.strtab && e.strIdx == f.strIdx && |e.phdr| == |f.phdr|
            && e.phdr[|f.phdr| - 1] == f.phdr[|f.phdr| - 1]
    ensures forall s, n | 0 <= s < |f.shdr| && EraseInBounds(f, s, n) ::
              EraseInBounds(Overrun(f, r, nameIdx, offset), s, n)
  {
  }

  lemma FoundIsClearable(e: Elf, r: Region)
    requires FindPhdr(e, r) < |e.phdr| && 2 <= FindShdr(e, r) < |e.shdr|
    requires e.shdr[FindShdr(e, r)].offset == e.phdr[FindPhdr(e, r)].offset
    requires EraseInBounds(e, FindShdr(e, r), |r.name| + 1)
    ensures Clearable(e, r) && ClearInBounds(e, r)
  {
    hide FindPhdr, FindShdr, EraseInBounds;
  }

  lemma OverrunMatches(f: Elf, r: Region, nameIdx: nat, offset: nat)
    requires |f.phdr| >= 2 && f.phdr[0].memsz != r.size
    ensures var e := Overrun(f, r, nameIdx, offset);
            forall i | 0 <= i < |f.phdr| :: PhdrMatches(e.phdr[i], r) <==> PhdrMatches(f.phdr[i], r)
  {
  }

  lemma BannerSize(fx: Frame, E: seq<Region>)
    requires Fits(fx, E)
    ensures |Render(fx, E).phdr| > 0 && Render(fx, E).phdr[0].memsz == BANNER_SIZE
  {
    PhdrOfRender(fx, E);
    hide Render;
  }

  lemma LastSpan(E: seq<Region>, r: Region)
    requires OnlyAt(E, r.name, |E|) && FirstSpan(E, r) == |E|
    ensures FirstSpan(E + [r], r) == |E| && OnlyAt(E + [r], r.name, |E|)
  {
    var F := E + [r];
    assert F[|E|] == r && forall j | 0 <= j < |E| :: F[j] == E[j];
  }

  lemma LastOffsets(fx: Frame, E: seq<Region>)
    requires Fits(fx, E) && E != []
    ensures var e := Render(fx, E);
            |e.phdr| == |E| + 1 && |e.shdr| == |E| + 4 && e.phdr[|E|].offset == e.shdr[|E| + 3].offset
  {
    HeaderCounts(fx, E);
    PayloadsTile(fx, E, |E| - 1);
    hide Render, CStr;
  }

  lemma SameShdrSearch(e: Elf, f: Elf, r: Region)
    requires e.shdr == f.shdr && e.strtab == f.strtab && e.strIdx == f.strIdx
    ensures FindShdr(e, r) == FindShdr(f, r)
  {
    var x, y := FindShdr(e, r), FindShdr(f, r);
    assert forall s :: ShdrMatches(e, s, r) <==> ShdrMatches(f, s, r);
  }

  lemma SamePhdrSearch(e: Elf, f: Elf, r: Region)
    requires |e.phdr| == |f.phdr|
    requires forall i | 0 <= i < |e.phdr| :: PhdrMatches(e.phdr[i], r) <==> PhdrMatches(f.phdr[i], r)
    ensures FindPhdr(e, r) == FindPhdr(f, r)
  {
    var x, y := FindPhdr(e, r), FindPhdr(f, r);
    if x < |e.phdr| { assert PhdrMatches(f.phdr[x], r); }
    if y < |f.phdr| { assert PhdrMatches(e.phdr[y], r); }
  }

  /** Erasing the last headers of both kinds moves nothing, and wipes the words of the section. */
  lemma EraseLast(h: Header, size: nat, strln: nat)
    requires Sized(h) && h.shnum == h.max + 1 && 10 < h.phnum <= h.max && EraseInBounds(Image(h), h.max, strln)
    ensures PhdrOf(EraseHeaders(h, h.phnum - 1, h.max, size, strln), 0) == ZERO_PHDR
  {
    hide ShdrOf, Moved, Image;
    var a := CloseName(h, ShdrOf(h, h.max).name, strln);
    var b := ZeroWords(a, PhdrAt(h.max, h.phnum - 1), 7);
    ZeroWordsIs(a, PhdrAt(h.max, h.phnum - 1), 7);
    var c := b.(phnum := h.phnum - 1);
    ZeroWordsIs(c, ShdrAt(h.max), 8);
    var g := ZeroWords(c, ShdrAt(h.max), 8);
    WipedFirst(g);
    hide ZeroWords, PhdrOf;
    assert EraseHeaders(h, h.phnum - 1, h.max, size, strln).mem == g.mem;
    SameFront(EraseHeaders(h, h.phnum - 1, h.max, size, strln), g);
  }

  lemma WipedFirst(h: Header)
    requires Sized(h) && forall b | ShdrAt(h.max) <= b < ShdrAt(h.max) + 8 :: h.mem[b] == ZERO_WORD
    ensures PhdrOf(h, 0) == ZERO_PHDR
  {
  }

  lemma BannerOf(h: Header, fx: Frame, F: seq<Region>)
    requires Depicts(h, fx, F)
    ensures PhdrOf(h, 0).memsz == BANNER_SIZE
  {
    BannerSize(fx, F);
    assert Image(h).phdr[0] == PhdrOf(h, 0);
    hide Render, PhdrOf;
  }

  lemma NoBanner(h: Header, fx: Frame, F: seq<Region>)
    requires PhdrOf(h, 0) == ZERO_PHDR
    ensures !Depicts(h, fx, F)
  {
    hide Depicts, PhdrOf;
    if Depicts(h, fx, F) { BannerOf(h, fx, F); }
  }
}
