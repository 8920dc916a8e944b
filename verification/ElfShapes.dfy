/** What survives in the ELF image when updates have patched the wrong addresses: everything else.
    The bounds of every header operation follow from that shape alone. */
module ElfShapes {
  import opened Kernel
  import opened Sequences
  import opened Regions
  import opened ElfImage
  import opened ElfMemory

  function BarePhdr(p: Phdr): Phdr { p.(vaddr := 0, paddr := 0) }

  function BareShdr(s: Shdr): Shdr { s.(addr := 0) }

  /** Two images that differ at most in the addresses of user regions. */
  predicate SameShape(e: Elf, f: Elf) {
    && |e.phdr| == |f.phdr| > 0 && |e.shdr| == |f.shdr| >= 4
    && e.strtab == f.strtab && e.strIdx == f.strIdx && e.offset == f.offset
    && e.phdr[0] == f.phdr[0] && (forall i | 0 <= i < |e.phdr| :: BarePhdr(e.phdr[i]) == BarePhdr(f.phdr[i]))
    && (forall j | 0 <= j < 4 :: e.shdr[j] == f.shdr[j])
    && forall j | 0 <= j < |e.shdr| :: BareShdr(e.shdr[j]) == BareShdr(f.shdr[j])
  }

  lemma AddShape(e: Elf, f: Elf, r: Region)
    requires SameShape(e, f) && RoomFor(f, r)
    ensures RoomFor(e, r) && SameShape(AddHeader(e, r), AddHeader(f, r))
  {
  }

  /** The last four handles again, as far as the shape goes: a new physical address of the first region,
      which is where the third last one stores, does not change it. */
  predicate TailShape(fx: Frame, E: seq<Region>, i: nat, r: Region) {
    i + 4 >= fx.max ==>
      var j := i + 4 - fx.max;
      && (j < 4 && j != 1 && j <= |E| ==> r.virt == Overlapped(fx, E, j))
      && (i + 1 == fx.max ==> SpellsNames(r))
  }

  /** An update keeps the shape of the image, unless it is one of the last four handles and its stores
      change something there that is not the address of a region. */
  lemma UpdateShape(fx: Frame, E: seq<Region>, e: Elf, i: nat, r: Region)
    requires Fits(fx, E) && Placed(fx, E) && SameShape(e, Render(fx, E)) && i < fx.max
    ensures SameShape(UpdateHeader(fx.max, e, i, r), Render(fx, E)) <==> TailShape(fx, E, i, r)
  {
    HeaderCounts(fx, E);
    if i + 4 >= fx.max {
      TailStores(fx, E, e, i, r);
    } else {
      hide Render, WithBytes, Bytes;
    }
  }

  /** Where the stores of one of the last four handles show. */
  lemma TailStores(fx: Frame, E: seq<Region>, e: Elf, i: nat, r: Region)
    requires Fits(fx, E) && Placed(fx, E) && SameShape(e, Render(fx, E)) && fx.max <= i + 4 < fx.max + 4
    ensures SameShape(UpdateHeader(fx.max, e, i, r), Render(fx, E)) <==> TailShape(fx, E, i, r)
  {
    HeaderCounts(fx, E);
    var f, j := Render(fx, E), i + 4 - fx.max;
    TextRewritten(fx, E, r);
    if j <= |E| { OverlaidShape(fx, E, e, j, r.virt); }
    ShapeCounts(e, f);
    TailStoresAre(fx.max, e, i, r);
    hide *;
    ShapeOverlaid(e, f, j, if j < |e.phdr| then Overlaid(e.phdr[j], j, r.virt) else ZERO_PHDR,
                  if i + 1 == fx.max then Rewritten(e.strtab, r) else e.strtab);
  }

  /** One program header and the string table replaced. */
  lemma ShapeOverlaid(e: Elf, f: Elf, j: nat, p: Phdr, text: seq<char>)
    requires SameShape(e, f)
    ensures SameShape(e.(phdr := if j < |e.phdr| then e.phdr[j := p] else e.phdr, strtab := text), f) <==>
            && text == e.strtab
            && (j < |e.phdr| ==> BarePhdr(p) == BarePhdr(f.phdr[j]) && (j == 0 ==> p == f.phdr[0]))
  {
    hide BarePhdr, BareShdr;
    var u := e.(phdr := if j < |e.phdr| then e.phdr[j := p] else e.phdr, strtab := text);
    if j < |e.phdr| { assert u.phdr[j] == p; }
    assert forall x | 0 <= x < |e.phdr| && x != j :: u.phdr[x] == e.phdr[x];
  }

  lemma OverlaidShape(fx: Frame, E: seq<Region>, e: Elf, j: nat, v: nat)
    requires Fits(fx, E) && SameShape(e, Render(fx, E)) && j < 4 && j <= |E|
    ensures var p, q := e.phdr, Render(fx, E).phdr;
            && j < |p| == |q|
            && (BarePhdr(Overlaid(p[j], j, v)) == BarePhdr(q[j]) && (j == 0 ==> Overlaid(p[0], 0, v) == q[0])
                <==> j == 1 || v == Overlapped(fx, E, j))
  {
    PhdrOfRender(fx, E);
    assert BarePhdr(e.phdr[j]) == BarePhdr(Render(fx, E).phdr[j]);
    hide PayloadAt, Render;
  }

  lemma EraseShape(e: Elf, f: Elf, p: nat, s: nat, size: nat, strln: nat)
    requires SameShape(e, f) && 0 < p < |f.phdr| && 4 <= s < |f.shdr| && EraseInBounds(f, s, strln)
    ensures EraseInBounds(e, s, strln) && SameShape(Erase(e, p, s, size, strln), Erase(f, p, s, size, strln))
  {
    hide Moved;
    assert BareShdr(e.shdr[s]) == BareShdr(f.shdr[s]);
    var a, b := Erase(e, p, s, size, strln), Erase(f, p, s, size, strln);
    forall i | 0 <= i < |a.phdr| ensures BarePhdr(a.phdr[i]) == BarePhdr(b.phdr[i]) {
      var m := if i < p then i else i + 1;
      assert BarePhdr(e.phdr[m]) == BarePhdr(f.phdr[m]);
    }
    forall j | 0 <= j < |a.shdr| ensures BareShdr(a.shdr[j]) == BareShdr(b.shdr[j]) {
      var m := if j < s then j else j + 1;
      assert BareShdr(e.shdr[m]) == BareShdr(f.shdr[m]);
    }
  }

  /** The program headers of two empty regions with nothing but empty ones between them have one
      shape. */
  lemma OtherPhdrShape(fx: Frame, E: seq<Region>, p: nat, k: nat, i: nat)
    requires p <= k < |E| && (p < k ==> forall j | p <= j <= k :: E[j].size == 0) && i < |E|
    ensures var ph, f := RenderPhdr(fx, E), LowerPhdr(E[k].size);
            BarePhdr(Close(ph, p + 1, f)[i]) == BarePhdr(Close(ph, k + 1, f)[i])
  {
    if p + 1 <= i <= k { assert PayloadAt(fx, E, i) == PayloadAt(fx, E, i - 1) + E[i - 1].size; }
  }

  predicate AlikePhdrs(x: seq<Phdr>, y: seq<Phdr>) {
    |x| == |y| > 0 && x[0] == y[0] && forall i | 0 <= i < |x| :: BarePhdr(x[i]) == BarePhdr(y[i])
  }

  lemma OtherPhdrsShape(fx: Frame, E: seq<Region>, p: nat, k: nat)
    requires p < |E| && k < |E|
    requires p < k ==> forall j | p <= j <= k :: E[j].size == 0
    requires k < p ==> forall j | k <= j <= p :: E[j].size == 0
    ensures var ph, f := RenderPhdr(fx, E), LowerPhdr(E[k].size); AlikePhdrs(Close(ph, p + 1, f), Close(ph, k + 1, f))
  {
    hide RenderPhdr, PayloadAt, BarePhdr, LowerPhdr;
    var x, y := Close(RenderPhdr(fx, E), p + 1, LowerPhdr(E[k].size)),
        Close(RenderPhdr(fx, E), k + 1, LowerPhdr(E[k].size));
    forall i | 0 <= i < |E| ensures BarePhdr(x[i]) == BarePhdr(y[i]) {
      if p <= k { OtherPhdrShape(fx, E, p, k, i); } else { OtherPhdrShape(fx, E, k, p, i); }
    }
  }

  lemma ShapeOfPhdrs(e: Elf, ph: seq<Phdr>)
    requires AlikePhdrs(ph, e.phdr) && |e.shdr| >= 4
    ensures SameShape(e.(phdr := ph), e)
  {
  }

  lemma OtherEraseShape(fx: Frame, E: seq<Region>, p: nat, k: nat)
    requires Fits(fx, E) && p < |E| && k < |E|
    requires p < k ==> forall j | p <= j <= k :: E[j].size == 0
    requires k < p ==> forall j | k <= j <= p :: E[j].size == 0
    requires |Render(fx, E).phdr| == |E| + 1 && |Render(fx, E).shdr| == |E| + 4
    requires EraseInBounds(Render(fx, E), k + 4, |E[k].name| + 1)
    ensures Fits(fx, Drop(E, k))
    ensures SameShape(Erase(Render(fx, E), p + 1, k + 4, E[k].size, |E[k].name| + 1), Render(fx, Drop(E, k)))
  {
    hide *;
    var e, n := Render(fx, E), |E[k].name| + 1;
    DropRenders(fx, E, k);
    HeaderCounts(fx, Drop(E, k));
    PhdrOfRender(fx, E);
    EraseDiffersInPhdr(e, p + 1, k + 1, k + 4, E[k].size, n);
    EraseDiffersInPhdr(e, k + 1, k + 1, k + 4, E[k].size, n);
    OtherPhdrsShape(fx, E, p, k);
    ShapeOfPhdrs(Erase(e, k + 1, k + 4, E[k].size, n), Erase(e, p + 1, k + 4, E[k].size, n).phdr);
  }

  /** A section of this shape is called as in the list, whatever address it carries. */
  lemma SectionCalled(fx: Frame, E: seq<Region>, e: Elf, r: Region, j: nat)
    requires Fits(fx, E) && SameShape(e, Render(fx, E)) && ValidRegion(r) && j < |e.shdr|
             && ShdrMatches(e, e.shdr[j], r)
    ensures |e.shdr| == |E| + 4 && j >= 4 && E[j - 4].name == r.name && E[j - 4].size == r.size
  {
    HeaderCounts(fx, E);
    var f := Render(fx, E);
    assert BareShdr(e.shdr[j]) == BareShdr(f.shdr[j]);
    if j < 4 {
      ShdrMatchRendered(fx, E, r, j);
    } else {
      assert f.shdr[j].addr == E[j - 4].virt;
      assert ValidRegion(E[j - 4]);
      ShdrMatchRendered(fx, E, r.(virt := E[j - 4].virt), j);
    }
  }

  lemma HeaderCalled(fx: Frame, E: seq<Region>, e: Elf, r: Region, i: nat)
    requires Fits(fx, E) && SameShape(e, Render(fx, E)) && r.size % 4 == 0 && i < |e.phdr| && PhdrMatches(e.phdr[i], r)
    ensures |e.phdr| == |E| + 1 && i > 0 && E[i - 1].size == r.size && e.phdr[i].offset == PayloadAt(fx, E, i - 1)
  {
    hide PayloadAt;
    PhdrOfRender(fx, E);
    assert BarePhdr(e.phdr[i]) == BarePhdr(Render(fx, E).phdr[i]);
  }

  /** Any image of the shape of a list clears the region of the requested name or refuses, in bounds,
      and what it leaves has the shape of the list without that region. */
  lemma ClearShape(fx: Frame, E: seq<Region>, e: Elf, r: Region, k: nat)
    requires Fits(fx, E) && SameShape(e, Render(fx, E)) && ValidRegion(r) && OnlyAt(E, r.name, k)
    ensures ClearInBounds(e, r)
    ensures ClearHeaders(e, r).1 != 0 ==> ClearHeaders(e, r) == (e, -EINVAL)
    ensures ClearHeaders(e, r).1 == 0 ==>
              k < |E| && Fits(fx, Drop(E, k)) && SameShape(ClearHeaders(e, r).0, Render(fx, Drop(E, k)))
  {
    hide FindPhdr, FindShdr, Erase, Render, EraseInBounds, SameShape, PayloadAt;
    if Clearable(e, r) {
      var p, s := ClearedAt(fx, E, e, r, k);
      HeaderCounts(fx, E);
      DropRenders(fx, E, k);
      ShapeCounts(e, Render(fx, E));
      EraseShape(e, Render(fx, E), p + 1, k + 4, r.size, |r.name| + 1);
      OtherEraseShape(fx, E, p, k);
      ShapeTransitive(Erase(e, p + 1, k + 4, r.size, |r.name| + 1),
                      Erase(Render(fx, E), p + 1, k + 4, r.size, |r.name| + 1),
                      Render(fx, Drop(E, k)));
    }
  }

  lemma ShapeCounts(e: Elf, f: Elf)
    requires SameShape(e, f)
    ensures |e.phdr| == |f.phdr| && |e.shdr| == |f.shdr|
  {
  }

  lemma ShapeOfSelf(e: Elf)
    requires |e.phdr| > 0 && |e.shdr| >= 4
    ensures SameShape(e, e)
  {
  }

  lemma ReaddressShape(e: Elf, k: nat, r: Region)
    requires k + 1 < |e.phdr| && k + 4 < |e.shdr|
    ensures SameShape(e, Readdressed(e, k, r))
  {
  }

  lemma ShapeSymmetric(e: Elf, f: Elf)
    requires SameShape(e, f)
    ensures SameShape(f, e)
  {
  }

  lemma ShapeTransitive(e: Elf, f: Elf, g: Elf)
    requires SameShape(e, f) && SameShape(f, g)
    ensures SameShape(e, g)
  {
  }

  /** Where a clear hits: the section of the requested name, and the program header of a region of
      that size at the same place in the file. */
  lemma ClearedAt(fx: Frame, E: seq<Region>, e: Elf, r: Region, k: nat) returns (p: nat, s: nat)
    requires Fits(fx, E) && SameShape(e, Render(fx, E)) && ValidRegion(r) && OnlyAt(E, r.name, k) && Clearable(e, r)
    ensures k < |E| && p < |E| && FindPhdr(e, r) == p + 1 && FindShdr(e, r) == s == k + 4
    ensures E[k].size == r.size && E[k].name == r.name
    ensures p < k ==> forall j | p <= j <= k :: E[j].size == 0
    ensures k < p ==> forall j | k <= j <= p :: E[j].size == 0
  {
    hide Render, PayloadAt;
    s := FindShdr(e, r);
    SectionCalled(fx, E, e, r, s);
    HeaderCalled(fx, E, e, r, FindPhdr(e, r));
    p := FindPhdr(e, r) - 1;
    SectionOffset(fx, E, e, s);
    if p <= k { SizesBetween(fx, E, p, k); } else { SizesBetween(fx, E, k, p); }
  }

  lemma SectionOffset(fx: Frame, E: seq<Region>, e: Elf, s: nat)
    requires Fits(fx, E) && SameShape(e, Render(fx, E)) && 4 <= s < |e.shdr|
    ensures |e.shdr| == |E| + 4 && e.shdr[s].offset == PayloadAt(fx, E, s - 4)
  {
    HeaderCounts(fx, E);
    assert BareShdr(e.shdr[s]) == BareShdr(Render(fx, E).shdr[s]);
    hide PayloadAt, NameAt, Table;
  }

  /** Not even the shape of more than MAX_NUM_ENTRIES - 4 regions fits the allocation. */
  lemma ShapePlaced(h: Header, fx: Frame, E: seq<Region>)
    requires h.max == fx.max && Sized(h) && Fits(fx, E) && SameShape(Image(h), Render(fx, E))
    ensures Placed(fx, E) && h.phnum == |E| + 1 && h.shnum == |E| + 4
  {
    HeaderCounts(fx, E);
    var e := Image(h);
    forall j | 4 <= j < |e.shdr| ensures e.shdr[j].flags == SHF_WRITE {
      assert BareShdr(e.shdr[j]) == BareShdr(Render(fx, E).shdr[j]);
    }
    assert e.phdr[0] == BannerPhdr(fx);
    hide Render, SameShape, Image;
    if h.shnum > h.max { FirstOverlap(h); }
  }

  // ------------------------------------------------------------------ requests nobody validates

  /** A request that spells out the banner section. */
  predicate IsBanner(fx: Frame, r: Region) {
    r.name == "linux_banner" && r.virt == fx.bannerVa && r.phys == fx.bannerPa && r.size == BANNER_SIZE
  }

  /** Removal requests are not validated. One that no region could satisfy is refused by the ELF
      search, unless it spells out the banner. */
  lemma UnvalidatedClear(fx: Frame, E: seq<Region>, r: Region)
    requires Fits(fx, E) && |r.name| <= MAX_NAME_LENGTH && !ValidRegion(r)
    ensures ClearInBounds(Render(fx, E), r)
    ensures Clearable(Render(fx, E), r) <==> IsBanner(fx, r)
    ensures Clearable(Render(fx, E), r) ==> FindPhdr(Render(fx, E), r) == 0 && FindShdr(Render(fx, E), r) == 3
  {
    var e := Render(fx, E);
    var p, s := FindPhdr(e, r), FindShdr(e, r);
    HeaderCounts(fx, E);
    BannerRoom(fx, E);
    if s < |e.shdr| { FixedMatch(fx, E, r, s); }
    if p < |e.phdr| { HeaderMatch(fx, E, r, p); }
    if IsBanner(fx, r) { BannerMatches(fx, E, r); }
    hide Render, PhdrMatches, ShdrMatches, CStr;
  }

  /** A section that such a request matches is one of three fixed ones, which lie in front of the payloads. */
  lemma FixedMatch(fx: Frame, E: seq<Region>, r: Region, s: nat)
    requires Fits(fx, E) && |r.name| <= MAX_NAME_LENGTH && !ValidRegion(r) && |Render(fx, E).shdr| == |E| + 4
    requires s < |E| + 4 && ShdrMatches(Render(fx, E), Render(fx, E).shdr[s], r)
    ensures s < 4 && s != 2 && Render(fx, E).shdr[s] == FixedShdr(fx, s) && r.virt == FixedShdr(fx, s).addr
    ensures r.name == FIXED_NAMES[s] && r.size == FixedShdr(fx, s).size && FixedShdr(fx, s).offset < fx.ElfhSize()
  {
    assert |FIXED_NAMES[2]| == 14;
    SectionName(fx, E, s);
    hide NameAt, Table, PayloadAt, CStr;
  }

  lemma HeaderMatch(fx: Frame, E: seq<Region>, r: Region, p: nat)
    requires Fits(fx, E) && |Render(fx, E).phdr| == |E| + 1 && p < |E| + 1 && PhdrMatches(Render(fx, E).phdr[p], r)
    ensures p == 0 ==>
              r.phys == fx.bannerPa && r.size == BANNER_SIZE && Render(fx, E).phdr[0].offset == fx.BannerOffset()
    ensures p > 0 ==> r.size % 4 == 0 && Render(fx, E).phdr[p].offset >= fx.ElfhSize()
  {
    PhdrOfRender(fx, E);
    if p > 0 { assert ValidRegion(E[p - 1]); }
    hide Render;
  }

  lemma BannerMatches(fx: Frame, E: seq<Region>, r: Region)
    requires Fits(fx, E) && IsBanner(fx, r)
    ensures var e := Render(fx, E);
            && |e.phdr| == |E| + 1 && |e.shdr| == |E| + 4 && PhdrMatches(e.phdr[0], r) && ShdrMatches(e, e.shdr[3], r)
            && e.shdr[3].offset == e.phdr[0].offset
  {
    SectionName(fx, E, 3);
    hide NameAt, Table, PayloadAt, CStr;
  }

  lemma BannerRoom(fx: Frame, E: seq<Region>)
    requires Fits(fx, E)
    ensures EraseInBounds(Render(fx, E), 3, 13)
  {
    NamesFit(fx, E);
    var names := SectionNames(E);
    FixedOffsets(names);
    PrefixMonotone(Weights(names), 4, |names|);
  }
}
