/** The header allocation as memory: the words of the section headers, those of the program headers
    behind them, and the string table behind those. What each header operation stores, whatever lies
    where it stores, and when that is what the operation does to the image of ElfImage. */
module ElfMemory {
  import opened Kernel
  import opened Sequences
  import opened Regions
  import opened ElfImage

  /** A 64-bit word as it was stored: whole, or as two 32-bit halves. */
  datatype Word = Whole(v: nat) | Halves(lo: nat, hi: nat)

  const ZERO_WORD := Whole(0)

  function Long(w: Word): nat {
    match w
    case Whole(v) => v
    case Halves(lo, hi) => lo + TWO_32 * hi
  }

  function Lo(w: Word): nat {
    match w
    case Whole(v) => v % TWO_32
    case Halves(lo, _) => lo
  }

  function Hi(w: Word): nat {
    match w
    case Whole(v) => v / TWO_32
    case Halves(_, hi) => hi
  }

  /** `mem` are the words from the end of the ELF header to the string table; then the header counts
      and the two running totals. */
  datatype Header = Header(max: Capacity, mem: seq<Word>, strtab: seq<char>, phnum: nat, shnum: nat, strIdx: nat,
                           offset: nat)

  /** Eight words a section and seven a program header, `max` places for each. */
  predicate Sized(h: Header) { |h.mem| == 15 * h.max && |h.strtab| == MAX_REGION_NAME_LENGTH * h.max }

  function ShdrAt(i: nat): nat { 8 * i }

  function PhdrAt(max: nat, i: nat): nat { 8 * max + 7 * i }

  // ------------------------------------------------------------------ loads and stores

  /** A 32-bit number from its four bytes. */
  function Number(b: seq<char>): nat
    requires |b| == 4
  {
    b[0] as int % 256 + 0x100 * (b[1] as int % 256) + 0x1_0000 * (b[2] as int % 256) + 0x100_0000 * (b[3] as int % 256)
  }

  predicate InAllocation(h: Header, a: nat) { a < |h.mem| || 8 * (a - |h.mem|) + 8 <= |h.strtab| }

  /** Word `a`, which may lie in the string table. No operation loads or stores outside the allocation
      (see ElfHeaders). */
  function Load(h: Header, a: nat): Word {
    if a < |h.mem| then h.mem[a]
    else if InAllocation(h, a) then
      var at := 8 * (a - |h.mem|); Halves(Number(h.strtab[at..at + 4]), Number(h.strtab[at + 4..at + 8]))
    else ZERO_WORD
  }

  function Store(h: Header, a: nat, w: Word): (g: Header)
    ensures SameCounts(g, h)
  {
    h.(mem := StoreWord(h.mem, a, w), strtab := StoreBytes(h.strtab, |h.mem|, a, w))
  }

  function StoreWord(m: seq<Word>, a: nat, w: Word): (n: seq<Word>)
    ensures |n| == |m|
  {
    if a < |m| then m[a := w] else m
  }

  function StoreBytes(t: seq<char>, base: nat, a: nat, w: Word): (u: seq<char>)
    ensures |u| == |t|
  {
    if base <= a && 8 * (a - base) + 8 <= |t| then WithBytes(t, 8 * (a - base), Bytes(Long(w))) else t
  }

  /** Loads and stores concern the words and the string table, nothing else. */
  predicate SameCounts(g: Header, h: Header) {
    && g.max == h.max && g.phnum == h.phnum && g.shnum == h.shnum && g.strIdx == h.strIdx && g.offset == h.offset
    && |g.mem| == |h.mem| && |g.strtab| == |h.strtab|
  }

  function ShdrOf(h: Header, i: nat): Shdr {
    var a := ShdrAt(i);
    Shdr(Lo(Load(h, a)), Hi(Load(h, a)), Long(Load(h, a + 1)), Long(Load(h, a + 2)), Long(Load(h, a + 3)),
         Long(Load(h, a + 4)), Long(Load(h, a + 7)))
  }

  function PhdrOf(h: Header, i: nat): Phdr {
    var a := PhdrAt(h.max, i);
    Phdr(Lo(Load(h, a)), Long(Load(h, a + 1)), Long(Load(h, a + 2)), Long(Load(h, a + 3)), Long(Load(h, a + 4)),
         Long(Load(h, a + 5)), Hi(Load(h, a)))
  }

  /** What a reader of the ELF file finds. */
  function Image(h: Header): (e: Elf)
    ensures |e.phdr| == h.phnum && |e.shdr| == h.shnum
    ensures forall i | 0 <= i < h.phnum :: e.phdr[i] == PhdrOf(h, i)
    ensures forall j | 0 <= j < h.shnum :: e.shdr[j] == ShdrOf(h, j)
    ensures e.strtab == h.strtab && e.strIdx == h.strIdx && e.offset == h.offset
  {
    Elf(seq(h.phnum, i requires 0 <= i < h.phnum => PhdrOf(h, i)),
        seq(h.shnum, i requires 0 <= i < h.shnum => ShdrOf(h, i)),
        h.strtab, h.strIdx, h.offset)
  }

  // ------------------------------------------------------------------ operations

  /** The stores of a section header; `sh_link`, `sh_info` and `sh_addralign` are never written. */
  function PutShdr(h: Header, i: nat, s: Shdr): (t: Header)
    ensures SameCounts(t, h)
  {
    var a := ShdrAt(i);
    var g := Store(Store(Store(h, a, Halves(s.name, s.stype)), a + 1, Whole(s.flags)), a + 2, Whole(s.addr));
    Store(Store(Store(g, a + 3, Whole(s.offset)), a + 4, Whole(s.size)), a + 7, Whole(s.entsize))
  }

  /** The stores of a program header; `p_align` is never written. */
  function PutPhdr(h: Header, i: nat, p: Phdr): (t: Header)
    ensures SameCounts(t, h)
  {
    var a := PhdrAt(h.max, i);
    var g := Store(Store(Store(h, a, Halves(p.ptype, p.flags)), a + 1, Whole(p.offset)), a + 2, Whole(p.vaddr));
    Store(Store(Store(g, a + 3, Whole(p.paddr)), a + 4, Whole(p.filesz)), a + 5, Whole(p.memsz))
  }

  /** The name fits the string table and both headers the allocation. */
  predicate HasRoom(h: Header, r: Region) {
    h.strIdx + |r.name| + 1 <= |h.strtab| && h.shnum <= h.max + 3 && h.phnum <= h.max
  }

  function PutName(h: Header, name: CString): Header
    requires h.strIdx + |name| + 1 <= |h.strtab|
  {
    h.(strtab := WithName(h.strtab, h.strIdx, name), strIdx := h.strIdx + |name| + 1)
  }

  /** `md_add_elf_header`. */
  function AddHeaders(h: Header, r: Region): Header
    requires HasRoom(h, r)
  {
    var g := PutShdr(PutName(h, r.name), h.shnum, ProgShdr(r, h.strIdx, h.offset));
    PutPhdr(g, h.phnum, LoadPhdr(r, h.offset)).(shnum := h.shnum + 1, phnum := h.phnum + 1, offset := h.offset + r.size)
  }

  /** `md_update_elf_header`. */
  function PatchHeaders(h: Header, i: nat, r: Region): Header {
    var p := PhdrAt(h.max, i + 1) + 2;
    Store(Store(Store(h, ShdrAt(i + 4) + 2, Whole(r.virt)), p, Whole(r.virt)), p + 1, Whole(r.phys))
  }

  /** memcpy of `n` words, and memset of `n` words to zero. */
  function CopyWords(h: Header, to: nat, from: nat, n: nat): Header {
    if n == 0 then h else var g := CopyWords(h, to, from, n - 1); Store(g, to + n - 1, Load(g, from + n - 1))
  }

  function ZeroWords(h: Header, at: nat, n: nat): Header {
    if n == 0 then h else Store(ZeroWords(h, at, n - 1), at + n - 1, ZERO_WORD)
  }

  /** Header `i + 1` moved one place down, its payload by `size`. */
  function MovePhdr(h: Header, i: nat, size: nat): Header {
    var a := PhdrAt(h.max, i);
    var g := CopyWords(h, a, PhdrAt(h.max, i + 1), 7);
    Store(g, a + 1, Whole(Minus64(Long(Load(g, a + 1)), size)))
  }

  function MoveShdr(h: Header, i: nat, size: nat, strln: nat): Header {
    var a := ShdrAt(i);
    var g := CopyWords(h, a, ShdrAt(i + 1), 8);
    var f := Store(g, a + 3, Whole(Minus64(Long(Load(g, a + 3)), size)));
    Store(f, a, Halves(Minus32(Lo(Load(f, a)), strln), Hi(Load(f, a))))
  }

  function MovePhdrs(h: Header, i: nat, n: nat, size: nat): Header
    decreases n - i
  {
    if i >= n then h else MovePhdrs(MovePhdr(h, i, size), i + 1, n, size)
  }

  function MoveShdrs(h: Header, i: nat, n: nat, size: nat, strln: nat): Header
    decreases n - i
  {
    if i >= n then h else MoveShdrs(MoveShdr(h, i, size, strln), i + 1, n, size, strln)
  }

  function CloseName(h: Header, start: nat, strln: nat): Header
    requires start <= h.strIdx && strln <= h.strIdx && h.strIdx + strln <= |h.strtab|
  {
    h.(strtab := Moved(h.strtab, start, start + strln, h.strIdx - start), strIdx := h.strIdx - strln)
  }

  function ClosePhdrs(h: Header, p: nat, size: nat): (g: Header)
    requires p < h.phnum
    ensures g.shnum == h.shnum
  {
    var n := h.phnum - 1;
    MovePhdrsCounts(h, p, n, size);
    ZeroWordsCounts(MovePhdrs(h, p, n, size), PhdrAt(h.max, n), 7);
    ZeroWords(MovePhdrs(h, p, n, size), PhdrAt(h.max, n), 7).(phnum := n)
  }

  function CloseShdrs(h: Header, s: nat, size: nat, strln: nat): Header
    requires s < h.shnum
  {
    var n := h.shnum - 1; ZeroWords(MoveShdrs(h, s, n, size, strln), ShdrAt(n), 8).(shnum := n)
  }

  /** What a clear does once it has found program header `p` and section `s`. */
  function EraseHeaders(h: Header, p: nat, s: nat, size: nat, strln: nat): Header
    requires p < h.phnum && s < h.shnum && EraseInBounds(Image(h), s, strln)
  {
    var g := ClosePhdrs(CloseName(h, ShdrOf(h, s).name, strln), p, size);
    CloseShdrs(g, s, size, strln).(offset := Minus64(h.offset, size))
  }

  /** `msm_minidump_clear_headers`. */
  function ClearMemory(h: Header, r: Region): (Header, int)
    requires ClearInBounds(Image(h), r)
  {
    var e := Image(h);
    if Clearable(e, r) then (EraseHeaders(h, FindPhdr(e, r), FindShdr(e, r), r.size, |r.name| + 1), 0) else (h, -EINVAL)
  }

  // ------------------------------------------------------------------ what stores leave alone

  lemma {:induction false} CopyWordsCounts(h: Header, to: nat, from: nat, n: nat)
    ensures SameCounts(CopyWords(h, to, from, n), h)
  {
    if n > 0 { CopyWordsCounts(h, to, from, n - 1); }
  }

  lemma {:induction false} ZeroWordsCounts(h: Header, at: nat, n: nat)
    ensures SameCounts(ZeroWords(h, at, n), h)
  {
    if n > 0 { ZeroWordsCounts(h, at, n - 1); }
  }

  lemma {:induction false} MovePhdrsCounts(h: Header, i: nat, n: nat, size: nat)
    ensures SameCounts(MovePhdrs(h, i, n, size), h)
    decreases n - i
  {
    if i < n {
      CopyWordsCounts(h, PhdrAt(h.max, i), PhdrAt(h.max, i + 1), 7);
      MovePhdrsCounts(MovePhdr(h, i, size), i + 1, n, size);
    }
  }

  lemma {:induction false} MoveShdrsCounts(h: Header, i: nat, n: nat, size: nat, strln: nat)
    ensures SameCounts(MoveShdrs(h, i, n, size, strln), h)
    decreases n - i
  {
    if i < n {
      CopyWordsCounts(h, ShdrAt(i), ShdrAt(i + 1), 8);
      MoveShdrsCounts(MoveShdr(h, i, size, strln), i + 1, n, size, strln);
    }
  }

  // ------------------------------------------------------------------ headers in places of their own

  predicate WordsAgree(g: Header, h: Header, lo: nat, hi: nat)
    requires hi <= |g.mem| && hi <= |h.mem|
  {
    forall b | lo <= b < hi :: g.mem[b] == h.mem[b]
  }

  /** Nothing but the words from `lo` to `hi` has changed. */
  predicate OnlyWords(g: Header, h: Header, lo: nat, hi: nat) {
    SameCounts(g, h) && g.strtab == h.strtab && forall b | 0 <= b < |h.mem| && !(lo <= b < hi) :: g.mem[b] == h.mem[b]
  }

  lemma ShdrFrame(g: Header, h: Header, i: nat)
    requires Sized(g) && Sized(h) && g.max == h.max && i < h.max && WordsAgree(g, h, ShdrAt(i), ShdrAt(i) + 8)
    ensures ShdrOf(g, i) == ShdrOf(h, i)
  {
  }

  lemma PhdrFrame(g: Header, h: Header, i: nat)
    requires Sized(g) && Sized(h) && g.max == h.max && i < h.max
             && WordsAgree(g, h, PhdrAt(h.max, i), PhdrAt(h.max, i) + 7)
    ensures PhdrOf(g, i) == PhdrOf(h, i)
  {
  }

  lemma ImageIs(h: Header, e: Elf)
    requires |e.phdr| == h.phnum && |e.shdr| == h.shnum
    requires e.strtab == h.strtab && e.strIdx == h.strIdx && e.offset == h.offset
    requires forall i | 0 <= i < h.phnum :: e.phdr[i] == PhdrOf(h, i)
    requires forall j | 0 <= j < h.shnum :: e.shdr[j] == ShdrOf(h, j)
    ensures Image(h) == e
  {
    hide PhdrOf, ShdrOf;
    assert Image(h).phdr == e.phdr;
    assert Image(h).shdr == e.shdr;
  }

  lemma PutShdrIs(h: Header, i: nat, s: Shdr)
    requires Sized(h) && i < h.max
    ensures var g := PutShdr(h, i, s); Sized(g) && ShdrOf(g, i) == s && OnlyWords(g, h, ShdrAt(i), ShdrAt(i) + 8)
  {
  }

  lemma PutPhdrIs(h: Header, i: nat, p: Phdr)
    requires Sized(h) && i < h.max
    ensures var g := PutPhdr(h, i, p);
            Sized(g) && PhdrOf(g, i) == p && OnlyWords(g, h, PhdrAt(h.max, i), PhdrAt(h.max, i) + 7)
  {
  }

  /** While both new headers have a place, adding them is what it is to the image. */
  lemma AddImage(h: Header, r: Region)
    requires Sized(h) && HasRoom(h, r) && h.shnum < h.max && h.phnum < h.max
    ensures RoomFor(Image(h), r) && Sized(AddHeaders(h, r)) && Image(AddHeaders(h, r)) == AddHeader(Image(h), r)
  {
    hide PutShdr, PutPhdr, ShdrOf, PhdrOf, WithName, LoadPhdr, ProgShdr;
    var s, p := ProgShdr(r, h.strIdx, h.offset), LoadPhdr(r, h.offset);
    var a := PutName(h, r.name);
    var b := PutShdr(a, h.shnum, s);
    var c := PutPhdr(b, h.phnum, p);
    PutShdrIs(a, h.shnum, s);
    PutPhdrIs(b, h.phnum, p);
    ShdrFrame(c, b, h.shnum);
    forall i | 0 <= i < h.shnum ensures ShdrOf(c, i) == ShdrOf(h, i) { ShdrFrame(c, h, i); }
    forall i | 0 <= i < h.phnum ensures PhdrOf(c, i) == PhdrOf(h, i) { PhdrFrame(c, h, i); }
    var t := AddHeaders(h, r);
    forall i | 0 <= i <= h.shnum ensures ShdrOf(t, i) == ShdrOf(c, i) { ShdrFrame(t, c, i); }
    forall i | 0 <= i <= h.phnum ensures PhdrOf(t, i) == PhdrOf(c, i) { PhdrFrame(t, c, i); }
    ImageIs(t, AddHeader(Image(h), r));
  }

  /** The address of a section, wherever it lands. */
  lemma StoreAddrImage(h: Header, n: nat, v: nat)
    requires Sized(h) && h.shnum <= h.max && h.phnum <= h.max && n < h.max + 4
    ensures var g := Store(h, ShdrAt(n) + 2, Whole(v));
            Sized(g) && SameCounts(g, h) && Image(g) == StoreAddr(h.max, Image(h), n, v)
  {
    var g, e := Store(h, ShdrAt(n) + 2, Whole(v)), StoreAddr(h.max, Image(h), n, v);
    if n < h.max { ShdrField(h, n, v); } else { PhdrField(h, n - h.max, v); }
    AddrElsewhere(h, n, v);
    hide ShdrOf, PhdrOf, Overlaid, Store, Sized;
    ImageIs(g, e);
  }

  lemma AddrElsewhere(h: Header, n: nat, v: nat)
    requires Sized(h) && h.shnum <= h.max && h.phnum <= h.max && n < h.max + 4
    ensures var g := Store(h, ShdrAt(n) + 2, Whole(v));
            && Sized(g) && g.strtab == h.strtab
            && (forall i | 0 <= i < h.shnum && i != n :: ShdrOf(g, i) == ShdrOf(h, i))
            && (forall i | 0 <= i < h.phnum && h.max + i != n :: PhdrOf(g, i) == PhdrOf(h, i))
  {
    var g := Store(h, ShdrAt(n) + 2, Whole(v));
    hide ShdrOf, PhdrOf;
    forall i | 0 <= i < h.shnum && i != n ensures ShdrOf(g, i) == ShdrOf(h, i) { ShdrFrame(g, h, i); }
    forall i | 0 <= i < h.phnum && h.max + i != n ensures PhdrOf(g, i) == PhdrOf(h, i) { PhdrFrame(g, h, i); }
  }

  lemma ShdrField(h: Header, i: nat, v: nat)
    requires Sized(h) && i < h.max
    ensures ShdrOf(Store(h, ShdrAt(i) + 2, Whole(v)), i) == ShdrOf(h, i).(addr := v)
  {
  }

  /** The address of section `max + i` is word `i + 2` of program header `i`. */
  lemma PhdrField(h: Header, i: nat, v: nat)
    requires Sized(h) && i < 4
    ensures PhdrOf(Store(h, ShdrAt(h.max + i) + 2, Whole(v)), i) == Overlaid(PhdrOf(h, i), i, v)
  {
    assert ShdrAt(h.max + i) + 2 == PhdrAt(h.max, i) + i + 2;
  }

  lemma StoreSpanImage(h: Header, n: nat, r: Region)
    requires Sized(h) && h.shnum <= h.max && h.phnum <= h.max && n <= h.max
    ensures var a := PhdrAt(h.max, n) + 2; var g := Store(Store(h, a, Whole(r.virt)), a + 1, Whole(r.phys));
            Sized(g) && SameCounts(g, h) && Image(g) == StoreSpan(h.max, Image(h), n, r)
  {
    var a := PhdrAt(h.max, n) + 2;
    var g, e := Store(Store(h, a, Whole(r.virt)), a + 1, Whole(r.phys)), StoreSpan(h.max, Image(h), n, r);
    hide Bytes;
    if n < h.max { SpanField(h, n, r); }
    hide ShdrOf, PhdrOf;
    forall i | 0 <= i < h.shnum ensures ShdrOf(g, i) == ShdrOf(h, i) { ShdrFrame(g, h, i); }
    forall i | 0 <= i < h.phnum && i != n ensures PhdrOf(g, i) == PhdrOf(h, i) { PhdrFrame(g, h, i); }
    ImageIs(g, e);
  }

  lemma SpanField(h: Header, n: nat, r: Region)
    requires Sized(h) && n < h.max
    ensures var a := PhdrAt(h.max, n) + 2; var g := Store(Store(h, a, Whole(r.virt)), a + 1, Whole(r.phys));
            PhdrOf(g, n) == PhdrOf(h, n).(vaddr := r.virt, paddr := r.phys)
  {
  }

  /** While every section has a place, an update is what it is to the image, wherever its stores
      land. */
  lemma PatchImage(h: Header, i: nat, r: Region)
    requires Sized(h) && h.shnum <= h.max && h.phnum <= h.max && i < h.max
    ensures var g := PatchHeaders(h, i, r);
            Sized(g) && SameCounts(g, h) && Image(g) == UpdateHeader(h.max, Image(h), i, r)
  {
    hide Store, StoreAddr, StoreSpan, ShdrOf, PhdrOf, Image;
    StoreAddrImage(h, i + 4, r.virt);
    StoreSpanImage(Store(h, ShdrAt(i + 4) + 2, Whole(r.virt)), i + 1, r);
  }

  // ------------------------------------------------------------------ closing a gap

  /** memcpy between places of the headers that do not overlap. */
  lemma {:induction false} CopyWordsIs(h: Header, to: nat, from: nat, n: nat)
    requires to + n <= from && from + n <= |h.mem|
    ensures var g := CopyWords(h, to, from, n);
            OnlyWords(g, h, to, to + n) && forall b | to <= b < to + n :: g.mem[b] == h.mem[b + (from - to)]
  {
    if n > 0 { CopyWordsIs(h, to, from, n - 1); }
  }

  lemma {:induction false} ZeroWordsIs(h: Header, at: nat, n: nat)
    requires at + n <= |h.mem|
    ensures var g := ZeroWords(h, at, n);
            OnlyWords(g, h, at, at + n) && forall b | at <= b < at + n :: g.mem[b] == ZERO_WORD
  {
    if n > 0 { ZeroWordsIs(h, at, n - 1); }
  }

  /** A header read one place further down. */
  lemma CopiedPhdr(h: Header, i: nat)
    requires Sized(h) && i + 1 < h.max
    ensures var g := CopyWords(h, PhdrAt(h.max, i), PhdrAt(h.max, i + 1), 7);
            && Sized(g) && OnlyWords(g, h, PhdrAt(h.max, i), PhdrAt(h.max, i + 1)) && PhdrOf(g, i) == PhdrOf(h, i + 1)
  {
    CopyWordsIs(h, PhdrAt(h.max, i), PhdrAt(h.max, i + 1), 7);
    hide CopyWords;
  }

  lemma CopiedShdr(h: Header, i: nat)
    requires Sized(h) && i + 1 < h.max
    ensures var g := CopyWords(h, ShdrAt(i), ShdrAt(i + 1), 8);
            Sized(g) && OnlyWords(g, h, ShdrAt(i), ShdrAt(i + 1)) && ShdrOf(g, i) == ShdrOf(h, i + 1)
  {
    CopyWordsIs(h, ShdrAt(i), ShdrAt(i + 1), 8);
    hide CopyWords;
  }

  lemma PhdrOffset(h: Header, i: nat, v: nat)
    requires Sized(h) && i < h.max
    ensures var g := Store(h, PhdrAt(h.max, i) + 1, Whole(v));
            && OnlyWords(g, h, PhdrAt(h.max, i), PhdrAt(h.max, i + 1)) && PhdrOf(g, i) == PhdrOf(h, i).(offset := v)
  {
  }

  lemma ShdrOffset(h: Header, i: nat, v: nat, n: nat)
    requires Sized(h) && i < h.max
    ensures var a := ShdrAt(i); var f := Store(h, a + 3, Whole(v)); var g := Store(f, a, Halves(n, Hi(Load(f, a))));
            && OnlyWords(g, h, a, ShdrAt(i + 1)) && ShdrOf(g, i) == ShdrOf(h, i).(offset := v, name := n)
            && Load(f, a) == Load(h, a)
  {
  }

  lemma OnlyThose(f: Header, g: Header, h: Header, lo: nat, hi: nat)
    requires OnlyWords(f, g, lo, hi) && OnlyWords(g, h, lo, hi) && Sized(h)
    ensures OnlyWords(f, h, lo, hi) && Sized(f)
  {
  }

  lemma MovePhdrIs(h: Header, i: nat, size: nat)
    requires Sized(h) && i + 1 < h.max
    ensures var g := MovePhdr(h, i, size);
            && Sized(g) && OnlyWords(g, h, PhdrAt(h.max, i), PhdrAt(h.max, i + 1))
            && PhdrOf(g, i) == LowerPhdr(size)(PhdrOf(h, i + 1))
  {
    hide CopyWords, Store, Load, OnlyWords, Minus64, Long, Sized, PhdrAt;
    var a := PhdrAt(h.max, i);
    CopiedPhdr(h, i);
    var g := CopyWords(h, a, PhdrAt(h.max, i + 1), 7);
    SameSize(g, h, a, PhdrAt(h.max, i + 1));
    PhdrOffset(g, i, Minus64(Long(Load(g, a + 1)), size));
    OnlyThose(MovePhdr(h, i, size), g, h, a, PhdrAt(h.max, i + 1));
  }

  lemma SameSize(g: Header, h: Header, lo: nat, hi: nat)
    requires OnlyWords(g, h, lo, hi)
    ensures g.max == h.max
  {
  }

  lemma MoveShdrIs(h: Header, i: nat, size: nat, strln: nat)
    requires Sized(h) && i + 1 < h.max
    ensures var g := MoveShdr(h, i, size, strln);
            && Sized(g) && OnlyWords(g, h, ShdrAt(i), ShdrAt(i + 1))
            && ShdrOf(g, i) == LowerShdr(size, strln)(ShdrOf(h, i + 1))
  {
    hide CopyWords, Store, Load, OnlyWords, Minus64, Minus32, Long, Lo, Hi, Sized, ShdrAt;
    var a := ShdrAt(i);
    CopiedShdr(h, i);
    var g := CopyWords(h, a, ShdrAt(i + 1), 8);
    SameSize(g, h, a, ShdrAt(i + 1));
    ShdrOffset(g, i, Minus64(Long(Load(g, a + 3)), size), Minus32(Lo(Load(g, a)), strln));
    OnlyThose(MoveShdr(h, i, size, strln), g, h, a, ShdrAt(i + 1));
  }

  lemma {:induction false} MovePhdrsIs(h: Header, i: nat, n: nat, size: nat)
    requires Sized(h) && i <= n < h.max
    ensures var g := MovePhdrs(h, i, n, size);
            && Sized(g) && OnlyWords(g, h, PhdrAt(h.max, i), PhdrAt(h.max, n))
            && forall j | i <= j < n :: PhdrOf(g, j) == LowerPhdr(size)(PhdrOf(h, j + 1))
    decreases n - i
  {
    hide MovePhdr, PhdrOf, LowerPhdr;
    if i < n {
      var f := MovePhdr(h, i, size);
      MovePhdrIs(h, i, size);
      MovePhdrsIs(f, i + 1, n, size);
      var g := MovePhdrs(h, i, n, size);
      PhdrFrame(g, f, i);
      forall j | i + 1 < j <= n ensures PhdrOf(f, j) == PhdrOf(h, j) { PhdrFrame(f, h, j); }
    }
  }

  lemma {:induction false} MoveShdrsIs(h: Header, i: nat, n: nat, size: nat, strln: nat)
    requires Sized(h) && i <= n < h.max
    ensures var g := MoveShdrs(h, i, n, size, strln);
            && Sized(g) && OnlyWords(g, h, ShdrAt(i), ShdrAt(n))
            && forall j | i <= j < n :: ShdrOf(g, j) == LowerShdr(size, strln)(ShdrOf(h, j + 1))
    decreases n - i
  {
    hide MoveShdr, ShdrOf, LowerShdr;
    if i < n {
      var f := MoveShdr(h, i, size, strln);
      MoveShdrIs(h, i, size, strln);
      MoveShdrsIs(f, i + 1, n, size, strln);
      var g := MoveShdrs(h, i, n, size, strln);
      ShdrFrame(g, f, i);
      forall j | i + 1 < j <= n ensures ShdrOf(f, j) == ShdrOf(h, j) { ShdrFrame(f, h, j); }
    }
  }

  lemma ClosePhdrsImage(h: Header, p: nat, size: nat)
    requires Sized(h) && p < h.phnum <= h.max && h.shnum <= h.max
    ensures var g := ClosePhdrs(h, p, size);
            Sized(g) && Image(g) == Image(h).(phdr := Close(Image(h).phdr, p, LowerPhdr(size)))
  {
    hide MovePhdrs, PhdrOf, ShdrOf, LowerPhdr, ZeroWords;
    var n := h.phnum - 1;
    var f := MovePhdrs(h, p, n, size);
    var z := ZeroWords(f, PhdrAt(h.max, n), 7);
    MovePhdrsIs(h, p, n, size);
    ZeroWordsIs(f, PhdrAt(h.max, n), 7);
    var g := ClosePhdrs(h, p, size);
    assert g == z.(phnum := n);
    var e := Image(h).(phdr := Close(Image(h).phdr, p, LowerPhdr(size)));
    forall i | 0 <= i < h.shnum ensures e.shdr[i] == ShdrOf(g, i) { ShdrFrame(g, h, i); }
    forall i | 0 <= i < n ensures e.phdr[i] == PhdrOf(g, i) {
      if i < p { PhdrFrame(g, h, i); } else { PhdrFrame(g, f, i); }
    }
    ImageIs(g, e);
  }

  lemma CloseShdrsImage(h: Header, s: nat, size: nat, strln: nat)
    requires Sized(h) && s < h.shnum <= h.max && h.phnum <= h.max
    ensures var g := CloseShdrs(h, s, size, strln);
            Sized(g) && Image(g) == Image(h).(shdr := Close(Image(h).shdr, s, LowerShdr(size, strln)))
  {
    hide MoveShdrs, PhdrOf, ShdrOf, LowerShdr, ZeroWords;
    var n := h.shnum - 1;
    var f := MoveShdrs(h, s, n, size, strln);
    var z := ZeroWords(f, ShdrAt(n), 8);
    MoveShdrsIs(h, s, n, size, strln);
    ZeroWordsIs(f, ShdrAt(n), 8);
    var g := CloseShdrs(h, s, size, strln);
    assert g == z.(shnum := n);
    var e := Image(h).(shdr := Close(Image(h).shdr, s, LowerShdr(size, strln)));
    forall i | 0 <= i < h.phnum ensures e.phdr[i] == PhdrOf(g, i) { PhdrFrame(g, h, i); }
    forall i | 0 <= i < n ensures e.shdr[i] == ShdrOf(g, i) {
      if i < s { ShdrFrame(g, h, i); } else { ShdrFrame(g, f, i); }
    }
    ImageIs(g, e);
  }

  lemma CloseNameImage(h: Header, start: nat, strln: nat)
    requires Sized(h) && start <= h.strIdx && strln <= h.strIdx && h.strIdx + strln <= |h.strtab|
    requires h.shnum <= h.max && h.phnum <= h.max
    ensures var g := CloseName(h, start, strln);
            && Sized(g)
            && Image(g) == Image(h).(strtab := Moved(h.strtab, start, start + strln, h.strIdx - start),
                                     strIdx := h.strIdx - strln)
  {
    hide Moved, PhdrOf, ShdrOf;
    var g := CloseName(h, start, strln);
    forall i | 0 <= i < h.shnum ensures ShdrOf(g, i) == ShdrOf(h, i) { ShdrFrame(g, h, i); }
    forall i | 0 <= i < h.phnum ensures PhdrOf(g, i) == PhdrOf(h, i) { PhdrFrame(g, h, i); }
    ImageIs(g, Image(h).(strtab := g.strtab, strIdx := g.strIdx));
  }

  /** While every section has a place, a clear is what it is to the image. */
  lemma ClearImage(h: Header, r: Region)
    requires Sized(h) && h.shnum <= h.max && h.phnum <= h.max && ClearInBounds(Image(h), r)
    ensures var (g, ret) := ClearMemory(h, r); Sized(g) && (Image(g), ret) == ClearHeaders(Image(h), r)
  {
    var e := Image(h);
    if Clearable(e, r) { EraseImage(h, FindPhdr(e, r), FindShdr(e, r), r.size, |r.name| + 1); }
    hide Image, EraseHeaders, Erase, Clearable, FindPhdr, FindShdr;
  }

  lemma EraseImage(h: Header, p: nat, s: nat, size: nat, strln: nat)
    requires Sized(h) && p < h.phnum <= h.max && s < h.shnum <= h.max && EraseInBounds(Image(h), s, strln)
    ensures Sized(EraseHeaders(h, p, s, size, strln))
    ensures Image(EraseHeaders(h, p, s, size, strln)) == Erase(Image(h), p, s, size, strln)
  {
    hide ClosePhdrs, CloseShdrs, Close, Moved, LowerPhdr, LowerShdr, ShdrOf, PhdrOf;
    var a := CloseName(h, ShdrOf(h, s).name, strln);
    CloseNameImage(h, ShdrOf(h, s).name, strln);
    var b := ClosePhdrs(a, p, size);
    ClosePhdrsImage(a, p, size);
    var c := CloseShdrs(b, s, size, strln);
    CloseShdrsImage(b, s, size, strln);
    OffsetImage(c, Minus64(h.offset, size));
  }

  lemma OffsetImage(h: Header, offset: nat)
    requires Sized(h) && h.shnum <= h.max && h.phnum <= h.max
    ensures Image(h.(offset := offset)) == Image(h).(offset := offset)
  {
    hide PhdrOf, ShdrOf;
    var g := h.(offset := offset);
    forall i | 0 <= i < h.shnum ensures ShdrOf(g, i) == ShdrOf(h, i) { ShdrFrame(g, h, i); }
    forall i | 0 <= i < h.phnum ensures PhdrOf(g, i) == PhdrOf(h, i) { PhdrFrame(g, h, i); }
    ImageIs(g, Image(h).(offset := offset));
  }

  // ------------------------------------------------------------------ the image of a list

  /** A section whose name is written first. */
  function PutNamed(h: Header, i: nat, name: CString, s: Shdr): (g: Header)
    requires h.strIdx + |name| + 1 <= |h.strtab|
    ensures SameCounts(g, h.(strIdx := h.strIdx + |name| + 1))
  {
    PutShdr(PutName(h, name), i, s)
  }

  /** The three sections of the header itself that are named. */
  function FixedSections(fx: Frame, h: Header): (g: Header)
    requires h.strIdx + 50 <= |h.strtab|
    ensures SameCounts(g, h.(strIdx := h.strIdx + 36))
  {
    var a := PutNamed(h, 1, FIXED_NAMES[1], FixedShdr(fx, 1));
    var b := PutNamed(a, 2, FIXED_NAMES[2], FixedShdr(fx, 2));
    PutNamed(b, 3, FIXED_NAMES[3], FixedShdr(fx, 3))
  }

  function Cleared(fx: Frame): (h: Header)
    ensures h.strIdx == 1 && |h.strtab| == fx.StrtabSize()
  {
    Header(fx.max, Fill(ZERO_WORD, 15 * fx.max), Fill('\0', fx.StrtabSize()), 1, 4, 1, fx.ElfhSize())
  }

  /** The header `msm_minidump_add_header` builds. */
  function NewHeader(fx: Frame): Header {
    PutPhdr(FixedSections(fx, Cleared(fx)), 0, BannerPhdr(fx))
  }

  lemma EmptyTable(t: seq<char>)
    requires |t| >= 1 && forall i | 0 <= i < |t| :: t[i] == '\0'
    ensures NameAt(FIXED_NAMES[..1], 1) == 1 && t == Table(FIXED_NAMES[..1], |t|)
  {
    var names := FIXED_NAMES[..1];
    FixedOffsets(SectionNames([]));
    NamesAgree(names, SectionNames([]), 1);
    PackedLast(names);
    assert Packed(names[..0]) == [];
  }

  /** One more fixed name and its section. */
  lemma FixedStep(fx: Frame, h: Header, i: nat)
    requires Sized(h) && h.max == fx.max && 1 <= i < 4
    requires h.strIdx == NameAt(FIXED_NAMES[..i], i) <= |h.strtab| && h.strtab == Table(FIXED_NAMES[..i], |h.strtab|)
    ensures h.strIdx + |FIXED_NAMES[i]| + 1 <= |h.strtab|
    ensures var g := PutNamed(h, i, FIXED_NAMES[i], FixedShdr(fx, i));
            && Sized(g) && g.strIdx == NameAt(FIXED_NAMES[..i + 1], i + 1) <= |g.strtab|
            && g.strtab == Table(FIXED_NAMES[..i + 1], |g.strtab|)
            && ShdrOf(g, i) == FixedShdr(fx, i)
            && forall b | 0 <= b < |h.mem| && !(ShdrAt(i) <= b < ShdrAt(i) + 8) :: g.mem[b] == h.mem[b]
  {
    var names, all := FIXED_NAMES[..i], SectionNames([]);
    FixedOffsets(all);
    NamesAgree(names, all, i);
    NamesAgree(FIXED_NAMES[..i + 1], all, i + 1);
    assert FIXED_NAMES[..i + 1] == names + [FIXED_NAMES[i]];
    hide NameAt, Table, ShdrOf, PutShdr;
    TableAdd(names, |h.strtab|, FIXED_NAMES[i]);
    PutShdrIs(PutName(h, FIXED_NAMES[i]), i, FixedShdr(fx, i));
  }

  /** The header that the probe builds is the image of the empty list. */
  lemma NewHeaderDepicts(fx: Frame)
    ensures Depicts(NewHeader(fx), fx, [])
  {
    hide PutNamed, PutPhdr, ShdrOf, PhdrOf, Table, NameAt;
    var h := Cleared(fx);
    EmptyTable(h.strtab);
    FixedStep(fx, h, 1);
    var a := PutNamed(h, 1, FIXED_NAMES[1], FixedShdr(fx, 1));
    FixedStep(fx, a, 2);
    var b := PutNamed(a, 2, FIXED_NAMES[2], FixedShdr(fx, 2));
    FixedStep(fx, b, 3);
    var c := PutNamed(b, 3, FIXED_NAMES[3], FixedShdr(fx, 3));
    var g := NewHeader(fx);
    PutPhdrIs(c, 0, BannerPhdr(fx));
    ShdrFrame(g, h, 0);
    ShdrFrame(g, a, 1);
    ShdrFrame(g, b, 2);
    ShdrFrame(g, c, 3);
    ClearedFirst(fx);
    RenderNone(fx);
    assert FIXED_NAMES[..4] == SectionNames([]);
    ImageIs(g, Render(fx, []));
  }

  lemma ClearedFirst(fx: Frame)
    ensures ShdrOf(Cleared(fx), 0) == ZERO_SHDR
  {
  }

  lemma RenderNone(fx: Frame)
    ensures Fits(fx, []) && NameAt(SectionNames([]), 4) <= fx.StrtabSize()
    ensures Render(fx, []) == Elf(RenderPhdr(fx, []), RenderShdr(fx, []), Table(SectionNames([]), fx.StrtabSize()),
                                  NameAt(SectionNames([]), 4), fx.ElfhSize())
  {
    NamesFit(fx, []);
    hide Table, NameAt;
  }

  /** The allocation holds the image of `E`. */
  predicate Depicts(h: Header, fx: Frame, E: seq<Region>) {
    h.max == fx.max && Sized(h) && Fits(fx, E) && Image(h) == Render(fx, E)
  }

  /** The word that is `sh_flags` of section `max` is `p_offset` of the first program header. */
  lemma FirstOverlap(h: Header)
    requires Sized(h) && h.shnum > h.max && h.phnum > 0
    ensures Image(h).shdr[h.max].flags == Image(h).phdr[0].offset
  {
  }

  /** No allocation holds the image of more than MAX_NUM_ENTRIES - 4 regions: behind the last place the
      flags of a section would have to be the banner's offset in the file. */
  lemma DepictsPlaced(h: Header, fx: Frame, E: seq<Region>)
    requires Depicts(h, fx, E)
    ensures Placed(fx, E) && h.phnum == |E| + 1 && h.shnum == |E| + 4
  {
    HeaderCounts(fx, E);
    hide Table, NameAt, PayloadAt;
    if h.shnum > h.max { FirstOverlap(h); }
  }

  /** An add to the image of a list makes the image of the longer list if and only if that still has its
      places. */
  lemma AddDepicts(h: Header, fx: Frame, E: seq<Region>, r: Region)
    requires Depicts(h, fx, E) && ValidRegion(r)
    ensures HasRoom(h, r) && Fits(fx, E + [r])
    ensures Depicts(AddHeaders(h, r), fx, E + [r]) <==> Placed(fx, E + [r])
  {
    hide Render, AddHeader, AddHeaders, Image, RoomFor, Sized;
    DepictsPlaced(h, fx, E);
    ImageTotals(h);
    AddHeaderRenders(fx, E, r);
    RenderRoom(fx, E, r);
    if Depicts(AddHeaders(h, r), fx, E + [r]) { DepictsPlaced(AddHeaders(h, r), fx, E + [r]); }
    if Placed(fx, E + [r]) {
      AddImage(h, r);
      AddKeepsMax(h, r);
    }
  }

  lemma AddKeepsMax(h: Header, r: Region)
    requires HasRoom(h, r)
    ensures AddHeaders(h, r).max == h.max
  {
    hide PutShdr, PutPhdr;
  }

  lemma ImageTotals(h: Header)
    ensures Image(h).strIdx == h.strIdx && Image(h).strtab == h.strtab && Image(h).offset == h.offset
  {
  }

  lemma RenderRoom(fx: Frame, E: seq<Region>, r: Region)
    requires Fits(fx, E) && ValidRegion(r)
    ensures Render(fx, E).strIdx + |r.name| + 1 <= |Render(fx, E).strtab|
  {
    NamesFit(fx, E);
  }

  /** What an update does to the image of a list. */
  lemma PatchDepicts(h: Header, fx: Frame, E: seq<Region>, i: nat, r: Region)
    requires Depicts(h, fx, E) && i < fx.max
    ensures Placed(fx, E)
    ensures var g := PatchHeaders(h, i, r);
            Sized(g) && SameCounts(g, h) && Image(g) == UpdateHeader(fx.max, Render(fx, E), i, r)
  {
    hide Render, UpdateHeader, PatchHeaders, Image, Sized;
    DepictsPlaced(h, fx, E);
    PatchImage(h, i, r);
  }

  lemma ClearDepicts(h: Header, fx: Frame, E: seq<Region>, r: Region)
    requires Depicts(h, fx, E) && ClearInBounds(Render(fx, E), r)
    ensures Placed(fx, E)
    ensures var (g, ret) := ClearMemory(h, r);
            Sized(g) && g.max == h.max && (Image(g), ret) == ClearHeaders(Render(fx, E), r)
  {
    hide Render, ClearHeaders, Image, Sized, ClearInBounds;
    DepictsPlaced(h, fx, E);
    ClearImage(h, r);
    ClearKeepsMax(h, r);
  }

  lemma ClearKeepsMax(h: Header, r: Region)
    requires ClearInBounds(Image(h), r)
    ensures ClearMemory(h, r).0.max == h.max
  {
    if Clearable(Image(h), r) {
      EraseCounts(h, FindPhdr(Image(h), r), FindShdr(Image(h), r), r.size, |r.name| + 1);
    }
    hide EraseHeaders, Image, Clearable;
  }

  // ------------------------------------------------------------------ counts

  /** What holds of the allocation whatever has been stored where: the counts and the string index are
      those of `E`, and the two sections in front of all others have no address. */
  predicate Counted(h: Header, fx: Frame, E: seq<Region>) {
    && h.max == fx.max && Sized(h) && Fits(fx, E)
    && h.phnum == |E| + 1 && h.shnum == |E| + 4 && h.strIdx == NameAt(SectionNames(E), |E| + 4)
    && ShdrOf(h, 0).addr == 0 && ShdrOf(h, 1).addr == 0
  }

  /** The first sixteen words, two sections, are as they were. */
  predicate FrontKept(g: Header, h: Header) {
    SameCounts(g, h) && forall b | 0 <= b < 16 && b < |h.mem| :: g.mem[b] == h.mem[b]
  }

  lemma {:induction false} CopyWordsFront(h: Header, to: nat, from: nat, n: nat)
    requires to >= 16
    ensures FrontKept(CopyWords(h, to, from, n), h)
  {
    if n > 0 { CopyWordsFront(h, to, from, n - 1); }
  }

  lemma {:induction false} ZeroWordsFront(h: Header, at: nat, n: nat)
    requires at >= 16
    ensures FrontKept(ZeroWords(h, at, n), h)
  {
    if n > 0 { ZeroWordsFront(h, at, n - 1); }
  }

  lemma MovePhdrFront(h: Header, i: nat, size: nat)
    ensures FrontKept(MovePhdr(h, i, size), h)
  {
    CopyWordsFront(h, PhdrAt(h.max, i), PhdrAt(h.max, i + 1), 7);
  }

  lemma MoveShdrFront(h: Header, i: nat, size: nat, strln: nat)
    requires i >= 2
    ensures FrontKept(MoveShdr(h, i, size, strln), h)
  {
    CopyWordsFront(h, ShdrAt(i), ShdrAt(i + 1), 8);
  }

  lemma FrontChain(f: Header, g: Header, h: Header)
    requires FrontKept(f, g) && FrontKept(g, h)
    ensures FrontKept(f, h)
  {
  }

  lemma {:induction false} MovePhdrsFront(h: Header, i: nat, n: nat, size: nat)
    ensures FrontKept(MovePhdrs(h, i, n, size), h)
    decreases n - i
  {
    if i < n {
      hide MovePhdr, FrontKept;
      MovePhdrFront(h, i, size);
      MovePhdrsFront(MovePhdr(h, i, size), i + 1, n, size);
      FrontChain(MovePhdrs(h, i, n, size), MovePhdr(h, i, size), h);
    }
  }

  lemma {:induction false} MoveShdrsFront(h: Header, i: nat, n: nat, size: nat, strln: nat)
    requires i >= 2
    ensures FrontKept(MoveShdrs(h, i, n, size, strln), h)
    decreases n - i
  {
    if i < n {
      hide MoveShdr, FrontKept;
      MoveShdrFront(h, i, size, strln);
      MoveShdrsFront(MoveShdr(h, i, size, strln), i + 1, n, size, strln);
      FrontChain(MoveShdrs(h, i, n, size, strln), MoveShdr(h, i, size, strln), h);
    }
  }

  /** An erase takes one off the header counts and the name off the string index, wherever it moves. */
  lemma EraseCounts(h: Header, p: nat, s: nat, size: nat, strln: nat)
    requires p < h.phnum && s < h.shnum && EraseInBounds(Image(h), s, strln)
    ensures var g := EraseHeaders(h, p, s, size, strln);
            && g.max == h.max && |g.mem| == |h.mem| && |g.strtab| == |h.strtab|
            && g.phnum == h.phnum - 1 && g.shnum == h.shnum - 1 && g.strIdx == h.strIdx - strln
            && (s >= 2 ==> forall b | 0 <= b < 16 && b < |h.mem| :: g.mem[b] == h.mem[b])
  {
    hide MovePhdrs, MoveShdrs, ZeroWords, ShdrOf, PhdrOf, Moved;
    var a := CloseName(h, ShdrOf(h, s).name, strln);
    var b := MovePhdrs(a, p, h.phnum - 1, size);
    MovePhdrsFront(a, p, h.phnum - 1, size);
    var c := ZeroWords(b, PhdrAt(h.max, h.phnum - 1), 7);
    ZeroWordsFront(b, PhdrAt(h.max, h.phnum - 1), 7);
    var d := c.(phnum := h.phnum - 1);
    var e := MoveShdrs(d, s, h.shnum - 1, size, strln);
    MoveShdrsCounts(d, s, h.shnum - 1, size, strln);
    ZeroWordsCounts(e, ShdrAt(h.shnum - 1), 8);
    if s >= 2 {
      MoveShdrsFront(d, s, h.shnum - 1, size, strln);
      ZeroWordsFront(e, ShdrAt(h.shnum - 1), 8);
    }
  }

  lemma ShdrFront(g: Header, h: Header)
    requires Sized(h) && |g.mem| == |h.mem| && forall b | 0 <= b < 16 && b < |h.mem| :: g.mem[b] == h.mem[b]
    ensures ShdrOf(g, 0) == ShdrOf(h, 0) && ShdrOf(g, 1) == ShdrOf(h, 1)
  {
  }

  lemma DepictsCounted(h: Header, fx: Frame, E: seq<Region>)
    requires Depicts(h, fx, E)
    ensures Counted(h, fx, E)
  {
    DepictsPlaced(h, fx, E);
    hide Table, NameAt, PayloadAt, ShdrOf;
    assert ShdrOf(h, 0) == Image(h).shdr[0] && ShdrOf(h, 1) == Image(h).shdr[1];
  }

  lemma PutShdrFront(h: Header, i: nat, s: Shdr)
    requires i >= 2
    ensures FrontKept(PutShdr(h, i, s), h)
  {
    hide StoreBytes;
  }

  lemma PutPhdrFront(h: Header, i: nat, p: Phdr)
    ensures FrontKept(PutPhdr(h, i, p), h)
  {
    hide StoreBytes;
  }

  /** While there are fewer than MAX_NUM_ENTRIES regions, an add stays in the allocation. */
  lemma AddCounted(h: Header, fx: Frame, E: seq<Region>, r: Region)
    requires Counted(h, fx, E) && |E| < fx.max && ValidRegion(r)
    ensures HasRoom(h, r) && Counted(AddHeaders(h, r), fx, E + [r])
  {
    NamesFit(fx, E);
    FitsAnd(fx, E, r);
    hide AddHeaders, ShdrOf, NameAt, SectionNames, Fits;
    AddFront(h, r);
    ShdrFront(AddHeaders(h, r), h);
    NameBehind(E, r);
  }

  lemma FitsAnd(fx: Frame, E: seq<Region>, r: Region)
    requires Fits(fx, E) && |E| < fx.max && ValidRegion(r)
    ensures Fits(fx, E + [r])
  {
  }

  lemma AddFront(h: Header, r: Region)
    requires Sized(h) && HasRoom(h, r) && h.shnum >= 2
    ensures var g := AddHeaders(h, r);
            && g.strIdx == h.strIdx + |r.name| + 1
            && FrontKept(g, h.(shnum := h.shnum + 1, phnum := h.phnum + 1, strIdx := g.strIdx, offset := g.offset))
  {
    hide PutShdr, PutPhdr, WithName, LoadPhdr, ProgShdr;
    var a := PutName(h, r.name);
    PutShdrFront(a, h.shnum, ProgShdr(r, h.strIdx, h.offset));
    PutPhdrFront(PutShdr(a, h.shnum, ProgShdr(r, h.strIdx, h.offset)), h.phnum, LoadPhdr(r, h.offset));
  }

  lemma NameBehind(E: seq<Region>, r: Region)
    ensures NameAt(SectionNames(E + [r]), |E| + 5) == NameAt(SectionNames(E), |E| + 4) + |r.name| + 1
  {
    var names := SectionNames(E);
    assert SectionNames(E + [r]) == names + [r.name];
    NamesAgree(names, names + [r.name], |E| + 4);
    NameStep(names + [r.name], |E| + 4);
  }

  lemma PatchCounted(h: Header, fx: Frame, E: seq<Region>, i: nat, r: Region)
    requires Counted(h, fx, E)
    ensures Counted(PatchHeaders(h, i, r), fx, E)
  {
    hide ShdrOf, NameAt, StoreBytes;
    ShdrFront(PatchHeaders(h, i, r), h);
  }

  lemma ReaddressCounted(fx: Frame, E: seq<Region>, i: nat, r: Region, h: Header)
    requires Counted(h, fx, E) && i < |E| && r.virt != 0
    ensures Counted(h, fx, E[i := Readdress(E[i], r)])
  {
    ReaddressFits(fx, E, i, r);
    hide NameAt, ShdrOf, SectionNames, Fits, Sized, Readdress;
  }

  lemma ReaddressFits(fx: Frame, E: seq<Region>, i: nat, r: Region)
    requires Fits(fx, E) && i < |E| && r.virt != 0
    ensures var F := E[i := Readdress(E[i], r)]; Fits(fx, F) && SectionNames(F) == SectionNames(E)
  {
    assert ValidRegion(E[i]);
  }

  /** No request of an address and a name of at most twelve characters moves anything outside the string
      table, whatever the headers hold. */
  lemma ClearCounted(h: Header, fx: Frame, E: seq<Region>, r: Region)
    requires Counted(h, fx, E) && r.virt != 0 && |r.name| <= MAX_NAME_LENGTH
    ensures ClearInBounds(Image(h), r)
  {
    hide ShdrOf, NameAt;
    var e := Image(h);
    NamesFit(fx, E);
    FirstName(E);
    if Clearable(e, r) {
      var s := FindShdr(e, r);
      assert ShdrMatches(e, e.shdr[s], r);
      assert s >= 2;
    }
  }

  /** A clear of a region with headers takes it off the counts. */
  lemma ClearKeepsCounted(h: Header, fx: Frame, E: seq<Region>, r: Region, k: nat)
    requires Counted(h, fx, E) && ClearInBounds(Image(h), r) && k < |E| && E[k].name == r.name
    ensures ClearMemory(h, r).1 == 0 ==> Counted(ClearMemory(h, r).0, fx, Drop(E, k))
  {
    hide ShdrOf, NameAt, EraseHeaders, Image, FindPhdr, FindShdr;
    var e := Image(h);
    if Clearable(e, r) {
      EraseCounts(h, FindPhdr(e, r), FindShdr(e, r), r.size, |r.name| + 1);
      ShdrFront(ClearMemory(h, r).0, h);
      DropFits(fx, E, k);
      NameGone(E, k);
    }
  }

  /** A refused clear changes nothing, and the answer is that of the image. */
  lemma ClearRefused(h: Header, r: Region)
    requires ClearInBounds(Image(h), r)
    ensures ClearMemory(h, r).1 == ClearHeaders(Image(h), r).1
    ensures ClearMemory(h, r).1 != 0 ==> ClearMemory(h, r) == (h, -EINVAL)
  {
    hide Clearable, EraseHeaders, Erase, Image;
  }

  lemma FirstName(E: seq<Region>)
    ensures NameAt(SectionNames(E), |E| + 4) >= 37
  {
    FixedOffsets(SectionNames(E));
    PrefixMonotone(Weights(SectionNames(E)), 4, |E| + 4);
  }

  lemma NameGone(E: seq<Region>, k: nat)
    requires k < |E|
    ensures NameAt(SectionNames(Drop(E, k)), |E| + 3) == NameAt(SectionNames(E), |E| + 4) - (|E[k].name| + 1)
  {
    NamesOfDrop(E, k);
    hide NameAt, Drop;
    DropNameAt(SectionNames(E), k + 4, |E| + 3);
  }
}
