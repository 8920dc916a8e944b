/** The ELF image of the registry as a value: what each header operation does to it, and the
    canonical image of a list of regions. Section header, string table and program header are
    those of chapters 4 and 5 of the System V gABI. */
module ElfImage {
  import opened Kernel
  import opened Sequences
  import opened Regions

  const PT_LOAD: nat := 1
  const PF_RW: nat := 6
  const SHT_PROGBITS: nat := 1
  const SHT_STRTAB: nat := 3
  const SHF_WRITE: nat := 1
  const EHDR_SIZE: nat := 64
  const SHDR_SIZE: nat := 64
  const PHDR_SIZE: nat := 56
  const BANNER_SIZE: nat := 6

  datatype Phdr = Phdr(ptype: nat, offset: nat, vaddr: nat, paddr: nat, filesz: nat, memsz: nat, flags: nat)
  datatype Shdr = Shdr(name: nat, stype: nat, flags: nat, addr: nat, offset: nat, size: nat, entsize: nat)

  const ZERO_PHDR := Phdr(0, 0, 0, 0, 0, 0, 0)
  const ZERO_SHDR := Shdr(0, 0, 0, 0, 0, 0, 0)

  /** What the header depends on besides the regions: the capacity and four addresses. The rest is
      the arithmetic of `msm_minidump_add_header`: where the parts of the allocation lie. */
  datatype Frame = Frame(max: Capacity, ehdrPa: nat, tableVa: nat, bannerVa: nat, bannerPa: nat) {
    function StrtabSize(): nat { max * MAX_REGION_NAME_LENGTH }

    function StrtabOffset(): nat { EHDR_SIZE + (PHDR_SIZE + SHDR_SIZE) * max }

    function BannerOffset(): nat { StrtabOffset() + StrtabSize() }

    function ElfhSize(): nat { AlignUp4(EHDR_SIZE + StrtabSize() + BANNER_SIZE + (SHDR_SIZE + PHDR_SIZE) * (max + 4)) }
  }

  function AlignUp4(n: nat): nat { (n + 3) / 4 * 4 }

  /** The live headers (`e_phnum` and `e_shnum` of them), the whole string table, and the two
      running totals. */
  datatype Elf = Elf(phdr: seq<Phdr>, shdr: seq<Shdr>, strtab: seq<char>, strIdx: nat, offset: nat)

  const TWO_32: nat := 0x1_0000_0000
  const TWO_64: nat := 0x1_0000_0000_0000_0000

  /** Subtraction in 64 and in 32 bits. */
  function Minus64(a: nat, b: nat): nat { if b <= a then a - b else (a - b) % TWO_64 }

  function Minus32(a: nat, b: nat): nat { if b <= a then a - b else (a - b) % TWO_32 }

  // ------------------------------------------------------------------ C strings

  /** The string that starts at `i` and runs to the next NUL. */
  function CStr(t: seq<char>, i: nat): (s: CString)
    requires i <= |t|
    decreases |t| - i
  {
    if i == |t| || t[i] == '\0' then "" else [t[i]] + CStr(t, i + 1)
  }

  lemma {:induction false} CStrIs(t: seq<char>, i: nat, s: CString)
    requires i + |s| < |t| && t[i..i + |s|] == s && t[i + |s|] == '\0'
    ensures CStr(t, i) == s
    decreases |s|
  {
    if s != "" {
      assert t[i] == t[i..i + |s|][0] == s[0];
      assert t[i + 1..i + 1 + |s[1..]|] == t[i..i + |s|][1..] == s[1..];
      CStrIs(t, i + 1, s[1..]);
    }
  }

  // ------------------------------------------------------------------ operations

  function LoadPhdr(r: Region, offset: nat): Phdr {
    Phdr(PT_LOAD, offset, r.virt, r.phys, r.size, r.size, PF_RW)
  }

  function ProgShdr(r: Region, nameIdx: nat, offset: nat): Shdr {
    Shdr(nameIdx, SHT_PROGBITS, SHF_WRITE, r.virt, offset, r.size, 0)
  }

  /** The string table after `name` and its NUL are written at `i`. */
  function WithName(t: seq<char>, i: nat, name: CString): (u: seq<char>)
    requires i + |name| + 1 <= |t|
    ensures |u| == |t|
  {
    t[..i] + name + ['\0'] + t[i + |name| + 1..]
  }

  predicate RoomFor(e: Elf, r: Region) { e.strIdx + |r.name| + 1 <= |e.strtab| }

  function AddHeader(e: Elf, r: Region): Elf
    requires RoomFor(e, r)
  {
    Elf(e.phdr + [LoadPhdr(r, e.offset)],
        e.shdr + [ProgShdr(r, e.strIdx, e.offset)],
        WithName(e.strtab, e.strIdx, r.name),
        e.strIdx + |r.name| + 1,
        e.offset + r.size)
  }

  /** The eight bytes of a 64-bit number, least significant first. */
  function Bytes(v: nat): (b: seq<char>)
    ensures |b| == 8
  {
    [Byte(v), Byte(v / 0x100), Byte(v / 0x1_0000), Byte(v / 0x100_0000), Byte(v / 0x1_0000_0000),
     Byte(v / 0x100_0000_0000), Byte(v / 0x1_0000_0000_0000), Byte(v / 0x100_0000_0000_0000)]
  }

  function Byte(v: nat): char { (v % 256) as char }

  /** `t` with the bytes `b` at `at`. */
  function WithBytes(t: seq<char>, at: nat, b: seq<char>): (u: seq<char>)
    requires at + |b| <= |t|
    ensures |u| == |t|
  {
    t[..at] + b + t[at + |b|..]
  }

  /** Storing `sh_addr` of section `n`. The sections have `max` places in front of the program headers;
      a store behind them lands in one field of a program header: `p_vaddr` of the first, `p_paddr`
      of the second, `p_filesz` of the third, `p_memsz` of the fourth. */
  function StoreAddr(max: nat, e: Elf, n: nat, v: nat): Elf {
    if n < max then
      if n < |e.shdr| then e.(shdr := e.shdr[n := e.shdr[n].(addr := v)]) else e
    else if n - max < 4 && n - max < |e.phdr| then e.(phdr := e.phdr[n - max := Overlaid(e.phdr[n - max], n - max, v)])
    else e
  }

  function Overlaid(p: Phdr, j: nat, v: nat): Phdr {
    match j
    case 0 => p.(vaddr := v)
    case 1 => p.(paddr := v)
    case 2 => p.(filesz := v)
    case _ => p.(memsz := v)
  }

  /** Storing the addresses of program header `n`. Behind the last place lies the string table. */
  function StoreSpan(max: nat, e: Elf, n: nat, r: Region): Elf {
    if n < max then
      if n < |e.phdr| then e.(phdr := e.phdr[n := e.phdr[n].(vaddr := r.virt, paddr := r.phys)]) else e
    else if n == max && |e.strtab| >= 32 then
      e.(strtab := WithBytes(WithBytes(e.strtab, 16, Bytes(r.virt)), 24, Bytes(r.phys)))
    else e
  }

  /** An update of header `i` of at most `max` live sections. */
  function UpdateHeader(max: nat, e: Elf, i: nat, r: Region): Elf {
    StoreSpan(max, StoreAddr(max, e, i + 4, r.virt), i + 1, r)
  }

  predicate PhdrMatches(p: Phdr, r: Region) { p.paddr == r.phys && p.memsz == r.size }

  predicate ShdrMatches(e: Elf, s: Shdr, r: Region) {
    s.name <= e.strIdx <= |e.strtab| && CStr(e.strtab, s.name) == r.name && s.addr == r.virt && s.size == r.size
  }

  function FindPhdr(e: Elf, r: Region): nat { First(e.phdr, p => PhdrMatches(p, r)) }

  function FindShdr(e: Elf, r: Region): nat { First(e.shdr, s => ShdrMatches(e, s, r)) }

  /** Both searches succeed and agree on the file offset. */
  predicate Clearable(e: Elf, r: Region) {
    var p, s := FindPhdr(e, r), FindShdr(e, r);
    p < |e.phdr| && s < |e.shdr| && e.shdr[s].offset == e.phdr[p].offset
  }

  /** The string-table move of a successful clear stays inside the table, and the section that says
      where the string table is stays in place. */
  predicate ClearInBounds(e: Elf, r: Region) {
    Clearable(e, r) ==> FindShdr(e, r) >= 2 && EraseInBounds(e, FindShdr(e, r), |r.name| + 1)
  }

  predicate EraseInBounds(e: Elf, s: nat, strln: nat)
    requires s < |e.shdr|
  {
    e.shdr[s].name <= e.strIdx && strln <= e.strIdx && e.strIdx + strln <= |e.strtab|
  }

  function LowerPhdr(size: nat): Phdr -> Phdr { (p: Phdr) => p.(offset := Minus64(p.offset, size)) }

  function LowerShdr(size: nat, strln: nat): Shdr -> Shdr {
    (s: Shdr) => s.(offset := Minus64(s.offset, size), name := Minus32(s.name, strln))
  }

  /** `s` without element `k`, every later element passed through `f`. */
  function Close<T>(s: seq<T>, k: nat, f: T -> T): (r: seq<T>)
    requires k < |s|
    ensures |r| == |s| - 1
    ensures forall i {:trigger r[i]} | 0 <= i < |r| :: r[i] == if i < k then s[i] else f(s[i + 1])
  {
    seq(|s| - 1, i requires 0 <= i < |s| - 1 => if i < k then s[i] else f(s[i + 1]))
  }

  /** The image without program header `p`, section header `s` and its name: later names and
      payloads move down by what was removed. */
  function Erase(e: Elf, p: nat, s: nat, size: nat, strln: nat): Elf
    requires p < |e.phdr| && s < |e.shdr| && EraseInBounds(e, s, strln)
  {
    var start := e.shdr[s].name;
    Elf(Close(e.phdr, p, LowerPhdr(size)),
        Close(e.shdr, s, LowerShdr(size, strln)),
        Moved(e.strtab, start, start + strln, e.strIdx - start),
        e.strIdx - strln,
        Minus64(e.offset, size))
  }

  function ClearHeaders(e: Elf, r: Region): (Elf, int)
    requires ClearInBounds(e, r)
  {
    if Clearable(e, r) then (Erase(e, FindPhdr(e, r), FindShdr(e, r), r.size, |r.name| + 1), 0)
    else (e, -EINVAL)
  }

  // ------------------------------------------------------------------ the canonical image

  /** The names of the null section, the string table, the table address and the banner. */
  const FIXED_NAMES: seq<CString> := ["", "STR_TBL", "minidump_table", "linux_banner"]

  /** The name of every section, fixed ones first. */
  function SectionNames(E: seq<Region>): (n: seq<CString>)
    ensures |n| == |E| + 4
    ensures forall i {:trigger n[i]} | 0 <= i < |n| :: n[i] == if i < 4 then FIXED_NAMES[i] else E[i - 4].name
  {
    FIXED_NAMES + seq(|E|, i requires 0 <= i < |E| => E[i].name)
  }

  function Weights(names: seq<CString>): (w: seq<nat>)
    ensures |w| == |names| && forall i {:trigger w[i]} | 0 <= i < |names| :: w[i] == |names[i]| + 1
  {
    seq(|names|, i requires 0 <= i < |names| => |names[i]| + 1)
  }

  function Sizes(E: seq<Region>): (w: seq<nat>)
    ensures |w| == |E| && forall i {:trigger w[i]} | 0 <= i < |E| :: w[i] == E[i].size
  {
    seq(|E|, i requires 0 <= i < |E| => E[i].size)
  }

  /** Where name `i` starts when the names are packed one after another. */
  function NameAt(names: seq<CString>, i: nat): nat
    requires i <= |names|
  {
    Prefix(Weights(names), i)
  }

  /** The names one after another, each with its NUL. */
  function Packed(names: seq<CString>): (t: seq<char>)
    ensures |t| == NameAt(names, |names|)
  {
    if names == [] then []
    else
      var n := |names| - 1;
      PrefixAgrees(Weights(names), Weights(names[..n]), n);
      Packed(names[..n]) + (names[n] + ['\0'])
  }

  /** Where the payload of region `i` starts in the dump file. */
  function PayloadAt(fx: Frame, E: seq<Region>, i: nat): nat
    requires i <= |E|
  {
    fx.ElfhSize() + Prefix(Sizes(E), i)
  }

  function BannerPhdr(fx: Frame): Phdr {
    Phdr(PT_LOAD, fx.BannerOffset(), fx.bannerVa, fx.bannerPa, BANNER_SIZE, BANNER_SIZE, PF_RW)
  }

  function FixedShdr(fx: Frame, j: nat): Shdr
    requires j < 4
  {
    match j
    case 0 => ZERO_SHDR
    case 1 => Shdr(1, SHT_STRTAB, 0, 0, fx.StrtabOffset(), fx.StrtabSize(), 0)
    case 2 => Shdr(9, SHT_PROGBITS, 0, fx.tableVa, 0, 0, 0)
    case 3 => Shdr(24, SHT_PROGBITS, SHF_WRITE, fx.bannerVa, fx.BannerOffset(), BANNER_SIZE, 0)
  }

  function RenderPhdr(fx: Frame, E: seq<Region>): (p: seq<Phdr>)
    ensures |p| == |E| + 1
    ensures p[0] == BannerPhdr(fx)
    ensures forall i | 0 < i < |p| :: p[i] == LoadPhdr(E[i - 1], PayloadAt(fx, E, i - 1))
  {
    seq(|E| + 1, i requires 0 <= i <= |E| =>
      if i == 0 then BannerPhdr(fx) else LoadPhdr(E[i - 1], PayloadAt(fx, E, i - 1)))
  }

  function RenderShdr(fx: Frame, E: seq<Region>): (s: seq<Shdr>)
    ensures |s| == |E| + 4
    ensures forall j | 0 <= j < 4 :: s[j] == FixedShdr(fx, j)
    ensures forall j | 4 <= j < |s| :: s[j] == ProgShdr(E[j - 4], NameAt(SectionNames(E), j), PayloadAt(fx, E, j - 4))
  {
    seq(|E| + 4, j requires 0 <= j < |E| + 4 =>
      if j < 4 then FixedShdr(fx, j) else ProgShdr(E[j - 4], NameAt(SectionNames(E), j), PayloadAt(fx, E, j - 4)))
  }

  predicate Fits(fx: Frame, E: seq<Region>) {
    |E| <= fx.max && AllValid(E)
  }

  /** The packed names, and zeros up to the end of the table. */
  function Table(names: seq<CString>, size: nat): (t: seq<char>)
    requires NameAt(names, |names|) <= size
    ensures |t| == size
  {
    Packed(names) + Fill('\0', size - NameAt(names, |names|))
  }

  /** The image that adding the regions of `E` one by one to a fresh header produces. */
  function Render(fx: Frame, E: seq<Region>): (e: Elf)
    requires Fits(fx, E)
  {
    NamesFit(fx, E);
    var names := SectionNames(E);
    Elf(RenderPhdr(fx, E), RenderShdr(fx, E), Table(names, fx.StrtabSize()),
        NameAt(names, |names|), PayloadAt(fx, E, |E|))
  }

  // ------------------------------------------------------------------ the string table

  /** The offsets the header code hands out for its own four names. */
  lemma FixedOffsets(names: seq<CString>)
    requires |names| >= 4 && forall i | 0 <= i < 4 :: names[i] == FIXED_NAMES[i]
    ensures NameAt(names, 0) == 0 && NameAt(names, 1) == 1 && NameAt(names, 2) == 9
    ensures NameAt(names, 3) == 24 && NameAt(names, 4) == 37
  {
    var w := Weights(names);
    assert w[0] == 1 && w[1] == 8 && w[2] == 15 && w[3] == 13;
    assert Prefix(w, 1) == Prefix(w, 0) + 1;
    assert Prefix(w, 2) == Prefix(w, 1) + 8;
    assert Prefix(w, 3) == Prefix(w, 2) + 15;
    assert Prefix(w, 4) == Prefix(w, 3) + 13;
  }

  /** Thirteen bytes a region at most: the string index stays under 37 + 13 * n. */
  lemma {:induction false} NamesBound(E: seq<Region>, i: nat)
    requires AllValid(E) && i <= |E|
    ensures NameAt(SectionNames(E), i + 4) <= 37 + 13 * i
  {
    if i == 0 {
      FixedOffsets(SectionNames(E));
    } else {
      NamesBound(E, i - 1);
      assert ValidRegion(E[i - 1]);
    }
  }

  /** A table of capacity at least 17 keeps room for two more names, whatever it holds. */
  lemma NamesFit(fx: Frame, E: seq<Region>)
    requires Fits(fx, E)
    ensures NameAt(SectionNames(E), |E| + 4) + 13 <= fx.StrtabSize()
  {
    NamesBound(E, |E|);
  }

  lemma PackedLast(names: seq<CString>)
    requires names != []
    ensures var n := |names| - 1; Packed(names) == Packed(names[..n]) + (names[n] + ['\0'])
    ensures |Packed(names[..|names| - 1])| == NameAt(names, |names| - 1)
  {
    NamesAgree(names[..|names| - 1], names, |names| - 1);
  }

  lemma NameStep(names: seq<CString>, k: nat)
    requires k < |names|
    ensures NameAt(names, k) + |names[k]| + 1 == NameAt(names, k + 1) <= NameAt(names, |names|)
  {
    PrefixMonotone(Weights(names), k + 1, |names|);
  }

  lemma {:induction false} PackedSlice(names: seq<CString>, k: nat)
    requires k < |names|
    ensures NameAt(names, k) + |names[k]| + 1 == NameAt(names, k + 1) <= |Packed(names)|
    ensures Packed(names)[NameAt(names, k)..NameAt(names, k + 1)] == names[k] + ['\0']
    decreases |names|
  {
    hide NameAt, Packed;
    var n := |names| - 1;
    var front, last := names[..n], names[n] + ['\0'];
    PackedLast(names);
    NameStep(names, k);
    if k < n {
      PackedSlice(front, k);
      NamesAgree(front, names, k);
      NamesAgree(front, names, k + 1);
      SliceOfLeft(Packed(front), last, NameAt(names, k), NameAt(names, k + 1));
    }
  }

  lemma NamesAgree(names: seq<CString>, more: seq<CString>, j: nat)
    requires j <= |names| && names <= more
    ensures NameAt(names, j) == NameAt(more, j)
  {
    PrefixAgrees(Weights(names), Weights(more), j);
  }

  lemma TableSlice(names: seq<CString>, size: nat, k: nat)
    requires NameAt(names, |names|) <= size && k < |names|
    ensures NameAt(names, k) + |names[k]| + 1 == NameAt(names, k + 1) <= NameAt(names, |names|)
    ensures Table(names, size)[NameAt(names, k)..NameAt(names, k + 1)] == names[k] + ['\0']
  {
    PackedSlice(names, k);
    hide Packed, NameAt;
    SliceOfLeft(Packed(names), Fill('\0', size - NameAt(names, |names|)), NameAt(names, k), NameAt(names, k + 1));
  }

  /** Every section name index points at that section's own NUL-terminated name. */
  lemma NameInTable(names: seq<CString>, size: nat, k: nat)
    requires NameAt(names, |names|) <= size && k < |names|
    ensures NameAt(names, k) + |names[k]| + 1 == NameAt(names, k + 1) <= NameAt(names, |names|)
    ensures CStr(Table(names, size), NameAt(names, k)) == names[k]
  {
    TableSlice(names, size, k);
    hide Table, NameAt;
    var t, at, next := Table(names, size), NameAt(names, k), NameAt(names, k + 1);
    assert t[at..at + |names[k]|] == t[at..next][..|names[k]|];
    assert t[at + |names[k]|] == t[at..next][|names[k]|];
    CStrIs(t, at, names[k]);
  }

  /** Writing one more name behind the last one extends the packed table by it. */
  lemma TableAdd(names: seq<CString>, size: nat, name: CString)
    requires NameAt(names, |names|) + |name| + 1 <= size
    ensures NameAt(names + [name], |names|) == NameAt(names, |names|)
    ensures NameAt(names + [name], |names| + 1) == NameAt(names, |names|) + |name| + 1
    ensures WithName(Table(names, size), NameAt(names, |names|), name) == Table(names + [name], size)
  {
    PrefixAgrees(Weights(names), Weights(names + [name]), |names|);
    assert (names + [name])[..|names|] == names;
  }

  /** Packing the names without name `k` cuts its bytes out of the packed names. */
  lemma {:induction false} PackedDrop(names: seq<CString>, k: nat)
    requires k < |names|
    ensures NameAt(names, k) <= NameAt(names, k + 1) <= |Packed(names)|
    ensures Packed(Drop(names, k)) == Packed(names)[..NameAt(names, k)] + Packed(names)[NameAt(names, k + 1)..]
    decreases |names|
  {
    var n := |names| - 1;
    var front := names[..n];
    PackedSlice(names, k);
    PackedSnoc(names, front, names[n]);
    if k == n {
      assert Drop(names, k) == front;
      PrefixAgrees(Weights(names), Weights(front), n);
      CutFromSum(Packed(front), names[n] + ['\0'], |Packed(front)|, |Packed(names)|);
    } else {
      PackedDrop(front, k);
      PackedDropStep(names, k);
    }
  }

  lemma PackedDropStep(names: seq<CString>, k: nat)
    requires k + 1 < |names|
    requires NameAt(names[..|names| - 1], k) <= NameAt(names[..|names| - 1], k + 1) <= |Packed(names[..|names| - 1])|
    requires Packed(Drop(names[..|names| - 1], k)) ==
             Packed(names[..|names| - 1])[..NameAt(names[..|names| - 1], k)]
             + Packed(names[..|names| - 1])[NameAt(names[..|names| - 1], k + 1)..]
    ensures NameAt(names, k) <= NameAt(names, k + 1) <= |Packed(names)|
    ensures Packed(Drop(names, k)) == Packed(names)[..NameAt(names, k)] + Packed(names)[NameAt(names, k + 1)..]
  {
    hide Packed, Prefix;
    var n := |names| - 1;
    var front := names[..n];
    PrefixAgrees(Weights(names), Weights(front), k);
    PrefixAgrees(Weights(names), Weights(front), k + 1);
    assert Drop(names, k) == Drop(front, k) + [names[n]];
    PackedSnoc(names, front, names[n]);
    PackedSnoc(Drop(names, k), Drop(front, k), names[n]);
    CutFromSum(Packed(front), names[n] + ['\0'], NameAt(names, k), NameAt(names, k + 1));
  }

  lemma PackedSnoc(names: seq<CString>, front: seq<CString>, name: CString)
    requires names == front + [name]
    ensures Packed(names) == Packed(front) + (name + ['\0'])
  {
    assert names[..|names| - 1] == front;
  }

  /** Moving the tail of the table down over name `k` packs the names without it. The bytes
      pulled in from behind the last name are zeros. */
  lemma TableDrop(names: seq<CString>, size: nat, k: nat)
    requires k < |names| && NameAt(names, |names|) + |names[k]| + 1 <= size
    ensures NameAt(Drop(names, k), |names| - 1) == NameAt(names, |names|) - (|names[k]| + 1) <= size
    ensures var at, len, idx := NameAt(names, k), |names[k]| + 1, NameAt(names, |names|);
            at + len <= idx && Table(Drop(names, k), size) == Moved(Table(names, size), at, at + len, idx - at)
  {
    hide Packed, Prefix, Moved, Drop;
    PackedSlice(names, k);
    PackedDrop(names, k);
    MovedOver(Packed(names), '\0', size - |Packed(names)|, NameAt(names, k), |names[k]| + 1);
  }

  // ------------------------------------------------------------------ adding and updating

  lemma PayloadsAgree(fx: Frame, E: seq<Region>, F: seq<Region>, i: nat)
    requires i <= |E| && i <= |F|
    requires forall j | 0 <= j < i :: E[j].size == F[j].size
    ensures PayloadAt(fx, E, i) == PayloadAt(fx, F, i)
  {
    PrefixAgrees(Sizes(E), Sizes(F), i);
  }

  lemma AddedPhdrs(fx: Frame, E: seq<Region>, r: Region)
    ensures RenderPhdr(fx, E + [r]) == RenderPhdr(fx, E) + [LoadPhdr(r, PayloadAt(fx, E, |E|))]
    ensures PayloadAt(fx, E + [r], |E| + 1) == PayloadAt(fx, E, |E|) + r.size
  {
    var F := E + [r];
    forall i | 0 <= i <= |E| ensures PayloadAt(fx, E, i) == PayloadAt(fx, F, i) { PayloadsAgree(fx, E, F, i); }
    assert PayloadAt(fx, F, |E| + 1) == PayloadAt(fx, F, |E|) + r.size;
    hide PayloadAt;
  }

  lemma AddedShdrs(fx: Frame, E: seq<Region>, r: Region)
    ensures SectionNames(E + [r]) == SectionNames(E) + [r.name]
    ensures RenderShdr(fx, E + [r]) ==
            RenderShdr(fx, E) + [ProgShdr(r, NameAt(SectionNames(E), |E| + 4), PayloadAt(fx, E, |E|))]
  {
    hide PayloadAt, NameAt;
    var F := E + [r];
    var names := SectionNames(E);
    assert SectionNames(F) == names + [r.name];
    forall i | 0 <= i <= |E| ensures PayloadAt(fx, E, i) == PayloadAt(fx, F, i) { PayloadsAgree(fx, E, F, i); }
    forall j | 0 <= j <= |names| ensures NameAt(names, j) == NameAt(SectionNames(F), j) {
      NamesAgree(names, SectionNames(F), j);
    }
  }

  /** Adding a header takes the image of a list to the image of the longer list. */
  lemma AddHeaderRenders(fx: Frame, E: seq<Region>, r: Region)
    requires Fits(fx, E) && |E| < fx.max && ValidRegion(r)
    ensures Fits(fx, E + [r]) && RoomFor(Render(fx, E), r)
    ensures AddHeader(Render(fx, E), r) == Render(fx, E + [r])
  {
    NamesFit(fx, E);
    AddedPhdrs(fx, E, r);
    AddedShdrs(fx, E, r);
    hide Table, NameAt, PayloadAt, RenderPhdr, RenderShdr, WithName;
    TableAdd(SectionNames(E), fx.StrtabSize(), r.name);
  }

  /** The sections of `E` fit the places in front of the program headers. */
  predicate Placed(fx: Frame, E: seq<Region>) { |E| + 4 <= fx.max }

  /** An image with the addresses in the headers of region `k` replaced. */
  function Readdressed(e: Elf, k: nat, r: Region): Elf
    requires k + 1 < |e.phdr| && k + 4 < |e.shdr|
  {
    e.(phdr := e.phdr[k + 1 := e.phdr[k + 1].(vaddr := r.virt, paddr := r.phys)],
       shdr := e.shdr[k + 4 := e.shdr[k + 4].(addr := r.virt)])
  }

  lemma ReaddressRenders(fx: Frame, E: seq<Region>, k: nat, r: Region)
    requires Fits(fx, E) && k < |E| && r.virt != 0
    ensures Fits(fx, E[k := Readdress(E[k], r)]) && |Render(fx, E).phdr| == |E| + 1 && |Render(fx, E).shdr| == |E| + 4
    ensures Render(fx, E[k := Readdress(E[k], r)]) == Readdressed(Render(fx, E), k, r)
  {
    var F := E[k := Readdress(E[k], r)];
    forall q | q in F ensures ValidRegion(q) {
      assert q == Readdress(E[k], r) || q in E;
      assert ValidRegion(E[k]);
    }
    assert SectionNames(E) == SectionNames(F);
    forall j | 0 <= j <= |E| ensures PayloadAt(fx, E, j) == PayloadAt(fx, F, j) { PayloadsAgree(fx, E, F, j); }
    var ph, sh := RenderPhdr(fx, E), RenderShdr(fx, E);
    assert RenderPhdr(fx, F) == ph[k + 1 := ph[k + 1].(vaddr := r.virt, paddr := r.phys)];
    assert RenderShdr(fx, F) == sh[k + 4 := sh[k + 4].(addr := r.virt)];
  }

  lemma UpdateHeaderRenders(fx: Frame, E: seq<Region>, i: nat, r: Region)
    requires Fits(fx, E) && Placed(fx, E) && i < |E| && r.virt != 0
    ensures Fits(fx, E[i := Readdress(E[i], r)])
    ensures UpdateHeader(fx.max, Render(fx, E), i, r) == Render(fx, E[i := Readdress(E[i], r)])
  {
    ReaddressRenders(fx, E, i, r);
    hide Render;
  }

  predicate SameAddresses(q: Region, r: Region) { q.virt == r.virt && q.phys == r.phys }

  /** What the field holds in which a section store lands `j` places behind the last. */
  function Overlapped(fx: Frame, E: seq<Region>, j: nat): nat
    requires j < 4 && j <= |E|
  {
    match j
    case 0 => fx.bannerVa
    case 1 => E[0].phys
    case 2 => E[1].size
    case _ => E[2].size
  }

  /** The bytes that lie where the last handle's addresses are stored: the ends of two fixed names. */
  predicate SpellsNames(r: Region) { Bytes(r.virt) == "p_table\0" && Bytes(r.phys) == "linux_ba" }

  /** The last four handles: their section has no place of its own, and the last one's program header
      lies in the string table. The request holds what is there already, or there is nothing. */
  predicate TailHolds(fx: Frame, E: seq<Region>, i: nat, r: Region) {
    i + 4 >= fx.max ==>
      var j := i + 4 - fx.max;
      && (j < 4 && j <= |E| ==> r.virt == Overlapped(fx, E, j))
      && (i + 1 == fx.max ==> SpellsNames(r))
  }

  /** Patching the headers of handle `i` is invisible exactly when it has none or the request repeats
      the recorded addresses, and, for the last four handles, when the stores that land in other
      headers change nothing there. */
  lemma UpdateHeaderInvisible(fx: Frame, E: seq<Region>, i: nat, r: Region)
    requires Fits(fx, E) && Placed(fx, E) && i < fx.max
    ensures UpdateHeader(fx.max, Render(fx, E), i, r) == Render(fx, E) <==>
            (i < |E| ==> SameAddresses(r, E[i])) && TailHolds(fx, E, i, r)
  {
    hide Table, NameAt, PayloadAt, Bytes;
    var e, f := Render(fx, E), UpdateHeader(fx.max, Render(fx, E), i, r);
    if i < |E| {
      assert e.phdr[i + 1].vaddr == E[i].virt && e.phdr[i + 1].paddr == E[i].phys && e.shdr[i + 4].addr == E[i].virt;
      assert f.phdr[i + 1].vaddr == r.virt && f.phdr[i + 1].paddr == r.phys;
      if SameAddresses(r, E[i]) {
        assert f.phdr == e.phdr;
        assert f.shdr == e.shdr;
      }
    } else if i + 4 >= fx.max {
      TailInvisible(fx, E, i, r);
    }
  }

  lemma TailInvisible(fx: Frame, E: seq<Region>, i: nat, r: Region)
    requires Fits(fx, E) && Placed(fx, E) && fx.max <= i + 4 < fx.max + 4
    ensures UpdateHeader(fx.max, Render(fx, E), i, r) == Render(fx, E) <==> TailHolds(fx, E, i, r)
  {
    var e, j := Render(fx, E), i + 4 - fx.max;
    HeaderCounts(fx, E);
    TextRewritten(fx, E, r);
    if j <= |E| { OverlappedField(fx, E, j); }
    hide Render, Bytes, WithBytes, SpellsNames, Overlaid, Overlapped;
    TailStoresAre(fx.max, e, i, r);
    hide UpdateHeader;
    assert j <= |E| ==> (e.phdr[j := Overlaid(e.phdr[j], j, r.virt)] == e.phdr <==> r.virt == Overlapped(fx, E, j));
  }

  /** The three stores of a handle whose section has no place, and whose program header is not in use. */
  lemma TailStoresAre(max: nat, e: Elf, i: nat, r: Region)
    requires max <= i + 4 < max + 4 && |e.phdr| <= i + 1 && |e.strtab| >= 32
    ensures var j := i + 4 - max;
            UpdateHeader(max, e, i, r) ==
            e.(phdr := if j < |e.phdr| then e.phdr[j := Overlaid(e.phdr[j], j, r.virt)] else e.phdr,
               strtab := if i + 1 == max then Rewritten(e.strtab, r) else e.strtab)
  {
    hide Bytes, WithBytes, Overlaid;
  }

  /** A string table with the addresses of `r` where program header MAX_NUM_ENTRIES would have them. */
  function Rewritten(t: seq<char>, r: Region): seq<char>
    requires |t| >= 32
  {
    WithBytes(WithBytes(t, 16, Bytes(r.virt)), 24, Bytes(r.phys))
  }

  lemma TextRewritten(fx: Frame, E: seq<Region>, r: Region)
    requires Fits(fx, E)
    ensures var t := Render(fx, E).strtab; |t| >= 32 && (Rewritten(t, r) == t <==> SpellsNames(r))
  {
    TableFront(fx, E);
    hide Render, Bytes;
    TwoRewrites(Render(fx, E).strtab, 16, Bytes(r.virt), Bytes(r.phys));
  }

  lemma OverlappedField(fx: Frame, E: seq<Region>, j: nat)
    requires Fits(fx, E) && j < 4 && j <= |E|
    ensures var p := Render(fx, E).phdr;
            j < |p| && forall v :: Overlaid(p[j], j, v) == p[j] <==> v == Overlapped(fx, E, j)
  {
    hide Table, NameAt, PayloadAt;
  }

  /** What lies where the last handle's addresses are stored: the ends of two fixed names. */
  lemma TableFront(fx: Frame, E: seq<Region>)
    requires Fits(fx, E)
    ensures var t := Render(fx, E).strtab; |t| >= 32 && t[16..24] == "p_table\0" && t[24..32] == "linux_ba"
  {
    var names := SectionNames(E);
    NamesFit(fx, E);
    FixedOffsets(names);
    TableSlice(names, fx.StrtabSize(), 2);
    TableSlice(names, fx.StrtabSize(), 3);
    hide Table, NameAt, PayloadAt, RenderPhdr, RenderShdr;
    var t := Render(fx, E).strtab;
    assert t[9..24] == "minidump_table" + ['\0'] && t[24..37] == "linux_banner" + ['\0'];
    assert t[16..24] == t[9..24][7..15] && t[24..32] == t[24..37][..8];
  }

  lemma TwoRewrites(t: seq<char>, at: nat, a: seq<char>, b: seq<char>)
    requires at + |a| + |b| <= |t|
    ensures WithBytes(WithBytes(t, at, a), at + |a|, b) == t <==>
            t[at..at + |a|] == a && t[at + |a|..at + |a| + |b|] == b
  {
    var m, u := at + |a|, WithBytes(WithBytes(t, at, a), at + |a|, b);
    assert u[at..m] == a && u[m..m + |b|] == b;
    assert u[..at] == t[..at] && u[m + |b|..] == t[m + |b|..];
    assert t == t[..at] + t[at..m] + t[m..m + |b|] + t[m + |b|..];
    assert u == u[..at] + u[at..m] + u[m..m + |b|] + u[m + |b|..];
  }

  /** Payloads tile the file: the first starts at the end of the header, each starts where
      the one before it ends, the last ends at `elf_offset`, and both headers of a region
      give that place. */
  lemma PayloadsTile(fx: Frame, E: seq<Region>, i: nat)
    requires Fits(fx, E) && i < |E|
    ensures var e := Render(fx, E);
            && PayloadAt(fx, E, 0) == fx.ElfhSize() && e.offset == PayloadAt(fx, E, |E|)
            && e.phdr[i + 1].offset == e.shdr[i + 4].offset == PayloadAt(fx, E, i)
            && PayloadAt(fx, E, i) + e.phdr[i + 1].filesz == PayloadAt(fx, E, i + 1) <= e.offset
            && e.shdr[i + 4].name < e.strIdx < |e.strtab|
            && CStr(e.strtab, e.shdr[i + 4].name) == E[i].name
  {
    NamesFit(fx, E);
    NameInTable(SectionNames(E), fx.StrtabSize(), i + 4);
    PayloadStep(fx, E, i);
    hide Table, NameAt, PayloadAt, CStr;
  }

  lemma PayloadStep(fx: Frame, E: seq<Region>, i: nat)
    requires i < |E|
    ensures PayloadAt(fx, E, 0) == fx.ElfhSize()
    ensures PayloadAt(fx, E, i) + E[i].size == PayloadAt(fx, E, i + 1) <= PayloadAt(fx, E, |E|)
  {
    PrefixMonotone(Sizes(E), i + 1, |E|);
  }

  // ------------------------------------------------------------------ clearing

  /** The first region of `E` with the address and size of `r`. */
  function FirstSpan(E: seq<Region>, r: Region): (i: nat)
    ensures i <= |E|
    ensures i < |E| ==> E[i].phys == r.phys && E[i].size == r.size
    ensures forall j | 0 <= j < i :: !(E[j].phys == r.phys && E[j].size == r.size)
  {
    First(E, (q: Region) => q.phys == r.phys && q.size == r.size)
  }

  /** The program-header search finds the first region of the same physical span; the banner
      never matches, because its six bytes are not a multiple of four. */
  lemma FindPhdrRendered(fx: Frame, E: seq<Region>, r: Region)
    requires Fits(fx, E) && r.size % 4 == 0
    ensures FindPhdr(Render(fx, E), r) == FirstSpan(E, r) + 1
  {
    var ph := RenderPhdr(fx, E);
    var i := FirstSpan(E, r);
    assert !PhdrMatches(ph[0], r);
    assert forall j | 1 <= j < |ph| :: PhdrMatches(ph[j], r) <==> E[j - 1].phys == r.phys && E[j - 1].size == r.size;
    var f := FindPhdr(Render(fx, E), r);
    assert f < |ph| ==> PhdrMatches(ph[f], r);
    assert i + 1 < |ph| ==> PhdrMatches(ph[i + 1], r);
  }

  /** Every section of the image is called by its name. */
  lemma SectionName(fx: Frame, E: seq<Region>, j: nat)
    requires Fits(fx, E) && j < |E| + 4
    ensures var e := Render(fx, E);
            && |e.shdr| == |E| + 4 && e.shdr[j].name == NameAt(SectionNames(E), j) <= e.strIdx <= |e.strtab|
            && CStr(e.strtab, e.shdr[j].name) == SectionNames(E)[j]
  {
    var names := SectionNames(E);
    NamesFit(fx, E);
    FixedOffsets(names);
    NameInTable(names, fx.StrtabSize(), j);
    hide CStr, Table, NameAt, PayloadAt;
  }

  /** A section matches only at the region of that name, with its address and size; none of
      the four fixed sections ever does. */
  lemma ShdrMatchRendered(fx: Frame, E: seq<Region>, r: Region, j: nat)
    requires Fits(fx, E) && ValidRegion(r) && j < |E| + 4
    ensures ShdrMatches(Render(fx, E), Render(fx, E).shdr[j], r) <==>
            j >= 4 && E[j - 4].name == r.name && E[j - 4].virt == r.virt && E[j - 4].size == r.size
  {
    SectionName(fx, E, j);
    if j == 2 { assert |SectionNames(E)[2]| == 14; }
    hide Table, NameAt, PayloadAt, CStr;
  }

  /** At most region `k` of `E` is called `name`; `k == |E|` says that none is. */
  predicate OnlyAt(E: seq<Region>, name: CString, k: nat) {
    && k <= |E|
    && (forall j | 0 <= j < |E| && j != k :: E[j].name != name)
    && (k < |E| ==> E[k].name == name)
  }

  lemma FindShdrRendered(fx: Frame, E: seq<Region>, r: Region, k: nat)
    requires Fits(fx, E) && ValidRegion(r) && OnlyAt(E, r.name, k)
    ensures FindShdr(Render(fx, E), r) ==
            if k < |E| && E[k].virt == r.virt && E[k].size == r.size then k + 4 else |E| + 4
  {
    hide Table, NameAt, PayloadAt, ShdrMatches;
    var e := Render(fx, E);
    var f := FindShdr(e, r);
    if f < |e.shdr| {
      assert ShdrMatches(e, e.shdr[f], r);
      ShdrMatchRendered(fx, E, r, f);
    }
    if k < |E| {
      ShdrMatchRendered(fx, E, r, k + 4);
      if k + 4 < f { assert !ShdrMatches(e, e.shdr[k + 4], r); }
    }
  }

  lemma DropFits(fx: Frame, E: seq<Region>, k: nat)
    requires Fits(fx, E) && k < |E|
    ensures Fits(fx, Drop(E, k))
  {
    assert forall q | q in Drop(E, k) :: q in E;
  }

  lemma DropPhdrs(fx: Frame, E: seq<Region>, k: nat)
    requires k < |E|
    ensures RenderPhdr(fx, Drop(E, k)) == Close(RenderPhdr(fx, E), k + 1, LowerPhdr(E[k].size))
    ensures PayloadAt(fx, Drop(E, k), |E| - 1) == PayloadAt(fx, E, |E|) - E[k].size
  {
    hide PayloadAt;
    DropPayload(fx, E, k, |E| - 1);
    var s, t := RenderPhdr(fx, Drop(E, k)), RenderPhdr(fx, E);
    forall j: nat | j < |s| ensures s[j] == Close(t, k + 1, LowerPhdr(E[k].size))[j] {
      if j > 0 {
        DropPayload(fx, E, k, j - 1);
        var m := if j < k + 1 then j else j + 1;
        assert t[m] == LoadPhdr(E[m - 1], PayloadAt(fx, E, m - 1));
        assert s[j] == LoadPhdr(Drop(E, k)[j - 1], PayloadAt(fx, Drop(E, k), j - 1));
        assert Drop(E, k)[j - 1] == E[m - 1];
      }
    }
  }

  lemma DropPayload(fx: Frame, E: seq<Region>, k: nat, i: nat)
    requires k < |E| && i < |E|
    ensures PayloadAt(fx, Drop(E, k), i) == if i < k then PayloadAt(fx, E, i) else PayloadAt(fx, E, i + 1) - E[k].size
  {
    PrefixAgrees(Sizes(Drop(E, k)), Drop(Sizes(E), k), i);
    PrefixDrop(Sizes(E), k, i);
  }

  lemma NamesOfDrop(E: seq<Region>, k: nat)
    requires k < |E|
    ensures SectionNames(Drop(E, k)) == Drop(SectionNames(E), k + 4)
  {
  }

  lemma DropShdrs(fx: Frame, E: seq<Region>, k: nat)
    requires k < |E|
    ensures RenderShdr(fx, Drop(E, k)) == Close(RenderShdr(fx, E), k + 4, LowerShdr(E[k].size, |E[k].name| + 1))
  {
    hide NameAt, PayloadAt;
    var names := SectionNames(E);
    NamesOfDrop(E, k);
    var s, t, f := RenderShdr(fx, Drop(E, k)), RenderShdr(fx, E), LowerShdr(E[k].size, |E[k].name| + 1);
    forall j: nat | j < |s| ensures s[j] == Close(t, k + 4, f)[j] {
      if j >= 4 {
        DropNameAt(names, k + 4, j);
        DropPayload(fx, E, k, j - 4);
        assert names[k + 4] == E[k].name;
        var m := if j < k + 4 then j else j + 1;
        assert t[m] == ProgShdr(E[m - 4], NameAt(names, m), PayloadAt(fx, E, m - 4));
        var F := Drop(E, k);
        assert s[j] == ProgShdr(F[j - 4], NameAt(SectionNames(F), j), PayloadAt(fx, F, j - 4));
        assert Drop(E, k)[j - 4] == E[m - 4];
      }
    }
  }

  lemma DropNameAt(names: seq<CString>, k: nat, j: nat)
    requires k < |names| && j < |names|
    ensures NameAt(Drop(names, k), j) == if j < k then NameAt(names, j) else NameAt(names, j + 1) - (|names[k]| + 1)
  {
    PrefixAgrees(Weights(Drop(names, k)), Drop(Weights(names), k), j);
    PrefixDrop(Weights(names), k, j);
  }

  lemma ShdrNameRendered(fx: Frame, E: seq<Region>, k: nat)
    requires Fits(fx, E) && k < |E|
    ensures Render(fx, E).shdr[k + 4].name == NameAt(SectionNames(E), k + 4)
  {
  }

  /** Removing region `k` from a list removes its name, its headers and its payload, and
      rebases everything behind them: exactly what the code does to the image. */
  lemma DropRenders(fx: Frame, E: seq<Region>, k: nat)
    requires Fits(fx, E) && k < |E|
    ensures Fits(fx, Drop(E, k))
    ensures EraseInBounds(Render(fx, E), k + 4, |E[k].name| + 1)
    ensures Erase(Render(fx, E), k + 1, k + 4, E[k].size, |E[k].name| + 1) == Render(fx, Drop(E, k))
  {
    hide NameAt, PayloadAt, Table, RenderPhdr, RenderShdr, Close, Moved;
    var names := SectionNames(E);
    NamesFit(fx, E);
    DropFits(fx, E, k);
    assert ValidRegion(E[k]);
    NamesOfDrop(E, k);
    TableDrop(names, fx.StrtabSize(), k + 4);
    DropPhdrs(fx, E, k);
    DropShdrs(fx, E, k);
    ShdrNameRendered(fx, E, k);
  }

  /** When `msm_minidump_clear_headers` succeeds on the image of a list in which at most
      region `k` carries the requested name. */
  lemma ClearableRendered(fx: Frame, E: seq<Region>, r: Region, k: nat)
    requires Fits(fx, E) && ValidRegion(r) && OnlyAt(E, r.name, k)
    ensures Clearable(Render(fx, E), r) <==>
            && k < |E| && E[k].virt == r.virt && E[k].size == r.size
            && FirstSpan(E, r) < |E| && PayloadAt(fx, E, FirstSpan(E, r)) == PayloadAt(fx, E, k)
    ensures Clearable(Render(fx, E), r) ==>
            FindShdr(Render(fx, E), r) == k + 4 && FindPhdr(Render(fx, E), r) == FirstSpan(E, r) + 1
  {
    hide FirstSpan, FindPhdr, FindShdr, NameAt, PayloadAt, Table;
    FindPhdrRendered(fx, E, r);
    FindShdrRendered(fx, E, r, k);
  }

  lemma ClearInBoundsRendered(fx: Frame, E: seq<Region>, r: Region, k: nat)
    requires Fits(fx, E) && ValidRegion(r) && OnlyAt(E, r.name, k)
    ensures ClearInBounds(Render(fx, E), r)
  {
    hide Render, Clearable, FirstSpan, FindShdr, FindPhdr, NameAt, PayloadAt;
    ClearableRendered(fx, E, r, k);
    if k < |E| { DropRenders(fx, E, k); }
  }

  /** No earlier region has the physical address and size of region `k`. */
  predicate FirstOfItsSpan(E: seq<Region>, k: nat)
    requires k < |E|
  {
    forall j | 0 <= j < k :: E[j].phys != E[k].phys || E[j].size != E[k].size
  }

  predicate SameSpan(q: Region, r: Region) {
    q.virt == r.virt && q.phys == r.phys && q.size == r.size
  }

  /** A region of positive size is cleared exactly when the request carries its addresses and
      size and no earlier region has its span; the image left behind is that of the list
      without it. A refused request changes nothing. */
  lemma ClearHeadersExact(fx: Frame, E: seq<Region>, r: Region, k: nat)
    requires Fits(fx, E) && ValidRegion(r) && OnlyAt(E, r.name, k) && k < |E|
    requires r.size > 0 || E[k].size > 0 || (SameSpan(E[k], r) && FirstOfItsSpan(E, k))
    ensures Fits(fx, Drop(E, k)) && ClearInBounds(Render(fx, E), r)
    ensures ClearHeaders(Render(fx, E), r) ==
            if SameSpan(E[k], r) && FirstOfItsSpan(E, k) then (Render(fx, Drop(E, k)), 0)
            else (Render(fx, E), -EINVAL)
  {
    hide Render, Clearable, FirstSpan, FindShdr, FindPhdr, NameAt, PayloadAt;
    ClearInBoundsRendered(fx, E, r, k);
    ClearableRendered(fx, E, r, k);
    ClearableIff(fx, E, r, k);
    DropRenders(fx, E, k);
  }

  lemma ClearableIff(fx: Frame, E: seq<Region>, r: Region, k: nat)
    requires Fits(fx, E) && ValidRegion(r) && OnlyAt(E, r.name, k) && k < |E|
    requires r.size > 0 || E[k].size > 0 || (SameSpan(E[k], r) && FirstOfItsSpan(E, k))
    ensures Clearable(Render(fx, E), r) <==> SameSpan(E[k], r) && FirstOfItsSpan(E, k)
    ensures Clearable(Render(fx, E), r) ==> FirstSpan(E, r) == k
  {
    hide Render, Clearable, FirstSpan, Sizes, Prefix;
    ClearableRendered(fx, E, r, k);
    var p := FirstSpan(E, r);
    if p < k {
      PrefixMonotone(Sizes(E), p, k);
    } else if k < p < |E| {
      PrefixMonotone(Sizes(E), k, p);
    }
  }

  /** A name that no region of the list carries is refused without a trace. */
  lemma ClearHeadersAbsent(fx: Frame, E: seq<Region>, r: Region)
    requires Fits(fx, E) && ValidRegion(r) && OnlyAt(E, r.name, |E|)
    ensures ClearInBounds(Render(fx, E), r) && ClearHeaders(Render(fx, E), r) == (Render(fx, E), -EINVAL)
  {
    ClearInBoundsRendered(fx, E, r, |E|);
    ClearableRendered(fx, E, r, |E|);
  }

  // ------------------------------------------------------------------ regions without payload

  /** Program headers `i + 1` and `i + 2` differ only in addresses when region `i` and the next
      are empty. */
  lemma NeighbourPhdrs(fx: Frame, E: seq<Region>, i: nat)
    requires i + 1 < |E| && E[i].size == E[i + 1].size == 0
    ensures LowerPhdr(0)(RenderPhdr(fx, E)[i + 2]) == RenderPhdr(fx, E)[i + 1] <==> SameAddresses(E[i], E[i + 1])
  {
    assert PayloadAt(fx, E, i + 1) == PayloadAt(fx, E, i) + E[i].size;
  }

  /** Erasing the program header of an earlier region of the same span leaves the canonical
      headers exactly when every region from it up to `k` has the same addresses. */
  lemma EarlierPhdrExact(fx: Frame, E: seq<Region>, p: nat, k: nat)
    requires p < k < |E| && forall i | p <= i <= k :: E[i].size == 0
    ensures Close(RenderPhdr(fx, E), p + 1, LowerPhdr(0)) == RenderPhdr(fx, Drop(E, k)) <==>
            forall i | p <= i < k :: SameAddresses(E[i], E[k])
  {
    DropPhdrs(fx, E, k);
    forall i | p <= i < k { NeighbourPhdrs(fx, E, i); }
    hide RenderPhdr, Close, LowerPhdr, Drop;
    var ph, f := RenderPhdr(fx, E), LowerPhdr(0);
    var got, want := Close(ph, p + 1, f), Close(ph, k + 1, f);
    assert got == want ==> forall i {:trigger E[i]} | p <= i < k :: SameAddresses(E[i], E[i + 1]) by {
      if got == want {
        forall i | p <= i < k ensures SameAddresses(E[i], E[i + 1]) { assert got[i + 1] == want[i + 1]; }
      }
    }
    if forall i {:trigger E[i]} | p <= i < k :: SameAddresses(E[i], E[i + 1]) {
      ChainOfAddresses(E, p, k);
      forall j | 0 <= j < |got| ensures got[j] == want[j] {
        if p + 1 <= j <= k { assert SameAddresses(E[j - 1], E[j]); }
      }
    }
    if forall i | p <= i < k :: SameAddresses(E[i], E[k]) {
      forall i | p <= i < k ensures SameAddresses(E[i], E[i + 1]) {
        if i + 1 < k { assert SameAddresses(E[i + 1], E[k]); }
      }
    }
  }

  lemma {:induction false} ChainOfAddresses(E: seq<Region>, p: nat, k: nat)
    requires p <= k < |E| && forall i {:trigger E[i]} | p <= i < k :: SameAddresses(E[i], E[i + 1])
    ensures forall i | p <= i < k :: SameAddresses(E[i], E[k])
    decreases k - p
  {
    if p < k {
      ChainOfAddresses(E, p + 1, k);
      assert SameAddresses(E[p], E[p + 1]);
    }
  }

  // ------------------------------------------------------------------ clearing, for any size

  /** The request carries region `k`'s addresses and size, and every region from the first of that
      physical span up to it is, like itself, empty and at the very same addresses. For a positive
      size that says: no earlier region has its span. */
  predicate Clean(E: seq<Region>, r: Region, k: nat)
    requires k < |E|
  {
    SameSpan(E[k], r) && forall i | FirstSpan(E, r) <= i < k :: r.size == 0 && SameSpan(E[i], r)
  }

  /** The section search misses region `k`, or the program-header search misses, or what it hits is
      separated from region `k` by some payload. */
  predicate Refused(E: seq<Region>, r: Region, k: nat)
    requires k < |E|
  {
    var p := FirstSpan(E, r);
    || E[k].virt != r.virt || E[k].size != r.size || p == |E|
    || (exists i :: p <= i < k && E[i].size != 0) || (exists i :: k <= i < p && E[i].size != 0)
  }

  /** Only empty regions can be cleared in part: the section of one, the program header of
      another. */
  predicate Tidy(E: seq<Region>, r: Region, k: nat)
    requires k < |E|
  {
    Clean(E, r, k) || Refused(E, r, k)
  }

  lemma SizedIsTidy(E: seq<Region>, r: Region, k: nat)
    requires k < |E| && (r.size > 0 || E[k].size > 0)
    ensures Tidy(E, r, k) && (Clean(E, r, k) <==> SameSpan(E[k], r) && FirstOfItsSpan(E, k))
  {
    var p := FirstSpan(E, r);
    if p < k { assert E[p].size == r.size; }
  }

  /** A clear is refused exactly when `Refused` says so, and otherwise erases region `k`'s section and
      name, and the program header of the first region of the requested span. */
  lemma RefusedExact(fx: Frame, E: seq<Region>, r: Region, k: nat)
    requires Fits(fx, E) && ValidRegion(r) && OnlyAt(E, r.name, k) && k < |E|
    ensures var e, p := Render(fx, E), FirstSpan(E, r);
            && |e.phdr| == |E| + 1 && |e.shdr| == |E| + 4
            && ClearInBounds(e, r) && EraseInBounds(e, k + 4, |r.name| + 1)
            && (Refused(E, r, k) ==> ClearHeaders(e, r) == (e, -EINVAL))
            && (!Refused(E, r, k) ==> ClearHeaders(e, r) == (Erase(e, p + 1, k + 4, r.size, |r.name| + 1), 0))
  {
    hide *;
    HeaderCounts(fx, E);
    NameOfOnly(E, r.name, k);
    DropRenders(fx, E, k);
    ClearInBoundsRendered(fx, E, r, k);
    ClearableRendered(fx, E, r, k);
    PayloadsApart(fx, E, r, k);
    ClearParts(Render(fx, E), r);
  }

  lemma NameOfOnly(E: seq<Region>, name: CString, k: nat)
    requires OnlyAt(E, name, k) && k < |E|
    ensures E[k].name == name
  {
  }

  lemma ClearParts(e: Elf, r: Region)
    requires ClearInBounds(e, r)
    ensures !Clearable(e, r) ==> ClearHeaders(e, r) == (e, -EINVAL)
    ensures Clearable(e, r) ==>
              var p, s, n := FindPhdr(e, r), FindShdr(e, r), |r.name| + 1;
              && p < |e.phdr| && s < |e.shdr| && EraseInBounds(e, s, n)
              && ClearHeaders(e, r) == (Erase(e, p, s, r.size, n), 0)
  {
    hide Erase, EraseInBounds;
  }

  lemma HeaderCounts(fx: Frame, E: seq<Region>)
    requires Fits(fx, E)
    ensures |Render(fx, E).phdr| == |E| + 1 && |Render(fx, E).shdr| == |E| + 4
  {
  }

  lemma PayloadsApart(fx: Frame, E: seq<Region>, r: Region, k: nat)
    requires k < |E|
    ensures Refused(E, r, k) <==>
            !(E[k].virt == r.virt && E[k].size == r.size && FirstSpan(E, r) < |E|
              && PayloadAt(fx, E, FirstSpan(E, r)) == PayloadAt(fx, E, k))
  {
    hide FirstSpan, PayloadAt;
    var p := FirstSpan(E, r);
    if p <= k { SizesBetween(fx, E, p, k); } else { SizesBetween(fx, E, k, p); }
  }

  /** A clear leaves the image of the list without region `k` exactly when it is clean. */
  lemma CleanExact(fx: Frame, E: seq<Region>, r: Region, k: nat)
    requires Fits(fx, E) && ValidRegion(r) && OnlyAt(E, r.name, k) && k < |E|
    ensures ClearInBounds(Render(fx, E), r) && Fits(fx, Drop(E, k))
    ensures ClearHeaders(Render(fx, E), r) == (Render(fx, Drop(E, k)), 0) <==> Clean(E, r, k)
  {
    hide Render, Erase, Clearable, FindPhdr, FindShdr, Refused, Clean, PayloadAt;
    ClearInBoundsRendered(fx, E, r, k);
    DropFits(fx, E, k);
    RefusedExact(fx, E, r, k);
    if Refused(E, r, k) { RefusedNotClean(E, r, k); } else { ErasedElsewhere(fx, E, r, k); }
  }

  lemma RefusedNotClean(E: seq<Region>, r: Region, k: nat)
    requires k < |E| && Refused(E, r, k)
    ensures !Clean(E, r, k)
  {
    assert SameSpan(E[k], r) ==> FirstSpan(E, r) <= k;
  }

  /** Erasing the program header of the first region of the span instead of region `k`'s own leaves
      the image of the list without region `k` exactly when the clear is clean. */
  lemma ErasedElsewhere(fx: Frame, E: seq<Region>, r: Region, k: nat)
    requires Fits(fx, E) && k < |E| && E[k].name == r.name && !Refused(E, r, k) && Fits(fx, Drop(E, k))
    requires |Render(fx, E).phdr| == |E| + 1 && |Render(fx, E).shdr| == |E| + 4
    requires EraseInBounds(Render(fx, E), k + 4, |r.name| + 1)
    ensures Erase(Render(fx, E), FirstSpan(E, r) + 1, k + 4, r.size, |r.name| + 1) == Render(fx, Drop(E, k))
            <==> Clean(E, r, k)
  {
    hide Render, Erase, RenderPhdr, Close, LowerPhdr, Refused, Clean;
    var p := FirstSpan(E, r);
    assert E[k].size == r.size && p < |E| by { NotRefused(E, r, k); }
    DropRenders(fx, E, k);
    EraseDiffersInPhdr(Render(fx, E), p + 1, k + 1, k + 4, r.size, |r.name| + 1);
    PhdrOfRender(fx, E);
    PhdrOfRender(fx, Drop(E, k));
    OtherPhdrExact(fx, E, r, k);
  }

  lemma NotRefused(E: seq<Region>, r: Region, k: nat)
    requires k < |E| && !Refused(E, r, k)
    ensures var p := FirstSpan(E, r);
            && p < |E| && E[k].virt == r.virt && E[k].size == r.size
            && (p < k ==> forall i | p <= i <= k :: E[i].size == 0)
            && (k < p ==> forall i | k <= i <= p :: E[i].size == 0)
  {
  }

  /** Which program header may be taken out in place of region `k`'s own. */
  lemma OtherPhdrExact(fx: Frame, E: seq<Region>, r: Region, k: nat)
    requires k < |E| && !Refused(E, r, k) && FirstSpan(E, r) < |E|
    ensures Close(RenderPhdr(fx, E), FirstSpan(E, r) + 1, LowerPhdr(r.size)) == RenderPhdr(fx, Drop(E, k))
            <==> Clean(E, r, k)
  {
    NotRefused(E, r, k);
    hide Refused, RenderPhdr, Close, LowerPhdr;
    var p := FirstSpan(E, r);
    DropPhdrs(fx, E, k);
    if p < k {
      EarlierPhdrExact(fx, E, p, k);
      assert E[p].phys == r.phys;
    } else if p > k {
      EarlierPhdrExact(fx, E, k, p);
      DropPhdrs(fx, E, p);
      assert !SameAddresses(E[k], E[p]);
    }
  }

  lemma PhdrOfRender(fx: Frame, E: seq<Region>)
    requires Fits(fx, E)
    ensures Render(fx, E).phdr == RenderPhdr(fx, E)
  {
  }

  lemma EraseDiffersInPhdr(e: Elf, p: nat, q: nat, s: nat, size: nat, strln: nat)
    requires p < |e.phdr| && q < |e.phdr| && s < |e.shdr| && EraseInBounds(e, s, strln)
    ensures Erase(e, p, s, size, strln) == Erase(e, q, s, size, strln).(phdr := Erase(e, p, s, size, strln).phdr)
    ensures Erase(e, p, s, size, strln).phdr == Close(e.phdr, p, LowerPhdr(size))
  {
  }

  /** Two payload offsets agree exactly when everything between them is empty. */
  lemma {:induction false} SizesBetween(fx: Frame, E: seq<Region>, p: nat, k: nat)
    requires p <= k <= |E|
    ensures PayloadAt(fx, E, p) == PayloadAt(fx, E, k) <==> forall i | p <= i < k :: E[i].size == 0
    decreases k
  {
    if p < k {
      SizesBetween(fx, E, p, k - 1);
      PrefixMonotone(Sizes(E), p, k - 1);
    }
  }
}
