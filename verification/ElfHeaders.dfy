/** The ELF header buffer as the driver keeps it: one allocation of words with the string table behind
    them, and four counters, all changed in place. Every operation is proved against its value in
    ElfMemory, wherever its stores land. */
module ElfHeaders {
  import opened Kernel
  import opened Sequences
  import opened Regions
  import opened ElfImage
  import opened ElfMemory

  class ElfHeader {
    const fx: Frame
    const mem: array<Word>
    const strtab: array<char>
    var phnum: nat
    var shnum: nat
    var strIdx: nat
    var elfOffset: nat

    /** At most one program header and four sections more than there are places: so far the counts get,
        and that is inside the allocation. */
    ghost predicate Valid()
      reads this, mem, strtab
    {
      && mem.Length == 15 * fx.max && strtab.Length == fx.StrtabSize()
      && phnum <= fx.max + 1 && shnum <= fx.max + 4 && strIdx <= strtab.Length
    }

    ghost function View(): Header
      reads this, mem, strtab
    {
      Header(fx.max, mem[..], strtab[..], phnum, shnum, strIdx, elfOffset)
    }

    // ---------------------------------------------------------------- words

    method LoadWord(a: nat) returns (w: Word)
      requires InAllocation(View(), a)
      ensures w == Load(View(), a)
    {
      if a < mem.Length {
        w := mem[a];
      } else {
        var at := 8 * (a - mem.Length);
        w := Halves(Number(strtab[at..at + 4]), Number(strtab[at + 4..at + 8]));
      }
    }

    method StoreWord(a: nat, w: Word)
      requires InAllocation(View(), a)
      modifies mem, strtab
      ensures View() == Store(old(View()), a, w)
    {
      if a < mem.Length {
        mem[a] := w;
      } else {
        StoreText(8 * (a - mem.Length), Bytes(Long(w)));
      }
    }

    /** Bytes stored in the string table. */
    method StoreText(at: nat, b: seq<char>)
      requires at + |b| <= strtab.Length
      modifies strtab
      ensures strtab[..] == WithBytes(old(strtab[..]), at, b)
    {
      for i := 0 to |b|
        invariant forall j | 0 <= j < strtab.Length ::
          strtab[j] == if at <= j < at + i then b[j - at] else old(strtab[j])
      {
        strtab[at + i] := b[i];
      }
    }

    // ---------------------------------------------------------------- building the header

    /** `msm_minidump_add_header`: the fixed headers and names, and nothing else. */
    constructor (frame: Frame)
      ensures Valid() && fx == frame && fresh(mem) && fresh(strtab)
      ensures View() == NewHeader(frame) && Depicts(View(), frame, [])
    {
      hide NewHeader, Depicts, Cleared, AlignUp4;
      fx := frame;
      mem := new Word[15 * frame.max](_ => ZERO_WORD);
      strtab := new char[frame.StrtabSize()](_ => '\0');
      phnum, shnum, strIdx := 1, 4, 1;
      elfOffset := frame.ElfhSize();
      new;
      NewHeaderDepicts(frame);
      ZeroesAreCleared(View(), frame);
      WriteFixed();
    }

    /** The string table, the table address and the banner: three names, three sections, a program
        header. */
    method WriteFixed()
      requires Valid() && View() == Cleared(fx)
      modifies this`strIdx, mem, strtab
      ensures Valid() && View() == NewHeader(fx)
    {
      hide PutNamed, PutPhdr;
      WriteNamed(1, FIXED_NAMES[1], FixedShdr(fx, 1));
      WriteNamed(2, FIXED_NAMES[2], FixedShdr(fx, 2));
      WriteNamed(3, FIXED_NAMES[3], FixedShdr(fx, 3));
      WritePhdr(0, BannerPhdr(fx));
    }

    method WriteNamed(i: nat, name: CString, s: Shdr)
      requires Valid() && i < fx.max + 4 && strIdx + |name| + 1 <= strtab.Length
      modifies this`strIdx, mem, strtab
      ensures Valid() && View() == PutNamed(old(View()), i, name, s)
      ensures strIdx == old(strIdx) + |name| + 1
    {
      hide PutShdr, PutName;
      var at := SetSectionName(name);
      WriteShdr(i, s);
    }

    /** `set_section_name`. */
    method SetSectionName(name: CString) returns (ret: nat)
      requires Valid() && strIdx + |name| + 1 <= strtab.Length
      modifies this`strIdx, strtab
      ensures Valid() && ret == old(strIdx) && View() == PutName(old(View()), name)
    {
      ret := strIdx;
      StoreText(ret, name + ['\0']);
      strIdx := ret + |name| + 1;
      assert strtab[..] == WithName(old(strtab[..]), ret, name);
    }

    /** The fields of section `i`, one after another. */
    method WriteShdr(i: nat, s: Shdr)
      requires Valid() && i < fx.max + 4
      modifies mem, strtab
      ensures View() == PutShdr(old(View()), i, s)
    {
      hide Store;
      var a := ShdrAt(i);
      StoreWord(a, Halves(s.name, s.stype));
      StoreWord(a + 1, Whole(s.flags));
      StoreWord(a + 2, Whole(s.addr));
      StoreWord(a + 3, Whole(s.offset));
      StoreWord(a + 4, Whole(s.size));
      StoreWord(a + 7, Whole(s.entsize));
    }

    method WritePhdr(i: nat, p: Phdr)
      requires Valid() && i <= fx.max
      modifies mem, strtab
      ensures View() == PutPhdr(old(View()), i, p)
    {
      hide Store;
      var a := PhdrAt(fx.max, i);
      StoreWord(a, Halves(p.ptype, p.flags));
      StoreWord(a + 1, Whole(p.offset));
      StoreWord(a + 2, Whole(p.vaddr));
      StoreWord(a + 3, Whole(p.paddr));
      StoreWord(a + 4, Whole(p.filesz));
      StoreWord(a + 5, Whole(p.memsz));
    }

    // ---------------------------------------------------------------- adding and updating

    /** `md_add_elf_header`. */
    method AddHeader(r: Region)
      requires Valid() && HasRoom(View(), r)
      modifies this, mem, strtab
      ensures Valid() && View() == AddHeaders(old(View()), r)
    {
      hide PutShdr, PutPhdr, PutName;
      var s, p := shnum, phnum;
      var at := SetSectionName(r.name);
      WriteShdr(s, ProgShdr(r, at, elfOffset));
      WritePhdr(p, LoadPhdr(r, elfOffset));
      shnum, phnum, elfOffset := s + 1, p + 1, elfOffset + r.size;
    }

    /** `md_update_elf_header`. */
    method UpdateHeader(entryno: nat, r: Region)
      requires Valid() && entryno < fx.max
      modifies mem, strtab
      ensures Valid() && View() == PatchHeaders(old(View()), entryno, r)
    {
      hide Store;
      StoreWord(ShdrAt(entryno + 4) + 2, Whole(r.virt));
      StoreWord(PhdrAt(fx.max, entryno + 1) + 2, Whole(r.virt));
      StoreWord(PhdrAt(fx.max, entryno + 1) + 3, Whole(r.phys));
    }

    // ---------------------------------------------------------------- clearing

    method ReadPhdr(i: nat) returns (p: Phdr)
      requires Valid() && i <= fx.max
      ensures p == PhdrOf(View(), i)
    {
      hide Load;
      var a := PhdrAt(fx.max, i);
      var kind := LoadWord(a);
      var offset := LoadWord(a + 1);
      var vaddr := LoadWord(a + 2);
      var paddr := LoadWord(a + 3);
      var filesz := LoadWord(a + 4);
      var memsz := LoadWord(a + 5);
      p := Phdr(Lo(kind), Long(offset), Long(vaddr), Long(paddr), Long(filesz), Long(memsz), Hi(kind));
    }

    method ReadShdr(i: nat) returns (s: Shdr)
      requires Valid() && i < fx.max + 4
      ensures s == ShdrOf(View(), i)
    {
      hide Load;
      var a := ShdrAt(i);
      var name := LoadWord(a);
      var flags := LoadWord(a + 1);
      var addr := LoadWord(a + 2);
      var offset := LoadWord(a + 3);
      var size := LoadWord(a + 4);
      var entsize := LoadWord(a + 7);
      s := Shdr(Lo(name), Hi(name), Long(flags), Long(addr), Long(offset), Long(size), Long(entsize));
    }

    method SearchPhdr(r: Region) returns (i: nat)
      requires Valid()
      ensures i == FindPhdr(Image(View()), r)
    {
      hide PhdrOf, ShdrOf;
      i := 0;
      while i < phnum
        invariant i <= phnum
        invariant forall j | 0 <= j < i :: !PhdrMatches(Image(View()).phdr[j], r)
      {
        var p := ReadPhdr(i);
        if p.paddr == r.phys && p.memsz == r.size { break; }
        i := i + 1;
      }
      assert i < phnum ==> PhdrMatches(Image(View()).phdr[i], r);
    }

    method SearchShdr(r: Region) returns (i: nat)
      requires Valid()
      ensures i == FindShdr(Image(View()), r)
    {
      hide PhdrOf, ShdrOf;
      i := 0;
      while i < shnum
        invariant i <= shnum
        invariant forall j | 0 <= j < i :: !ShdrMatches(Image(View()), Image(View()).shdr[j], r)
      {
        var s := ReadShdr(i);
        // elf_lookup_string gives no string for an index past the table
        if s.name <= strIdx && CStr(strtab[..], s.name) == r.name {
          if s.addr == r.virt && s.size == r.size { break; }
        }
        i := i + 1;
      }
      assert i < shnum ==> ShdrMatches(Image(View()), Image(View()).shdr[i], r);
    }

    /** `msm_minidump_clear_headers`. */
    method ClearHeaders(r: Region) returns (ret: int)
      requires Valid() && ClearInBounds(Image(View()), r)
      modifies this, mem, strtab
      ensures Valid() && (View(), ret) == ClearMemory(old(View()), r)
    {
      hide PhdrOf, ShdrOf, EraseHeaders;
      var pidx := SearchPhdr(r);
      if pidx == phnum { return -EINVAL; }
      var shidx := SearchShdr(r);
      if shidx == shnum { return -EINVAL; }
      var p := ReadPhdr(pidx);
      var s := ReadShdr(shidx);
      if s.offset != p.offset { return -EINVAL; }
      NameErased(Image(View()), shidx, r);
      var strln := |CStr(strtab[..], s.name)| + 1;
      EraseAt(pidx, shidx, s.name, r.size, strln);
      ret := 0;
    }

    /** The clearing proper, once both headers are found and agree. */
    method EraseAt(pidx: nat, shidx: nat, start: nat, size: nat, strln: nat)
      requires Valid() && pidx < phnum && shidx < shnum && EraseInBounds(Image(View()), shidx, strln)
      requires start == ShdrOf(View(), shidx).name
      modifies this, mem, strtab
      ensures Valid() && View() == EraseHeaders(old(View()), pidx, shidx, size, strln)
    {
      hide MovePhdrs, MoveShdrs, ZeroWords, PhdrOf, ShdrOf, Moved;
      MoveDown(strtab, start, start + strln, strIdx - start);
      strIdx := strIdx - strln;
      RemovePhdr(pidx, size);
      RemoveShdr(shidx, size, strln);
      elfOffset := Minus64(elfOffset, size);
    }

    method RemovePhdr(pidx: nat, size: nat)
      requires Valid() && pidx < phnum
      modifies this`phnum, mem, strtab
      ensures Valid() && View() == ClosePhdrs(old(View()), pidx, size)
    {
      hide MovePhdr, ZeroWords;
      var i := pidx;
      while i < phnum - 1
        invariant pidx <= i <= phnum - 1 && Valid() && phnum == old(phnum)
        invariant MovePhdrs(View(), i, phnum - 1, size) == MovePhdrs(old(View()), pidx, old(phnum) - 1, size)
      {
        ShiftPhdr(i, size);
        i := i + 1;
      }
      Zero(PhdrAt(fx.max, i), 7);
      phnum := phnum - 1;
    }

    method ShiftPhdr(i: nat, size: nat)
      requires Valid() && i + 1 <= fx.max
      modifies mem, strtab
      ensures View() == MovePhdr(old(View()), i, size)
    {
      hide CopyWords, Load, Store;
      var a := PhdrAt(fx.max, i);
      Copy(a, PhdrAt(fx.max, i + 1), 7);
      var offset := LoadWord(a + 1);
      StoreWord(a + 1, Whole(Minus64(Long(offset), size)));
    }

    method RemoveShdr(shidx: nat, size: nat, strln: nat)
      requires Valid() && shidx < shnum
      modifies this`shnum, mem, strtab
      ensures Valid() && View() == CloseShdrs(old(View()), shidx, size, strln)
    {
      hide MoveShdr, ZeroWords;
      var i := shidx;
      while i < shnum - 1
        invariant shidx <= i <= shnum - 1 && Valid() && shnum == old(shnum)
        invariant MoveShdrs(View(), i, shnum - 1, size, strln)
                  == MoveShdrs(old(View()), shidx, old(shnum) - 1, size, strln)
      {
        ShiftShdr(i, size, strln);
        i := i + 1;
      }
      Zero(ShdrAt(i), 8);
      shnum := shnum - 1;
    }

    method ShiftShdr(i: nat, size: nat, strln: nat)
      requires Valid() && i + 1 < fx.max + 4
      modifies mem, strtab
      ensures View() == MoveShdr(old(View()), i, size, strln)
    {
      hide CopyWords, Load, Store;
      var a := ShdrAt(i);
      Copy(a, ShdrAt(i + 1), 8);
      var offset := LoadWord(a + 3);
      StoreWord(a + 3, Whole(Minus64(Long(offset), size)));
      var name := LoadWord(a);
      StoreWord(a, Halves(Minus32(Lo(name), strln), Hi(name)));
    }

    /** memcpy, word by word. */
    method Copy(to: nat, from: nat, n: nat)
      requires n > 0 ==> InAllocation(View(), to + n - 1) && InAllocation(View(), from + n - 1)
      modifies mem, strtab
      ensures View() == CopyWords(old(View()), to, from, n)
    {
      hide Load, Store;
      for i := 0 to n
        invariant View() == CopyWords(old(View()), to, from, i)
      {
        var w := LoadWord(from + i);
        StoreWord(to + i, w);
      }
    }

    /** memset to zero. */
    method Zero(at: nat, n: nat)
      requires n > 0 ==> InAllocation(View(), at + n - 1)
      modifies mem, strtab
      ensures View() == ZeroWords(old(View()), at, n)
    {
      hide Store;
      for i := 0 to n
        invariant View() == ZeroWords(old(View()), at, i)
      {
        StoreWord(at + i, ZERO_WORD);
      }
    }
  }

  /** What kzalloc and the first assignments of the header builder leave. */
  lemma ZeroesAreCleared(h: Header, fx: Frame)
    requires |h.mem| == 15 * fx.max && |h.strtab| == fx.StrtabSize() && h.max == fx.max
    requires h.phnum == 1 && h.shnum == 4 && h.strIdx == 1 && h.offset == fx.ElfhSize()
    requires forall b | 0 <= b < |h.mem| :: h.mem[b] == ZERO_WORD
    requires forall b | 0 <= b < |h.strtab| :: h.strtab[b] == '\0'
    ensures h == Cleared(fx)
  {
    assert h.mem == Cleared(fx).mem;
    assert h.strtab == Cleared(fx).strtab;
  }

  /** The name a clear erases is the requested one. */
  lemma NameErased(e: Elf, s: nat, r: Region)
    requires s < |e.shdr| && ShdrMatches(e, e.shdr[s], r)
    ensures e.shdr[s].name <= |e.strtab| && |CStr(e.strtab, e.shdr[s].name)| == |r.name|
  {
  }
}
