/** Registering a range of vmalloc memory page by page, and the check of the registry's room made
    before it. */
module VmapPieces {
  import opened Kernel
  import opened Regions
  import opened ElfImage
  import opened ElfMemory
  import opened Registry
  import opened RegistryLaws
  import opened TableRuns
  import opened MinidumpDriver

  /** What `entry_name` holds besides its NUL. */
  const ENTRY_NAME: nat := 11
  /** Piece numbers of ten digits or fewer; a C `int` is always below this. */
  const TEN_DIGITS: nat := 10_000_000_000

  // ------------------------------------------------------------------ names

  function Digit(d: nat): char
    requires d < 10
  {
    ['0', '1', '2', '3', '4', '5', '6', '7', '8', '9'][d]
  }

  predicate IsDigit(c: char) { '0' <= c <= '9' }

  /** `%d`. */
  function Decimal(i: nat): (s: string)
    ensures s != [] && forall k | 0 <= k < |s| :: IsDigit(s[k])
  {
    if i < 10 then [Digit(i)] else Decimal(i / 10) + [Digit(i % 10)]
  }

  /** `snprintf(entry_name, sizeof(entry_name), "%d_%s", i, name)`. */
  function PieceName(i: nat, name: CString): (s: CString)
    ensures |s| <= ENTRY_NAME
  {
    var s := Decimal(i) + "_" + name;
    if |s| <= ENTRY_NAME then s else s[..ENTRY_NAME]
  }

  /** What a string of digits says. */
  function Numeral(s: string): int {
    if s == [] then 0 else 10 * Numeral(s[..|s| - 1]) + (s[|s| - 1] as int - '0' as int)
  }

  /** The digits say the number, without a leading zero. */
  lemma {:induction false} DecimalSays(i: nat)
    ensures Numeral(Decimal(i)) == i
    ensures i > 0 ==> Decimal(i)[0] != '0'
  {
    if i >= 10 {
      DecimalSays(i / 10);
      assert Decimal(i)[..|Decimal(i)| - 1] == Decimal(i / 10);
    } else {
      assert Decimal(i)[..0] == [];
    }
  }

  function Power(k: nat): nat { if k == 0 then 1 else 10 * Power(k - 1) }

  lemma {:induction false} DecimalLength(i: nat, k: nat)
    requires k > 0 && i < Power(k)
    ensures |Decimal(i)| <= k
  {
    if i >= 10 { DecimalLength(i / 10, k - 1); }
  }

  /** What is left of a module's name behind `d` digits and the underscore. */
  function Cut(name: CString, d: nat): CString {
    if d + 1 + |name| <= 11 then name else if d < 10 then name[..10 - d] else ""
  }

  /** Two pieces, of one module or of two, have the same name if and only if they have the same number and
      what its digits leave of their modules' names is the same. */
  lemma NamesMeet(i: nat, a: CString, j: nat, b: CString)
    requires i < TEN_DIGITS && j < TEN_DIGITS
    ensures PieceName(i, a) == PieceName(j, b) <==> i == j && Cut(a, |Decimal(i)|) == Cut(b, |Decimal(i)|)
  {
    NameParts(i, a);
    NameParts(j, b);
    var d, e, s := Decimal(i), Decimal(j), PieceName(i, a);
    hide PieceName, Cut, Decimal;
    if s == PieceName(j, b) {
      DigitsEnd(d, e, s);
      DigitsEnd(e, d, s);
      DecimalSays(i);
      DecimalSays(j);
      assert Cut(a, |d|) == s[|d| + 1..] == Cut(b, |d|);
    }
  }

  /** Digits, an underscore, and the rest of the module's name. */
  lemma NameParts(i: nat, name: CString)
    requires i < TEN_DIGITS
    ensures var d, s := Decimal(i), PieceName(i, name);
            && |d| < |s| <= 11 && (forall k | 0 <= k < |d| :: IsDigit(d[k]))
            && s[..|d|] == d && s[|d|] == '_' && s[|d| + 1..] == Cut(name, |d|) && s == d + ['_'] + Cut(name, |d|)
  {
    assert Power(10) == TEN_DIGITS;
    DecimalLength(i, 10);
    var d := Decimal(i);
    assert PieceName(i, name) == d + ['_'] + Cut(name, |d|);
  }

  /** Different pieces of one module have different names, truncated or not. */
  lemma NamesDiffer(i: nat, j: nat, name: CString)
    requires i < TEN_DIGITS && j < TEN_DIGITS && PieceName(i, name) == PieceName(j, name)
    ensures i == j
  {
    NamesMeet(i, name, j, name);
  }

  /** Digits go up to the first underscore. */
  lemma DigitsEnd(d: string, e: string, s: string)
    requires |d| < |s| && |e| < |s| && s[..|d|] == d && s[..|e|] == e && s[|e|] == '_'
    requires forall k | 0 <= k < |d| :: IsDigit(d[k])
    ensures |d| <= |e|
  {
    assert forall k | 0 <= k < |d| :: s[k] == d[k];
  }

  // ------------------------------------------------------------------ pieces

  function Page(addr: nat): nat { addr / PAGE_SIZE }

  /** `offset_in_page`. */
  function Offset(addr: nat): nat { addr % PAGE_SIZE }

  function PieceSize(addr: nat, len: nat): (n: nat)
    ensures n <= len && (n == 0 <==> len == 0)
  {
    var left := PAGE_SIZE - Offset(addr);
    if len < left then len else left
  }

  /** The records for `len` bytes from `addr`, the first numbered `i`; `pageOf` gives the physical
      address of a page. */
  function Pieces(i: nat, addr: nat, len: nat, name: CString, pageOf: nat -> nat): seq<Region>
    decreases len
  {
    if len == 0 then []
    else
      var n := PieceSize(addr, len);
      [Region(PieceName(i, name), 0, addr, pageOf(Page(addr)), n)]
      + Pieces(i + 1, addr + n, len - n, name, pageOf)
  }

  lemma Quotient(x: int, q: int, r: nat)
    requires x == PAGE_SIZE * q + r && r < PAGE_SIZE
    ensures x / PAGE_SIZE == q && x % PAGE_SIZE == r
  {
  }

  lemma PageMultiple(x: nat)
    ensures x == PAGE_SIZE * Page(x) + Offset(x) && x % 4 == Offset(x) % 4
  {
    SameWord(x, 1024 * Page(x), Offset(x));
  }

  lemma SameWord(x: nat, m: nat, r: nat)
    requires x == 4 * m + r
    ensures x % 4 == r % 4
  {
  }

  /** A piece stays in its page, and unless it is the last one fills it. */
  lemma PieceInPage(addr: nat, len: nat)
    requires len > 0
    ensures var n := PieceSize(addr, len);
            Page(addr + n - 1) == Page(addr) && (n < len ==> Offset(addr + n) == 0 && Page(addr + n) == Page(addr) + 1)
  {
    var n, q, r := PieceSize(addr, len), Page(addr), Offset(addr);
    PageMultiple(addr);
    Quotient(addr + n - 1, q, r + n - 1);
    if n < len { Quotient(addr + n, q + 1, 0); }
  }

  lemma PieceInWords(addr: nat, len: nat)
    requires addr % 4 == 0 && len % 4 == 0
    ensures var n := PieceSize(addr, len); n % 4 == 0 && (addr + n) % 4 == 0 && (len - n) % 4 == 0
  {
    PageMultiple(addr);
    hide Offset;
  }

  function EndOf(r: Region): nat { r.virt + r.size }

  /** Consecutive nonempty pieces from `addr` to `end`, each inside one page. */
  predicate Tile(rs: seq<Region>, addr: nat, end: nat) {
    && (if rs == [] then addr == end else rs[0].virt == addr && EndOf(rs[|rs| - 1]) == end)
    && (forall k | 0 <= k < |rs| - 1 :: EndOf(rs[k]) == rs[k + 1].virt)
    && (forall k | 0 <= k < |rs| :: rs[k].size > 0 && Page(rs[k].virt) == Page(EndOf(rs[k]) - 1))
  }

  lemma TileCons(r: Region, rs: seq<Region>, end: nat)
    requires Tile(rs, EndOf(r), end) && r.size > 0 && Page(r.virt) == Page(EndOf(r) - 1)
    ensures Tile([r] + rs, r.virt, end)
  {
  }

  /** Any range is split into consecutive pieces that cover it exactly and never cross a page
      boundary. */
  lemma {:induction false} PiecesTile(i: nat, addr: nat, len: nat, name: CString, pageOf: nat -> nat)
    ensures Tile(Pieces(i, addr, len, name, pageOf), addr, addr + len)
    decreases len
  {
    if len > 0 {
      hide PieceSize, PieceName, Tile, Page, Offset;
      PieceInPage(addr, len);
      var n := PieceSize(addr, len);
      var r := Region(PieceName(i, name), 0, addr, pageOf(Page(addr)), n);
      var rest := Pieces(i + 1, addr + n, len - n, name, pageOf);
      assert Pieces(i, addr, len, name, pageOf) == [r] + rest;
      PiecesTile(i + 1, addr + n, len - n, name, pageOf);
      TileCons(r, rest, addr + len);
    } else {
      assert Pieces(i, addr, len, name, pageOf) == [];
    }
  }

  /** There is one piece for each page touched. */
  lemma {:induction false} PiecesCount(i: nat, addr: nat, len: nat, name: CString, pageOf: nat -> nat)
    ensures |Pieces(i, addr, len, name, pageOf)| == if len == 0 then 0 else Page(addr + len - 1) - Page(addr) + 1
    decreases len
  {
    if len > 0 {
      hide PieceSize, PieceName, Page, Offset;
      PieceInPage(addr, len);
      var n := PieceSize(addr, len);
      assert |Pieces(i, addr, len, name, pageOf)| == 1 + |Pieces(i + 1, addr + n, len - n, name, pageOf)|;
      hide Pieces;
      PiecesCount(i + 1, addr + n, len - n, name, pageOf);
      assert addr + n + (len - n) == addr + len;
    }
  }

  /** Piece `k` is numbered and named in turn. Every piece behind the first starts on a page
      boundary, and there its physical address is that of its first byte; for the first piece it
      is so exactly when the range starts on one. */
  lemma {:induction false} PieceAt(i: nat, addr: nat, len: nat, name: CString, pageOf: nat -> nat, k: nat)
    requires k < |Pieces(i, addr, len, name, pageOf)|
    ensures var r := Pieces(i, addr, len, name, pageOf)[k];
            && r.name == PieceName(i + k, name)
            && (r.phys == pageOf(Page(r.virt)) + Offset(r.virt) <==> k > 0 || Offset(addr) == 0)
            && r.virt >= addr
    decreases len
  {
    hide PieceSize, PieceName, Page, Offset;
    PieceInPage(addr, len);
    var n := PieceSize(addr, len);
    if k > 0 { PieceAt(i + 1, addr + n, len - n, name, pageOf, k - 1); }
  }

  /** Word-aligned ranges are cut into word-aligned pieces. */
  lemma {:induction false} PieceAligned(i: nat, addr: nat, len: nat, name: CString, pageOf: nat -> nat, k: nat)
    requires k < |Pieces(i, addr, len, name, pageOf)| && addr % 4 == 0 && len % 4 == 0
    ensures Pieces(i, addr, len, name, pageOf)[k].size % 4 == 0
    decreases len
  {
    hide PieceSize, PieceName, Page, Offset;
    PieceInWords(addr, len);
    var n := PieceSize(addr, len);
    if k > 0 { PieceAligned(i + 1, addr + n, len - n, name, pageOf, k - 1); }
  }

  // ------------------------------------------------------------------ against the registry

  function AddAll(max: nat, live: seq<Region>, rs: seq<Region>): seq<Region>
    decreases |rs|
  {
    if rs == [] then live else AddAll(max, Added(max, live, rs[0]), rs[1..])
  }

  lemma FirstIsNew(live: seq<Region>, rs: seq<Region>)
    requires DistinctNames(live + rs) && rs != []
    ensures OnlyAt(live, rs[0].name, |live|) && (live + [rs[0]]) + rs[1..] == live + rs
  {
    var both := live + rs;
    assert both[|live|] == rs[0];
    forall j | 0 <= j < |live| ensures live[j].name != rs[0].name { assert both[j] == live[j]; }
  }

  /** Of any valid regions with new names the registry takes exactly as many as fit, in order. */
  lemma {:induction false} AddAllExact(max: nat, live: seq<Region>, rs: seq<Region>)
    requires |live| < max && AllValid(rs) && DistinctNames(live + rs)
    ensures AddAll(max, live, rs) == live + rs[..if |rs| < max - 1 - |live| then |rs| else max - 1 - |live|]
    decreases |rs|
  {
    if rs != [] {
      hide ValidRegion;
      FirstIsNew(live, rs);
      hide DistinctNames, OnlyAt;
      if |live| + 1 < max {
        AddAllExact(max, live + [rs[0]], rs[1..]);
      } else {
        Full(max, live, rs);
      }
    }
  }

  lemma {:induction false} Full(max: nat, live: seq<Region>, rs: seq<Region>)
    requires |live| + 1 >= max
    ensures AddAll(max, live, rs) == live
    decreases |rs|
  {
    if rs != [] { Full(max, live, rs[1..]); }
  }

  /** No live region has the name of a piece. */
  predicate NewNames(live: seq<Region>, n: nat, name: CString) {
    forall k, j | 0 <= k < n && 0 <= j < |live| :: live[j].name != PieceName(k, name)
  }

  /** Whole pages, and names that are new. */
  predicate PageRange(max: nat, live: seq<Region>, start: nat, end: nat, name: CString) {
    && |live| < max && DistinctNames(live)
    && 0 < start <= end && start % PAGE_SIZE == 0 && end % PAGE_SIZE == 0 && end - start < TEN_DIGITS
    && NewNames(live, (end - start) / PAGE_SIZE, name)
  }

  /** For a page-aligned range the check made beforehand is exactly tight: it passes if and only if
      no piece is refused. */
  lemma GuardTight(max: nat, live: seq<Region>, start: nat, end: nat, name: CString, pageOf: nat -> nat)
    requires PageRange(max, live, start, end, name)
    ensures var rs := Pieces(0, start, end - start, name, pageOf);
            (end - start) / PAGE_SIZE < max - |live| <==> AddAll(max, live, rs) == live + rs
  {
    hide Pieces, AddAll, AllValid, DistinctNames, Tile, NewNames;
    var rs := Pieces(0, start, end - start, name, pageOf);
    PiecesCount(0, start, end - start, name, pageOf);
    AlignedCount(start, end);
    PiecesNew(live, start, end - start, name, pageOf);
    AddAllExact(max, live, rs);
    assert rs[..|rs|] == rs;
  }

  lemma AlignedCount(start: nat, end: nat)
    requires start <= end && start % PAGE_SIZE == 0 && end % PAGE_SIZE == 0
    ensures start % 4 == 0 && (end - start) % 4 == 0 && (end - start) / PAGE_SIZE <= end - start
    ensures (end - start) / PAGE_SIZE == if start == end then 0 else Page(end - 1) - Page(start) + 1
  {
    PageMultiple(start);
    PageMultiple(end);
    CountPages(start, end, Page(start), Page(end));
  }

  lemma CountPages(start: nat, end: nat, a: nat, b: nat)
    requires start <= end && start == PAGE_SIZE * a && end == PAGE_SIZE * b
    ensures (end - start) % 4 == 0 && (end - start) / PAGE_SIZE == b - a <= end - start
    ensures start < end ==> Page(end - 1) == b - 1
  {
    assert a <= b;
    SameWord(end - start, 1024 * (b - a), 0);
    Quotient(end - start, b - a, 0);
    if start < end { Quotient(end - 1, b - 1, PAGE_SIZE - 1); }
  }

  lemma PiecesNew(live: seq<Region>, start: nat, len: nat, name: CString, pageOf: nat -> nat)
    requires 0 < start && start % 4 == 0 && len % 4 == 0 && len < TEN_DIGITS && DistinctNames(live)
    requires NewNames(live, |Pieces(0, start, len, name, pageOf)|, name)
    requires |Pieces(0, start, len, name, pageOf)| <= len
    ensures var rs := Pieces(0, start, len, name, pageOf); AllValid(rs) && DistinctNames(live + rs)
  {
    hide Pieces, PieceName, Offset, Page;
    var rs := Pieces(0, start, len, name, pageOf);
    forall k | 0 <= k < |rs| ensures ValidRegion(rs[k]) && rs[k].name == PieceName(k, name) {
      PieceAt(0, start, len, name, pageOf, k);
      PieceAligned(0, start, len, name, pageOf, k);
    }
    var both := live + rs;
    forall i, j | 0 <= i < j < |both| ensures both[i].name != both[j].name {
      if j < |live| {
        assert both[i] == live[i] && both[j] == live[j];
      } else if i < |live| {
        assert both[i] == live[i] && both[j] == rs[j - |live|];
      } else {
        assert both[i] == rs[i - |live|] && both[j] == rs[j - |live|];
        if both[i].name == both[j].name { NamesDiffer(i - |live|, j - |live|, name); }
      }
    }
  }

  lemma {:induction false} AddAllAtMost(max: nat, live: seq<Region>, rs: seq<Region>)
    ensures |AddAll(max, live, rs)| <= |live| + |rs|
    decreases |rs|
  {
    if rs != [] { AddAllAtMost(max, Added(max, live, rs[0]), rs[1..]); }
  }

  /** A region whose name is taken already is not added. */
  lemma {:induction false} TakenNameRefused(max: nat, live: seq<Region>, rs: seq<Region>, j: nat, k: nat)
    requires j < |live| && k < |rs| && live[j].name == rs[k].name
    ensures |AddAll(max, live, rs)| < |live| + |rs|
    decreases |rs|
  {
    var next := Added(max, live, rs[0]);
    if k == 0 {
      AddAllAtMost(max, next, rs[1..]);
    } else {
      assert next[j] == live[j] && rs[1..][k - 1] == rs[k];
      TakenNameRefused(max, next, rs[1..], j, k - 1);
    }
  }

  function PagesOf(start: nat, end: nat): nat
    requires start <= end
  {
    (end - start) / PAGE_SIZE
  }

  /** The names of two modules differ in what each common piece number leaves of them. */
  predicate NamesApart(a: CString, b: CString, n: nat) {
    forall k {:trigger Decimal(k)} | 0 <= k < n :: Cut(a, |Decimal(k)|) != Cut(b, |Decimal(k)|)
  }

  /** The pieces of two modules that fit the registry together are all registered if and only if their names
      differ so. */
  lemma TwoModules(max: nat, live: seq<Region>, start: nat, end: nat, a: CString, start2: nat, end2: nat, b: CString,
                   pageOf: nat -> nat)
    requires PageRange(max, live, start, end, a) && PageRange(max, live, start2, end2, b)
    requires |live| + PagesOf(start, end) + PagesOf(start2, end2) < max
    ensures var x, y := Pieces(0, start, end - start, a, pageOf), Pieces(0, start2, end2 - start2, b, pageOf);
            var common := if PagesOf(start, end) < PagesOf(start2, end2) then PagesOf(start, end)
                          else PagesOf(start2, end2);
            AddAll(max, AddAll(max, live, x), y) == live + x + y <==> NamesApart(a, b, common)
  {
    var x, y := Pieces(0, start, end - start, a, pageOf), Pieces(0, start2, end2 - start2, b, pageOf);
    PieceNames(start, end, a, pageOf);
    PieceNames(start2, end2, b, pageOf);
    hide *;
    AllFit(max, live, start, end, a, pageOf);
    var common := if |x| < |y| then |x| else |y|;
    if NamesApart(a, b, common) {
      RangeStays(max, live, start, end, a, start2, end2, b, pageOf);
      AllFit(max, live + x, start2, end2, b, pageOf);
    } else {
      SharedRefused(max, live, x, y, a, b, common);
    }
  }

  lemma AllFit(max: nat, live: seq<Region>, start: nat, end: nat, name: CString, pageOf: nat -> nat)
    requires PageRange(max, live, start, end, name) && |live| + PagesOf(start, end) < max
    ensures AddAll(max, live, Pieces(0, start, end - start, name, pageOf)) ==
            live + Pieces(0, start, end - start, name, pageOf)
  {
    hide Pieces, AddAll, DistinctNames, NewNames;
    GuardTight(max, live, start, end, name, pageOf);
  }

  /** With the pieces of one module registered, those of the other are new still. */
  lemma RangeStays(max: nat, live: seq<Region>, start: nat, end: nat, a: CString, start2: nat, end2: nat, b: CString,
                   pageOf: nat -> nat)
    requires PageRange(max, live, start, end, a) && PageRange(max, live, start2, end2, b)
    requires |live| + PagesOf(start, end) + PagesOf(start2, end2) < max
    requires var m, n := PagesOf(start, end), PagesOf(start2, end2); NamesApart(a, b, if m < n then m else n)
    ensures var x := Pieces(0, start, end - start, a, pageOf);
            PageRange(max, live + x, start2, end2, b) && |live + x| + PagesOf(start2, end2) < max
  {
    hide Pieces, DistinctNames, NewNames, NamesApart, AllValid;
    var x := Pieces(0, start, end - start, a, pageOf);
    PieceNames(start, end, a, pageOf);
    AlignedCount(start, end);
    AlignedCount(start2, end2);
    PiecesNew(live, start, end - start, a, pageOf);
    var m, n := PagesOf(start, end), PagesOf(start2, end2);
    StillNew(live, x, a, n, b, if m < n then m else n);
  }

  lemma SharedRefused(max: nat, live: seq<Region>, x: seq<Region>, y: seq<Region>, a: CString, b: CString, n: nat)
    requires !NamesApart(a, b, n) && n <= |x| && n <= |y| && n < TEN_DIGITS
    requires forall k | 0 <= k < |x| :: x[k].name == PieceName(k, a)
    requires forall k | 0 <= k < |y| :: y[k].name == PieceName(k, b)
    ensures AddAll(max, live + x, y) != live + x + y
  {
    var k := SharedName(a, b, n);
    hide PieceName, AddAll, NamesApart, Cut, Decimal;
    NamesMeet(k, a, k, b);
    assert (live + x)[|live| + k].name == y[k].name;
    TakenNameRefused(max, live + x, y, |live| + k, k);
  }

  lemma SharedName(a: CString, b: CString, n: nat) returns (k: nat)
    requires !NamesApart(a, b, n)
    ensures k < n && Cut(a, |Decimal(k)|) == Cut(b, |Decimal(k)|)
  {
    k :| 0 <= k < n && Cut(a, |Decimal(k)|) == Cut(b, |Decimal(k)|);
  }

  /** The pieces of a page-aligned range are named in turn. */
  lemma PieceNames(start: nat, end: nat, name: CString, pageOf: nat -> nat)
    requires start <= end && start % PAGE_SIZE == 0 && end % PAGE_SIZE == 0
    ensures var rs := Pieces(0, start, end - start, name, pageOf);
            |rs| == PagesOf(start, end) <= end - start && forall k | 0 <= k < |rs| :: rs[k].name == PieceName(k, name)
  {
    hide Pieces, PieceName;
    var rs := Pieces(0, start, end - start, name, pageOf);
    PiecesCount(0, start, end - start, name, pageOf);
    AlignedCount(start, end);
    forall k | 0 <= k < |rs| ensures rs[k].name == PieceName(k, name) {
      PieceAt(0, start, end - start, name, pageOf, k);
    }
  }

  lemma StillNew(live: seq<Region>, x: seq<Region>, a: CString, n: nat, b: CString, common: nat)
    requires NewNames(live, n, b) && NamesApart(a, b, common) && |x| < TEN_DIGITS && n < TEN_DIGITS
    requires common == if |x| < n then |x| else n
    requires forall k | 0 <= k < |x| :: x[k].name == PieceName(k, a)
    ensures NewNames(live + x, n, b)
  {
    hide PieceName, Cut, Decimal;
    forall k, j | 0 <= k < n && 0 <= j < |live + x| ensures (live + x)[j].name != PieceName(k, b) {
      if j >= |live| { NamesMeet(j - |live|, a, k, b); }
    }
  }

  /** `register_vmap_mem`. The answers of the registry are ignored. */
  method RegisterVmap(md: Minidump, name: CString, addr: nat, len: nat, pageOf: nat -> nat, ghost live: seq<Region>)
    requires md.Valid() && Settled(md.View(), live, 0)
    modifies md, md.entry, md.regions, md.elf, md.elf.mem, md.elf.strtab
    ensures md.Valid() && Settled(md.View(), AddAll(md.fx.max, live, Pieces(0, addr, len, name, pageOf)), 0)
  {
    hide Settled, AddRegion, AddInBounds, PieceName, PieceSize, Added, Pieces, AddAll;
    var dumpAddr: nat, dumpLen: nat, i: nat := addr, len, 0;
    ghost var now := live;
    while dumpLen != 0
      invariant md.Valid() && Settled(md.View(), now, 0)
      invariant AddAll(md.fx.max, now, Pieces(i, dumpAddr, dumpLen, name, pageOf))
                == AddAll(md.fx.max, live, Pieces(0, addr, len, name, pageOf))
      decreases dumpLen
    {
      var toDump := PieceSize(dumpAddr, dumpLen);
      var r := Region(PieceName(i, name), 0, dumpAddr, pageOf(Page(dumpAddr)), toDump);
      SettledNext(md.View(), now, r);
      AddNext(md.fx.max, now, i, dumpAddr, dumpLen, name, pageOf);
      var ret := md.AddRegion(r);
      now := Added(md.fx.max, now, r);
      dumpAddr := dumpAddr + toDump;
      dumpLen := dumpLen - toDump;
      i := i + 1;
    }
    NothingAdded(md.fx.max, now, i, dumpAddr, name, pageOf);
  }

  lemma NothingAdded(max: nat, live: seq<Region>, i: nat, addr: nat, name: CString, pageOf: nat -> nat)
    ensures AddAll(max, live, Pieces(i, addr, 0, name, pageOf)) == live
  {
  }

  lemma AddNext(max: nat, live: seq<Region>, i: nat, addr: nat, len: nat, name: CString, pageOf: nat -> nat)
    requires len > 0
    ensures var n := PieceSize(addr, len);
            var r := Region(PieceName(i, name), 0, addr, pageOf(Page(addr)), n);
            AddAll(max, live, Pieces(i, addr, len, name, pageOf))
            == AddAll(max, Added(max, live, r), Pieces(i + 1, addr + n, len - n, name, pageOf))
  {
  }

  lemma SettledNext(s: Smem, live: seq<Region>, r: Region)
    requires Settled(s, live, 0)
    ensures AddInBounds(s, r) && Settled(AddRegion(s, r).0, Added(s.fx.max, live, r), 0) && AddRegion(s, r).0.fx == s.fx
  {
    hide Settled;
    AddKeepsSettled(s, live, 0, r);
  }

  lemma SettledEntry(s: Smem, live: seq<Region>)
    requires Settled(s, live, 0)
    ensures s.entry == live && |live| < s.fx.max
  {
  }

  lemma SettledExact(s: Smem, live: seq<Region>)
    requires Settled(s, live, 0)
    ensures Canon(s, live, 0) <==> |live| + 4 <= s.fx.max
  {
    if Canon(s, live, 0) { CanonOrderly(s, live, 0); }
    hide Tables, Counted, Depicts;
  }

  /** The key-module part of `md_module_process`: the pieces of a range that passes the check are
      registered in turn. The check does not know of the layout: the ELF image is that of the regions
      registered if and only if there are at most MAX_NUM_ENTRIES - 4. */
  method ProcessModule(md: Minidump, name: CString, start: nat, end: nat, pageOf: nat -> nat, ghost live: seq<Region>)
    returns (ghost now: seq<Region>)
    requires md.Valid() && Settled(md.View(), live, 0) && start <= end
    modifies md, md.entry, md.regions, md.elf, md.elf.mem, md.elf.strtab
    ensures md.Valid() && Settled(md.View(), now, 0) && (Canon(md.View(), now, 0) <==> |now| + 4 <= md.fx.max)
    ensures now == if (end - start) / PAGE_SIZE < md.fx.max - |live|
                   then AddAll(md.fx.max, live, Pieces(0, start, end - start, name, pageOf)) else live
    ensures PageRange(md.fx.max, live, start, end, name) ==>
              now == if (end - start) / PAGE_SIZE < md.fx.max - |live|
                     then live + Pieces(0, start, end - start, name, pageOf) else live
  {
    hide Settled, Canon, Pieces, AddAll, DistinctNames, NewNames;
    SettledEntry(md.View(), live);
    now := live;
    if PageRange(md.fx.max, live, start, end, name) { GuardTight(md.fx.max, live, start, end, name, pageOf); }
    var available := md.AvailableRegions();
    if (end - start) / PAGE_SIZE < available {
      RegisterVmap(md, name, start, end - start, pageOf, live);
      now := AddAll(md.fx.max, live, Pieces(0, start, end - start, name, pageOf));
    }
    SettledExact(md.View(), now);
  }
}
