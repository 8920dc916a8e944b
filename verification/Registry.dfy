/** The SMEM back end of the registry as a value: what add, update and remove do to the local
    table, the bootloader's table and the ELF image, failures included. */
module Registry {
  import opened Kernel
  import opened Sequences
  import opened Regions
  import opened ElfImage
  import opened ElfMemory

  /** `entry` holds the `num_regions` live cells; `regions` is the whole bootloader table, of
      which the first `count` cells count. */
  datatype Smem = Smem(fx: Frame, entry: seq<Region>, regions: seq<SsRegion>, count: nat, tocInit: bool, elf: Header,
      first: int)

  function EntryNum(entry: seq<Region>, name: CString): (i: nat)
    ensures i <= |entry|
    ensures i < |entry| ==> entry[i].name == name
    ensures forall j | 0 <= j < i :: entry[j].name != name
  {
    First(entry, (q: Region) => q.name == name)
  }

  /** `md_region_num` over the first `n` cells: the last cell of that name, or -1, and the
      highest sequence number met. */
  function RegionNum(t: seq<SsRegion>, name: CString, n: nat): (int, nat)
    requires n <= |t|
  {
    if n == 0 then (-1, 0)
    else
      var (at, seqNum) := RegionNum(t, name, n - 1);
      if t[n - 1].name == name then (n - 1, if t[n - 1].seqNum > seqNum then t[n - 1].seqNum else seqNum)
      else (at, seqNum)
  }

  /** The record `md_add_ss_toc` leaves in the cell that held `old`. */
  function NewSs(t: seq<SsRegion>, n: nat, r: Region): SsRegion
    requires n < |t|
  {
    var (at, seqNum) := RegionNum(t, r.name, n);
    SsRegion(r.name, if at >= 0 then seqNum + 1 else t[n].seqNum, MD_REGION_VALID, r.phys, r.size)
  }

  function AddToc(s: Smem, r: Region): Smem
    requires s.count < |s.regions|
  {
    s.(entry := s.entry + [r], regions := s.regions[s.count := NewSs(s.regions, s.count, r)], count := s.count + 1)
  }

  /** Every answer of `msm_minidump_add_region` once the table is initialised. */
  function AddAnswer(s: Smem, r: Region): int {
    if !ValidRegion(r) then -EINVAL
    else if |s.entry| >= s.fx.max || s.count >= s.fx.max then -ENOMEM
    else if EntryNum(s.entry, r.name) < |s.entry| then -EEXIST
    else |s.entry|
  }

  predicate AddInBounds(s: Smem, r: Region) {
    AddAnswer(s, r) >= 0 ==> |s.regions| == s.fx.max && HasRoom(s.elf, r)
  }

  function AddRegion(s: Smem, r: Region): (Smem, int)
    requires AddInBounds(s, r)
  {
    var ret := AddAnswer(s, r);
    (if ret < 0 then s else AddToc(s, r).(elf := AddHeaders(s.elf, r)), ret)
  }

  /** A handle some add has returned: live, or disowned by a removal. */
  predicate HandleKnown(s: Smem, regno: nat) {
    regno < s.first ==> regno < |s.entry|
  }

  function UpdateAnswer(s: Smem, regno: nat, r: Region): int {
    if regno >= s.first then -EINVAL
    else if EntryNum(s.entry, r.name) == |s.entry| then -ENOENT
    else 0
  }

  predicate UpdateInBounds(s: Smem, regno: nat, r: Region) {
    ValidRegion(r) && regno < s.fx.max && UpdateAnswer(s, regno, r) == 0 ==> regno + 1 < |s.regions|
  }

  /** The ELF headers are patched whatever the table update answered. A handle past the live cells
      reaches a local cell that does not count, and a bootloader's cell that does not either; what its
      header stores reach is in ElfMemory. */
  function UpdateRegion(s: Smem, regno: nat, r: Region): (Smem, int)
    requires UpdateInBounds(s, regno, r)
  {
    if !ValidRegion(r) || regno >= s.fx.max then (s, -EINVAL)
    else
      var ret := UpdateAnswer(s, regno, r);
      var t := if ret != 0 then s else Patched(s, regno, r);
      (t.(elf := PatchHeaders(s.elf, regno, r)), ret)
  }

  function Patched(s: Smem, regno: nat, r: Region): Smem
    requires regno + 1 < |s.regions|
  {
    s.(entry := if regno < |s.entry| then s.entry[regno := Readdress(s.entry[regno], r)] else s.entry,
       regions := s.regions[regno + 1 := s.regions[regno + 1].(base := r.phys)])
  }

  function Min(a: int, b: int): int { if a < b then a else b }

  /** The table of `n` counted cells with cell `g` closed over and the last one zeroed. */
  function ShiftOut(t: seq<SsRegion>, n: nat, g: nat): (r: seq<SsRegion>)
    requires g < n <= |t|
    ensures |r| == |t|
    ensures forall i {:trigger r[i]} | 0 <= i < |t| ::
              r[i] == if i < g || i >= n then t[i] else if i < n - 1 then t[i + 1] else ZERO_SS
  {
    Drop(t[..n], g) + [ZERO_SS] + t[n..]
  }

  predicate RemoveInBounds(s: Smem, r: Region) {
    s.count <= |s.regions| && (EntryNum(s.entry, r.name) < |s.entry| ==> ClearInBounds(Image(s.elf), r))
  }

  /** Both tables closed over the cells found, and the bootloader's table switched off. */
  function Closed(s: Smem, k: nat, g: nat): Smem
    requires k < |s.entry| && g < s.count <= |s.regions|
  {
    s.(first := Min(s.first, k), tocInit := false,
       entry := Drop(s.entry, k) + [ZERO_REGION], regions := ShiftOut(s.regions, s.count, g))
  }

  /** The counters taken down by one, and the bootloader's table switched on again. */
  function Reopened(s: Smem): Smem
    requires s.entry != [] && s.count > 0
  {
    s.(entry := s.entry[..|s.entry| - 1], count := s.count - 1, tocInit := true)
  }

  /** A removal that the ELF search refuses has already closed both tables: it leaves them so,
      the counters as they were, and the bootloader's table off. */
  function RemoveRegion(s: Smem, r: Region): (Smem, int)
    requires RemoveInBounds(s, r)
  {
    var k := EntryNum(s.entry, r.name);
    if k == |s.entry| then (s, -ENOENT)
    else
      var g := RegionNum(s.regions, r.name, s.count).0;
      RegionNumBounds(s.regions, r.name, s.count);
      if g < 0 then (s, -EINVAL)
      else
        var (elf, ret) := ClearMemory(s.elf, r);
        var t := Closed(s, k, g).(elf := elf);
        (if ret != 0 then t else Reopened(t), ret)
  }

  lemma DropAppended(s: seq<Region>, k: nat)
    requires k < |s|
    ensures (Drop(s, k) + [ZERO_REGION])[..|s| - 1] == Drop(s, k)
  {
  }

  lemma {:induction false} RegionNumBounds(t: seq<SsRegion>, name: CString, n: nat)
    requires n <= |t|
    ensures -1 <= RegionNum(t, name, n).0 < n
    ensures RegionNum(t, name, n).0 >= 0 ==> t[RegionNum(t, name, n).0].name == name
    ensures forall j | RegionNum(t, name, n).0 < j < n :: t[j].name != name
    ensures forall j | 0 <= j < n && t[j].name == name :: t[j].seqNum <= RegionNum(t, name, n).1
  {
    if n > 0 { RegionNumBounds(t, name, n - 1); }
  }

  /** `md_get_region`: the whole record of the first live region of that name, or zeros. */
  function GetRegion(s: Smem, name: CString): Region {
    var k := EntryNum(s.entry, name);
    if k < |s.entry| then s.entry[k] else ZERO_REGION
  }

  // ------------------------------------------------------------------ the canonical state

  const KELF_HDR: CString := "KELF_HDR"

  function TocName(live: seq<Region>, i: nat): CString
    requires i <= |live|
  {
    if i == 0 then KELF_HDR else live[i - 1].name
  }

  /** How many of the first `i` cells carry `name`. */
  function Occurs(live: seq<Region>, i: nat, name: CString): nat
    requires i <= |live| + 1
  {
    if i == 0 then 0 else Occurs(live, i - 1, name) + if TocName(live, i - 1) == name then 1 else 0
  }

  function HeaderSs(fx: Frame): SsRegion {
    SsRegion(KELF_HDR, 0, MD_REGION_VALID, fx.ehdrPa, fx.ElfhSize())
  }

  function TocCell(fx: Frame, live: seq<Region>, i: nat): SsRegion
    requires i <= |live|
  {
    if i == 0 then HeaderSs(fx)
    else var r := live[i - 1]; SsRegion(r.name, Occurs(live, i, r.name), MD_REGION_VALID, r.phys, r.size)
  }

  /** The bootloader's table for a list of regions: the header, one complete cell a region,
      zeros. */
  function RenderToc(fx: Frame, live: seq<Region>): (t: seq<SsRegion>)
    requires |live| < fx.max
    ensures |t| == fx.max
    ensures forall i {:trigger t[i]} | 0 <= i < |t| :: t[i] == if i <= |live| then TocCell(fx, live, i) else ZERO_SS
  {
    seq(fx.max, i requires 0 <= i < fx.max => if i <= |live| then TocCell(fx, live, i) else ZERO_SS)
  }

  /** The local table and the bootloader's table render `live`. */
  predicate Tables(s: Smem, live: seq<Region>) {
    |live| < s.fx.max && s.entry == live && s.count == |live| + 1 && s.regions == RenderToc(s.fx, live)
  }

  /** All tables render `live`; the ELF image lacks the `p` regions that were pending when the
      driver was probed. */
  predicate Canon(s: Smem, live: seq<Region>, p: nat) {
    Tables(s, live) && AllValid(live) && p <= |live| && Depicts(s.elf, s.fx, live[p..])
  }

  /** Both tables render `live`, and the ELF counts are those of the regions registered since the probe:
      what is left of a canonical state when stores have landed in headers not their own. */
  predicate Orderly(s: Smem, live: seq<Region>, p: nat) {
    Tables(s, live) && AllValid(live) && p <= |live| && Counted(s.elf, s.fx, live[p..])
  }

  /** The state a probe reaches before it drains the pending list. */
  function Fresh(fx: Frame): Smem {
    Smem(fx, [], RenderToc(fx, []), 1, true, NewHeader(fx), INT_MAX)
  }

  /** The drain of the pending list: table entries, but no ELF headers. */
  function Drain(s: Smem, pending: seq<Region>): (t: Smem)
    requires s.count + |pending| <= |s.regions|
    ensures t.count == s.count + |pending| && |t.regions| == |s.regions|
    decreases |pending|
  {
    if pending == [] then s
    else var n := |pending| - 1; AddToc(Drain(s, pending[..n]), pending[n])
  }
}
