/** Whole runs of the SMEM registry, as far as the local table and the bootloader's table go: any
    pending list, duplicates included, any sizes, any updates, accepted or refused, and as many
    regions as the registry takes. The ELF headers play no part beyond their counts, which keep every
    operation in bounds. */
module TableRuns {
  import opened Kernel
  import opened Sequences
  import opened Regions
  import opened ElfImage
  import opened ElfMemory
  import opened ElfShapes
  import opened Registry
  import opened RegistryLaws

  datatype Op = Add(r: Region) | Update(regno: nat, r: Region) | Remove(r: Region)

  predicate InBounds(s: Smem, op: Op) {
    match op
    case Add(r) => AddInBounds(s, r)
    case Update(regno, r) => UpdateInBounds(s, regno, r)
    case Remove(r) => RemoveInBounds(s, r)
  }

  function Step(s: Smem, op: Op): (Smem, int)
    requires InBounds(s, op)
  {
    match op
    case Add(r) => AddRegion(s, r)
    case Update(regno, r) => UpdateRegion(s, regno, r)
    case Remove(r) => RemoveRegion(s, r)
  }

  /** What a run may contain: any add; any update by a handle an add has returned; removals that
      succeed or that name nothing, and name at most one region. */
  predicate StepOk(s: Smem, op: Op) {
    && InBounds(s, op)
    && match op
       case Add(_) => true
       case Update(regno, _) => HandleKnown(s, regno)
       case Remove(r) =>
         && OnlyAt(s.entry, r.name, EntryNum(s.entry, r.name))
         && (Step(s, op).1 == 0 || EntryNum(s.entry, r.name) == |s.entry|)
  }

  predicate RunOk(s: Smem, ops: seq<Op>)
    decreases |ops|
  {
    ops == [] || (StepOk(s, ops[0]) && RunOk(Step(s, ops[0]).0, ops[1..]))
  }

  function Final(s: Smem, ops: seq<Op>): Smem
    requires RunOk(s, ops)
    decreases |ops|
  {
    if ops == [] then s else Final(Step(s, ops[0]).0, ops[1..])
  }

  // ------------------------------------------------------------------ the users' view

  /** The registry as its users see it: a list of regions, and the lowest position removed so far. */
  datatype Book = Book(live: seq<Region>, first: int)

  function BookOf(s: Smem): Book { Book(s.entry, s.first) }

  function Added(max: nat, live: seq<Region>, r: Region): seq<Region> {
    if ValidRegion(r) && |live| + 1 < max && OnlyAt(live, r.name, |live|) then live + [r] else live
  }

  /** An update is taken when its handle has not been disowned and its name is registered, whoever
      holds that name. */
  predicate Taken(max: nat, b: Book, regno: nat, r: Region) {
    ValidRegion(r) && regno < max && regno < b.first && EntryNum(b.live, r.name) < |b.live|
  }

  /** An entry of a name at most once; an update readdresses the entry at its position, a removal
      deletes the entry of its name. */
  function Next(max: nat, b: Book, op: Op): Book {
    match op
    case Add(r) => b.(live := Added(max, b.live, r))
    case Update(regno, r) =>
      if Taken(max, b, regno, r) && regno < |b.live|
      then b.(live := b.live[regno := Readdress(b.live[regno], r)])
      else b
    case Remove(r) =>
      var k := EntryNum(b.live, r.name);
      if k < |b.live| then Book(Drop(b.live, k), Min(b.first, k)) else b
  }

  function After(max: nat, b: Book, ops: seq<Op>): Book
    decreases |ops|
  {
    if ops == [] then b else After(max, Next(max, b, ops[0]), ops[1..])
  }

  // ------------------------------------------------------------------ every step, every run

  /** One step keeps both tables rendering the users' list. */
  lemma StepKeepsTables(s: Smem, live: seq<Region>, op: Op)
    requires Tables(s, live) && StepOk(s, op)
    ensures var t, b := Step(s, op).0, Next(s.fx.max, Book(live, s.first), op);
            Tables(t, b.live) && t.first == b.first <= s.first && t.fx == s.fx && (s.tocInit ==> t.tocInit)
    ensures DistinctNames(live) ==> DistinctNames(Next(s.fx.max, Book(live, s.first), op).live)
  {
    hide RenderToc, ClearInBounds, ClearMemory, RegionNum, ShiftOut, AddHeaders, PatchHeaders, Image;
    match op
    case Add(r) => AddKeepsTables(s, live, r);
    case Update(regno, r) => UpdateKeepsTables(s, live, regno, r);
    case Remove(r) =>
      var k := EntryNum(live, r.name);
      if k < |live| { RemoveKeepsTables(s, live, k, r); } else { RemoveAbsent(s, live, r); }
  }

  lemma AddKeepsTables(s: Smem, live: seq<Region>, r: Region)
    requires Tables(s, live) && AddInBounds(s, r)
    ensures var t := AddRegion(s, r).0;
            Tables(t, Added(s.fx.max, live, r)) && t.first == s.first && t.fx == s.fx && t.tocInit == s.tocInit
  {
    hide RenderToc, NewSs, AddHeaders;
    assert EntryNum(live, r.name) == |live| <==> OnlyAt(live, r.name, |live|);
    if AddAnswer(s, r) >= 0 { AddTocRenders(s.fx, live, r); }
  }

  lemma StepIsOk(s: Smem, ops: seq<Op>)
    requires RunOk(s, ops) && ops != []
    ensures StepOk(s, ops[0]) && InBounds(s, ops[0]) && RunOk(Step(s, ops[0]).0, ops[1..])
    ensures Final(s, ops) == Final(Step(s, ops[0]).0, ops[1..])
  {
  }

  /** Every run keeps both tables rendering the users' list. */
  lemma {:induction false} RunKeepsTables(s: Smem, live: seq<Region>, ops: seq<Op>)
    requires Tables(s, live) && RunOk(s, ops)
    ensures var t, b := Final(s, ops), After(s.fx.max, Book(live, s.first), ops);
            Tables(t, b.live) && t.first == b.first <= s.first && t.fx == s.fx && (s.tocInit ==> t.tocInit)
    ensures DistinctNames(live) ==> DistinctNames(After(s.fx.max, Book(live, s.first), ops).live)
    decreases |ops|
  {
    if ops != [] {
      hide Tables, Step, StepOk, InBounds, Next;
      StepIsOk(s, ops);
      StepKeepsTables(s, live, ops[0]);
      RunKeepsTables(Step(s, ops[0]).0, Next(s.fx.max, Book(live, s.first), ops[0]).live, ops[1..]);
    }
  }

  /** In every run, pending duplicates or not, name and sequence number together name one counted
      cell, and every counted cell is marked valid. */
  lemma KeysUniqueInRuns(s: Smem, live: seq<Region>, ops: seq<Op>)
    requires Tables(s, live) && RunOk(s, ops)
    ensures var t := Final(s, ops);
            && t.count <= |t.regions|
            && (forall i, j | 0 <= i < j < t.count ::
                  t.regions[i].name != t.regions[j].name || t.regions[i].seqNum != t.regions[j].seqNum)
            && (forall i | 0 <= i < t.count :: t.regions[i].valid == MD_REGION_VALID)
            && (forall i | t.count <= i < |t.regions| :: t.regions[i] == ZERO_SS)
  {
    hide RunOk, Final, After;
    RunKeepsTables(s, live, ops);
    KeysUnique(s.fx, After(s.fx.max, Book(live, s.first), ops).live);
  }

  // ------------------------------------------------------------------ handles

  predicate IsUpdateOf(op: Op, h: nat) { op.Update? && op.regno == h }

  /** Of region `q` an update may have changed the addresses, nothing else. */
  predicate SameButAddresses(q: Region, r: Region) { q == Readdress(r, q) }

  lemma TablesEntry(s: Smem, live: seq<Region>)
    requires Tables(s, live)
    ensures s.entry == live && |live| < s.fx.max && |s.regions| == s.fx.max && s.count == |live| + 1
  {
  }

  /** A handle below the lowest removed position still names the region it was returned for; the
      region is untouched unless an update was made with that very handle. */
  lemma {:induction false} HandleStable(s: Smem, live: seq<Region>, ops: seq<Op>, h: nat)
    requires Tables(s, live) && RunOk(s, ops) && h < |live|
    ensures h < Final(s, ops).first ==>
            var last := Final(s, ops).entry;
            && h < |last| && SameButAddresses(last[h], live[h])
            && ((forall i | 0 <= i < |ops| :: !IsUpdateOf(ops[i], h)) ==> last[h] == live[h])
    decreases |ops|
  {
    hide Tables, Step, StepOk, InBounds;
    TablesEntry(s, live);
    if ops != [] {
      StepIsOk(s, ops);
      var t, next := Step(s, ops[0]).0, Next(s.fx.max, Book(live, s.first), ops[0]).live;
      StepKeepsTables(s, live, ops[0]);
      RunKeepsTables(t, next, ops[1..]);
      if h < |next| { HandleStable(t, next, ops[1..], h); }
      assert forall i | 0 <= i < |ops[1..]| :: ops[1..][i] == ops[i + 1];
    }
  }

  /** Where the removals of a run found their regions. */
  function RemovedAt(s: Smem, ops: seq<Op>): seq<nat>
    requires RunOk(s, ops)
    decreases |ops|
  {
    if ops == [] then []
    else RemovedBy(s, ops[0]) + RemovedAt(Step(s, ops[0]).0, ops[1..])
  }

  function RemovedBy(s: Smem, op: Op): seq<nat> {
    if op.Remove? && EntryNum(s.entry, op.r.name) < |s.entry| then [EntryNum(s.entry, op.r.name)] else []
  }

  /** The mark of a state is the lowest of `m` and the positions `gone`. */
  predicate Lowest(first: int, m: int, gone: seq<nat>) {
    first <= m && (forall p | p in gone :: first <= p) && (first == m || first in gone)
  }

  lemma MarkMoves(s: Smem, live: seq<Region>, op: Op)
    requires Tables(s, live) && StepOk(s, op)
    ensures Lowest(Step(s, op).0.first, s.first, RemovedBy(s, op))
  {
    hide RenderToc, ClearInBounds, ClearMemory, RegionNum, ShiftOut, AddHeaders, PatchHeaders, Image, AddInBounds,
        UpdateInBounds, RemoveInBounds, RemoveRegion, UpdateRegion, AddRegion, Min;
    match op
    case Add(r) => AddKeepsTables(s, live, r);
    case Update(regno, r) => UpdateKeepsTables(s, live, regno, r);
    case Remove(r) =>
      var k := EntryNum(live, r.name);
      if k < |live| { RemoveKeepsTables(s, live, k, r); } else { RemoveAbsent(s, live, r); }
  }

  /** Over any run the mark ends at the lowest position a removal was made at, or where it was if that is
      lower. */
  lemma {:induction false} MarkExact(s: Smem, live: seq<Region>, ops: seq<Op>)
    requires Tables(s, live) && RunOk(s, ops)
    ensures Lowest(Final(s, ops).first, s.first, RemovedAt(s, ops))
    decreases |ops|
  {
    if ops != [] {
      hide Tables, Step, StepOk, InBounds, Next, Lowest, RemovedBy;
      StepIsOk(s, ops);
      StepKeepsTables(s, live, ops[0]);
      MarkMoves(s, live, ops[0]);
      var t := Step(s, ops[0]).0;
      MarkExact(t, Next(s.fx.max, Book(live, s.first), ops[0]).live, ops[1..]);
      LowestOfBoth(Final(s, ops).first, t.first, s.first, RemovedBy(s, ops[0]), RemovedAt(t, ops[1..]));
    }
  }

  lemma LowestOfBoth(last: int, mid: int, first: int, gone: seq<nat>, more: seq<nat>)
    requires Lowest(mid, first, gone) && Lowest(last, mid, more)
    ensures Lowest(last, first, gone + more)
  {
    if last == mid && mid != first {
      assert mid in gone && mid in gone + more;
    } else if last != mid {
      assert last in more && last in gone + more;
    }
  }

  /** A handle stays good for its region exactly as long as no removal has been made at or below it: any
      valid update it carries is then accepted, and refused from then on. */
  lemma HandleAccepted(s: Smem, live: seq<Region>, ops: seq<Op>, h: nat, q: Region)
    requires Tables(s, live) && RunOk(s, ops) && h < |live| && ValidRegion(q) && q.name == live[h].name
    ensures var t := Final(s, ops);
            && UpdateInBounds(t, h, q)
            && (UpdateRegion(t, h, q).1 == 0 <==> h < s.first && forall p | p in RemovedAt(s, ops) :: h < p)
  {
    hide Tables, RunOk, Final, RemovedAt, UpdateRegion, UpdateInBounds, After;
    MarkExact(s, live, ops);
    HandleStable(s, live, ops, h);
    RunKeepsTables(s, live, ops);
    var t, last := Final(s, ops), After(s.fx.max, Book(live, s.first), ops).live;
    TablesEntry(s, live);
    TablesEntry(t, last);
    if h < t.first {
      UpdateKeepsTables(t, last, h, q);
      assert last[h].name == q.name;
      assert EntryNum(last, q.name) <= h;
    } else {
      RefusedAtMark(t, h, q);
    }
  }

  /** After any removal the mark is within the list for good, so the handle of a region added
      later is at or above it. */
  lemma {:induction false} MarkStaysWithin(s: Smem, live: seq<Region>, ops: seq<Op>)
    requires Tables(s, live) && RunOk(s, ops) && s.first <= |live|
    ensures Final(s, ops).first <= |Final(s, ops).entry|
    decreases |ops|
  {
    hide Tables, Step, StepOk, InBounds;
    TablesEntry(s, live);
    if ops != [] {
      StepIsOk(s, ops);
      StepKeepsTables(s, live, ops[0]);
      MarkStaysWithin(Step(s, ops[0]).0, Next(s.fx.max, Book(live, s.first), ops[0]).live, ops[1..]);
    }
  }

  /** A region added after a removal can never be updated: from any state a removal has led to,
      its own handle is refused at once and after every further run. */
  lemma LateRegionNeverUpdates(s: Smem, live: seq<Region>, gone: Region, mid: seq<Op>, r: Region,
                               later: seq<Op>, q: Region)
    requires Tables(s, live) && RunOk(s, [Remove(gone)] + mid) && EntryNum(live, gone.name) < |live|
    requires var m := Final(s, [Remove(gone)] + mid);
             AddInBounds(m, r) && AddRegion(m, r).1 >= 0 && RunOk(AddRegion(m, r).0, later)
    ensures var m := Final(s, [Remove(gone)] + mid);
            var h, t := AddRegion(m, r).1, Final(AddRegion(m, r).0, later);
            t.first <= h && UpdateInBounds(t, h, q) && UpdateRegion(t, h, q).1 == -EINVAL
  {
    hide Tables, Step, StepOk, InBounds, AddRegion;
    var ops := [Remove(gone)] + mid;
    assert ops[1..] == mid;
    StepIsOk(s, ops);
    StepKeepsTables(s, live, Remove(gone));
    var s1, live1 := Step(s, ops[0]).0, Next(s.fx.max, Book(live, s.first), ops[0]).live;
    MarkStaysWithin(s1, live1, mid);
    RunKeepsTables(s1, live1, mid);
    var m, liveM := Final(s1, mid), After(s1.fx.max, Book(live1, s1.first), mid).live;
    TablesEntry(m, liveM);
    AddReturns(m, r);
    AddKeepsTables(m, liveM, r);
    RunKeepsTables(AddRegion(m, r).0, Added(m.fx.max, liveM, r), later);
    RefusedAtMark(Final(AddRegion(m, r).0, later), AddRegion(m, r).1, q);
  }

  lemma AddReturns(s: Smem, r: Region)
    requires AddInBounds(s, r) && AddRegion(s, r).1 >= 0
    ensures AddRegion(s, r).1 == |s.entry|
  {
  }

  lemma RefusedAtMark(t: Smem, h: nat, q: Region)
    requires t.first <= h
    ensures UpdateInBounds(t, h, q) && UpdateRegion(t, h, q).1 == -EINVAL
  {
  }

  /** A handle an add returned is known for ever: live, or disowned by a removal. */
  lemma HandleStaysKnown(s: Smem, live: seq<Region>, ops: seq<Op>, h: nat)
    requires Tables(s, live) && RunOk(s, ops) && h < |live|
    ensures HandleKnown(Final(s, ops), h)
  {
    hide Tables, RunOk, Final;
    HandleStable(s, live, ops, h);
  }

  // ------------------------------------------------------------------ bounds

  /** A request the driver meets from a caller that keeps its handles and removes what it has added;
      nothing is asked of an add, an update or the removal of something absent. */
  predicate Asked(s: Smem, op: Op) {
    match op
    case Add(_) => true
    case Update(regno, _) => HandleKnown(s, regno)
    case Remove(r) =>
      EntryNum(s.entry, r.name) < |s.entry| ==>
        OnlyAt(s.entry, r.name, EntryNum(s.entry, r.name)) && r.virt != 0 && r.size % 4 == 0
  }

  /** No operation ever leaves its tables or the header allocation, whatever came before and whatever the
      headers hold: bounds are never what a run has to ask for. The counts they rest on are kept by
      every step of a run that does not remove a region without headers. */
  lemma StepInBounds(s: Smem, live: seq<Region>, p: nat, op: Op)
    requires Orderly(s, live, p) && Asked(s, op)
    ensures InBounds(s, op)
    ensures StepOk(s, op) && (op.Remove? ==> p <= EntryNum(live, op.r.name)) ==>
              Orderly(Step(s, op).0, Next(s.fx.max, Book(live, s.first), op).live, p)
  {
    hide RenderToc, AddRegion, AddInBounds, PatchHeaders, RemoveRegion, RemoveInBounds, Counted, Tables, AllValid,
        UpdateRegion, UpdateInBounds;
    TablesEntry(s, live);
    match op
    case Add(r) =>
      AddKeepsOrder(s, live, p, r);
      if AddRegion(s, r).1 < 0 { RefusedAdd(s, r); }
    case Update(regno, r) => UpdateKeepsOrder(s, live, p, regno, r);
    case Remove(r) =>
      var k := EntryNum(live, r.name);
      if k < |live| { RemoveKeepsOrder(s, live, p, k, r); } else { RemoveAbsent(s, live, r); }
  }

  /** A removal, if it finds its region, does not fail, and the region has headers. */
  predicate Succeeds(s: Smem, p: nat, op: Op)
    requires InBounds(s, op)
  {
    op.Remove? && EntryNum(s.entry, op.r.name) < |s.entry| ==> Step(s, op).1 == 0 && p <= EntryNum(s.entry, op.r.name)
  }

  /** A run of such requests in which no removal fails. That each of them is in bounds is not asked. */
  predicate Requests(s: Smem, p: nat, ops: seq<Op>)
    decreases |ops|
  {
    ops == [] || (Asked(s, ops[0])
                  && (InBounds(s, ops[0]) ==> Succeeds(s, p, ops[0]) && Requests(Step(s, ops[0]).0, p, ops[1..])))
  }

  lemma RequestIsOk(s: Smem, live: seq<Region>, p: nat, op: Op)
    requires Orderly(s, live, p) && Asked(s, op)
    ensures InBounds(s, op)
    ensures Succeeds(s, p, op) ==>
              StepOk(s, op) && Orderly(Step(s, op).0, Next(s.fx.max, Book(live, s.first), op).live, p)
  {
    hide Orderly, Step, InBounds;
    OrderlyEntry(s, live, p);
    AbsentIsOnly(s.entry);
    StepInBounds(s, live, p, op);
  }

  lemma OrderlyEntry(s: Smem, live: seq<Region>, p: nat)
    requires Orderly(s, live, p)
    ensures s.entry == live && p <= |live| && Tables(s, live)
  {
  }

  lemma AbsentIsOnly(entry: seq<Region>)
    ensures forall name | EntryNum(entry, name) == |entry| :: OnlyAt(entry, name, |entry|)
  {
  }

  /** So every such run stays in bounds, whatever its updates patch and however many regions it has. */
  lemma {:induction false} RunInBounds(s: Smem, live: seq<Region>, p: nat, ops: seq<Op>)
    requires Orderly(s, live, p) && Requests(s, p, ops)
    ensures RunOk(s, ops) && Orderly(Final(s, ops), After(s.fx.max, Book(live, s.first), ops).live, p)
    decreases |ops|
  {
    if ops != [] {
      hide Orderly, Step, InBounds, Asked, StepOk, Succeeds, Next, Tables;
      OrderlyEntry(s, live, p);
      AskedFirst(s, p, ops);
      RequestIsOk(s, live, p, ops[0]);
      StepKeepsTables(s, live, ops[0]);
      RunInBounds(Step(s, ops[0]).0, Next(s.fx.max, Book(live, s.first), ops[0]).live, p, ops[1..]);
    }
  }

  lemma AskedFirst(s: Smem, p: nat, ops: seq<Op>)
    requires Requests(s, p, ops) && ops != []
    ensures Asked(s, ops[0])
    ensures InBounds(s, ops[0]) ==> Succeeds(s, p, ops[0]) && Requests(Step(s, ops[0]).0, p, ops[1..])
  {
  }

  lemma RefusedAdd(s: Smem, r: Region)
    requires AddInBounds(s, r) && AddRegion(s, r).1 < 0
    ensures AddRegion(s, r).0 == s
  {
  }

  lemma UpdateKeepsOrder(s: Smem, live: seq<Region>, p: nat, regno: nat, r: Region)
    requires Orderly(s, live, p) && HandleKnown(s, regno)
    ensures UpdateInBounds(s, regno, r)
    ensures Orderly(UpdateRegion(s, regno, r).0, Next(s.fx.max, Book(live, s.first), Update(regno, r)).live, p)
  {
    hide RenderToc, PatchHeaders, Counted, Tables, AllValid, UpdateRegion, UpdateInBounds;
    TablesEntry(s, live);
    UpdateKeepsTables(s, live, regno, r);
    var (t, ret) := UpdateRegion(s, regno, r);
    var E, next := live[p..], Updated(live, regno, r, ret);
    PatchCounted(s.elf, s.fx, E, regno, r);
    if ret == 0 {
      UpdateValid(live, regno, r);
      if regno >= p {
        assert next[p..] == E[regno - p := Readdress(E[regno - p], r)];
        ReaddressCounted(s.fx, E, regno - p, r, t.elf);
      } else {
        assert next[p..] == E;
      }
    }
  }

  lemma RemoveKeepsOrder(s: Smem, live: seq<Region>, p: nat, k: nat, r: Region)
    requires Orderly(s, live, p) && k < |live| && OnlyAt(live, r.name, k) && r.virt != 0
    ensures RemoveInBounds(s, r)
    ensures RemoveRegion(s, r).1 == 0 && p <= k ==> Orderly(RemoveRegion(s, r).0, Drop(live, k), p)
  {
    hide RenderToc, ClearMemory, ClearInBounds, RemoveRegion, Tables, Counted, Image;
    var E := live[p..];
    TablesEntry(s, live);
    assert ValidRegion(live[k]);
    ClearCounted(s.elf, s.fx, E, r);
    RemoveKeepsTables(s, live, k, r);
    DropValid(live, k);
    if p <= k {
      assert E[k - p] == live[k];
      ClearKeepsCounted(s.elf, s.fx, E, r, k - p);
      DropTail(live, p, k);
    }
  }

  // ------------------------------------------------------------------ shape

  /** Both tables render `live`, and the ELF image has the shape of the regions registered since the
      probe, whatever addresses updates have patched into it. */
  predicate Shaped(s: Smem, live: seq<Region>, p: nat) {
    && Tables(s, live) && AllValid(live) && p <= |live| && s.elf.max == s.fx.max && Sized(s.elf)
    && Fits(s.fx, live[p..]) && SameShape(Image(s.elf), Render(s.fx, live[p..]))
  }

  lemma CanonShaped(s: Smem, live: seq<Region>, p: nat)
    requires Canon(s, live, p)
    ensures Shaped(s, live, p)
  {
    HeaderCounts(s.fx, live[p..]);
    ShapeOfSelf(Render(s.fx, live[p..]));
    hide Render, RenderToc, Image;
  }

  /** Which steps keep the shape: an add while the sections have their places, and an update unless it is
      one of the last four handles and shows. */
  predicate ShapeKept(fx: Frame, b: Book, p: nat, op: Op)
    requires p <= |b.live|
  {
    match op
    case Add(r) => |Added(fx.max, b.live, r)| - p + 4 <= fx.max
    case Update(regno, r) => ValidRegion(r) && regno < fx.max ==> TailShape(fx, b.live[p..], regno, r)
    case Remove(_) => true
  }

  /** A step of a run keeps the shape of the image if and only if it is one of those. */
  lemma StepKeepsShape(s: Smem, live: seq<Region>, p: nat, op: Op)
    requires Shaped(s, live, p) && Asked(s, op) && StepOk(s, op)
    ensures Shaped(Step(s, op).0, Next(s.fx.max, Book(live, s.first), op).live, p) <==>
            ShapeKept(s.fx, Book(live, s.first), p, op)
  {
    hide Render, RenderToc, SameShape, Tables, Image, AddRegion, AddInBounds, UpdateRegion, UpdateInBounds,
        RemoveRegion, RemoveInBounds, AllValid, Sized, Shaped, TailShape;
    TablesOfShaped(s, live, p);
    TablesEntry(s, live);
    match op
    case Add(r) => AddKeepsShape(s, live, p, r);
    case Update(regno, r) => UpdateKeepsShape(s, live, p, regno, r);
    case Remove(r) =>
      var k := EntryNum(live, r.name);
      if k < |live| { RemoveKeepsShape(s, live, p, k, r); } else { RemoveAbsent(s, live, r); }
  }

  lemma TablesOfShaped(s: Smem, live: seq<Region>, p: nat)
    requires Shaped(s, live, p)
    ensures Tables(s, live) && p <= |live|
  {
  }

  lemma AddKeepsShape(s: Smem, live: seq<Region>, p: nat, r: Region)
    requires Shaped(s, live, p) && AddInBounds(s, r)
    ensures var next := Added(s.fx.max, live, r);
            p <= |next| && (Shaped(AddRegion(s, r).0, next, p) <==> |next| - p + 4 <= s.fx.max)
  {
    hide Render, RenderToc, SameShape, AddHeaders, NewSs, HasRoom, Image, Sized, AllValid;
    var E, h := live[p..], s.elf;
    ShapePlaced(h, s.fx, E);
    assert EntryNum(live, r.name) == |live| <==> OnlyAt(live, r.name, |live|);
    if AddAnswer(s, r) >= 0 {
      AddKeepsTables(s, live, r);
      AddedTail(live, p, r);
      AllValidAnd(live, r);
      AddedShape(h, s.fx, E, r);
    }
  }

  lemma AddedShape(h: Header, fx: Frame, E: seq<Region>, r: Region)
    requires h.max == fx.max && Sized(h) && Fits(fx, E) && SameShape(Image(h), Render(fx, E)) && HasRoom(h, r)
    requires ValidRegion(r) && |E| < fx.max
    ensures var g := AddHeaders(h, r);
            && g.max == fx.max && Fits(fx, E + [r])
            && (Sized(g) && SameShape(Image(g), Render(fx, E + [r])) <==> Placed(fx, E + [r]))
  {
    hide Render, SameShape, AddHeaders, AddHeader, Image, Sized, HasRoom;
    ShapePlaced(h, fx, E);
    AddKeepsMax(h, r);
    AddHeaderRenders(fx, E, r);
    var g := AddHeaders(h, r);
    if Placed(fx, E + [r]) {
      AddImage(h, r);
      AddShape(Image(h), Render(fx, E), r);
    } else if Sized(g) && SameShape(Image(g), Render(fx, E + [r])) {
      ShapePlaced(g, fx, E + [r]);
    }
  }

  lemma UpdateKeepsShape(s: Smem, live: seq<Region>, p: nat, regno: nat, r: Region)
    requires Shaped(s, live, p) && HandleKnown(s, regno) && UpdateInBounds(s, regno, r)
    ensures Shaped(UpdateRegion(s, regno, r).0, Next(s.fx.max, Book(live, s.first), Update(regno, r)).live, p) <==>
            (ValidRegion(r) && regno < s.fx.max ==> TailShape(s.fx, live[p..], regno, r))
  {
    hide Render, RenderToc, SameShape, PatchHeaders, Image, Sized, Tables, UpdateRegion, UpdateInBounds, TailShape,
        AllValid;
    TablesEntry(s, live);
    UpdateKeepsTables(s, live, regno, r);
    var (t, ret) := UpdateRegion(s, regno, r);
    var E, next := live[p..], Updated(live, regno, r, ret);
    if ValidRegion(r) && regno < s.fx.max {
      PatchedShape(s.elf, s.fx, E, regno, r);
      if ret == 0 {
        UpdateValid(live, regno, r);
        if regno >= p {
          assert next[p..] == E[regno - p := Readdress(E[regno - p], r)];
          ReaddressedShape(s.fx, E, regno - p, r, Image(t.elf));
        } else {
          assert next[p..] == E;
        }
      }
    }
  }

  lemma PatchedShape(h: Header, fx: Frame, E: seq<Region>, i: nat, r: Region)
    requires h.max == fx.max && Sized(h) && Fits(fx, E) && SameShape(Image(h), Render(fx, E)) && i < fx.max
    ensures var g := PatchHeaders(h, i, r);
            g.max == fx.max && Sized(g) && (SameShape(Image(g), Render(fx, E)) <==> TailShape(fx, E, i, r))
  {
    hide Render, SameShape, PatchHeaders, Image, Sized, TailShape, UpdateHeader;
    ShapePlaced(h, fx, E);
    PatchImage(h, i, r);
    UpdateShape(fx, E, Image(h), i, r);
  }

  /** The shape of a list does not depend on its addresses. */
  lemma ReaddressedShape(fx: Frame, E: seq<Region>, k: nat, r: Region, e: Elf)
    requires Fits(fx, E) && k < |E| && r.virt != 0
    ensures Fits(fx, E[k := Readdress(E[k], r)])
    ensures SameShape(e, Render(fx, E)) <==> SameShape(e, Render(fx, E[k := Readdress(E[k], r)]))
  {
    ReaddressRenders(fx, E, k, r);
    hide Render, SameShape, Readdressed;
    var f, g := Render(fx, E), Readdressed(Render(fx, E), k, r);
    ReaddressShape(f, k, r);
    ShapeSymmetric(f, g);
    if SameShape(e, f) { ShapeTransitive(e, f, g); }
    if SameShape(e, g) { ShapeTransitive(e, g, f); }
  }

  lemma RemoveKeepsShape(s: Smem, live: seq<Region>, p: nat, k: nat, r: Region)
    requires Shaped(s, live, p) && k < |live| && OnlyAt(live, r.name, k) && r.virt != 0 && r.size % 4 == 0
    requires RemoveInBounds(s, r)
    ensures RemoveRegion(s, r).1 == 0 ==> p <= k && Shaped(RemoveRegion(s, r).0, Drop(live, k), p)
  {
    hide Render, RenderToc, SameShape, ClearHeaders, ClearInBounds, RemoveRegion, Tables, ClearMemory, Image, Sized;
    var E, h := live[p..], s.elf;
    TablesEntry(s, live);
    assert ValidRegion(live[k]);
    ShapePlaced(h, s.fx, E);
    RemoveKeepsTables(s, live, k, r);
    ClearImage(h, r);
    ClearKeepsMax(h, r);
    DropValid(live, k);
    if p <= k {
      assert OnlyAt(E, r.name, k - p) by { assert forall j | 0 <= j < |E| :: E[j] == live[j + p]; }
      ClearShape(s.fx, E, Image(h), r, k - p);
      DropTail(live, p, k);
    } else {
      assert OnlyAt(E, r.name, |E|) by { assert forall j | 0 <= j < |E| :: E[j] == live[j + p]; }
      ClearShape(s.fx, E, Image(h), r, |E|);
    }
  }

  predicate RunShaped(s: Smem, p: nat, ops: seq<Op>)
    decreases |ops|
  {
    ops == [] || (StepOk(s, ops[0]) && Asked(s, ops[0])
                  && p <= |s.entry| && ShapeKept(s.fx, BookOf(s), p, ops[0])
                  && RunShaped(Step(s, ops[0]).0, p, ops[1..]))
  }

  /** Over a run of such steps names, sizes and file offsets stay those of the regions with headers,
      whatever addresses the updates have patched in. */
  lemma {:induction false} RunKeepsShape(s: Smem, live: seq<Region>, p: nat, ops: seq<Op>)
    requires Shaped(s, live, p) && RunShaped(s, p, ops)
    ensures RunOk(s, ops) && Shaped(Final(s, ops), After(s.fx.max, Book(live, s.first), ops).live, p)
    decreases |ops|
  {
    if ops != [] {
      hide Shaped, Step, InBounds, Asked, StepOk, ShapeKept, Next, Tables;
      TablesOfShaped(s, live, p);
      TablesEntry(s, live);
      ShapedFirst(s, p, ops);
      StepKeepsShape(s, live, p, ops[0]);
      StepKeepsTables(s, live, ops[0]);
      RunKeepsShape(Step(s, ops[0]).0, Next(s.fx.max, Book(live, s.first), ops[0]).live, p, ops[1..]);
    }
  }

  lemma ShapedFirst(s: Smem, p: nat, ops: seq<Op>)
    requires RunShaped(s, p, ops) && ops != []
    ensures StepOk(s, ops[0]) && Asked(s, ops[0]) && InBounds(s, ops[0])
    ensures p <= |s.entry| && ShapeKept(s.fx, BookOf(s), p, ops[0]) && RunShaped(Step(s, ops[0]).0, p, ops[1..])
  {
  }
}
