/** The memory-dump area: its size is worked out in one pass over the device nodes, the blocks are
    laid out in a second, and the two passes do not skip the same nodes. */
module MemLayout {
  import opened Kernel
  import opened Sequences
  import opened Regions
  import opened RegDump

  const MAX_DUMP_ENTRIES: nat := 0x150
  const TABLE_SIZE: nat := 16136
  const DATA_SIZE: nat := 64
  const TABLE_APPS: Word := 0
  const TYPE_DATA: nat := 0
  const TYPE_TABLE: nat := 1
  const TABLE_VERSION: Word := 0x20_0000
  const CPUSS_REGDUMP: Word := 0xEF
  const SPR_DUMP_CPU0: Word := 0x1F0
  const SPR_DUMP_CPU7: Word := 0x1F7

  /** A child node, with the properties it may or may not have. */
  datatype Node = Node(name: CString, size: Option<Word>, id: Option<Word>)

  /** `struct msm_dump_entry`, `struct msm_dump_data`. */
  datatype Entry = Entry(id: Word, kind: nat, addr: nat)
  datatype DumpData = DumpData(name: CString, addr: nat, len: Word)

  /** A descriptor and the payload behind it, at its two addresses. */
  datatype Block = Block(vaddr: nat, phys: nat, id: Word, size: Word, name: CString)

  /** What `strscpy` leaves of a name in 32 bytes. */
  function Name32(s: CString): CString { if |s| < 32 then s else s[..31] }

  predicate Placed(n: Node) { n.size.Some? && n.id.Some? }

  /** Bytes counted for a node by the first pass, and used for it by the second. */
  function Counted(n: Node): nat { if n.size.Some? then n.size.value + DATA_SIZE else 0 }
  function Taken(n: Node): nat { if Placed(n) then n.size.value + DATA_SIZE else 0 }

  function CountedAll(nodes: seq<Node>): seq<nat> { seq(|nodes|, i requires 0 <= i < |nodes| => Counted(nodes[i])) }
  function TakenAll(nodes: seq<Node>): seq<nat> { seq(|nodes|, i requires 0 <= i < |nodes| => Taken(nodes[i])) }

  function AlignUp(n: nat): nat { (n + PAGE_SIZE - 1) / PAGE_SIZE * PAGE_SIZE }

  function TotalSize(nodes: seq<Node>): nat { AlignUp(2 * TABLE_SIZE + Prefix(CountedAll(nodes), |nodes|)) }

  /** The offset of the next block once the first `i` nodes are done. */
  function Cursor(nodes: seq<Node>, i: nat): nat
    requires i <= |nodes|
  {
    2 * TABLE_SIZE + Prefix(TakenAll(nodes), i)
  }

  /** The blocks of the first `i` nodes. */
  function Blocks(nodes: seq<Node>, i: nat, v: nat, p: nat): (bs: seq<Block>)
    requires i <= |nodes|
    ensures |bs| <= i
  {
    if i == 0 then []
    else if Placed(nodes[i - 1]) then Blocks(nodes, i - 1, v, p) + [BlockOf(nodes, i - 1, v, p)]
    else Blocks(nodes, i - 1, v, p)
  }

  function BlockOf(nodes: seq<Node>, i: nat, v: nat, p: nat): Block
    requires i < |nodes| && Placed(nodes[i])
  {
    var n, at := nodes[i], Cursor(nodes, i);
    Block(v + at, p + at, n.id.value, n.size.value, Name32(n.name))
  }

  /** What the second pass is left with after `i` nodes: the answer about the last one only. */
  function LastAnswer(nodes: seq<Node>, i: nat): int
    requires i <= |nodes|
  {
    if i == 0 || (Placed(nodes[i - 1]) && |Blocks(nodes, i - 1, 0, 0)| < MAX_DUMP_ENTRIES) then 0 else -EINVAL
  }

  /** Every node has been laid out and listed. */
  predicate AllListed(nodes: seq<Node>) {
    |nodes| <= MAX_DUMP_ENTRIES && forall k | 0 <= k < |nodes| :: Placed(nodes[k])
  }

  function PlacedCount(nodes: seq<Node>, i: nat): nat
    requires i <= |nodes|
  {
    if i == 0 then 0 else PlacedCount(nodes, i - 1) + if Placed(nodes[i - 1]) then 1 else 0
  }

  lemma {:induction false} CountsBlocks(nodes: seq<Node>, i: nat)
    requires i <= |nodes|
    ensures |Blocks(nodes, i, 0, 0)| == PlacedCount(nodes, i) <= i
    ensures PlacedCount(nodes, i) == i <==> forall k | 0 <= k < i :: Placed(nodes[k])
  {
    if i > 0 { CountsBlocks(nodes, i - 1); }
  }

  /** The answer tells whether every node was laid out and listed, except when the last one was and an
      earlier one was passed over without filling the table. */
  lemma LastAnswerExact(nodes: seq<Node>)
    ensures (LastAnswer(nodes, |nodes|) == 0 <==> AllListed(nodes)) <==>
            !(var n := |nodes| - 1;
              && n >= 0 && Placed(nodes[n]) && PlacedCount(nodes, n) < MAX_DUMP_ENTRIES
              && exists k :: 0 <= k < n && !Placed(nodes[k]))
  {
    if nodes != [] { CountsBlocks(nodes, |nodes| - 1); }
  }

  /** A node without an id, then a complete one: the first is passed over, and the answer is 0. */
  lemma MissedNode()
    ensures var nodes := [Node("a", Some(64), None), Node("b", Some(64), Some(1))];
            LastAnswer(nodes, 2) == 0 && !AllListed(nodes)
  {
    var nodes := [Node("a", Some(64), None), Node("b", Some(64), Some(1))];
    CountsBlocks(nodes, 1);
    assert !Placed(nodes[0]);
  }

  function End(b: Block): nat { b.vaddr + DATA_SIZE + b.size }

  // ------------------------------------------------------------------ the layout is sound

  /** How many blocks there are does not depend on where they lie. */
  lemma {:induction false} BlocksCount(nodes: seq<Node>, i: nat, v: nat, p: nat)
    requires i <= |nodes|
    ensures |Blocks(nodes, i, v, p)| == |Blocks(nodes, i, 0, 0)|
  {
    if i > 0 { BlocksCount(nodes, i - 1, v, p); }
  }

  /** Blocks follow one another without overlap, start behind both tables, end by `hi`, and keep
      one distance between their two addresses. */
  predicate InOrder(bs: seq<Block>, v: nat, p: nat, hi: nat) {
    && (forall j, k | 0 <= j < k < |bs| :: End(bs[j]) <= bs[k].vaddr)
    && (forall k | 0 <= k < |bs| :: v + 2 * TABLE_SIZE <= bs[k].vaddr && End(bs[k]) <= v + hi)
    && (forall k | 0 <= k < |bs| :: bs[k].vaddr - v == bs[k].phys - p)
  }

  lemma InOrderSnoc(bs: seq<Block>, b: Block, v: nat, p: nat, at: nat)
    requires InOrder(bs, v, p, at) && b.vaddr == v + at && b.phys == p + at && 2 * TABLE_SIZE <= at
    ensures InOrder(bs + [b], v, p, at + DATA_SIZE + b.size)
  {
  }

  lemma TwoApart(bs: seq<Block>, v: nat, p: nat, hi: nat, j: nat, k: nat)
    requires InOrder(bs, v, p, hi) && j < |bs| && k < |bs| && j != k
    ensures End(bs[j]) <= bs[k].vaddr || End(bs[k]) <= bs[j].vaddr
  {
  }

  lemma {:induction false} BlocksInOrder(nodes: seq<Node>, i: nat, v: nat, p: nat)
    requires i <= |nodes|
    ensures InOrder(Blocks(nodes, i, v, p), v, p, Cursor(nodes, i))
  {
    hide InOrder;
    if i == 0 {
      assert InOrder([], v, p, Cursor(nodes, 0)) by { InOrderNone(v, p, Cursor(nodes, 0)); }
    } else {
      BlocksInOrder(nodes, i - 1, v, p);
      PrefixMonotone(TakenAll(nodes), 0, i - 1);
      if Placed(nodes[i - 1]) {
        InOrderSnoc(Blocks(nodes, i - 1, v, p), BlockOf(nodes, i - 1, v, p), v, p, Cursor(nodes, i - 1));
      }
    }
  }

  lemma InOrderNone(v: nat, p: nat, hi: nat)
    ensures InOrder([], v, p, hi)
  {
  }

  lemma {:induction false} TakenBelowCounted(nodes: seq<Node>, i: nat)
    requires i <= |nodes|
    ensures Prefix(TakenAll(nodes), i) <= Prefix(CountedAll(nodes), i)
    ensures Prefix(TakenAll(nodes), i) == Prefix(CountedAll(nodes), i) <==>
            forall k | 0 <= k < i :: nodes[k].size.Some? ==> nodes[k].id.Some?
  {
    if i > 0 { TakenBelowCounted(nodes, i - 1); }
  }

  /** For any list of nodes the blocks are pairwise disjoint and inside the allocated area, behind
      the two tables; no counted space is left over exactly when every node with a size has an
      id. */
  lemma LayoutSound(nodes: seq<Node>, v: nat, p: nat)
    ensures InOrder(Blocks(nodes, |nodes|, v, p), v, p, TotalSize(nodes))
    ensures Cursor(nodes, |nodes|) == 2 * TABLE_SIZE + Prefix(CountedAll(nodes), |nodes|) <==>
            forall k | 0 <= k < |nodes| :: nodes[k].size.Some? ==> nodes[k].id.Some?
  {
    hide Blocks, Prefix;
    BlocksInOrder(nodes, |nodes|, v, p);
    TakenBelowCounted(nodes, |nodes|);
    AlignUpGrows(Cursor(nodes, |nodes|), 2 * TABLE_SIZE + Prefix(CountedAll(nodes), |nodes|));
  }

  /** The layout in numbers: the area is whole pages, less than one more than both tables of 336 entries and
      what the nodes take; a block is a descriptor of 64 bytes and its payload; a descriptor keeps at most
      31 characters of its node's name. */
  lemma LayoutInNumbers(nodes: seq<Node>, v: nat, p: nat, k: nat)
    requires k < |Blocks(nodes, |nodes|, v, p)|
    ensures var sum := 2 * (8 + 336 * 48) + Prefix(CountedAll(nodes), |nodes|);
            TotalSize(nodes) % 4096 == 0 && sum <= TotalSize(nodes) < sum + 4096
    ensures var b := Blocks(nodes, |nodes|, v, p)[k];
            && b.vaddr >= v + 2 * (8 + 336 * 48) && End(b) == b.vaddr + 64 + b.size
            && exists i :: 0 <= i < |nodes| && Stands(nodes[i], b)
  {
    LayoutSound(nodes, v, p);
    BlockHasNode(nodes, |nodes|, v, p, k);
    hide Blocks, Prefix;
  }

  /** The block is that of the node. */
  predicate Stands(n: Node, b: Block) {
    && n.id == Some(b.id) && n.size == Some(b.size)
    && b.name == if |n.name| <= 31 then n.name else n.name[..31]
  }

  lemma {:induction false} BlockHasNode(nodes: seq<Node>, i: nat, v: nat, p: nat, k: nat)
    requires i <= |nodes| && k < |Blocks(nodes, i, v, p)|
    ensures exists j :: 0 <= j < i && Stands(nodes[j], Blocks(nodes, i, v, p)[k])
  {
    if i > 0 {
      var front := Blocks(nodes, i - 1, v, p);
      if k < |front| {
        BlockHasNode(nodes, i - 1, v, p, k);
      } else {
        assert Stands(nodes[i - 1], Blocks(nodes, i, v, p)[k]);
      }
    }
  }

  lemma AlignUpGrows(m: nat, n: nat)
    requires m <= n
    ensures n <= AlignUp(n) < n + PAGE_SIZE && AlignUp(m) <= AlignUp(n) && AlignUp(n) % PAGE_SIZE == 0
  {
  }

  /** Blocks that share an address are one block. */
  lemma AddressesDistinct(nodes: seq<Node>, i: nat, v: nat, p: nat)
    requires i < |nodes| && Placed(nodes[i])
    ensures forall k | 0 <= k < |Blocks(nodes, i, v, p)| :: Blocks(nodes, i, v, p)[k].vaddr < v + Cursor(nodes, i)
  {
    BlocksInOrder(nodes, i, v, p);
  }

  // ------------------------------------------------------------------ who gets which buffer

  predicate HasDriver(id: Word) { id == CPUSS_REGDUMP || SPR_DUMP_CPU0 <= id <= SPR_DUMP_CPU7 }

  /** The buffers handed to the register-dump and SPR drivers: address and size, by id. */
  function Buffers(bs: seq<Block>): map<Word, (nat, Word)> {
    if bs == [] then map[]
    else
      var b, rest := bs[|bs| - 1], Buffers(bs[..|bs| - 1]);
      if HasDriver(b.id) then rest[b.id := (b.vaddr + DATA_SIZE, b.size)] else rest
  }

  /** The register-dump driver and the drivers of eight SPR cores get a buffer, each the payload of the last
      block with its id. */
  lemma {:induction false} BufferIsLast(bs: seq<Block>, id: Word)
    ensures id in Buffers(bs) <==>
            (id == 0xEF || 0x1F0 <= id <= 0x1F7) && exists k :: 0 <= k < |bs| && bs[k].id == id
    ensures id in Buffers(bs) ==>
              exists k :: 0 <= k < |bs| && bs[k].id == id && Buffers(bs)[id] == (bs[k].vaddr + 64, bs[k].size)
                          && forall j | k < j < |bs| :: bs[j].id != id
  {
    if bs != [] {
      var n := |bs| - 1;
      BufferIsLast(bs[..n], id);
      var front := Buffers(bs[..n]);
      assert Buffers(bs) ==
             if HasDriver(bs[n].id) then front[bs[n].id := (bs[n].vaddr + DATA_SIZE, bs[n].size)] else front;
      hide Buffers;
      if HasDriver(id) && bs[n].id == id {
        assert Buffers(bs)[id] == (bs[n].vaddr + DATA_SIZE, bs[n].size);
      }
    }
  }

  /** Drivers with different ids get buffers that do not overlap, inside the allocated area. */
  lemma BuffersApart(nodes: seq<Node>, v: nat, p: nat, x: Word, y: Word)
    requires var m := Buffers(Blocks(nodes, |nodes|, v, p)); x in m && y in m && x != y
    ensures var m := Buffers(Blocks(nodes, |nodes|, v, p));
            && (m[x].0 + m[x].1 < m[y].0 || m[y].0 + m[y].1 < m[x].0)
            && v + 2 * TABLE_SIZE < m[x].0 && m[x].0 + m[x].1 <= v + TotalSize(nodes)
  {
    var bs := Blocks(nodes, |nodes|, v, p);
    LayoutSound(nodes, v, p);
    BufferIsLast(bs, x);
    BufferIsLast(bs, y);
    var j :| 0 <= j < |bs| && bs[j].id == x && Buffers(bs)[x] == (bs[j].vaddr + DATA_SIZE, bs[j].size);
    var k :| 0 <= k < |bs| && bs[k].id == y && Buffers(bs)[y] == (bs[k].vaddr + DATA_SIZE, bs[k].size);
    TwoApart(bs, v, p, TotalSize(nodes), j, k);
  }

  // ------------------------------------------------------------------ the driver

  class DumpTable {
    var version: Word
    var numEntries: nat
    const entries: array<Entry>

    /** All zero, as after the memset. */
    constructor ()
      ensures version == 0 && numEntries == 0 && fresh(entries) && entries.Length == MAX_DUMP_ENTRIES
      ensures forall i | 0 <= i < entries.Length :: entries[i] == Entry(0, 0, 0)
    {
      version, numEntries := 0, 0;
      entries := new Entry[MAX_DUMP_ENTRIES](_ => Entry(0, 0, 0));
    }
  }

  class MemDump {
    const base: DumpTable
    const apps: DumpTable
    var tablePhys: nat
    var descriptors: map<nat, DumpData>
    var buffers: map<Word, (nat, Word)>

    ghost predicate Shaped() {
      && base != apps && base.entries != apps.entries
      && base.entries.Length == MAX_DUMP_ENTRIES && apps.entries.Length == MAX_DUMP_ENTRIES
    }

    /** After `init_memory_dump`. */
    ghost predicate Ready(p: nat)
      reads this, base, base.entries
    {
      && Shaped() && tablePhys == p && base.numEntries == 1
      && base.entries[0] == Entry(TABLE_APPS, TYPE_TABLE, p + TABLE_SIZE)
    }

    /** The apps table lists the first `MAX_DUMP_ENTRIES` blocks. */
    ghost predicate Lists(bs: seq<Block>)
      reads apps, apps.entries
    {
      && apps.entries.Length == MAX_DUMP_ENTRIES
      && apps.numEntries == (if |bs| < MAX_DUMP_ENTRIES then |bs| else MAX_DUMP_ENTRIES)
      && forall k | 0 <= k < apps.numEntries :: apps.entries[k] == Entry(bs[k].id, TYPE_DATA, bs[k].phys)
    }

    /** Every block has its descriptor, which describes the block's own payload. */
    ghost predicate Describes(bs: seq<Block>)
      reads this`descriptors
    {
      && (forall k | 0 <= k < |bs| ::
            bs[k].vaddr in descriptors
            && descriptors[bs[k].vaddr] == DumpData(bs[k].name, bs[k].phys + DATA_SIZE, bs[k].size))
      && forall a | a in descriptors :: exists k :: 0 <= k < |bs| && bs[k].vaddr == a
    }

    constructor ()
      ensures Shaped() && fresh(base) && fresh(apps) && fresh(base.entries) && fresh(apps.entries)
      ensures base.numEntries == 0 && Lists([]) && Describes([]) && buffers == map[]
      ensures forall i | 0 <= i < MAX_DUMP_ENTRIES :: base.entries[i] == Entry(0, 0, 0)
    {
      base := new DumpTable();
      apps := new DumpTable();
      tablePhys, descriptors, buffers := 0, map[], map[];
    }

    /** `init_memory_dump`: the base table's one entry leads to the apps table behind it. */
    method Init(p: nat) returns (ret: int)
      requires Shaped() && base.numEntries == 0 && Lists([])
      modifies this`tablePhys, base, apps`version, base.entries
      ensures ret == 0 && Ready(p) && Lists([]) && base.version == apps.version == 0x20_0000
      ensures base.entries[0] == Entry(0, 1, p + 16136)
    {
      base.version := TABLE_VERSION;
      tablePhys := p;
      apps.version := TABLE_VERSION;
      ret := RegisterTable(Entry(TABLE_APPS, TYPE_DATA, p + TABLE_SIZE));
    }

    /** `msm_dump_table_register`. */
    method RegisterTable(e: Entry) returns (ret: int)
      requires base.entries.Length == MAX_DUMP_ENTRIES
      modifies base`numEntries, base.entries
      ensures ret == 0 <==> old(base.numEntries) < 336
      ensures ret == 0 ==> base.numEntries == old(base.numEntries) + 1
                           && base.entries[..] == old(base.entries[..])[old(base.numEntries) := e.(kind := TYPE_TABLE)]
      ensures ret != 0 ==> ret == -EINVAL && unchanged(base) && unchanged(base.entries)
    {
      if base.numEntries >= MAX_DUMP_ENTRIES { return -EINVAL; }
      base.entries[base.numEntries] := e.(kind := TYPE_TABLE);
      base.numEntries := base.numEntries + 1;
      ret := 0;
    }

    /** `msm_dump_get_table`: the offset of the first table with this id. */
    method GetTable(id: Word) returns (offset: Option<int>)
      requires base.entries.Length == MAX_DUMP_ENTRIES
      ensures var k := First(base.entries[..], (e: Entry) => e.id == id);
              offset == if k == MAX_DUMP_ENTRIES || base.entries[k].addr == 0 then None
                        else Some(base.entries[k].addr - tablePhys)
    {
      var i := 0;
      while i < MAX_DUMP_ENTRIES && base.entries[i].id != id
        invariant i <= MAX_DUMP_ENTRIES && forall j | 0 <= j < i :: base.entries[j].id != id
      {
        i := i + 1;
      }
      assert forall j | 0 <= j < MAX_DUMP_ENTRIES :: base.entries[..][j] == base.entries[j];
      if i == MAX_DUMP_ENTRIES || base.entries[i].addr == 0 { return None; }
      offset := Some(base.entries[i].addr - tablePhys);
    }

    /** `register_dump_table_entry` for the apps table, found at its offset from the base. */
    method Register(e: Entry, p: nat) returns (ret: int)
      requires Ready(p)
      modifies apps`numEntries, apps.entries
      ensures ret == 0 <==> old(apps.numEntries) < 336
      ensures ret == 0 ==> apps.numEntries == old(apps.numEntries) + 1
                           && apps.entries[..] == old(apps.entries[..])[old(apps.numEntries) := e.(kind := TYPE_DATA)]
      ensures ret != 0 ==> ret == -EINVAL && unchanged(apps) && unchanged(apps.entries)
    {
      var offset := GetTable(TABLE_APPS);
      assert base.entries[..][0].id == TABLE_APPS;
      assert offset == Some(TABLE_SIZE);
      if offset.None? || apps.numEntries >= MAX_DUMP_ENTRIES { return -EINVAL; }
      apps.entries[apps.numEntries] := e.(kind := TYPE_DATA);
      apps.numEntries := apps.numEntries + 1;
      ret := 0;
    }

    /** `mem_dump_alloc`, `dma` being what the allocator answered: no memory, or the virtual and
        physical address of zeroed memory of the size asked for. */
    method Alloc(nodes: seq<Node>, dma: Option<(nat, nat)>) returns (ret: int, total: nat)
      requires Shaped() && base.numEntries == 0 && Lists([]) && Describes([]) && buffers == map[]
      modifies this, base, apps, base.entries, apps.entries
      ensures total == TotalSize(nodes)
      ensures dma.None? ==> ret == -ENOMEM && unchanged(this) && unchanged(apps)
      ensures dma.Some? ==> var (v, p) := dma.value; var bs := Blocks(nodes, |nodes|, v, p);
                            ret == LastAnswer(nodes, |nodes|) && Lists(bs) && Describes(bs) && buffers == Buffers(bs)
    {
      total := CountSpace(nodes);
      if dma.None? { return -ENOMEM, total; }
      var (v, p) := dma.value;
      ret := Init(p);
      ret := Place(nodes, v, p);
    }

    /** The first pass. */
    method CountSpace(nodes: seq<Node>) returns (total: nat)
      ensures total == TotalSize(nodes)
    {
      total := 2 * TABLE_SIZE;
      var noOfNodes := 0;
      ghost var sizes := 0;
      for i := 0 to |nodes|
        invariant total == 2 * TABLE_SIZE + sizes && sizes + DATA_SIZE * noOfNodes == Prefix(CountedAll(nodes), i)
      {
        if nodes[i].size.None? { continue; }
        total := total + nodes[i].size.value;
        sizes := sizes + nodes[i].size.value;
        noOfNodes := noOfNodes + 1;
      }
      total := AlignUp(total + DATA_SIZE * noOfNodes);
    }

    /** The second pass. */
    method Place(nodes: seq<Node>, v: nat, p: nat) returns (ret: int)
      requires Ready(p) && Lists([]) && Describes([]) && buffers == map[]
      modifies this`descriptors, this`buffers, apps`numEntries, apps.entries
      ensures var bs := Blocks(nodes, |nodes|, v, p); Lists(bs) && Describes(bs) && buffers == Buffers(bs)
      ensures ret == LastAnswer(nodes, |nodes|)
    {
      hide Blocks, Cursor, LastAnswer, Buffers, Lists, Describes, Ready, Name32;
      NothingPlaced(nodes, v, p);
      ret := 0;
      var dumpVaddr, physAddr := v + 2 * TABLE_SIZE, p + 2 * TABLE_SIZE;
      for i := 0 to |nodes|
        invariant Ready(p) && dumpVaddr == v + Cursor(nodes, i) && physAddr == p + Cursor(nodes, i)
        invariant var bs := Blocks(nodes, i, v, p); Lists(bs) && Describes(bs) && buffers == Buffers(bs)
        invariant ret == LastAnswer(nodes, i)
      {
        var n := nodes[i];
        PlaceNext(nodes, i, v, p);
        ret := -EINVAL;
        if n.size.None? || n.id.None? { continue; }
        ret := PlaceOne(n, dumpVaddr, physAddr, p, Blocks(nodes, i, v, p));
        dumpVaddr := dumpVaddr + n.size.value + DATA_SIZE;
        physAddr := physAddr + n.size.value + DATA_SIZE;
      }
    }

    /** One node: its descriptor, its table entry if there is room, its driver. */
    method PlaceOne(n: Node, dumpVaddr: nat, physAddr: nat, p: nat, ghost bs: seq<Block>) returns (ret: int)
      requires Ready(p) && Placed(n) && Lists(bs) && Describes(bs) && buffers == Buffers(bs)
      requires forall k | 0 <= k < |bs| :: bs[k].vaddr < dumpVaddr
      modifies this`descriptors, this`buffers, apps`numEntries, apps.entries
      ensures Ready(p) && ret == if |bs| < MAX_DUMP_ENTRIES then 0 else -EINVAL
      ensures var b := Block(dumpVaddr, physAddr, n.id.value, n.size.value, Name32(n.name));
              Lists(bs + [b]) && Describes(bs + [b]) && buffers == Buffers(bs + [b])
    {
      hide Buffers, Name32, Describes, Lists;
      var id, size := n.id.value, n.size.value;
      ghost var b := Block(dumpVaddr, physAddr, id, size, Name32(n.name));
      BuffersSnoc(bs, b);
      WriteDescriptor(dumpVaddr, DumpData(Name32(n.name), physAddr + DATA_SIZE, size), bs, b);
      ret := ListBlock(Entry(id, TYPE_DATA, physAddr), p, bs, b);
      if id == CPUSS_REGDUMP || SPR_DUMP_CPU0 <= id <= SPR_DUMP_CPU7 {
        buffers := buffers[id := (dumpVaddr + DATA_SIZE, size)];
      }
    }

    /** The table entry, for which there may be no room. */
    method ListBlock(e: Entry, p: nat, ghost bs: seq<Block>, ghost b: Block) returns (ret: int)
      requires Ready(p) && Lists(bs) && e.id == b.id && e.addr == b.phys
      modifies apps`numEntries, apps.entries
      ensures Ready(p) && Lists(bs + [b]) && ret == if |bs| < MAX_DUMP_ENTRIES then 0 else -EINVAL
    {
      ret := Register(e, p);
      ghost var n := old(apps.numEntries);
      assert ret == 0 ==> n == |bs| && apps.entries[n] == apps.entries[..][n];
      forall k | 0 <= k < apps.numEntries
        ensures apps.entries[k] == Entry((bs + [b])[k].id, TYPE_DATA, (bs + [b])[k].phys)
      {
        if k < n { assert apps.entries[..][k] == old(apps.entries[..])[k]; }
      }
    }

    /** The descriptor at the start of a block behind all others. */
    method WriteDescriptor(at: nat, d: DumpData, ghost bs: seq<Block>, ghost b: Block)
      requires Describes(bs) && forall k | 0 <= k < |bs| :: bs[k].vaddr < at
      requires b.vaddr == at && d == DumpData(b.name, b.phys + DATA_SIZE, b.size)
      modifies this`descriptors
      ensures Describes(bs + [b])
    {
      descriptors := descriptors[at := d];
      assert (bs + [b])[|bs|] == b;
      forall a | a in descriptors ensures exists k :: 0 <= k < |bs + [b]| && (bs + [b])[k].vaddr == a {
        if a != at {
          var k :| 0 <= k < |bs| && bs[k].vaddr == a;
          assert (bs + [b])[k].vaddr == a;
        }
      }
    }
  }

  lemma NothingPlaced(nodes: seq<Node>, v: nat, p: nat)
    ensures Blocks(nodes, 0, v, p) == [] && Cursor(nodes, 0) == 2 * TABLE_SIZE && LastAnswer(nodes, 0) == 0
    ensures Buffers([]) == map[]
  {
  }

  /** What one node changes. */
  lemma PlaceNext(nodes: seq<Node>, i: nat, v: nat, p: nat)
    requires i < |nodes|
    ensures var n, at, bs := nodes[i], Cursor(nodes, i), Blocks(nodes, i, v, p);
            && (forall k | 0 <= k < |bs| :: bs[k].vaddr < v + at || !Placed(n))
            && Cursor(nodes, i + 1) == at + Taken(n)
            && Blocks(nodes, i + 1, v, p) ==
               (if Placed(n) then bs + [Block(v + at, p + at, n.id.value, n.size.value, Name32(n.name))] else bs)
            && LastAnswer(nodes, i + 1) == if Placed(n) && |bs| < MAX_DUMP_ENTRIES then 0 else -EINVAL
  {
    BlocksCount(nodes, i, v, p);
    if Placed(nodes[i]) { AddressesDistinct(nodes, i, v, p); }
  }

  lemma BuffersSnoc(bs: seq<Block>, b: Block)
    ensures Buffers(bs + [b]) ==
            if HasDriver(b.id) then Buffers(bs)[b.id := (b.vaddr + DATA_SIZE, b.size)] else Buffers(bs)
  {
    assert (bs + [b])[..|bs|] == bs;
  }

  /** Every registered entry leads, through its physical address, to the descriptor of its own
      block, and that to the block's own payload. */
  lemma EntriesLeadHome(m: MemDump, nodes: seq<Node>, v: nat, p: nat, k: nat)
    requires var bs := Blocks(nodes, |nodes|, v, p); m.Lists(bs) && m.Describes(bs)
    requires k < m.apps.numEntries
    ensures var bs := Blocks(nodes, |nodes|, v, p); var e := m.apps.entries[k]; var at := e.addr - p + v;
            && k < |bs| && at in m.descriptors && bs[k].id == e.id && e.kind == 0 && bs[k].vaddr == at
            && m.descriptors[at].addr == e.addr + DATA_SIZE && m.descriptors[at].len == bs[k].size
            && forall a | a in m.descriptors && a != at :: a + DATA_SIZE + m.descriptors[a].len <= at || End(bs[k]) <= a
  {
    LayoutSound(nodes, v, p);
    hide Blocks, TotalSize, Prefix;
    BlocksLeadHome(m, Blocks(nodes, |nodes|, v, p), v, p, TotalSize(nodes), k);
  }

  lemma BlocksLeadHome(m: MemDump, bs: seq<Block>, v: nat, p: nat, hi: nat, k: nat)
    requires InOrder(bs, v, p, hi) && m.Lists(bs) && m.Describes(bs) && k < m.apps.numEntries
    ensures var e := m.apps.entries[k]; var at := e.addr - p + v;
            && k < |bs| && at in m.descriptors && bs[k].id == e.id && e.kind == 0 && bs[k].vaddr == at
            && m.descriptors[at].addr == e.addr + DATA_SIZE && m.descriptors[at].len == bs[k].size
            && forall a | a in m.descriptors && a != at :: a + DATA_SIZE + m.descriptors[a].len <= at || End(bs[k]) <= a
  {
    var e := m.apps.entries[k];
    assert e == Entry(bs[k].id, TYPE_DATA, bs[k].phys) && bs[k].vaddr - v == bs[k].phys - p;
    var at := e.addr - p + v;
    forall a | a in m.descriptors && a != at
      ensures a + DATA_SIZE + m.descriptors[a].len <= at || End(bs[k]) <= a
    {
      var j :| 0 <= j < |bs| && bs[j].vaddr == a;
      TwoApart(bs, v, p, hi, j, k);
    }
  }
}
