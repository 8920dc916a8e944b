/** The resource-manager back end as a protocol: clients, each call one critical section, and one
    worker that takes queued requests in order, each request two critical sections around
    unlocked calls to the resource manager. Any interleaving of their steps is a run. */
module RmProtocol {
  import opened Kernel
  import opened Sequences
  import opened Regions
  import opened ElfImage
  import opened ElfMemory

  /** `struct md_rm_region`. */
  datatype RmEntry = RmEntry(name: CString, slot: nat)

  datatype Cmd = AddCmd | UpdateCmd | RemoveCmd
  datatype Request = Request(cmd: Cmd, r: Region)

  /** Where the worker stands: the request it holds, the table index its first section found,
      and the slot or answer it carries. */
  datatype Worker =
    | Idle
    | Adding(r: Region, at: nat)
    | Added(r: Region, at: nat, answer: Option<nat>)
    | Updating(r: Region, at: nat, slot: nat)
    | Reregistering(r: Region, at: nat)
    | Updated(r: Region, at: nat, newSlot: nat)
    | Removing(r: Region, at: nat, slot: nat)
    | Unlinking(r: Region, at: nat)

  /** `entries` are the `num_regions` live cells; `granted` maps every slot the resource manager
      has granted and not taken back to the name it was granted for; `ready` is `md_init_done`. */
  datatype Rm = Rm(fx: Frame, entries: seq<RmEntry>, queue: seq<Request>, worker: Worker, elf: Header,
                   granted: map<nat, CString>, ready: bool)

  /** The resource manager's answer to one unlocked call. */
  datatype Reply = Slot(slot: nat) | NoSlot | Released | Denied

  datatype Event =
    | ClientAdd(r: Region, alloc: bool)
    | ClientUpdate(regno: nat, r: Region, alloc: bool)
    | ClientRemove(r: Region, alloc: bool)
    | Ready
    | Start
    | Call(reply: Reply)
    | Finish

  function RmEntryNum(entries: seq<RmEntry>, name: CString): (i: nat)
    ensures i <= |entries|
    ensures i < |entries| ==> entries[i].name == name
    ensures forall j | 0 <= j < i :: entries[j].name != name
  {
    First(entries, (e: RmEntry) => e.name == name)
  }

  // ------------------------------------------------------------------ client sections

  /** Until the driver says it is ready, names are not compared. */
  function AddAnswer(s: Rm, r: Region, alloc: bool): int {
    if !ValidRegion(r) then -EINVAL
    else if |s.entries| >= s.fx.max then -ENOMEM
    else if s.ready && RmEntryNum(s.entries, r.name) < |s.entries| then -EEXIST
    else if !alloc then -ENOMEM
    else |s.entries|
  }

  /** Between the drain of the pending list and the moment the driver says it is ready, an add goes to
      that list, which nobody reads any more, and yet is counted: its cell stays blank. */
  function OnAdd(s: Rm, r: Region, alloc: bool): Rm {
    if AddAnswer(s, r, alloc) < 0 then s
    else if !s.ready then s.(entries := s.entries + [RmEntry("", 0)])
    else s.(entries := s.entries + [RmEntry(r.name, 0)], queue := s.queue + [Request(AddCmd, r)])
  }

  /** The handle is compared with the capacity and then forgotten: updates go by name. */
  function UpdateAnswer(s: Rm, regno: nat, r: Region, alloc: bool): int {
    if !s.ready || !ValidRegion(r) || regno >= s.fx.max then -EINVAL
    else if RmEntryNum(s.entries, r.name) == |s.entries| then -ENOENT
    else if !alloc then -ENOMEM
    else 0
  }

  function OnUpdate(s: Rm, regno: nat, r: Region, alloc: bool): Rm {
    if UpdateAnswer(s, regno, r, alloc) < 0 then s else s.(queue := s.queue + [Request(UpdateCmd, r)])
  }

  function RemoveAnswer(s: Rm, r: Region, alloc: bool): int {
    if !s.ready then -EINVAL
    else if RmEntryNum(s.entries, r.name) == |s.entries| then -ENOENT
    else if !alloc then -ENOMEM
    else 0
  }

  function OnRemove(s: Rm, r: Region, alloc: bool): Rm {
    if RemoveAnswer(s, r, alloc) < 0 then s else s.(queue := s.queue + [Request(RemoveCmd, r)])
  }

  // ------------------------------------------------------------------ worker sections

  function ClearSlot(entries: seq<RmEntry>, at: nat): seq<RmEntry>
    requires at < |entries|
  {
    entries[at := entries[at].(slot := 0)]
  }

  /** The first critical section of the request at the head of the queue. */
  function OnStart(s: Rm): Rm
    requires s.worker.Idle? && s.queue != []
  {
    var q, t := s.queue[0], s.(queue := s.queue[1..]);
    var at := RmEntryNum(s.entries, q.r.name);
    if at == |s.entries| then t
    else
      match q.cmd
      case AddCmd => t.(worker := Adding(q.r, at))
      case UpdateCmd => t.(entries := ClearSlot(s.entries, at), worker := Updating(q.r, at, s.entries[at].slot))
      case RemoveCmd =>
        if s.entries[at].slot == 0 then t
        else t.(entries := ClearSlot(s.entries, at), worker := Removing(q.r, at, s.entries[at].slot))
  }

  /** Which replies the resource manager may give: a granted slot is nonzero and free, and slot 0
      is never released. */
  predicate ReplyOk(s: Rm, reply: Reply) {
    match s.worker
    case Adding(_, _) => reply.NoSlot? || (reply.Slot? && reply.slot != 0 && reply.slot !in s.granted)
    case Reregistering(_, _) => reply.NoSlot? || (reply.Slot? && reply.slot != 0 && reply.slot !in s.granted)
    case Updating(_, _, slot) => reply.Denied? || (reply.Released? && slot != 0)
    case Removing(_, _, slot) => reply.Denied? || (reply.Released? && slot != 0)
    case _ => false
  }

  /** An unlocked call and the local step that follows it. */
  function OnCall(s: Rm, reply: Reply): Rm
    requires ReplyOk(s, reply)
  {
    match s.worker
    case Adding(r, at) =>
      if reply.Slot? then s.(worker := Added(r, at, Some(reply.slot)), granted := s.granted[reply.slot := r.name])
      else s.(worker := Added(r, at, None))
    case Reregistering(r, at) =>
      if reply.Slot? then s.(worker := Updated(r, at, reply.slot), granted := s.granted[reply.slot := r.name])
      else s.(worker := Idle)
    case Updating(r, at, slot) =>
      if reply.Released? then s.(worker := Reregistering(r, at), granted := s.granted - {slot}) else s.(worker := Idle)
    case Removing(r, at, slot) =>
      if reply.Released? then s.(worker := Unlinking(r, at), granted := s.granted - {slot}) else s.(worker := Idle)
  }

  /** The cell the second section comes back to still carries the requested name. The driver
      reports a corrupt table otherwise. */
  predicate TableIntact(s: Rm) {
    s.worker.Idle? || (s.worker.at < |s.entries| && s.entries[s.worker.at].name == s.worker.r.name)
  }

  predicate FinishReady(s: Rm) {
    && (s.worker.Added? || s.worker.Updated? || s.worker.Unlinking?) && TableIntact(s)
    && (s.worker.Added? && s.worker.answer.Some? ==> HasRoom(s.elf, s.worker.r))
    && (s.worker.Unlinking? ==> ClearInBounds(Image(s.elf), s.worker.r))
  }

  /** The second critical section. */
  function OnFinish(s: Rm): Rm
    requires FinishReady(s)
  {
    var t := s.(worker := Idle);
    match s.worker
    case Added(r, at, None) => t.(entries := Drop(s.entries, at))
    case Added(r, at, Some(slot)) =>
      t.(entries := s.entries[at := s.entries[at].(slot := slot)], elf := AddHeaders(s.elf, r))
    case Updated(r, at, slot) =>
      t.(entries := s.entries[at := s.entries[at].(slot := slot)], elf := PatchHeaders(s.elf, at, r))
    case Unlinking(r, at) =>
      var (elf, ret) := ClearMemory(s.elf, r);
      if ret != 0 then t else t.(entries := Drop(s.entries, at), elf := elf)
  }

  predicate Enabled(s: Rm, ev: Event) {
    match ev
    case ClientAdd(_, _) => true
    case ClientUpdate(_, _, _) => true
    case ClientRemove(_, _) => true
    case Ready => true
    case Start => s.worker.Idle? && s.queue != []
    case Call(reply) => ReplyOk(s, reply)
    case Finish => FinishReady(s)
  }

  function Next(s: Rm, ev: Event): Rm
    requires Enabled(s, ev)
  {
    match ev
    case ClientAdd(r, alloc) => OnAdd(s, r, alloc)
    case ClientUpdate(regno, r, alloc) => OnUpdate(s, regno, r, alloc)
    case ClientRemove(r, alloc) => OnRemove(s, r, alloc)
    case Ready => s.(ready := true)
    case Start => OnStart(s)
    case Call(reply) => OnCall(s, reply)
    case Finish => OnFinish(s)
  }

  // ------------------------------------------------------------------ the invariant

  /** The regions whose ADD is in flight. */
  function InFlight(w: Worker): seq<Region> {
    if w.Adding? || w.Added? then [w.r] else []
  }

  /** The regions whose ADD is still queued, in queue order. */
  function QueuedAdds(queue: seq<Request>): seq<Region> {
    if queue == [] then []
    else (if queue[0].cmd.AddCmd? then [queue[0].r] else []) + QueuedAdds(queue[1..])
  }

  function Waiting(s: Rm): seq<Region> { InFlight(s.worker) + QueuedAdds(s.queue) }

  /** The name table is the regions with headers, then the regions still waiting for theirs. */
  predicate TableIs(entries: seq<RmEntry>, D: seq<Region>, W: seq<Region>) {
    && |entries| == |D| + |W|
    && (forall i | 0 <= i < |D| :: entries[i].name == D[i].name)
    && (forall i | |D| <= i < |entries| :: entries[i].name == W[i - |D|].name && entries[i].slot == 0)
  }

  predicate DistinctEntries(entries: seq<RmEntry>) {
    forall i, j | 0 <= i < j < |entries| :: entries[i].name != entries[j].name
  }

  /** Every nonzero slot in the table is one the resource manager granted for that very name. */
  predicate SlotsOwned(entries: seq<RmEntry>, granted: map<nat, CString>) {
    forall i | 0 <= i < |entries| && entries[i].slot != 0 ::
      entries[i].slot in granted && granted[entries[i].slot] == entries[i].name
  }

  /** Adds and updates are validated before they are queued, removals are not. */
  predicate QueueOk(queue: seq<Request>) {
    forall i | 0 <= i < |queue| :: queue[i].cmd.RemoveCmd? || ValidRegion(queue[i].r)
  }

  /** What the worker found is still there, and the slot it carries is its own. */
  predicate WorkerOk(s: Rm, n: nat) {
    match s.worker
    case Idle => true
    case Adding(r, at) => ValidRegion(r) && at == n
    case Added(r, at, answer) => ValidRegion(r) && at == n && (answer.Some? ==> Holds(s, at, answer.value, r))
    case Updating(r, at, slot) => ValidRegion(r) && TableIntact(s) && (slot != 0 ==> at < n && Holds(s, at, slot, r))
    case Reregistering(r, at) => ValidRegion(r) && TableIntact(s) && at < n && s.entries[at].slot == 0
    case Updated(r, at, slot) => ValidRegion(r) && TableIntact(s) && at < n && Holds(s, at, slot, r)
    case Removing(r, at, slot) => TableIntact(s) && at < n && slot != 0 && Holds(s, at, slot, r)
    case Unlinking(r, at) => TableIntact(s) && at < n && s.entries[at].slot == 0
  }

  /** The worker alone holds `slot`, granted for `r`; the table cell shows none. */
  predicate Holds(s: Rm, at: nat, slot: nat, r: Region) {
    slot != 0 && slot in s.granted && s.granted[slot] == r.name && at < |s.entries| && s.entries[at].slot == 0
  }

  /** `D` are the regions that have been given ELF headers, in that order: the name table is they and the
      waiting ones, every slot is owned, and the header counts are those of `D`. */
  predicate TableInv(s: Rm, D: seq<Region>) {
    && TableIs(s.entries, D, Waiting(s)) && DistinctEntries(s.entries) && |s.entries| <= s.fx.max
    && AllValid(Waiting(s)) && QueueOk(s.queue)
    && SlotsOwned(s.entries, s.granted) && WorkerOk(s, |D|) && Counted(s.elf, s.fx, D)
  }

  /** And the headers are theirs. */
  predicate Inv(s: Rm, D: seq<Region>) { TableInv(s, D) && Depicts(s.elf, s.fx, D) }
}
