/** What becomes of the requests and of the slots in the resource-manager back end: every accepted call
    is carried out once and in order, and no granted slot is ever lost but by a denied release. */
module RmSlots {
  import opened Kernel
  import opened Sequences
  import opened Regions
  import opened ElfImage
  import opened ElfMemory
  import opened RmProtocol
  import opened RmLaws

  // ------------------------------------------------------------------ answers and requests

  predicate Named(entries: seq<RmEntry>, name: CString) {
    exists i :: 0 <= i < |entries| && entries[i].name == name
  }

  /** Every answer of the three calls, in numbers. */
  lemma ClientAnswers(s: Rm, regno: nat, r: Region, alloc: bool)
    ensures var ok, a := |r.name| <= 12 && r.virt != 0 && r.size % 4 == 0, AddAnswer(s, r, alloc);
            && (a == -22 <==> !ok)
            && (a == -17 <==> ok && |s.entries| < s.fx.max && s.ready && Named(s.entries, r.name))
            && (a == |s.entries| <==> ok && |s.entries| < s.fx.max && !(s.ready && Named(s.entries, r.name)) && alloc)
            && (a == |s.entries| || a == -12 || a == -17 || a == -22)
    ensures var ok, a := |r.name| <= 12 && r.virt != 0 && r.size % 4 == 0, UpdateAnswer(s, regno, r, alloc);
            && (a == -22 <==> !s.ready || !ok || regno >= s.fx.max)
            && (a == -2 <==> s.ready && ok && regno < s.fx.max && !Named(s.entries, r.name))
            && (a == 0 <==> s.ready && ok && regno < s.fx.max && Named(s.entries, r.name) && alloc)
            && (a == 0 || a == -2 || a == -12 || a == -22)
    ensures var a := RemoveAnswer(s, r, alloc);
            && (a == -22 <==> !s.ready) && (a == -2 <==> s.ready && !Named(s.entries, r.name))
            && (a == 0 <==> s.ready && Named(s.entries, r.name) && alloc)
            && (a == 0 || a == -2 || a == -12 || a == -22)
  {
    var i := RmEntryNum(s.entries, r.name);
    assert Named(s.entries, r.name) <==> i < |s.entries|;
    hide RmEntryNum, Named;
  }

  /** The request an event brings in, by what it answers. */
  function Accepted(s: Rm, ev: Event): seq<Request> {
    match ev
    case ClientAdd(r, alloc) => if s.ready && AddAnswer(s, r, alloc) >= 0 then [Request(AddCmd, r)] else []
    case ClientUpdate(regno, r, alloc) => if UpdateAnswer(s, regno, r, alloc) == 0 then [Request(UpdateCmd, r)] else []
    case ClientRemove(r, alloc) => if RemoveAnswer(s, r, alloc) == 0 then [Request(RemoveCmd, r)] else []
    case _ => []
  }

  /** The request the worker takes up. */
  function TakenUp(s: Rm, ev: Event): seq<Request>
    requires Enabled(s, ev)
  {
    if ev.Start? then [s.queue[0]] else []
  }

  function AcceptedAll(s: Rm, evs: seq<Event>): seq<Request>
    requires RunOk(s, evs)
    decreases |evs|
  {
    if evs == [] then [] else Accepted(s, evs[0]) + AcceptedAll(Next(s, evs[0]), evs[1..])
  }

  function TakenUpAll(s: Rm, evs: seq<Event>): seq<Request>
    requires RunOk(s, evs)
    decreases |evs|
  {
    if evs == [] then [] else TakenUp(s, evs[0]) + TakenUpAll(Next(s, evs[0]), evs[1..])
  }

  lemma QueueStep(s: Rm, ev: Event)
    requires Enabled(s, ev)
    ensures s.queue + Accepted(s, ev) == TakenUp(s, ev) + Next(s, ev).queue
  {
    hide OnAdd, OnUpdate, OnRemove, OnStart, OnCall, OnFinish, ReplyOk, FinishReady, AddAnswer, UpdateAnswer,
        RemoveAnswer;
    match ev
    case ClientAdd(_, _) => ClientQueue(s, ev);
    case ClientUpdate(_, _, _) => ClientQueue(s, ev);
    case ClientRemove(_, _) => ClientQueue(s, ev);
    case Ready =>
    case Start => StartQueue(s);
    case Call(reply) => CallQueue(s, reply);
    case Finish => FinishQueue(s);
  }

  lemma ClientQueue(s: Rm, ev: Event)
    requires ev.ClientAdd? || ev.ClientUpdate? || ev.ClientRemove?
    ensures Enabled(s, ev) && Next(s, ev).queue == s.queue + Accepted(s, ev)
  {
    hide RmEntryNum, ValidRegion;
    assert s.queue + [] == s.queue;
  }

  lemma StartQueue(s: Rm)
    requires s.worker.Idle? && s.queue != []
    ensures s.queue == [s.queue[0]] + OnStart(s).queue
  {
    hide RmEntryNum, ClearSlot;
  }

  lemma CallQueue(s: Rm, reply: Reply)
    requires ReplyOk(s, reply)
    ensures OnCall(s, reply).queue == s.queue
  {
  }

  lemma FinishQueue(s: Rm)
    requires FinishReady(s)
    ensures OnFinish(s).queue == s.queue
  {
    hide AddHeaders, PatchHeaders, ClearMemory, HasRoom, ClearInBounds, Drop;
  }

  /** The worker takes up exactly the accepted requests, each once, in the order of the calls; what it has
      not taken up yet is still queued. */
  lemma {:induction false} QueueConserves(s: Rm, evs: seq<Event>)
    requires RunOk(s, evs)
    ensures s.queue + AcceptedAll(s, evs) == TakenUpAll(s, evs) + Final(s, evs).queue
    decreases |evs|
  {
    if evs != [] {
      hide Accepted, TakenUp, Next, EventOk;
      EventIsEnabled(s, [], evs);
      QueueStep(s, evs[0]);
      var t := Next(s, evs[0]);
      QueueConserves(t, evs[1..]);
      var a, b, c, d := Accepted(s, evs[0]), AcceptedAll(t, evs[1..]), TakenUp(s, evs[0]), TakenUpAll(t, evs[1..]);
      Shuffle(s.queue, a, b, c, t.queue, d, Final(t, evs[1..]).queue);
    }
  }

  lemma Shuffle(q: seq<Request>, a: seq<Request>, b: seq<Request>, c: seq<Request>, q1: seq<Request>, d: seq<Request>,
                q2: seq<Request>)
    requires q + a == c + q1 && q1 + b == d + q2
    ensures q + (a + b) == (c + d) + q2
  {
    assert q + (a + b) == (q + a) + b == c + (q1 + b);
  }

  // ------------------------------------------------------------------ granted slots

  predicate InCell(entries: seq<RmEntry>, slot: nat) {
    exists i :: 0 <= i < |entries| && entries[i].slot == slot
  }

  /** The slot the worker carries between its sections; 0 is none. */
  function Carried(w: Worker): nat {
    match w
    case Added(_, _, Some(slot)) => slot
    case Updating(_, _, slot) => slot
    case Updated(_, _, slot) => slot
    case Removing(_, _, slot) => slot
    case _ => 0
  }

  /** Slots granted and not taken back that neither a cell nor the worker holds. */
  function Strays(s: Rm): set<nat> {
    set g | g in s.granted && g != 0 && g != Carried(s.worker) && !InCell(s.entries, g)
  }

  /** The slot whose release the resource manager denies. */
  function DeniedSlot(s: Rm, ev: Event): set<nat> {
    if ev.Call? && ev.reply.Denied? && (s.worker.Updating? || s.worker.Removing?) && s.worker.slot != 0
    then {s.worker.slot} else {}
  }

  function DeniedSlots(s: Rm, evs: seq<Event>): set<nat>
    requires RunOk(s, evs)
    decreases |evs|
  {
    if evs == [] then {} else DeniedSlot(s, evs[0]) + DeniedSlots(Next(s, evs[0]), evs[1..])
  }

  /** Writing one cell. */
  lemma SlotWritten(entries: seq<RmEntry>, at: nat, slot: nat)
    requires at < |entries|
    ensures forall g | g != entries[at].slot && g != slot ::
              InCell(entries[at := entries[at].(slot := slot)], g) <==> InCell(entries, g)
    ensures InCell(entries[at := entries[at].(slot := slot)], slot)
  {
    var more := entries[at := entries[at].(slot := slot)];
    assert more[at].slot == slot;
    forall g | g != entries[at].slot && g != slot ensures InCell(more, g) <==> InCell(entries, g) {
      if InCell(entries, g) {
        var i :| 0 <= i < |entries| && entries[i].slot == g;
        assert more[i].slot == g;
      }
    }
  }

  /** Dropping a cell without a slot. */
  lemma SlotDropped(entries: seq<RmEntry>, at: nat)
    requires at < |entries| && entries[at].slot == 0
    ensures forall g | g != 0 :: InCell(Drop(entries, at), g) <==> InCell(entries, g)
  {
    var rest := Drop(entries, at);
    forall g | g != 0 ensures InCell(rest, g) <==> InCell(entries, g) {
      if InCell(entries, g) {
        var i :| 0 <= i < |entries| && entries[i].slot == g;
        assert rest[if i < at then i else i - 1].slot == g;
      }
      if InCell(rest, g) {
        var i :| 0 <= i < |rest| && rest[i].slot == g;
        assert entries[if i < at then i else i + 1].slot == g;
      }
    }
  }

  lemma SlotAppended(entries: seq<RmEntry>, e: RmEntry)
    requires e.slot == 0
    ensures forall g | g != 0 :: InCell(entries + [e], g) <==> InCell(entries, g)
  {
    forall g | g != 0 ensures InCell(entries + [e], g) <==> InCell(entries, g) {
      if InCell(entries, g) {
        var i :| 0 <= i < |entries| && entries[i].slot == g;
        assert (entries + [e])[i].slot == g;
      }
    }
  }

  /** What the invariant says of the cell the worker is concerned with. */
  lemma WorkerCell(s: Rm, D: seq<Region>)
    requires TableInv(s, D)
    ensures s.worker.Added? || s.worker.Updated? || s.worker.Unlinking? ==>
              s.worker.at < |s.entries| && s.entries[s.worker.at].slot == 0
    ensures (s.worker.Updating? || s.worker.Removing?) && s.worker.slot != 0 ==>
              s.worker.slot in s.granted && !InCell(s.entries, s.worker.slot)
  {
    SlotOwnership(s, D);
    if s.worker.Added? { assert Waiting(s) == [s.worker.r] + QueuedAdds(s.queue); }
  }

  lemma StartStrays(s: Rm)
    requires s.worker.Idle? && s.queue != []
    ensures Strays(OnStart(s)) == Strays(s)
  {
    var at := RmEntryNum(s.entries, s.queue[0].r.name);
    if at < |s.entries| { SlotWritten(s.entries, at, 0); }
    hide InCell, RmEntryNum;
  }

  lemma CallStrays(s: Rm, D: seq<Region>, reply: Reply)
    requires TableInv(s, D) && ReplyOk(s, reply)
    ensures Strays(OnCall(s, reply)) == Strays(s) + DeniedSlot(s, Call(reply))
  {
    WorkerCell(s, D);
    CallMoves(s, reply);
    hide TableInv, InCell, ReplyOk, OnCall, Carried;
  }

  /** What a reply does to the granted slots and to the one the worker carries. */
  lemma CallMoves(s: Rm, reply: Reply)
    requires ReplyOk(s, reply)
    ensures var t, w := OnCall(s, reply), s.worker;
            && t.entries == s.entries
            && match reply
               case Slot(g) => Carried(t.worker) == g && Carried(w) == 0 && t.granted.Keys == s.granted.Keys + {g}
               case NoSlot => Carried(t.worker) == Carried(w) == 0 && t.granted == s.granted
               case Released =>
                 && (w.Updating? || w.Removing?) && Carried(t.worker) == 0 && Carried(w) == w.slot != 0
                 && t.granted.Keys == s.granted.Keys - {w.slot}
               case Denied =>
                 && (w.Updating? || w.Removing?) && Carried(t.worker) == 0 && Carried(w) == w.slot
                 && t.granted == s.granted
  {
  }

  lemma FinishStrays(s: Rm, D: seq<Region>)
    requires TableInv(s, D) && FinishReady(s)
    ensures Strays(OnFinish(s)) == Strays(s)
  {
    WorkerCell(s, D);
    hide TableInv, InCell, AddHeaders, PatchHeaders, ClearMemory, HasRoom, ClearInBounds, Drop;
    var at := s.worker.at;
    SlotDropped(s.entries, at);
    SlotWritten(s.entries, at, Carried(s.worker));
  }

  /** One step: a denied release is the only one that leaves a slot with nobody. */
  lemma StrayStep(s: Rm, D: seq<Region>, ev: Event)
    requires TableInv(s, D) && EventOk(s, ev)
    ensures Strays(Next(s, ev)) == Strays(s) + DeniedSlot(s, ev)
  {
    hide TableInv, InCell, OnStart, OnCall, OnFinish, ReplyOk, FinishReady, AddAnswer, UpdateAnswer, RemoveAnswer;
    match ev
    case ClientAdd(r, alloc) => SlotAppended(s.entries, RmEntry(r.name, 0)); SlotAppended(s.entries, RmEntry("", 0));
    case ClientUpdate(_, _, _) =>
    case ClientRemove(_, _) =>
    case Ready =>
    case Start => StartStrays(s);
    case Call(reply) => CallStrays(s, D, reply);
    case Finish => FinishStrays(s, D);
  }

  /** Over any run. */
  lemma {:induction false} StraysOfRun(s: Rm, D: seq<Region>, evs: seq<Event>)
    requires TableInv(s, D) && RunOk(s, evs)
    ensures Strays(Final(s, evs)) == Strays(s) + DeniedSlots(s, evs)
    decreases |evs|
  {
    if evs != [] {
      hide TableInv, EventOk, Next, NextHeaders, Strays, DeniedSlot;
      EventIsEnabled(s, D, evs);
      StepKeepsTable(s, D, evs[0]);
      StrayStep(s, D, evs[0]);
      StraysOfRun(Next(s, evs[0]), NextHeaders(s, D, evs[0]), evs[1..]);
    }
  }

  /** Where a slot belongs: in the cell of the name it was granted for, or with the worker, busy with that
      name. */
  predicate AtHome(s: Rm, g: nat)
    requires g in s.granted
  {
    || (exists i :: 0 <= i < |s.entries| && s.entries[i].slot == g && s.entries[i].name == s.granted[g])
    || (!s.worker.Idle? && Carried(s.worker) == g && s.worker.r.name == s.granted[g])
  }

  /** Whatever clients, worker and resource manager do after a probe, a slot that has been granted and not
      taken back is where it belongs if and only if its release was never denied. */
  lemma SlotsStayHome(fx: Frame, pending: seq<Region>, evs: seq<Event>)
    requires |pending| <= fx.max && AllValid(pending) && DistinctNames(pending) && RunOk(Probed(fx, pending), evs)
    ensures var t := Final(Probed(fx, pending), evs);
            forall g | g in t.granted && g != 0 :: AtHome(t, g) <==> g !in DeniedSlots(Probed(fx, pending), evs)
  {
    var s := Probed(fx, pending);
    ProbedInv(fx, pending);
    assert Strays(s) == {} by { hide NewHeader; }
    hide Probed, RunOk, Final, DeniedSlots, TableInv, Strays, AtHome, Headers;
    RunKeeps(s, [], evs);
    StraysOfRun(s, [], evs);
    HomeOrStray(Final(s, evs), Headers(s, [], evs));
  }

  lemma HomeOrStray(s: Rm, D: seq<Region>)
    requires TableInv(s, D)
    ensures forall g | g in s.granted && g != 0 :: AtHome(s, g) <==> g !in Strays(s)
  {
    hide TableIs, DistinctEntries, Counted, QueueOk, AllValid;
    forall g | g in s.granted && g != 0 ensures AtHome(s, g) <==> g !in Strays(s) {
      if InCell(s.entries, g) {
        var i :| 0 <= i < |s.entries| && s.entries[i].slot == g;
        assert s.granted[s.entries[i].slot] == s.entries[i].name;
      }
    }
  }

  // ------------------------------------------------------------------ a slot until its removal

  predicate Has(s: Rm, name: CString, slot: nat) {
    exists i :: 0 <= i < |s.entries| && s.entries[i].name == name && s.entries[i].slot == slot
  }

  /** The event does not start an update or a removal of that name. */
  predicate Spares(s: Rm, ev: Event, name: CString)
    requires Enabled(s, ev)
  {
    ev.Start? ==> s.queue[0].cmd.AddCmd? || s.queue[0].r.name != name
  }

  predicate AllSpare(s: Rm, evs: seq<Event>, name: CString)
    requires RunOk(s, evs)
    decreases |evs|
  {
    evs == [] || (Spares(s, evs[0], name) && AllSpare(Next(s, evs[0]), evs[1..], name))
  }

  lemma HasStays(s: Rm, D: seq<Region>, ev: Event, name: CString, slot: nat)
    requires TableInv(s, D) && EventOk(s, ev) && Spares(s, ev, name) && slot != 0 && Has(s, name, slot)
    ensures Has(Next(s, ev), name, slot)
  {
    var i :| 0 <= i < |s.entries| && s.entries[i].name == name && s.entries[i].slot == slot;
    if ev.Finish? {
      WorkerCell(s, D);
      CellFinished(s, i);
    } else {
      hide TableInv, Has, ReplyOk, FinishReady, AddAnswer, UpdateAnswer, RemoveAnswer, RmEntryNum;
      assert Next(s, ev).entries[i] == s.entries[i] by { CellKept(s, ev, i); }
      ShowHas(Next(s, ev), i);
    }
  }

  lemma CellKept(s: Rm, ev: Event, i: nat)
    requires Enabled(s, ev) && !ev.Finish? && i < |s.entries|
    requires ev.Start? ==> s.queue[0].cmd.AddCmd? || s.queue[0].r.name != s.entries[i].name
    ensures i < |Next(s, ev).entries| && Next(s, ev).entries[i] == s.entries[i]
  {
    hide ReplyOk, FinishReady, AddAnswer, UpdateAnswer, RemoveAnswer;
  }

  lemma CellFinished(s: Rm, i: nat)
    requires FinishReady(s) && i < |s.entries| && s.entries[i].slot != 0
    requires s.worker.at < |s.entries| && s.entries[s.worker.at].slot == 0
    ensures Has(OnFinish(s), s.entries[i].name, s.entries[i].slot)
  {
    hide AddHeaders, PatchHeaders, ClearMemory, HasRoom, ClearInBounds, Has;
    var t := OnFinish(s);
    var j := if |t.entries| < |s.entries| && i > s.worker.at then i - 1 else i;
    assert t.entries[j] == s.entries[i];
    ShowHas(t, j);
  }

  lemma ShowHas(s: Rm, i: nat)
    requires i < |s.entries|
    ensures Has(s, s.entries[i].name, s.entries[i].slot)
  {
  }

  lemma {:induction false} HasStaysOverRun(s: Rm, D: seq<Region>, evs: seq<Event>, name: CString, slot: nat)
    requires TableInv(s, D) && RunOk(s, evs) && AllSpare(s, evs, name) && slot != 0 && Has(s, name, slot)
    ensures Has(Final(s, evs), name, slot)
    decreases |evs|
  {
    if evs != [] {
      hide TableInv, EventOk, Next, NextHeaders, Has, Spares;
      EventIsEnabled(s, D, evs);
      StepKeepsTable(s, D, evs[0]);
      HasStays(s, D, evs[0], name, slot);
      HasStaysOverRun(Next(s, evs[0]), NextHeaders(s, D, evs[0]), evs[1..], name, slot);
    }
  }

  /** A removal that is taken up after an ADD has been granted a slot and has finished, with no other update
      or removal of that name in between, starts with that very slot. */
  lemma RemovalStartsWithSlot(s: Rm, D: seq<Region>, evs: seq<Event>)
    requires TableInv(s, D) && s.worker.Added? && s.worker.answer.Some? && EventOk(s, Finish)
    requires RunOk(Next(s, Finish), evs) && AllSpare(Next(s, Finish), evs, s.worker.r.name)
    requires var t := Final(Next(s, Finish), evs);
             t.worker.Idle? && t.queue != [] && t.queue[0].cmd.RemoveCmd? && t.queue[0].r.name == s.worker.r.name
    ensures var t := Final(Next(s, Finish), evs); var w := OnStart(t).worker;
            && w.Removing? && w.r == t.queue[0].r && w.slot == s.worker.answer.value
            && w.at < |t.entries| && t.entries[w.at].name == w.r.name
  {
    var u, name, slot := Next(s, Finish), s.worker.r.name, s.worker.answer.value;
    WorkerCell(s, D);
    assert slot != 0 && u.entries[s.worker.at].slot == slot && u.entries[s.worker.at].name == name by {
      hide AddHeaders, HasRoom;
    }
    ShowHas(u, s.worker.at);
    StepKeepsTable(s, D, Finish);
    var E := NextHeaders(s, D, Finish);
    hide TableInv, RunOk, AllSpare, Next, Final, OnStart, EventOk, NextHeaders;
    HasStaysOverRun(u, E, evs, name, slot);
    RunKeeps(u, E, evs);
    StartsWith(Final(u, evs), Headers(u, E, evs), slot);
  }

  lemma StartsWith(t: Rm, D: seq<Region>, slot: nat)
    requires TableInv(t, D) && t.worker.Idle? && t.queue != [] && t.queue[0].cmd.RemoveCmd?
    requires slot != 0 && Has(t, t.queue[0].r.name, slot)
    ensures var w := OnStart(t).worker;
            && w.Removing? && w.r == t.queue[0].r && w.slot == slot
            && w.at < |t.entries| && t.entries[w.at].name == w.r.name
  {
    var i :| 0 <= i < |t.entries| && t.entries[i].name == t.queue[0].r.name && t.entries[i].slot == slot;
    EntryAt(t.entries, t.queue[0].r.name, i);
  }

  // ------------------------------------------------------------------ requests carried out

  /** A queued ADD, granted a slot, ends with the slot in the first waiting cell, which carries its name, and
      its headers added; denied one, with that cell gone. */
  lemma AddCarriedOut(s: Rm, D: seq<Region>, r: Region, g: nat)
    requires TableInv(s, D) && s.worker.Idle? && s.queue != [] && s.queue[0] == Request(AddCmd, r)
    requires g != 0 && g !in s.granted
    ensures |D| < |s.entries| && s.entries[|D|] == RmEntry(r.name, 0) && HasRoom(s.elf, r)
    ensures var t := OnStart(s);
            && ReplyOk(t, Slot(g)) && FinishReady(OnCall(t, Slot(g)))
            && OnFinish(OnCall(t, Slot(g))) ==
               s.(queue := s.queue[1..], entries := s.entries[|D| := RmEntry(r.name, g)],
                  granted := s.granted[g := r.name], elf := AddHeaders(s.elf, r))
            && ReplyOk(t, NoSlot) && FinishReady(OnCall(t, NoSlot))
            && OnFinish(OnCall(t, NoSlot)) == s.(queue := s.queue[1..], entries := Drop(s.entries, |D|))
  {
    HeadFound(s, D);
    var t := OnStart(s);
    assert t == s.(queue := s.queue[1..], worker := Adding(r, |D|)) by { hide TableInv, RmEntryNum; }
    assert s.entries[|D|] == RmEntry(r.name, 0) && ValidRegion(r) && Counted(s.elf, s.fx, D) && |D| < s.fx.max by {
      assert Waiting(s)[0] == r;
    }
    hide TableInv, OnStart, AddHeaders, HasRoom, RmEntryNum, Counted;
    AddCounted(s.elf, s.fx, D, r);
    GetsFirstSlot(t, g);
    hide OnCall, ReplyOk, OnFinish, FinishReady;
    FinishesAdd(OnCall(t, Slot(g)));
    FinishesAdd(OnCall(t, NoSlot));
  }

  lemma GetsFirstSlot(t: Rm, g: nat)
    requires t.worker.Adding? && g != 0 && g !in t.granted
    ensures ReplyOk(t, NoSlot) && OnCall(t, NoSlot) == t.(worker := Added(t.worker.r, t.worker.at, None))
    ensures ReplyOk(t, Slot(g))
    ensures var r := t.worker.r;
            OnCall(t, Slot(g)) == t.(worker := Added(r, t.worker.at, Some(g)), granted := t.granted[g := r.name])
  {
  }

  lemma FinishesAdd(t: Rm)
    requires t.worker.Added? && TableIntact(t) && HasRoom(t.elf, t.worker.r)
    ensures FinishReady(t)
    ensures var at, r := t.worker.at, t.worker.r;
            OnFinish(t) == match t.worker.answer
                           case None => t.(worker := Idle, entries := Drop(t.entries, at))
                           case Some(g) => t.(worker := Idle, entries := t.entries[at := t.entries[at].(slot := g)],
                                              elf := AddHeaders(t.elf, r))
  {
    hide AddHeaders, HasRoom, Drop;
  }

  /** An UPDATE of region `k` gives its slot back, gets another for the same name and patches the headers of
      that very region. Denied the release or the new slot, it leaves the region without a slot. */
  lemma UpdateCarriedOut(s: Rm, D: seq<Region>, k: nat, r: Region, g: nat)
    requires TableInv(s, D) && s.worker.Idle? && s.queue != [] && s.queue[0] == Request(UpdateCmd, r)
    requires k < |D| && D[k].name == r.name && s.entries[k].slot != 0 && g != 0 && g !in s.granted
    ensures var t, was := OnStart(s), s.entries[k].slot;
            var lost := s.(queue := s.queue[1..], entries := s.entries[k := RmEntry(r.name, 0)]);
            && ReplyOk(t, Denied) && OnCall(t, Denied) == lost
            && ReplyOk(t, Released) && ReplyOk(OnCall(t, Released), NoSlot) && ReplyOk(OnCall(t, Released), Slot(g))
            && OnCall(OnCall(t, Released), NoSlot) == lost.(granted := s.granted - {was})
            && FinishReady(OnCall(OnCall(t, Released), Slot(g)))
            && OnFinish(OnCall(OnCall(t, Released), Slot(g))) ==
               s.(queue := s.queue[1..], entries := s.entries[k := RmEntry(r.name, g)],
                  granted := (s.granted - {was})[g := r.name], elf := PatchHeaders(s.elf, k, r))
  {
    EntryAt(s.entries, r.name, k);
    hide TableInv, PatchHeaders, RmEntryNum;
    var t := OnStart(s);
    assert t == s.(queue := s.queue[1..], entries := s.entries[k := RmEntry(r.name, 0)],
                   worker := Updating(r, k, s.entries[k].slot));
    hide OnStart;
    GivesBack(t);
    var c := OnCall(t, Released);
    GetsSlot(c, g);
    hide OnCall, ReplyOk, OnFinish, FinishReady;
    FinishesUpdate(OnCall(c, Slot(g)));
  }

  /** The release of the slot the worker carries. */
  lemma GivesBack(t: Rm)
    requires (t.worker.Updating? || t.worker.Removing?) && t.worker.slot != 0
    ensures ReplyOk(t, Denied) && OnCall(t, Denied) == t.(worker := Idle)
    ensures ReplyOk(t, Released)
    ensures var w := if t.worker.Updating? then Reregistering(t.worker.r, t.worker.at)
                     else Unlinking(t.worker.r, t.worker.at);
            OnCall(t, Released) == t.(worker := w, granted := t.granted - {t.worker.slot})
  {
  }

  /** A new slot for an update. */
  lemma GetsSlot(t: Rm, g: nat)
    requires t.worker.Reregistering? && g != 0 && g !in t.granted
    ensures ReplyOk(t, NoSlot) && OnCall(t, NoSlot) == t.(worker := Idle)
    ensures ReplyOk(t, Slot(g))
    ensures var r := t.worker.r;
            OnCall(t, Slot(g)) == t.(worker := Updated(r, t.worker.at, g), granted := t.granted[g := r.name])
  {
  }

  lemma FinishesUpdate(t: Rm)
    requires t.worker.Updated? && TableIntact(t)
    ensures FinishReady(t)
    ensures var at, slot, r := t.worker.at, t.worker.newSlot, t.worker.r;
            OnFinish(t) == t.(worker := Idle, entries := t.entries[at := t.entries[at].(slot := slot)],
                              elf := PatchHeaders(t.elf, at, r))
  {
    hide PatchHeaders;
  }

  lemma FinishesRemoval(t: Rm)
    requires t.worker.Unlinking? && TableIntact(t) && ClearInBounds(Image(t.elf), t.worker.r)
    ensures FinishReady(t)
    ensures var (elf, ret) := ClearMemory(t.elf, t.worker.r);
            OnFinish(t) == if ret != 0 then t.(worker := Idle)
                           else t.(worker := Idle, entries := Drop(t.entries, t.worker.at), elf := elf)
  {
    hide ClearMemory, ClearInBounds, Drop;
  }

  /** A REMOVE of region `k` gives its slot back and takes its cell and its headers out; if the ELF search
      refuses, or the release is denied, the cell stays, without a slot. */
  lemma RemoveCarriedOut(s: Rm, D: seq<Region>, k: nat, r: Region)
    requires TableInv(s, D) && s.worker.Idle? && s.queue != [] && s.queue[0] == Request(RemoveCmd, r)
    requires k < |D| && D[k].name == r.name && s.entries[k].slot != 0 && ClearInBounds(Image(s.elf), r)
    ensures var t, was := OnStart(s), s.entries[k].slot;
            var lost := s.(queue := s.queue[1..], entries := s.entries[k := RmEntry(r.name, 0)]);
            && ReplyOk(t, Denied) && OnCall(t, Denied) == lost
            && ReplyOk(t, Released) && FinishReady(OnCall(t, Released))
            && OnFinish(OnCall(t, Released)) ==
               if ClearMemory(s.elf, r).1 != 0 then lost.(granted := s.granted - {was})
               else s.(queue := s.queue[1..], entries := Drop(s.entries, k), granted := s.granted - {was},
                       elf := ClearMemory(s.elf, r).0)
  {
    EntryAt(s.entries, r.name, k);
    hide TableInv, ClearMemory, ClearInBounds, RmEntryNum, Image;
    var t := OnStart(s);
    assert t == s.(queue := s.queue[1..], entries := s.entries[k := RmEntry(r.name, 0)],
                   worker := Removing(r, k, s.entries[k].slot));
    hide OnStart;
    GivesBack(t);
    hide OnCall, ReplyOk, OnFinish, FinishReady;
    FinishesRemoval(OnCall(t, Released));
    assert Drop(t.entries, k) == Drop(s.entries, k);
  }

  /** The two ways of putting a client's call and a worker's step in order lead to the same state when the
      call is answered alike; what the worker does to the tables does not depend on what clients do
      meanwhile. (Only a request for a name that just comes into the table is not found before.) */
  lemma ClientsCommute(s: Rm, c: Event, w: Event)
    requires (c.ClientAdd? || c.ClientUpdate? || c.ClientRemove?) && (w.Start? || w.Call? || w.Finish?)
    requires Enabled(s, w) && (c.ClientAdd? ==> s.ready)
    requires Accepted(s, c) == Accepted(Next(s, w), c)
    requires w.Start? && c.ClientAdd? ==> s.queue[0].r.name != c.r.name
    ensures Enabled(Next(s, c), w) && Next(Next(s, c), w) == Next(Next(s, w), c)
  {
    hide Next, Enabled, Accepted;
    ReadyStays(s, w);
    ClientStep(s, c);
    ClientStep(Next(s, w), c);
    WorkerIgnores(s, w, Accepted(s, c), NewCell(s, c));
  }

  /** The cell a call of a client brings in. */
  function NewCell(s: Rm, c: Event): seq<RmEntry> {
    if c.ClientAdd? && Accepted(s, c) != [] then [RmEntry(c.r.name, 0)] else []
  }

  lemma ReadyStays(s: Rm, w: Event)
    requires Enabled(s, w)
    ensures s.ready ==> Next(s, w).ready
  {
    hide ReplyOk, FinishReady, AddHeaders, PatchHeaders, ClearMemory, RmEntryNum;
  }

  /** Requests behind the queue and cells behind the table are nothing to the worker. */
  lemma WorkerIgnores(s: Rm, w: Event, more: seq<Request>, cells: seq<RmEntry>)
    requires (w.Start? || w.Call? || w.Finish?) && Enabled(s, w)
    requires w.Start? ==> forall i | 0 <= i < |cells| :: cells[i].name != s.queue[0].r.name
    ensures var t, u := s.(queue := s.queue + more, entries := s.entries + cells), Next(s, w);
            Enabled(t, w) && Next(t, w) == u.(queue := u.queue + more, entries := u.entries + cells)
  {
    match w
    case Start => StartIgnores(s, more, cells);
    case Call(_) => hide ClearInBounds, HasRoom;
    case Finish => FinishIgnores(s, more, cells);
  }

  lemma StartIgnores(s: Rm, more: seq<Request>, cells: seq<RmEntry>)
    requires s.worker.Idle? && s.queue != [] && forall i | 0 <= i < |cells| :: cells[i].name != s.queue[0].r.name
    ensures var t, u := s.(queue := s.queue + more, entries := s.entries + cells), OnStart(s);
            t.queue != [] && OnStart(t) == u.(queue := u.queue + more, entries := u.entries + cells)
  {
    hide RmEntryNum;
    var t := s.(queue := s.queue + more, entries := s.entries + cells);
    SameEntry(s.entries, cells, s.queue[0].r.name);
    assert t.queue[0] == s.queue[0] && t.queue[1..] == s.queue[1..] + more;
    var at := RmEntryNum(s.entries, s.queue[0].r.name);
    if at < |s.entries| { assert ClearSlot(t.entries, at) == ClearSlot(s.entries, at) + cells; }
  }

  lemma FinishIgnores(s: Rm, more: seq<Request>, cells: seq<RmEntry>)
    requires FinishReady(s)
    ensures var t, u := s.(queue := s.queue + more, entries := s.entries + cells), OnFinish(s);
            FinishReady(t) && OnFinish(t) == u.(queue := u.queue + more, entries := u.entries + cells)
  {
    hide AddHeaders, PatchHeaders, ClearMemory, HasRoom, ClearInBounds, Image, Drop;
    CellsBehind(s.entries, cells, s.worker.at);
  }

  lemma SameEntry(entries: seq<RmEntry>, cells: seq<RmEntry>, name: CString)
    requires forall i | 0 <= i < |cells| :: cells[i].name != name
    ensures var at := RmEntryNum(entries, name);
            RmEntryNum(entries + cells, name) == if at < |entries| then at else |entries + cells|
  {
    var i, j := RmEntryNum(entries, name), RmEntryNum(entries + cells, name);
    if i < |entries| { assert (entries + cells)[i].name == name; }
    assert forall k | 0 <= k < |entries| :: (entries + cells)[k] == entries[k];
  }

  lemma CellsBehind(entries: seq<RmEntry>, cells: seq<RmEntry>, at: nat)
    requires at < |entries|
    ensures Drop(entries + cells, at) == Drop(entries, at) + cells
    ensures forall slot ::
              (entries + cells)[at := (entries + cells)[at].(slot := slot)]
              == entries[at := entries[at].(slot := slot)] + cells
  {
  }

  /** What a call of a client does: append its request, and for an ADD a cell. */
  lemma ClientStep(s: Rm, c: Event)
    requires (c.ClientAdd? || c.ClientUpdate? || c.ClientRemove?) && (c.ClientAdd? ==> s.ready)
    ensures Enabled(s, c)
    ensures Next(s, c) ==
            s.(queue := s.queue + Accepted(s, c),
               entries := s.entries + NewCell(s, c))
  {
    hide AddAnswer, RmEntryNum, ValidRegion;
    assert s.queue + [] == s.queue && s.entries + [] == s.entries;
  }

  /** The state an ADD leads to that is granted slot `g`. */
  function AddedWith(s: Rm, D: seq<Region>, r: Region, g: nat): Rm
    requires HasRoom(s.elf, r)
  {
    s.(entries := s.entries + [RmEntry(r.name, g)], granted := s.granted[g := r.name], elf := AddHeaders(s.elf, r))
  }

  /** An idle driver with nothing queued has one cell a region with headers. */
  lemma NewRegion(s: Rm, D: seq<Region>, r: Region)
    requires Inv(s, D) && s.ready && s.worker.Idle? && s.queue == []
    requires ValidRegion(r) && |D| + 5 <= s.fx.max && OnlyAt(D, r.name, |D|)
    ensures |s.entries| == |D| && AddAnswer(s, r, true) == |D| && HasRoom(s.elf, r)
    ensures Depicts(AddHeaders(s.elf, r), s.fx, D + [r])
  {
    IdleTable(s.entries, D, Waiting(s), r);
    assert Waiting(s) == [];
    hide TableInv, Depicts, AddHeaders, HasRoom, RmEntryNum, OnlyAt;
    AddDepicts(s.elf, s.fx, D, r);
  }

  lemma IdleTable(entries: seq<RmEntry>, D: seq<Region>, W: seq<Region>, r: Region)
    requires TableIs(entries, D, W) && OnlyAt(D, r.name, |D|)
    ensures W == [] ==> |entries| == |D| && RmEntryNum(entries, r.name) == |D|
  {
    assert forall i | 0 <= i < |D| :: entries[i].name == D[i].name;
  }

  lemma AddToIdle(s: Rm, D: seq<Region>, r: Region, g: nat)
    requires Inv(s, D) && s.ready && s.worker.Idle? && s.queue == [] && g != 0 && g !in s.granted
    requires ValidRegion(r) && |D| + 5 <= s.fx.max && OnlyAt(D, r.name, |D|)
    ensures HasRoom(s.elf, r) && Inv(AddedWith(s, D, r, g), D + [r])
    ensures var t := OnAdd(s, r, true);
            && t.worker.Idle? && t.queue == [Request(AddCmd, r)]
            && ReplyOk(OnStart(t), Slot(g)) && FinishReady(OnCall(OnStart(t), Slot(g)))
            && OnFinish(OnCall(OnStart(t), Slot(g))) == AddedWith(s, D, r, g)
  {
    NewRegion(s, D, r);
    AddQueued(s, D, r);
    hide *;
    AddFromHead(OnAdd(s, r, true), D, r, g);
    AddedState(s, D, r, g);
  }

  lemma AddQueued(s: Rm, D: seq<Region>, r: Region)
    requires TableInv(s, D) && s.ready && s.worker.Idle? && s.queue == []
    requires |s.entries| == |D| && AddAnswer(s, r, true) == |D|
    ensures TableInv(OnAdd(s, r, true), D)
    ensures OnAdd(s, r, true) == s.(entries := s.entries + [RmEntry(r.name, 0)], queue := [Request(AddCmd, r)])
  {
    AddKeeps(s, D, r, true);
    hide TableInv, AddAnswer;
  }

  lemma AddedState(s: Rm, D: seq<Region>, r: Region, g: nat)
    requires HasRoom(s.elf, r) && |s.entries| == |D| && s.queue == [] && Depicts(AddHeaders(s.elf, r), s.fx, D + [r])
    ensures TableInv(AddedWith(s, D, r, g), D + [r]) ==> Inv(AddedWith(s, D, r, g), D + [r])
    ensures var t := s.(entries := s.entries + [RmEntry(r.name, 0)], queue := [Request(AddCmd, r)]);
            t.(queue := [], entries := t.entries[|D| := RmEntry(r.name, g)], granted := t.granted[g := r.name],
               elf := AddHeaders(t.elf, r)) == AddedWith(s, D, r, g)
  {
    hide AddHeaders, HasRoom, TableInv, Depicts;
    assert (s.entries + [RmEntry(r.name, 0)])[|D| := RmEntry(r.name, g)] == s.entries + [RmEntry(r.name, g)];
  }

  /** The queue holds one ADD and nothing else. */
  lemma AddFromHead(t: Rm, D: seq<Region>, r: Region, g: nat)
    requires TableInv(t, D) && t.worker.Idle? && t.queue == [Request(AddCmd, r)] && g != 0 && g !in t.granted
    ensures ReplyOk(OnStart(t), Slot(g)) && FinishReady(OnCall(OnStart(t), Slot(g)))
    ensures |D| < |t.entries| && HasRoom(t.elf, r)
    ensures var u := OnFinish(OnCall(OnStart(t), Slot(g)));
            && TableInv(u, D + [r])
            && u == t.(queue := [], entries := t.entries[|D| := RmEntry(r.name, g)], granted := t.granted[g := r.name],
                       elf := AddHeaders(t.elf, r))
  {
    hide TableInv, AddHeaders, HasRoom, ReplyOk, FinishReady, OnStart, OnCall, OnFinish;
    AddCarriedOut(t, D, r, g);
    StartKeeps(t, D);
    StartsAdding(t, D, r);
    CallKeeps(OnStart(t), D, Slot(g));
    AddedKeeps(OnCall(OnStart(t), Slot(g)), D);
    assert [Request(AddCmd, r)][1..] == [];
  }

  lemma StartsAdding(t: Rm, D: seq<Region>, r: Region)
    requires TableInv(t, D) && t.worker.Idle? && t.queue == [Request(AddCmd, r)]
    ensures OnStart(t).worker == Adding(r, |D|)
    ensures forall g | g != 0 && g !in t.granted ::
              ReplyOk(OnStart(t), Slot(g)) && OnCall(OnStart(t), Slot(g)).worker == Added(r, |D|, Some(g))
  {
    HeadFound(t, D);
    hide TableInv, RmEntryNum;
  }

  /** Registering a region and removing it again, on an idle worker: nothing is left of it in the table, in
      the queue, among the granted slots or in the ELF image. */
  lemma AddThenRemove(s: Rm, D: seq<Region>, r: Region, g: nat)
    requires Inv(s, D) && s.ready && s.worker.Idle? && s.queue == [] && g != 0 && g !in s.granted
    requires ValidRegion(r) && r.size > 0 && |D| + 5 <= s.fx.max && OnlyAt(D, r.name, |D|) && FirstSpan(D, r) == |D|
    ensures HasRoom(s.elf, r)
    ensures var t := OnAdd(s, r, true);
            && t.worker.Idle? && t.queue == [Request(AddCmd, r)]
            && ReplyOk(OnStart(t), Slot(g)) && FinishReady(OnCall(OnStart(t), Slot(g)))
            && OnFinish(OnCall(OnStart(t), Slot(g))) == AddedWith(s, D, r, g)
    ensures var t := OnRemove(AddedWith(s, D, r, g), r, true);
            && t.worker.Idle? && t.queue == [Request(RemoveCmd, r)]
            && ReplyOk(OnStart(t), Released) && FinishReady(OnCall(OnStart(t), Released))
            && var u := OnFinish(OnCall(OnStart(t), Released)); u == s.(elf := u.elf) && Image(u.elf) == Image(s.elf)
  {
    AddToIdle(s, D, r, g);
    NewRegion(s, D, r);
    ClearsLast(s.elf, s.fx, D, r);
    Restored(s, D, r, g);
    hide *;
    RemoveFromIdle(AddedWith(s, D, r, g), D + [r], |D|, r, g);
  }

  lemma Restored(s: Rm, D: seq<Region>, r: Region, g: nat)
    requires HasRoom(s.elf, r) && |s.entries| == |D| && g !in s.granted && s.queue == [] && s.worker.Idle?
    ensures var a := AddedWith(s, D, r, g);
            && a.elf == AddHeaders(s.elf, r) && a.ready == s.ready && a.queue == [] && a.worker.Idle?
            && |a.entries| == |D| + 1 && a.entries[|D|] == RmEntry(r.name, g) && (D + [r])[|D|] == r
            && forall elf ::
                 a.(entries := Drop(a.entries, |D|), granted := a.granted - {g}, elf := elf) == s.(elf := elf)
  {
    hide AddHeaders;
    var a := AddedWith(s, D, r, g);
    assert Drop(a.entries, |D|) == s.entries && a.granted - {g} == s.granted;
  }

  lemma RemoveFromIdle(a: Rm, E: seq<Region>, k: nat, r: Region, g: nat)
    requires Inv(a, E) && a.ready && a.worker.Idle? && a.queue == [] && k < |E| && E[k].name == r.name
    requires k < |a.entries| && a.entries[k] == RmEntry(r.name, g) && g != 0
    requires ClearInBounds(Image(a.elf), r) && ClearMemory(a.elf, r).1 == 0
    ensures var t := OnRemove(a, r, true);
            && t.worker.Idle? && t.queue == [Request(RemoveCmd, r)]
            && ReplyOk(OnStart(t), Released) && FinishReady(OnCall(OnStart(t), Released))
            && OnFinish(OnCall(OnStart(t), Released)) ==
               a.(entries := Drop(a.entries, k), granted := a.granted - {g}, elf := ClearMemory(a.elf, r).0)
  {
    hide TableInv, Depicts, ClearMemory, ClearInBounds, Image, ReplyOk, FinishReady, OnStart, OnCall, OnFinish,
        RmEntryNum;
    var t := OnRemove(a, r, true);
    assert RmEntryNum(a.entries, r.name) < |a.entries| by { FoundAt(a.entries, k); }
    assert t == a.(queue := [Request(RemoveCmd, r)]);
    hide OnRemove;
    EnqueueKeeps(a, E, Request(RemoveCmd, r));
    RemoveCarriedOut(t, E, k, r);
    assert [Request(RemoveCmd, r)][1..] == a.queue;
  }

  lemma FoundAt(entries: seq<RmEntry>, k: nat)
    requires k < |entries|
    ensures RmEntryNum(entries, entries[k].name) < |entries|
  {
  }

  /** Clearing the headers just added. */
  lemma ClearsLast(h: Header, fx: Frame, D: seq<Region>, r: Region)
    requires Depicts(h, fx, D) && |D| + 5 <= fx.max && ValidRegion(r) && r.size > 0
    requires OnlyAt(D, r.name, |D|) && FirstSpan(D, r) == |D|
    ensures HasRoom(h, r) && ClearInBounds(Image(AddHeaders(h, r)), r)
    ensures ClearMemory(AddHeaders(h, r), r).1 == 0 && Image(ClearMemory(AddHeaders(h, r), r).0) == Image(h)
  {
    AddDepicts(h, fx, D, r);
    var g, E := AddHeaders(h, r), D + [r];
    assert Drop(E, |D|) == D && E[|D|] == r && forall j | 0 <= j < |D| :: E[j] == D[j];
    hide Render, AddHeaders, ClearMemory, ClearHeaders, ClearInBounds, Image, HasRoom;
    ClearHeadersExact(fx, E, r, |D|);
    ClearDepicts(g, fx, E, r);
  }
}
