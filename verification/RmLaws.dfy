/** What every interleaving of clients, worker and resource manager keeps. */
module RmLaws {
  import opened Kernel
  import opened Sequences
  import opened Regions
  import opened ElfImage
  import opened ElfMemory
  import opened ElfShapes
  import opened RmProtocol

  /** The regions with headers after a step: an ADD that got a slot joins them, an UPDATE
      readdresses its own, a REMOVE that the ELF search does not refuse takes its own out. */
  function NextHeaders(s: Rm, D: seq<Region>, ev: Event): seq<Region>
    requires Enabled(s, ev)
  {
    if !ev.Finish? then D
    else
      match s.worker
      case Added(r, _, Some(_)) => D + [r]
      case Updated(r, at, _) => if at < |D| then D[at := Readdress(D[at], r)] else D
      case Unlinking(r, at) => if at < |D| && ClearMemory(s.elf, r).1 == 0 then Drop(D, at) else D
      case _ => D
  }

  /** What a run may contain: any registrations once the driver is ready, any updates and removals. */
  predicate EventOk(s: Rm, ev: Event) {
    Enabled(s, ev) && (ev.ClientAdd? && !s.ready ==> AddAnswer(s, ev.r, ev.alloc) < 0)
  }

  /** When the second critical section keeps the ELF image that of the regions with headers: an ADD while
      the sections have their places; a REMOVE that takes the headers of one region, not the section
      of one and the program header of another, which only empty regions allow (`SizedIsTidy`), nor
      the banner's, which only a request that spells them out does. */
  predicate FinishClean(s: Rm, D: seq<Region>) {
    match s.worker
    case Added(_, _, Some(_)) => |D| + 5 <= s.fx.max
    case Unlinking(r, at) => at < |D| && if ValidRegion(r) then Tidy(D, r, at) else !IsBanner(s.fx, r)
    case _ => true
  }

  // ------------------------------------------------------------------ the queue

  lemma {:induction false} QueuedAddsSnoc(queue: seq<Request>, q: Request)
    ensures QueuedAdds(queue + [q]) == QueuedAdds(queue) + if q.cmd.AddCmd? then [q.r] else []
  {
    if queue != [] {
      QueuedAddsSnoc(queue[1..], q);
      assert (queue + [q])[1..] == queue[1..] + [q];
    }
  }

  lemma EntryAt(entries: seq<RmEntry>, name: CString, i: nat)
    requires DistinctEntries(entries) && i < |entries| && entries[i].name == name
    ensures RmEntryNum(entries, name) == i
  {
  }

  // ------------------------------------------------------------------ client steps

  lemma EnqueueKeeps(s: Rm, D: seq<Region>, q: Request)
    requires TableInv(s, D) && (q.cmd.RemoveCmd? || ValidRegion(q.r)) && !q.cmd.AddCmd?
    ensures TableInv(s.(queue := s.queue + [q]), D)
  {
    hide Counted, DistinctEntries, SlotsOwned;
    QueuedAddsSnoc(s.queue, q);
    assert Waiting(s.(queue := s.queue + [q])) == Waiting(s);
  }

  /** A fresh name appended waits behind the others. */
  lemma AppendKeeps(entries: seq<RmEntry>, D: seq<Region>, W: seq<Region>, granted: map<nat, CString>, r: Region)
    requires TableIs(entries, D, W) && DistinctEntries(entries) && SlotsOwned(entries, granted) && AllValid(W)
             && ValidRegion(r)
    requires RmEntryNum(entries, r.name) == |entries|
    ensures var more := entries + [RmEntry(r.name, 0)];
            TableIs(more, D, W + [r]) && DistinctEntries(more) && SlotsOwned(more, granted) && AllValid(W + [r])
  {
    var more := entries + [RmEntry(r.name, 0)];
    forall i | |D| <= i < |more| ensures more[i].name == (W + [r])[i - |D|].name && more[i].slot == 0 {}
  }

  lemma AddKeeps(s: Rm, D: seq<Region>, r: Region, alloc: bool)
    requires TableInv(s, D) && (s.ready || AddAnswer(s, r, alloc) < 0)
    ensures TableInv(OnAdd(s, r, alloc), D)
  {
    hide Counted, QueuedAdds;
    if AddAnswer(s, r, alloc) >= 0 {
      var t := OnAdd(s, r, alloc);
      QueuedAddsSnoc(s.queue, Request(AddCmd, r));
      AppendKeeps(s.entries, D, Waiting(s), s.granted, r);
      WorkerFrame(s, t, |D|);
      hide Counted, TableIs, DistinctEntries, SlotsOwned, AllValid, WorkerOk, QueuedAdds;
      assert Waiting(t) == Waiting(s) + [r];
    }
  }

  /** An add before the driver is ready is lost: it is answered with a position and counted, but its name
      is in no cell and its region in no queue, so that nothing will ever give it headers; and from
      then on positions and headers no longer agree. It keeps the invariant if and only if it is
      refused. */
  lemma WindowExact(s: Rm, D: seq<Region>, r: Region, alloc: bool)
    requires TableInv(s, D) && !s.ready
    ensures var t := OnAdd(s, r, alloc);
            && (AddAnswer(s, r, alloc) >= 0 <==> ValidRegion(r) && |s.entries| < s.fx.max && alloc)
            && (AddAnswer(s, r, alloc) >= 0 ==>
                  t == s.(entries := s.entries + [RmEntry("", 0)]) && Waiting(t) == Waiting(s))
            && ((exists E :: TableInv(t, E)) <==> AddAnswer(s, r, alloc) < 0)
  {
    hide QueuedAdds, DistinctEntries, SlotsOwned, WorkerOk;
    var t := OnAdd(s, r, alloc);
    if AddAnswer(s, r, alloc) >= 0 {
      forall E ensures !TableInv(t, E) { CountsTell(s.elf, s.fx, D, E); }
    }
  }

  lemma CountsTell(h: Header, fx: Frame, D: seq<Region>, E: seq<Region>)
    requires Counted(h, fx, D)
    ensures Counted(h, fx, E) ==> |E| == |D|
  {
  }

  /** The worker is indifferent to cells appended behind its own. */
  lemma WorkerFrame(s: Rm, t: Rm, n: nat)
    requires WorkerOk(s, n) && t.worker == s.worker && t.granted == s.granted
    requires |s.entries| <= |t.entries| && forall i | 0 <= i < |s.entries| :: t.entries[i] == s.entries[i]
    ensures WorkerOk(t, n)
  {
  }

  // ------------------------------------------------------------------ worker steps

  /** The request at the head of the queue is found where the invariant says; in particular a
      queued ADD is never missing from the table. */
  lemma HeadFound(s: Rm, D: seq<Region>)
    requires TableInv(s, D) && s.worker.Idle? && s.queue != []
    ensures s.queue[0].cmd.AddCmd? ==> RmEntryNum(s.entries, s.queue[0].r.name) == |D| < |s.entries|
    ensures s.queue[0].cmd.AddCmd? ==> Waiting(s) == [s.queue[0].r] + QueuedAdds(s.queue[1..])
    ensures !s.queue[0].cmd.AddCmd? ==> Waiting(s) == QueuedAdds(s.queue[1..])
    ensures s.queue[0].cmd.RemoveCmd? || ValidRegion(s.queue[0].r)
  {
    hide Counted, SlotsOwned;
    if s.queue[0].cmd.AddCmd? {
      assert s.entries[|D|].name == Waiting(s)[0].name;
      EntryAt(s.entries, s.queue[0].r.name, |D|);
    }
  }

  /** Clearing a slot in place disturbs nothing else. */
  lemma ClearCellKeeps(entries: seq<RmEntry>, D: seq<Region>, W: seq<Region>, granted: map<nat, CString>, at: nat)
    requires TableIs(entries, D, W) && DistinctEntries(entries) && SlotsOwned(entries, granted) && at < |entries|
    ensures TableIs(ClearSlot(entries, at), D, W) && DistinctEntries(ClearSlot(entries, at))
    ensures SlotsOwned(ClearSlot(entries, at), granted)
    ensures entries[at].slot != 0 ==>
              at < |D| && entries[at].slot in granted && granted[entries[at].slot] == entries[at].name
  {
  }

  lemma StartKeeps(s: Rm, D: seq<Region>)
    requires TableInv(s, D) && s.worker.Idle? && s.queue != []
    ensures TableInv(OnStart(s), D)
  {
    hide Counted, QueuedAdds;
    HeadFound(s, D);
    var at := RmEntryNum(s.entries, s.queue[0].r.name);
    RestOk(s.queue);
    if at < |s.entries| { ClearCellKeeps(s.entries, D, Waiting(s), s.granted, at); }
    StartWorkerOk(s, at, |D|);
    assert |s.entries| <= s.fx.max;
    hide Counted, TableIs, DistinctEntries, SlotsOwned, AllValid, QueueOk, QueuedAdds, RmEntryNum, WorkerOk, ClearSlot;
    assert Waiting(OnStart(s)) == Waiting(s);
    assert |OnStart(s).entries| == |s.entries| by { StartSize(s); }
  }

  lemma StartSize(s: Rm)
    requires s.worker.Idle? && s.queue != []
    ensures |OnStart(s).entries| == |s.entries|
  {
  }

  lemma StartWorkerOk(s: Rm, at: nat, n: nat)
    requires s.worker.Idle? && s.queue != [] && at == RmEntryNum(s.entries, s.queue[0].r.name)
    requires (s.queue[0].cmd.RemoveCmd? || ValidRegion(s.queue[0].r)) && (s.queue[0].cmd.AddCmd? ==> at == n)
    requires at < |s.entries| && s.entries[at].slot != 0 ==>
               at < n && s.entries[at].slot in s.granted && s.granted[s.entries[at].slot] == s.entries[at].name
    ensures WorkerOk(OnStart(s), n)
  {
    hide ValidRegion;
  }

  lemma RestOk(queue: seq<Request>)
    requires QueueOk(queue) && queue != []
    ensures QueueOk(queue[1..])
  {
  }

  lemma CallKeeps(s: Rm, D: seq<Region>, reply: Reply)
    requires TableInv(s, D) && ReplyOk(s, reply)
    ensures TableInv(OnCall(s, reply), D)
  {
    hide Counted;
    var t := OnCall(s, reply);
    assert Waiting(t) == Waiting(s);
    assert SlotsOwned(t.entries, t.granted) by {
      forall i | 0 <= i < |t.entries| && t.entries[i].slot != 0
        ensures t.entries[i].slot in t.granted && t.granted[t.entries[i].slot] == t.entries[i].name
      {
        assert s.entries[i].slot in s.granted && s.granted[s.entries[i].slot] == s.entries[i].name;
        if reply.Released? {
          // the slot given back is granted to the worker's name, which only cell `at` carries
          assert i != s.worker.at;
          assert s.entries[i].name != s.entries[s.worker.at].name;
        }
      }
    }
  }

  /** The first waiting cell taken out, or turned into the last one with headers. */
  lemma FirstWaitingKeeps(entries: seq<RmEntry>, D: seq<Region>, W: seq<Region>, granted: map<nat, CString>, slot: nat)
    requires TableIs(entries, D, W) && DistinctEntries(entries) && SlotsOwned(entries, granted) && W != []
             && AllValid(W)
    ensures entries[|D|].name == W[0].name && AllValid(W[1..])
    ensures TableIs(Drop(entries, |D|), D, W[1..]) && DistinctEntries(Drop(entries, |D|))
            && SlotsOwned(Drop(entries, |D|), granted)
    ensures var promoted := entries[|D| := entries[|D|].(slot := slot)];
            && TableIs(promoted, D + [W[0]], W[1..]) && DistinctEntries(promoted)
            && (slot in granted && granted[slot] == W[0].name ==> SlotsOwned(promoted, granted))
  {
    var promoted, rest := entries[|D| := entries[|D|].(slot := slot)], Drop(entries, |D|);
    forall i | 0 <= i < |promoted| ensures promoted[i].name == entries[i].name {}
    forall i | |D| <= i < |rest| ensures rest[i].name == W[1..][i - |D|].name && rest[i].slot == 0 {
      assert rest[i] == entries[i + 1];
    }
    forall i | |D| + 1 <= i < |promoted|
      ensures promoted[i].name == W[1..][i - (|D| + 1)].name && promoted[i].slot == 0
    {
    }
  }

  /** An ADD that got no slot takes its own cell out: the first of the waiting ones. */
  lemma AddFailedKeeps(s: Rm, D: seq<Region>)
    requires TableInv(s, D) && s.worker.Added? && s.worker.answer.None?
    ensures FinishReady(s) && TableInv(OnFinish(s), D)
  {
    var W := Waiting(s);
    assert W == [s.worker.r] + QueuedAdds(s.queue);
    FirstWaitingKeeps(s.entries, D, W, s.granted, 0);
    hide Counted, TableIs, DistinctEntries, SlotsOwned, AllValid;
    assert Waiting(OnFinish(s)) == W[1..];
  }

  lemma AddedKeeps(s: Rm, D: seq<Region>)
    requires TableInv(s, D) && s.worker.Added? && s.worker.answer.Some?
    ensures FinishReady(s) && TableInv(OnFinish(s), D + [s.worker.r])
  {
    hide Counted, AddHeaders, HasRoom;
    var r, W := s.worker.r, Waiting(s);
    assert W == [r] + QueuedAdds(s.queue);
    FirstWaitingKeeps(s.entries, D, W, s.granted, s.worker.answer.value);
    AddCounted(s.elf, s.fx, D, r);
    assert |s.entries| == |D| + |W|;
    hide TableIs, DistinctEntries, SlotsOwned, AllValid;
    assert Waiting(OnFinish(s)) == W[1..];
  }

  lemma UpdatedKeeps(s: Rm, D: seq<Region>)
    requires TableInv(s, D) && s.worker.Updated?
    ensures s.worker.at < |D| && FinishReady(s)
    ensures TableInv(OnFinish(s), D[s.worker.at := Readdress(D[s.worker.at], s.worker.r)])
  {
    hide Counted, PatchHeaders;
    PatchCounted(s.elf, s.fx, D, s.worker.at, s.worker.r);
    ReaddressCounted(s.fx, D, s.worker.at, s.worker.r, PatchHeaders(s.elf, s.worker.at, s.worker.r));
    var t := OnFinish(s);
    assert Waiting(t) == Waiting(s);
    assert forall i | 0 <= i < |t.entries| :: t.entries[i].name == s.entries[i].name;
  }

  lemma OwnCell(s: Rm, D: seq<Region>)
    requires TableInv(s, D) && s.worker.Unlinking?
    ensures s.worker.at < |D| && OnlyAt(D, s.worker.r.name, s.worker.at) && |s.worker.r.name| <= MAX_NAME_LENGTH
  {
    hide SlotsOwned;
    var at := s.worker.at;
    forall j | 0 <= j < |D| && j != at ensures D[j].name != s.worker.r.name {
      assert s.entries[j].name == D[j].name && s.entries[at].name == D[at].name;
    }
    assert ValidRegion(D[at]);
  }

  /** A REMOVE takes its own region out, or the ELF search refuses it. */
  lemma UnlinkKeeps(s: Rm, D: seq<Region>)
    requires TableInv(s, D) && s.worker.Unlinking? && FinishReady(s)
    ensures TableInv(OnFinish(s), NextHeaders(s, D, Finish))
  {
    hide Counted, ClearMemory, ClearInBounds, Image, SlotsOwned, DistinctEntries;
    var r, at := s.worker.r, s.worker.at;
    OwnCell(s, D);
    ClearKeepsCounted(s.elf, s.fx, D, r, at);
    ClearRefused(s.elf, r);
    assert Waiting(s.(worker := Idle)) == Waiting(s);
    if ClearMemory(s.elf, r).1 == 0 { DropCellKeeps(s.entries, D, Waiting(s), s.granted, at); }
  }

  /** Taking one region with headers out of the table and out of the list together. */
  lemma DropCellKeeps(entries: seq<RmEntry>, D: seq<Region>, W: seq<Region>, granted: map<nat, CString>, at: nat)
    requires TableIs(entries, D, W) && DistinctEntries(entries) && SlotsOwned(entries, granted) && at < |D|
    ensures TableIs(Drop(entries, at), Drop(D, at), W) && DistinctEntries(Drop(entries, at))
    ensures SlotsOwned(Drop(entries, at), granted)
  {
    var rest := Drop(entries, at);
    forall i | |D| - 1 <= i < |rest| ensures rest[i].name == W[i - (|D| - 1)].name && rest[i].slot == 0 {
      assert rest[i] == entries[i + 1];
    }
  }

  // ------------------------------------------------------------------ main results

  /** Every step of every interleaving keeps the table: the regions with headers move as `NextHeaders`
      says. */
  lemma StepKeepsTable(s: Rm, D: seq<Region>, ev: Event)
    requires TableInv(s, D) && EventOk(s, ev)
    ensures TableInv(Next(s, ev), NextHeaders(s, D, ev)) && Next(s, ev).fx == s.fx
  {
    hide TableInv, ReplyOk, FinishReady, ClearMemory, AddHeaders, PatchHeaders;
    match ev
    case ClientAdd(r, alloc) => AddKeeps(s, D, r, alloc);
    case ClientUpdate(regno, r, alloc) =>
      if OnUpdate(s, regno, r, alloc) != s { EnqueueKeeps(s, D, Request(UpdateCmd, r)); }
    case ClientRemove(r, alloc) => if OnRemove(s, r, alloc) != s { EnqueueKeeps(s, D, Request(RemoveCmd, r)); }
    case Ready => ReadyKeeps(s, D);
    case Start => StartKeeps(s, D);
    case Call(reply) => CallKeeps(s, D, reply);
    case Finish => FinishKeeps(s, D);
  }

  lemma ReadyKeeps(s: Rm, D: seq<Region>)
    requires TableInv(s, D)
    ensures TableInv(s.(ready := true), D)
  {
    hide Counted;
    assert Waiting(s.(ready := true)) == Waiting(s);
  }

  lemma FinishKeeps(s: Rm, D: seq<Region>)
    requires TableInv(s, D) && FinishReady(s)
    ensures TableInv(OnFinish(s), NextHeaders(s, D, Finish))
  {
    hide TableInv, ClearMemory, AddHeaders, PatchHeaders;
    if s.worker.Added? {
      if s.worker.answer.Some? { AddedKeeps(s, D); } else { AddFailedKeeps(s, D); }
    } else if s.worker.Updated? {
      UpdatedKeeps(s, D);
    } else {
      UnlinkKeeps(s, D);
    }
  }

  /** The ELF image stays that of the regions with headers if and only if the second critical section is
      clean. */
  lemma StepExact(s: Rm, D: seq<Region>, ev: Event)
    requires Inv(s, D) && EventOk(s, ev)
    ensures Inv(Next(s, ev), NextHeaders(s, D, ev)) <==> (ev.Finish? ==> FinishClean(s, D))
  {
    StepKeepsTable(s, D, ev);
    hide TableInv, Depicts, FinishReady, FinishClean, OnFinish, NextHeaders, Next;
    if ev.Finish? { FinishExact(s, D); }
    HeadersOfStep(s, D, ev);
  }

  lemma HeadersOfStep(s: Rm, D: seq<Region>, ev: Event)
    requires Enabled(s, ev)
    ensures Next(s, ev).fx == s.fx
    ensures if ev.Finish? then Next(s, ev) == OnFinish(s) && NextHeaders(s, D, ev) == NextHeaders(s, D, Finish)
            else Next(s, ev).elf == s.elf && NextHeaders(s, D, ev) == D
  {
    hide FinishReady, ReplyOk, ClearMemory, AddHeaders, PatchHeaders;
  }

  lemma FinishExact(s: Rm, D: seq<Region>)
    requires Inv(s, D) && FinishReady(s)
    ensures Depicts(OnFinish(s).elf, s.fx, NextHeaders(s, D, Finish)) <==> FinishClean(s, D)
  {
    hide Depicts, TableInv, AddHeaders, PatchHeaders, ClearMemory, Tidy, IsBanner, HasRoom, ClearInBounds, Image,
        OnlyAt;
    if s.worker.Added? {
      WorkerValid(s, D);
      if s.worker.answer.Some? { AddDepicts(s.elf, s.fx, D, s.worker.r); }
    } else if s.worker.Updated? {
      WorkerValid(s, D);
      UpdatedKeeps(s, D);
      UpdatedDepicts(s.elf, s.fx, D, s.worker.at, s.worker.r);
    } else {
      OwnCell(s, D);
      ClearRefused(s.elf, s.worker.r);
      UnlinkExact(s.elf, s.fx, D, s.worker.r, s.worker.at);
    }
  }

  lemma WorkerValid(s: Rm, D: seq<Region>)
    requires TableInv(s, D) && (s.worker.Added? || s.worker.Updated?)
    ensures ValidRegion(s.worker.r)
  {
  }

  lemma UpdatedDepicts(h: Header, fx: Frame, D: seq<Region>, at: nat, r: Region)
    requires Depicts(h, fx, D) && at < |D| && r.virt != 0
    ensures Depicts(PatchHeaders(h, at, r), fx, D[at := Readdress(D[at], r)])
  {
    hide Render, Image, PatchHeaders, UpdateHeader;
    PatchDepicts(h, fx, D, at, r);
    UpdateHeaderRenders(fx, D, at, r);
  }

  lemma UnlinkExact(h: Header, fx: Frame, D: seq<Region>, r: Region, at: nat)
    requires Depicts(h, fx, D) && at < |D| && OnlyAt(D, r.name, at) && ClearInBounds(Image(h), r)
    ensures var (g, ret) := ClearMemory(h, r);
            Depicts(g, fx, if ret == 0 then Drop(D, at) else D) <==>
            if ValidRegion(r) then Tidy(D, r, at) else !IsBanner(fx, r)
  {
    assert ValidRegion(D[at]);
    hide Render, Image, ClearMemory, ClearInBounds, ClearHeaders, Refused, Clean, Erase, EraseInBounds;
    ClearDepicts(h, fx, D, r);
    ClearRefused(h, r);
    DropFits(fx, D, at);
    if ValidRegion(r) {
      RefusedExact(fx, D, r, at);
      CleanExact(fx, D, r, at);
    } else {
      UnvalidatedExact(h, fx, D, r, at);
    }
  }

  /** A request that no region could satisfy is refused, unless it spells out the banner; then the image
      is that of no list any more. */
  lemma UnvalidatedExact(h: Header, fx: Frame, D: seq<Region>, r: Region, at: nat)
    requires Depicts(h, fx, D) && at < |D| && |r.name| <= MAX_NAME_LENGTH && !ValidRegion(r)
             && ClearInBounds(Image(h), r)
    ensures ClearMemory(h, r).1 == 0 <==> IsBanner(fx, r)
    ensures ClearMemory(h, r).1 == 0 ==> !Depicts(ClearMemory(h, r).0, fx, Drop(D, at))
  {
    UnvalidatedClear(fx, D, r);
    HeaderCounts(fx, D);
    ClearDepicts(h, fx, D, r);
    ClearParts(Render(fx, D), r);
    hide ClearMemory, Clearable, FindPhdr, FindShdr, Image;
    if IsBanner(fx, r) {
      var e := Erase(Render(fx, D), 0, 3, r.size, |r.name| + 1);
      assert e.phdr[0].memsz == Render(fx, D).phdr[1].memsz == D[0].size;
      assert ValidRegion(D[0]);
      hide Render;
    }
  }

  /** The second section always finds its own cell: the three "table is corrupt" branches and the "table
      is broken" branch cannot be reached. Its ELF work is in bounds, however many regions there are,
      for a removal if the request has an address or the headers are in order. */
  lemma NeverCorrupt(s: Rm, D: seq<Region>)
    requires TableInv(s, D)
    ensures TableIntact(s)
    ensures s.worker.Added? || s.worker.Updated? || (s.worker.Unlinking? && (s.worker.r.virt != 0 || Inv(s, D)))
            ==> FinishReady(s)
    ensures s.worker.Idle? && s.queue != [] && s.queue[0].cmd.AddCmd?
            ==> RmEntryNum(s.entries, s.queue[0].r.name) < |s.entries|
  {
    if s.worker.Adding? || s.worker.Added? {
      assert s.entries[|D|].name == Waiting(s)[0].name;
    }
    hide TableInv, Depicts, ClearInBounds, HasRoom;
    if s.worker.Idle? {
      if s.queue != [] { HeadFound(s, D); }
    } else if s.worker.Added? {
      if s.worker.answer.Some? { AddedKeeps(s, D); } else { AddFailedKeeps(s, D); }
    } else if s.worker.Updated? {
      UpdatedKeeps(s, D);
    } else if s.worker.Unlinking? {
      UnlinkReady(s, D);
    }
  }

  lemma UnlinkReady(s: Rm, D: seq<Region>)
    requires TableInv(s, D) && s.worker.Unlinking?
    ensures s.worker.r.virt != 0 || Inv(s, D) ==> ClearInBounds(Image(s.elf), s.worker.r)
  {
    OwnCell(s, D);
    hide ClearInBounds, Image, Depicts, Counted, Render;
    var r := s.worker.r;
    if r.virt != 0 {
      CountsOf(s, D);
      ClearCounted(s.elf, s.fx, D, r);
    } else if Inv(s, D) {
      DepictedImage(s.elf, s.fx, D);
      UnvalidatedClear(s.fx, D, r);
    }
  }

  lemma CountsOf(s: Rm, D: seq<Region>)
    requires TableInv(s, D)
    ensures Counted(s.elf, s.fx, D)
  {
  }

  lemma DepictedImage(h: Header, fx: Frame, D: seq<Region>)
    requires Depicts(h, fx, D)
    ensures Fits(fx, D) && Image(h) == Render(fx, D)
  {
  }

  /** No two cells share a nonzero slot, and the slot the worker is about to give back is granted,
      in no cell, and given back once: after a release it is not granted any more. */
  lemma SlotOwnership(s: Rm, D: seq<Region>)
    requires TableInv(s, D)
    ensures forall i, j | 0 <= i < j < |s.entries| && s.entries[i].slot != 0 :: s.entries[i].slot != s.entries[j].slot
    ensures (s.worker.Removing? || s.worker.Updating?) && s.worker.slot != 0 ==>
            && s.worker.slot in s.granted && s.granted[s.worker.slot] == s.worker.r.name
            && (forall i | 0 <= i < |s.entries| :: s.entries[i].slot != s.worker.slot)
            && s.worker.slot !in OnCall(s, Released).granted
  {
    if (s.worker.Removing? || s.worker.Updating?) && s.worker.slot != 0 {
      forall i | 0 <= i < |s.entries| ensures s.entries[i].slot != s.worker.slot {
        if i != s.worker.at { assert s.entries[i].name != s.entries[s.worker.at].name; }
      }
    }
  }

  predicate RunOk(s: Rm, evs: seq<Event>)
    decreases |evs|
  {
    evs == [] || (EventOk(s, evs[0]) && RunOk(Next(s, evs[0]), evs[1..]))
  }

  function Final(s: Rm, evs: seq<Event>): Rm
    requires RunOk(s, evs)
    decreases |evs|
  {
    if evs == [] then s else Final(Next(s, evs[0]), evs[1..])
  }

  function Headers(s: Rm, D: seq<Region>, evs: seq<Event>): seq<Region>
    requires RunOk(s, evs)
    decreases |evs|
  {
    if evs == [] then D else Headers(Next(s, evs[0]), NextHeaders(s, D, evs[0]), evs[1..])
  }

  /** A run whose second critical sections are all clean. */
  predicate RunClean(s: Rm, D: seq<Region>, evs: seq<Event>)
    requires RunOk(s, evs)
    decreases |evs|
  {
    evs == [] || ((evs[0].Finish? ==> FinishClean(s, D))
                  && RunClean(Next(s, evs[0]), NextHeaders(s, D, evs[0]), evs[1..]))
  }

  /** Every run keeps the table; a clean run keeps the image. */
  lemma {:induction false} RunKeeps(s: Rm, D: seq<Region>, evs: seq<Event>)
    requires TableInv(s, D) && RunOk(s, evs)
    ensures TableInv(Final(s, evs), Headers(s, D, evs)) && Final(s, evs).fx == s.fx
    ensures Inv(s, D) && RunClean(s, D, evs) ==> Inv(Final(s, evs), Headers(s, D, evs))
    decreases |evs|
  {
    if evs != [] {
      hide TableInv, Inv, EventOk, Next, NextHeaders, FinishClean;
      EventIsEnabled(s, D, evs);
      StepKeepsTable(s, D, evs[0]);
      if Inv(s, D) { StepExact(s, D, evs[0]); }
      RunKeeps(Next(s, evs[0]), NextHeaders(s, D, evs[0]), evs[1..]);
    }
  }

  lemma EventIsEnabled(s: Rm, D: seq<Region>, evs: seq<Event>)
    requires RunOk(s, evs) && evs != []
    ensures EventOk(s, evs[0]) && Enabled(s, evs[0]) && RunOk(Next(s, evs[0]), evs[1..])
    ensures Final(s, evs) == Final(Next(s, evs[0]), evs[1..])
    ensures Headers(s, D, evs) == Headers(Next(s, evs[0]), NextHeaders(s, D, evs[0]), evs[1..])
    ensures RunClean(s, D, evs) <==>
            (evs[0].Finish? ==> FinishClean(s, D)) && RunClean(Next(s, evs[0]), NextHeaders(s, D, evs[0]), evs[1..])
  {
    hide FinishClean, NextHeaders, Next;
  }

  // ------------------------------------------------------------------ probe

  /** The state a probe leaves when it unlocks: the pending names in the table, their ADDs queued in order,
      and the driver not yet ready. */
  function Probed(fx: Frame, pending: seq<Region>): Rm {
    Rm(fx, seq(|pending|, i requires 0 <= i < |pending| => RmEntry(pending[i].name, 0)),
       seq(|pending|, i requires 0 <= i < |pending| => Request(AddCmd, pending[i])), Idle, NewHeader(fx), map[], false)
  }

  lemma {:induction false} QueuedAddsOfPending(queue: seq<Request>, pending: seq<Region>)
    requires |queue| == |pending| && forall i | 0 <= i < |queue| :: queue[i] == Request(AddCmd, pending[i])
    ensures QueuedAdds(queue) == pending
    decreases |queue|
  {
    if queue != [] {
      QueuedAddsOfPending(queue[1..], pending[1..]);
      assert pending == [pending[0]] + pending[1..];
    }
  }

  /** Regions registered before probe wait for their headers like any others. */
  lemma ProbedInv(fx: Frame, pending: seq<Region>)
    requires |pending| <= fx.max && AllValid(pending) && DistinctNames(pending)
    ensures Inv(Probed(fx, pending), [])
  {
    hide Depicts, Counted, QueuedAdds, NewHeader;
    var s := Probed(fx, pending);
    NewHeaderDepicts(fx);
    DepictsCounted(NewHeader(fx), fx, []);
    QueuedAddsOfPending(s.queue, pending);
    assert Waiting(s) == pending;
    assert TableIs(s.entries, [], pending) && DistinctEntries(s.entries);
    hide TableIs, DistinctEntries, AllValid;
  }

  /** Any interleaving after a probe: the table is the regions with headers followed by those waiting, and
      no second section ever finds a foreign cell. If the run was clean, program header `i + 1` and
      section `i + 4` belong to cell `i`. */
  lemma ProtocolSafe(fx: Frame, pending: seq<Region>, evs: seq<Event>)
    requires |pending| <= fx.max && AllValid(pending) && DistinctNames(pending)
    requires RunOk(Probed(fx, pending), evs)
    ensures var t, D := Final(Probed(fx, pending), evs), Headers(Probed(fx, pending), [], evs);
            && TableIs(t.entries, D, Waiting(t)) && SlotsOwned(t.entries, t.granted) && TableIntact(t)
            && (RunClean(Probed(fx, pending), [], evs) ==> Depicts(t.elf, fx, D) && Placed(fx, D))
  {
    hide Depicts, Probed, RunOk, Counted, RunClean;
    ProbedInv(fx, pending);
    var s := Probed(fx, pending);
    assert s.fx == fx by { FrameOfProbed(fx, pending); }
    RunKeeps(s, [], evs);
    NeverCorrupt(Final(s, evs), Headers(s, [], evs));
    if RunClean(s, [], evs) { DepictsPlaced(Final(s, evs).elf, fx, Headers(s, [], evs)); }
  }

  lemma FrameOfProbed(fx: Frame, pending: seq<Region>)
    ensures Probed(fx, pending).fx == fx
  {
  }

  // ------------------------------------------------------------------ md_get_region

  /** `md_get_region` in this mode: the addresses are read from the program header of the cell,
      each into the field of the other. */
  function GetRegion(s: Rm, name: CString): Region {
    var k := RmEntryNum(s.entries, name);
    if k == |s.entries| then ZERO_REGION
    else var p := PhdrOf(s.elf, k + 1); Region(s.entries[k].name, 0, p.paddr, p.vaddr, p.filesz)
  }

  /** A request built from that lookup carries the two addresses swapped. With different addresses the
      ELF search always refuses it and the headers stay; with equal ones it clears its region
      exactly when the region's own record would. */
  lemma GetRegionSwaps(s: Rm, D: seq<Region>, k: nat)
    requires Inv(s, D) && k < |D|
    ensures var q := GetRegion(s, D[k].name);
            && q.name == D[k].name && q.size == D[k].size && q.virt == D[k].phys && q.phys == D[k].virt
            && (SameSpan(D[k], q) <==> D[k].virt == D[k].phys)
            && (ValidRegion(q) ==>
                  && ClearInBounds(Image(s.elf), q)
                  && (D[k].virt != D[k].phys ==> ClearMemory(s.elf, q) == (s.elf, -EINVAL))
                  && (ClearMemory(s.elf, q).1 == 0 && Depicts(ClearMemory(s.elf, q).0, s.fx, Drop(D, k)) <==>
                        D[k].virt == D[k].phys && Clean(D, D[k], k)))
            && (D[k].virt == D[k].phys && D[k].size > 0 ==>
                  ValidRegion(q) && (Clean(D, D[k], k) <==> FirstOfItsSpan(D, k)))
  {
    Lookup(s, D, k);
    var q := GetRegion(s, D[k].name);
    hide Render, Inv, Clean, Refused, ClearHeaders, ClearInBounds, Erase, EraseInBounds, ClearMemory, Image, PhdrOf,
        GetRegion, OnlyAt, Depicts, FirstOfItsSpan;
    if ValidRegion(q) { SwappedAnswer(s.elf, s.fx, D, q, k); }
    if D[k].size > 0 { SizedIsTidy(D, D[k], k); }
  }

  /** What the lookup gives for a region with headers. */
  lemma Lookup(s: Rm, D: seq<Region>, k: nat)
    requires Inv(s, D) && k < |D|
    ensures var q := GetRegion(s, D[k].name);
            && q.name == D[k].name && q.size == D[k].size && q.virt == D[k].phys && q.phys == D[k].virt
            && OnlyAt(D, q.name, k) && Depicts(s.elf, s.fx, D) && ValidRegion(D[k])
  {
    EntryAt(s.entries, D[k].name, k);
    SwappedRecord(s.elf, s.fx, D, k);
    assert ValidRegion(D[k]);
    forall j | 0 <= j < |D| && j != k ensures D[j].name != D[k].name { assert s.entries[j].name == D[j].name; }
    hide Render, Image, PhdrOf;
  }

  lemma SwappedAnswer(h: Header, fx: Frame, D: seq<Region>, q: Region, k: nat)
    requires Depicts(h, fx, D) && k < |D| && OnlyAt(D, q.name, k) && ValidRegion(q)
    requires q.size == D[k].size && q.virt == D[k].phys && q.phys == D[k].virt
    ensures ClearInBounds(Image(h), q)
    ensures D[k].virt != D[k].phys ==> ClearMemory(h, q) == (h, -EINVAL)
    ensures ClearMemory(h, q).1 == 0 && Depicts(ClearMemory(h, q).0, fx, Drop(D, k)) <==>
            D[k].virt == D[k].phys && Clean(D, D[k], k)
  {
    hide Render, Clean, Refused, ClearHeaders, ClearInBounds, Erase, EraseInBounds, ClearMemory, Image;
    DropFits(fx, D, k);
    RefusedExact(fx, D, q, k);
    CleanExact(fx, D, q, k);
    SwappedClean(D, q, k);
    ClearDepicts(h, fx, D, q);
    ClearRefused(h, q);
  }

  lemma SwappedRecord(h: Header, fx: Frame, D: seq<Region>, k: nat)
    requires Depicts(h, fx, D) && k < |D|
    ensures var p := PhdrOf(h, k + 1); p.vaddr == D[k].virt && p.paddr == D[k].phys && p.filesz == D[k].size
  {
    DepictsPlaced(h, fx, D);
    assert PhdrOf(h, k + 1) == Image(h).phdr[k + 1];
    hide Table, NameAt, PayloadAt, PhdrOf;
  }

  lemma SwappedClean(D: seq<Region>, q: Region, k: nat)
    requires k < |D| && q.virt == D[k].phys && q.phys == D[k].virt && q.size == D[k].size
    ensures D[k].virt != D[k].phys ==> Refused(D, q, k) && !Clean(D, q, k)
    ensures D[k].virt == D[k].phys ==> (Clean(D, q, k) <==> Clean(D, D[k], k))
  {
    if D[k].virt == D[k].phys { assert FirstSpan(D, q) == FirstSpan(D, D[k]); }
  }
}
