/** Early registration with the resource manager: regions registered before the probe get their
    headers like any others, once every registration has been granted a slot. */
module RmEarly {
  import opened Regions
  import opened ElfImage
  import opened ElfMemory
  import opened RmProtocol
  import opened RmLaws
  import RegistryRuns

  /** Registrations only, every one of them granted a slot. */
  predicate Granted(ev: Event) {
    ev.ClientAdd? || ev.Ready? || ev.Start? || (ev.Call? && ev.reply.Slot?) || ev.Finish?
  }

  /** Nothing but registrations is queued or in flight, and none has been denied a slot. */
  predicate OnlyAdds(s: Rm) {
    && (forall i | 0 <= i < |s.queue| :: s.queue[i].cmd.AddCmd?)
    && (s.worker.Idle? || s.worker.Adding? || (s.worker.Added? && s.worker.answer.Some?))
  }

  /** The region an event brings in. */
  function Brought(s: Rm, ev: Event): seq<Region> {
    if ev.ClientAdd? && AddAnswer(s, ev.r, ev.alloc) >= 0 then [ev.r] else []
  }

  function BroughtAll(s: Rm, D: seq<Region>, evs: seq<Event>): seq<Region>
    requires RunOk(s, evs)
    decreases |evs|
  {
    if evs == [] then [] else Brought(s, evs[0]) + BroughtAll(Next(s, evs[0]), NextHeaders(s, D, evs[0]), evs[1..])
  }

  /** No region is lost, doubled or overtaken on its way from the queue to its headers. */
  lemma StepConserves(s: Rm, D: seq<Region>, ev: Event)
    requires TableInv(s, D) && EventOk(s, ev) && Granted(ev) && OnlyAdds(s)
    ensures var t := Next(s, ev);
            && OnlyAdds(t) && t.fx == s.fx && |D| <= |NextHeaders(s, D, ev)|
            && (ev.Finish? ==> s.worker.Added? && NextHeaders(s, D, ev) == D + [s.worker.r])
            && NextHeaders(s, D, ev) + Waiting(t) == D + Waiting(s) + Brought(s, ev)
  {
    hide TableInv, ValidRegion, AddAnswer, QueuedAdds, OnAdd, OnStart, OnCall, OnFinish, ReplyOk, FinishReady,
        TableIntact, Brought;
    match ev
    case ClientAdd(r, alloc) => AddConserves(s, D, r, alloc);
    case Ready => ReadyConserves(s, D);
    case Start => StartConserves(s, D);
    case Call(reply) => CallConserves(s, D, reply);
    case Finish => FinishConserves(s, D);
  }

  lemma ReadyConserves(s: Rm, D: seq<Region>)
    requires OnlyAdds(s)
    ensures var t := s.(ready := true);
            && OnlyAdds(t) && t.fx == s.fx && D + Waiting(t) == D + Waiting(s) + Brought(s, Ready)
  {
    assert Waiting(s.(ready := true)) == Waiting(s);
  }

  lemma AddConserves(s: Rm, D: seq<Region>, r: Region, alloc: bool)
    requires OnlyAdds(s) && (s.ready || AddAnswer(s, r, alloc) < 0)
    ensures var t := OnAdd(s, r, alloc);
            && OnlyAdds(t) && t.fx == s.fx && D + Waiting(t) == D + Waiting(s) + Brought(s, ClientAdd(r, alloc))
  {
    hide AddAnswer;
    QueuedAddsSnoc(s.queue, Request(AddCmd, r));
    assert Waiting(OnAdd(s, r, alloc)) == Waiting(s) + Brought(s, ClientAdd(r, alloc));
  }

  lemma StartConserves(s: Rm, D: seq<Region>)
    requires TableInv(s, D) && s.worker.Idle? && s.queue != [] && OnlyAdds(s)
    ensures var t := OnStart(s);
            && OnlyAdds(t) && t.fx == s.fx && D + Waiting(t) == D + Waiting(s) + Brought(s, Start)
  {
    HeadFound(s, D);
    hide TableInv, RmEntryNum;
    assert Waiting(OnStart(s)) == Waiting(s);
  }

  lemma CallConserves(s: Rm, D: seq<Region>, reply: Reply)
    requires ReplyOk(s, reply) && reply.Slot? && OnlyAdds(s)
    ensures var t := OnCall(s, reply);
            && OnlyAdds(t) && t.fx == s.fx && D + Waiting(t) == D + Waiting(s) + Brought(s, Call(reply))
  {
    assert Waiting(OnCall(s, reply)) == Waiting(s);
  }

  lemma FinishConserves(s: Rm, D: seq<Region>)
    requires FinishReady(s) && OnlyAdds(s)
    ensures var t := OnFinish(s);
            && OnlyAdds(t) && t.fx == s.fx && s.worker.Added? && NextHeaders(s, D, Finish) == D + [s.worker.r]
            && NextHeaders(s, D, Finish) + Waiting(t) == D + Waiting(s) + Brought(s, Finish)
  {
    hide AddHeaders, HasRoom, QueuedAdds;
    assert Waiting(s) == [s.worker.r] + Waiting(OnFinish(s));
  }

  /** Nor is any over a run; and as long as the sections of all have their places, every registration is
      clean. */
  lemma {:induction false} RunConserves(s: Rm, D: seq<Region>, evs: seq<Event>)
    requires TableInv(s, D) && RunOk(s, evs) && OnlyAdds(s) && forall i | 0 <= i < |evs| :: Granted(evs[i])
    ensures Final(s, evs).fx == s.fx && |D| <= |Headers(s, D, evs)|
    ensures Headers(s, D, evs) + Waiting(Final(s, evs)) == D + Waiting(s) + BroughtAll(s, D, evs)
    ensures |Headers(s, D, evs)| + 4 <= s.fx.max ==> RunClean(s, D, evs)
    decreases |evs|
  {
    hide TableInv, EventOk, Next, NextHeaders, Waiting, Brought, BroughtAll, OnlyAdds, Granted, RunOk, Final, Headers,
        RunClean;
    if evs == [] {
      NothingHappens(s, D);
    } else {
      EventIsEnabled(s, D, evs);
      BroughtHead(s, D, evs);
      assert Granted(evs[0]);
      StepKeepsTable(s, D, evs[0]);
      StepConserves(s, D, evs[0]);
      var t, E := Next(s, evs[0]), NextHeaders(s, D, evs[0]);
      RunConserves(t, E, evs[1..]);
      Chain(Headers(t, E, evs[1..]) + Waiting(Final(t, evs[1..])), E + Waiting(t), D + Waiting(s),
            Brought(s, evs[0]), BroughtAll(t, E, evs[1..]));
      RegistrationClean(s, D, evs[0], |Headers(s, D, evs)|);
    }
  }

  lemma RegistrationClean(s: Rm, D: seq<Region>, ev: Event, n: nat)
    requires Enabled(s, ev) && |NextHeaders(s, D, ev)| <= n
    requires ev.Finish? ==> s.worker.Added? && NextHeaders(s, D, ev) == D + [s.worker.r]
    ensures n + 4 <= s.fx.max ==> (ev.Finish? ==> FinishClean(s, D))
  {
    hide NextHeaders, Enabled;
  }

  lemma NothingHappens(s: Rm, D: seq<Region>)
    ensures RunOk(s, []) && Final(s, []) == s && Headers(s, D, []) == D && BroughtAll(s, D, []) == []
    ensures RunClean(s, D, []) && D + Waiting(s) + [] == D + Waiting(s)
  {
  }

  lemma Chain(last: seq<Region>, mid: seq<Region>, first: seq<Region>, b: seq<Region>, c: seq<Region>)
    requires last == mid + c && mid == first + b
    ensures last == first + (b + c)
  {
  }

  lemma BroughtHead(s: Rm, D: seq<Region>, evs: seq<Event>)
    requires RunOk(s, evs) && evs != []
    ensures Enabled(s, evs[0]) && RunOk(Next(s, evs[0]), evs[1..])
    ensures BroughtAll(s, D, evs) ==
            Brought(s, evs[0]) + BroughtAll(Next(s, evs[0]), NextHeaders(s, D, evs[0]), evs[1..])
  {
    EventIsEnabled(s, D, evs);
    hide EventOk, Next, NextHeaders, Brought;
  }

  /** Whatever the interleaving, once nothing waits any more the table lists the pending regions followed by
      those added since, in order, and the ELF image is theirs, that of a registry probed first, if and
      only if their sections have their places. */
  lemma EarlyRegistration(fx: Frame, pending: seq<Region>, evs: seq<Event>)
    requires |pending| <= fx.max && AllValid(pending) && DistinctNames(pending)
    requires RunOk(Probed(fx, pending), evs) && forall i | 0 <= i < |evs| :: Granted(evs[i])
    requires Waiting(Final(Probed(fx, pending), evs)) == []
    ensures var t, all := Final(Probed(fx, pending), evs), pending + BroughtAll(Probed(fx, pending), [], evs);
            && TableIs(t.entries, all, []) && (Depicts(t.elf, fx, all) <==> Placed(fx, all))
            && (Placed(fx, all) ==>
                  RegistryRuns.Registrable(fx.max, all) && Image(t.elf) == Image(RegistryRuns.Rebuild(fx, all).elf))
  {
    var s := Probed(fx, pending);
    ProbedInv(fx, pending);
    ProbedWaits(fx, pending);
    assert TableInv(s, []);
    hide *;
    EarlyFrom(s, pending, evs);
  }

  /** From any state in which the pending regions wait and have no headers yet. */
  lemma EarlyFrom(s: Rm, pending: seq<Region>, evs: seq<Event>)
    requires Inv(s, []) && TableInv(s, []) && Waiting(s) == pending && OnlyAdds(s) && RunOk(s, evs)
    requires (forall i | 0 <= i < |evs| :: Granted(evs[i])) && Waiting(Final(s, evs)) == []
    ensures var t, all := Final(s, evs), pending + BroughtAll(s, [], evs);
            && TableIs(t.entries, all, []) && (Depicts(t.elf, s.fx, all) <==> Placed(s.fx, all))
            && (Placed(s.fx, all) ==> RegistryRuns.Registrable(s.fx.max, all)
                                      && Image(t.elf) == Image(RegistryRuns.Rebuild(s.fx, all).elf))
  {
    hide RunOk, Waiting, Depicts, TableInv, RunClean, OnlyAdds, Granted, TableIs, Final, Headers, BroughtAll, Image,
        RegistryRuns.Rebuild, RegistryRuns.Registrable;
    RunConserves(s, [], evs);
    RunKeeps(s, [], evs);
    var t, all := Final(s, evs), pending + BroughtAll(s, [], evs);
    assert Headers(s, [], evs) + [] == Headers(s, [], evs) && [] + pending == pending;
    assert Headers(s, [], evs) == all;
    EndOfRun(t, all);
  }

  lemma ProbedWaits(fx: Frame, pending: seq<Region>)
    ensures var s := Probed(fx, pending); Waiting(s) == pending && s.fx == fx && OnlyAdds(s)
  {
    QueuedAddsOfPending(Probed(fx, pending).queue, pending);
    hide QueuedAdds, NewHeader;
  }

  lemma EndOfRun(t: Rm, all: seq<Region>)
    requires TableInv(t, all) && Waiting(t) == [] && (Placed(t.fx, all) ==> Depicts(t.elf, t.fx, all))
    ensures TableIs(t.entries, all, []) && (Depicts(t.elf, t.fx, all) <==> Placed(t.fx, all))
    ensures Placed(t.fx, all) ==>
              RegistryRuns.Registrable(t.fx.max, all) && Image(t.elf) == Image(RegistryRuns.Rebuild(t.fx, all).elf)
  {
    hide WorkerOk, SlotsOwned;
    forall i, j | 0 <= i < j < |all| ensures all[i].name != all[j].name {
      assert t.entries[i].name == all[i].name && t.entries[j].name == all[j].name;
    }
    assert AllValid(all) && DistinctNames(all);
    hide TableIs, DistinctEntries, Counted, Render, Image;
    if Depicts(t.elf, t.fx, all) { DepictsPlaced(t.elf, t.fx, all); }
    if Placed(t.fx, all) { assert all[0..] == all; }
  }
}
