/** A bootloader watching from the first store of the probe to the last of a run: after every single one
    it finds the table switched off or one of the lists the run goes through, and never an older list
    after a newer one. */
module WatchedRuns {
  import opened Regions
  import opened ElfImage
  import opened Registry
  import opened RegistryLaws
  import opened TableRuns
  import opened RegistryRuns
  import opened MinidumpDriver

  /** The complete cells of a list: the header's and one a region. */
  function Listed(fx: Frame, live: seq<Region>): seq<SsRegion>
    requires |live| < fx.max
  {
    RenderToc(fx, live)[..|live| + 1]
  }

  /** The list after the first `n` operations of a run. */
  function LiveAfter(max: nat, b: Book, ops: seq<Op>, n: nat): seq<Region>
    requires n <= |ops|
  {
    After(max, b, ops[..n]).live
  }

  /** A view of the run after `n` of its operations: off, or the list at that point, complete. */
  predicate Shows(v: BootView, fx: Frame, b: Book, ops: seq<Op>, n: nat)
    requires n <= |ops|
  {
    v.init ==> var live := LiveAfter(fx.max, b, ops, n); |live| < fx.max && v.listed == Listed(fx, live)
  }

  /** The views show the run at the points `at`, which never go back. */
  predicate Follows(views: seq<BootView>, at: seq<nat>, fx: Frame, b: Book, ops: seq<Op>) {
    && |at| == |views| && (forall i | 0 <= i < |at| :: at[i] <= |ops|)
    && (forall i | 0 < i < |at| :: at[i - 1] <= at[i])
    && forall i | 0 <= i < |views| :: Shows(views[i], fx, b, ops, at[i])
  }

  lemma {:induction false} AfterSnoc(max: nat, b: Book, ops: seq<Op>, op: Op)
    ensures After(max, b, ops + [op]) == Next(max, After(max, b, ops), op)
    decreases |ops|
  {
    if ops == [] {
      assert (ops + [op])[1..] == [];
    } else {
      assert (ops + [op])[1..] == ops[1..] + [op];
      AfterSnoc(max, Next(max, b, ops[0]), ops[1..], op);
    }
  }

  lemma TablesListed(s: Smem, live: seq<Region>)
    requires Tables(s, live)
    ensures s.count <= |s.regions| && |live| < s.fx.max && s.regions[..s.count] == Listed(s.fx, live)
  {
    hide RenderToc;
  }

  /** One operation of a run, on the tables in place: the old list, or the table off, until its last
      store. */
  method Do(md: Minidump, op: Op) returns (ghost n: nat)
    requires md.Valid() && Tables(md.View(), md.View().entry) && StepOk(md.View(), op)
    modifies md, md.entry, md.regions, md.elf, md.elf.mem, md.elf.strtab
    ensures md.Valid() && InBounds(old(md.View()), op) && md.View() == Step(old(md.View()), op).0
    ensures Tables(md.View(), md.View().entry) && BookOf(md.View()) == Next(md.fx.max, old(BookOf(md.View())), op)
    ensures md.Watched(old(md.history), n) && UntilLast(md.history, |old(md.history)|, old(md.Boot().listed))
  {
    hide AddInBounds, UpdateInBounds, RemoveInBounds, AddRegion, UpdateRegion, RemoveRegion, HandleKnown, Next,
        AddStores, RemoveStores;
    ghost var s, h := md.View(), md.history;
    StepKeepsTables(s, s.entry, op);
    TablesEntry(Step(s, op).0, Next(s.fx.max, BookOf(s), op).live);
    var ret;
    match op {
      case Add(r) => ret := md.AddRegion(r);
      case Update(regno, r) => ret := md.UpdateRegion(regno, r);
      case Remove(r) => ret := md.RemoveRegion(r);
    }
    n := |md.history| - |h|;
  }

  lemma OkHead(s: Smem, ops: seq<Op>)
    requires RunOk(s, ops) && ops != []
    ensures StepOk(s, ops[0]) && InBounds(s, ops[0]) && RunOk(Step(s, ops[0]).0, ops[1..])
    ensures Final(s, ops) == Final(Step(s, ops[0]).0, ops[1..])
  {
  }

  /** Crash consistency over a run in which no removal fails. */
  method Run(md: Minidump, ops: seq<Op>) returns (ghost at: seq<nat>)
    requires md.Valid() && Tables(md.View(), md.View().entry) && RunOk(md.View(), ops)
    modifies md, md.entry, md.regions, md.elf, md.elf.mem, md.elf.strtab
    ensures md.Valid() && RunOk(old(md.View()), ops) && md.View() == Final(old(md.View()), ops)
    ensures old(md.history) <= md.history
    ensures Follows(md.history[|old(md.history)|..], at, md.fx, old(BookOf(md.View())), ops)
  {
    ghost var s0, b0, h0 := md.View(), BookOf(md.View()), md.history;
    at := [];
    NoViews(md.fx, b0, ops);
    assert ops[0..] == ops && ops[..0] == [] && h0[|h0|..] == [];
    hide *;
    for i := 0 to |ops|
      invariant md.Valid() && Tables(md.View(), md.View().entry) && RunOk(md.View(), ops[i..])
      invariant Final(md.View(), ops[i..]) == Final(s0, ops)
      invariant BookOf(md.View()) == After(md.fx.max, b0, ops[..i])
      invariant h0 <= md.history && Follows(md.history[|h0|..], at, md.fx, b0, ops) && Reached(at, i)
    {
      at := RunOne(md, ops, i, b0, h0, at);
    }
    assert ops[|ops|..] == [];
    NothingLeft(md.View());
  }

  /** One turn of that loop. */
  method RunOne(md: Minidump, ops: seq<Op>, i: nat, ghost b0: Book, ghost h0: seq<BootView>, ghost at: seq<nat>)
    returns (ghost more: seq<nat>)
    requires md.Valid() && Tables(md.View(), md.View().entry) && i < |ops| && RunOk(md.View(), ops[i..])
    requires BookOf(md.View()) == After(md.fx.max, b0, ops[..i])
    requires h0 <= md.history && Follows(md.history[|h0|..], at, md.fx, b0, ops) && Reached(at, i)
    modifies md, md.entry, md.regions, md.elf, md.elf.mem, md.elf.strtab
    ensures md.Valid() && Tables(md.View(), md.View().entry) && RunOk(md.View(), ops[i + 1..])
    ensures RunOk(old(md.View()), ops[i..]) && Final(md.View(), ops[i + 1..]) == Final(old(md.View()), ops[i..])
    ensures BookOf(md.View()) == After(md.fx.max, b0, ops[..i + 1])
    ensures h0 <= md.history && Follows(md.history[|h0|..], more, md.fx, b0, ops) && Reached(more, i + 1)
  {
    hide Tables, RunOk, Final, StepOk, Step, InBounds, Follows, UntilLast, Next, Reached;
    ghost var s, h := md.View(), md.history;
    OkHead(s, ops[i..]);
    assert ops[i..][0] == ops[i] && ops[i..][1..] == ops[i + 1..] && ops[..i + 1] == ops[..i] + [ops[i]];
    AfterSnoc(md.fx.max, b0, ops[..i], ops[i]);
    TablesListed(s, s.entry);
    ghost var n := Do(md, ops[i]);
    TablesListed(md.View(), md.View().entry);
    LaterViews(md.history, |h0|, |h|, Listed(md.fx, s.entry));
    more := MoreViews(h[|h0|..], md.history[|h0|..], at, md.fx, b0, ops, i, n);
  }

  lemma NothingLeft(s: Smem)
    ensures RunOk(s, []) && Final(s, []) == s
  {
  }

  lemma LaterViews(h: seq<BootView>, skip: nat, mark: nat, before: seq<SsRegion>)
    requires skip <= mark <= |h| && UntilLast(h, mark, before)
    ensures UntilLast(h[skip..], mark - skip, before)
  {
  }

  lemma NoViews(fx: Frame, b: Book, ops: seq<Op>)
    ensures Follows([], [], fx, b, ops) && Reached([], 0)
  {
  }

  predicate Reached(at: seq<nat>, n: nat) { at != [] ==> at[|at| - 1] <= n }

  /** The views of operation `i`: all but the last show the list before it, the last the list after it. */
  lemma MoreViews(h: seq<BootView>, g: seq<BootView>, at: seq<nat>, fx: Frame, b: Book, ops: seq<Op>, i: nat, n: nat)
    returns (more: seq<nat>)
    requires Follows(h, at, fx, b, ops) && Reached(at, i) && i < |ops| && h <= g && |g| == |h| + n
    requires var x, y := LiveAfter(fx.max, b, ops, i), LiveAfter(fx.max, b, ops, i + 1);
             && |x| < fx.max && |y| < fx.max && UntilLast(g, |h|, Listed(fx, x))
             && (n > 0 ==> g[|g| - 1].listed == Listed(fx, y))
    ensures Follows(g, more, fx, b, ops) && Reached(more, i + 1)
  {
    hide Listed, LiveAfter;
    more := at + seq(n, j requires 0 <= j < n => if j < n - 1 then i else i + 1);
    forall j | 0 <= j < |g| ensures Shows(g[j], fx, b, ops, more[j]) {
      if j < |h| { assert g[j] == h[j] && more[j] == at[j]; }
    }
  }

  /** From boot on: the probe with its pending regions, then any run of requests in which no removal
      fails. Up to the fifth store the table is off; then the bootloader finds the header and the
      pending regions so far, never fewer than before; then the lists of the run. If its steps keep
      the shape of the ELF image, names, sizes and file offsets in it are at last those of the
      regions with headers. */
  method BootAndRun(frame: Frame, pending: seq<Region>, ops: seq<Op>) returns (md: Minidump, ghost at: seq<nat>)
    requires |pending| < frame.max && AllValid(pending)
    requires Fresh(frame).count + |pending| <= |Fresh(frame).regions|
    requires Requests(Drain(Fresh(frame), pending), |pending|, ops)
    ensures md.Valid() && md.fx == frame && fresh(md)
    ensures RunOk(Drain(Fresh(frame), pending), ops) && md.View() == Final(Drain(Fresh(frame), pending), ops)
    ensures Orderly(md.View(), md.View().entry, |pending|)
    ensures RunShaped(Drain(Fresh(frame), pending), |pending|, ops) ==> Shaped(md.View(), md.View().entry, |pending|)
    ensures var n := 5 + DrainStores(Fresh(frame), pending);
            && n <= |md.history| && (forall i | 0 <= i < 4 :: !md.history[i].init)
            && AllSomePending(md.history[..n], 0, frame, pending) && Growing(md.history[..n])
            && Follows(md.history[n..], at, frame, Book(pending, INT_MAX), ops)
  {
    hide Fresh, Drain, Requests, RunOk, Final, Orderly, RunShaped, Shaped, AllSomePending, Growing, Follows,
        DrainStores, Tables, Drained, RenderToc, HeaderSs;
    BootedRun(frame, pending, ops);
    md := new Minidump.Probe(frame, pending);
    ghost var h := md.history;
    at := Run(md, ops);
    assert md.history[..|h|] == h;
  }

  /** What a run after a probe starts from, and what it keeps. */
  lemma BootedRun(frame: Frame, pending: seq<Region>, ops: seq<Op>)
    requires |pending| < frame.max && AllValid(pending)
    requires Fresh(frame).count + |pending| <= |Fresh(frame).regions|
    requires Requests(Drain(Fresh(frame), pending), |pending|, ops)
    ensures var s := Drain(Fresh(frame), pending);
            && Tables(s, s.entry) && s.fx == frame && BookOf(s) == Book(pending, INT_MAX)
            && RunOk(s, ops) && Orderly(Final(s, ops), Final(s, ops).entry, |pending|)
            && (RunShaped(s, |pending|, ops) ==> Shaped(Final(s, ops), Final(s, ops).entry, |pending|))
  {
    DrainRenders(frame, pending);
    hide Fresh, Drain, Requests, RunOk, Final, Orderly, RunShaped, Shaped, Tables, Canon;
    var s := Drain(Fresh(frame), pending);
    CanonTables(s, pending, |pending|);
    CanonEntry(s, pending, |pending|);
    CanonOrderly(s, pending, |pending|);
    CanonShaped(s, pending, |pending|);
    RunInBounds(s, pending, |pending|, ops);
    RunKeepsTables(s, pending, ops);
    TablesEntry(Final(s, ops), After(frame.max, Book(pending, INT_MAX), ops).live);
    if RunShaped(s, |pending|, ops) { RunKeepsShape(s, pending, |pending|, ops); }
  }
}
