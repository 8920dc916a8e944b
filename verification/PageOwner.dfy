/** The page-owner dump. Records are printed from the front of a buffer whose last bytes hold the
    handles of the stacks already printed in full; a page with such a handle gets a short record.
    The text may run into the table, so the two are modelled as the same bytes. */
module PageOwner {
  import opened RegDump

  type Byte = b: int | 0 <= b < 256

  /** An allocated page: its stack handle, the heading and the stack lines of its full record, and
      its short record. */
  datatype Page = Page(handle: Word, heading: seq<Byte>, stack: seq<seq<Byte>>, brief: seq<Byte>)

  /** A printed record: where it starts, and whether it is the short one. */
  datatype Record = Record(handle: Word, brief: bool, at: nat)

  function Flat(lines: seq<seq<Byte>>): seq<Byte> {
    if lines == [] then [] else Flat(lines[..|lines| - 1]) + lines[|lines| - 1]
  }

  function Full(p: Page): seq<Byte> { p.heading + Flat(p.stack) }

  // ------------------------------------------------------------------ handles as bytes

  function HandleAt(b: seq<Byte>, i: nat): Word
    requires i + 4 <= |b|
  {
    b[i] as int + 0x100 * b[i + 1] as int + 0x1_0000 * b[i + 2] as int + 0x100_0000 * b[i + 3] as int
  }

  /** Handle `i` of the table starting at `start`. */
  function Slot(b: seq<Byte>, start: nat, i: nat): Word
    requires start + 4 * i + 4 <= |b|
  {
    HandleAt(b, start + 4 * i)
  }

  function HandleBytes(h: Word): (b: seq<Byte>)
    ensures |b| == 4 && HandleAt(b, 0) == h
  {
    [h % 0x100, h / 0x100 % 0x100, h / 0x100 / 0x100 % 0x100, h / 0x100 / 0x100 / 0x100]
  }

  /** What is left of a handle whose first byte is overwritten with a NUL. */
  function ClearLow(h: Word): Word { h - h % 0x100 }

  // ------------------------------------------------------------------ the dump as a function

  /** The table of stored handles, the records, the characters printed, and whether the buffer is
      exhausted. */
  datatype State = State(table: seq<Word>, log: seq<Record>, text: seq<Byte>, done: bool)

  const START := State([], [], [], false)

  /** The table as the search reads it: when the text ends exactly where the table starts, its
      NUL has fallen on the first handle. */
  function Seen(s: State, start: int): seq<Word> {
    if |s.text| == start && s.table != [] then s.table[0 := ClearLow(s.table[0])] else s.table
  }

  predicate Found(s: State, h: Word, start: int) { |s.text| <= start && h in Seen(s, start) }

  /** One page, in a buffer of `size` bytes whose table takes the last `tableSize`. */
  function Step(s: State, p: Page, size: nat, tableSize: nat): (t: State)
    requires |s.text| < size
    ensures |t.text| < size
  {
    if p.handle == 0 then s
    else
      var start := size - tableSize;
      var brief := Found(s, p.handle, start);
      var stored := |s.text| <= start && !brief && 4 * |s.table| < tableSize;
      var line := if brief then p.brief else Full(p);
      var room := size - |s.text| - 1;
      State(if stored then s.table + [p.handle] else s.table,
            s.log + [Record(p.handle, brief, |s.text|)],
            s.text + if |line| < room then line else line[..room],
            |line| >= room)
  }

  /** The first `n` pages, up to the one that exhausts the buffer. */
  function Run(ps: seq<Page>, n: nat, size: nat, tableSize: nat): (s: State)
    requires n <= |ps| && size > 0
    ensures |s.text| < size
  {
    if n == 0 then START
    else
      var s := Run(ps, n - 1, size, tableSize);
      if s.done then s else Step(s, ps[n - 1], size, tableSize)
  }

  // ------------------------------------------------------------------ what the text says

  function LineOf(r: Record, p: Page): seq<Byte> { if r.brief then p.brief else Full(p) }

  /** Where record `k` ends: where the next one starts, or the text ends. */
  function EndOf(s: State, k: nat): nat
    requires k < |s.log|
  {
    if k + 1 < |s.log| then s.log[k + 1].at else |s.text|
  }

  /** Record `k` is that of page `p`: its line stands between its start and its end, whole, or cut
      because it is the last one and the buffer is exhausted. */
  predicate RecordIs(s: State, k: nat, p: Page, size: nat)
    requires k < |s.log|
  {
    var r, end := s.log[k], EndOf(s, k);
    var line, n := LineOf(r, p), end - r.at;
    && r.handle == p.handle && 0 <= n <= |line| && end <= |s.text| && s.text[r.at..end] == line[..n]
    && (n == |line| || (k + 1 == |s.log| && |s.text| == size - 1))
  }

  /** The pages that have a handle, in order. */
  function Owned(ps: seq<Page>, n: nat): seq<Page>
    requires n <= |ps|
  {
    if n == 0 then [] else Owned(ps, n - 1) + if ps[n - 1].handle == 0 then [] else [ps[n - 1]]
  }

  /** Record `k` is that of the `k`-th page, as far as there are records, and the first starts at
      the first character. */
  predicate TextIs(s: State, ps: seq<Page>, size: nat) {
    && |s.log| <= |ps| && (if s.log == [] then s.text == [] else s.log[0].at == 0)
    && (!s.done ==> |s.log| == |ps| && (s.log != [] ==> |s.text| < size - 1))
    && forall k | 0 <= k < |s.log| :: RecordIs(s, k, ps[k], size)
  }

  /** The text is nothing but the records of the pages that have a handle, in order and one behind
      the other; only an exhausted buffer cuts the last one or drops the rest. */
  lemma {:induction false} TextIsRecords(ps: seq<Page>, n: nat, size: nat, tableSize: nat)
    requires n <= |ps| && size > 0
    ensures TextIs(Run(ps, n, size, tableSize), Owned(ps, n), size)
  {
    if n > 0 {
      TextIsRecords(ps, n - 1, size, tableSize);
      var s, t := Run(ps, n - 1, size, tableSize), Run(ps, n, size, tableSize);
      if !s.done && ps[n - 1].handle != 0 { TextGrows(s, Owned(ps, n - 1), ps[n - 1], size, tableSize); }
    }
  }

  lemma TextGrows(s: State, ps: seq<Page>, p: Page, size: nat, tableSize: nat)
    requires |s.text| < size && TextIs(s, ps, size) && !s.done && p.handle != 0
    ensures TextIs(Step(s, p, size, tableSize), ps + [p], size)
  {
    var t := Step(s, p, size, tableSize);
    NewRecord(s, p, size, tableSize);
    forall k | 0 <= k < |s.log| ensures RecordIs(t, k, ps[k], size) { OldRecord(s, p, k, ps[k], size, tableSize); }
    hide RecordIs, Found, Full;
    assert forall k | 0 <= k < |s.log| :: (ps + [p])[k] == ps[k];
  }

  lemma OldRecord(s: State, p: Page, k: nat, q: Page, size: nat, tableSize: nat)
    requires |s.text| < size - 1 && p.handle != 0 && k < |s.log| && RecordIs(s, k, q, size)
    ensures RecordIs(Step(s, p, size, tableSize), k, q, size)
  {
    var t, r := Step(s, p, size, tableSize), s.log[k];
    assert t.text[..|s.text|] == s.text;
    assert t.text[r.at..EndOf(s, k)] == s.text[r.at..EndOf(s, k)];
    hide Found;
  }

  lemma NewRecord(s: State, p: Page, size: nat, tableSize: nat)
    requires |s.text| < size && p.handle != 0
    ensures RecordIs(Step(s, p, size, tableSize), |s.log|, p, size)
  {
    hide Found, Full;
  }

  // ------------------------------------------------------------------ soundness

  predicate FullBefore(log: seq<Record>, k: nat, h: Word)
    requires k <= |log|
  {
    exists j :: 0 <= j < k && !log[j].brief && log[j].handle == h
  }

  /** Every short record comes after a full record of the same handle. */
  predicate Sound(log: seq<Record>) {
    forall k | 0 <= k < |log| && log[k].brief :: FullBefore(log, k, log[k].handle)
  }

  /** The one bad page: its record starts on the table's first byte, its handle is the first
      page's with the low byte cleared, and no earlier page had it. */
  predicate Aliased(log: seq<Record>, start: nat, k: nat)
    requires k < |log|
  {
    && k > 0 && log[k].at == start && log[k].handle == ClearLow(log[0].handle)
    && forall j | 0 <= j < k :: log[j].handle != log[k].handle
  }

  predicate HasAliased(log: seq<Record>, start: nat) {
    exists k :: 0 <= k < |log| && Aliased(log, start, k)
  }

  /** What holds between the table and the records while the buffer lasts: the stored handles all
      have full records, and while the table is consulted the first is the first page's. */
  predicate Grounded(s: State, start: nat, tableSize: nat) {
    && (s.log == [] ==> s.text == [] && s.table == [])
    && (|s.text| <= start && s.log != [] && tableSize > 0 ==> s.table != [] && s.table[0] == s.log[0].handle)
    && (tableSize == 0 ==> s.table == [])
    && forall i | 0 <= i < |s.table| :: FullBefore(s.log, |s.log|, s.table[i])
  }

  lemma FullStays(log: seq<Record>, r: Record, k: nat, h: Word)
    requires k <= |log|
    ensures FullBefore(log + [r], k, h) <==> FullBefore(log, k, h)
  {
    if FullBefore(log, k, h) {
      var j :| 0 <= j < k && !log[j].brief && log[j].handle == h;
      assert (log + [r])[j] == log[j];
    }
  }

  lemma SoundSnoc(log: seq<Record>, r: Record)
    ensures Sound(log + [r]) <==> Sound(log) && (r.brief ==> FullBefore(log, |log|, r.handle))
  {
    hide FullBefore;
    var next := log + [r];
    forall k | 0 <= k <= |log| ensures FullBefore(next, k, next[k].handle) == FullBefore(log, k, next[k].handle) {
      FullStays(log, r, k, next[k].handle);
    }
    assert next[|log|] == r;
    forall k | 0 <= k < |log|
      ensures next[k] == log[k] && FullBefore(next, k, next[k].handle) == FullBefore(log, k, log[k].handle)
    {
    }
  }

  lemma AliasedSnoc(log: seq<Record>, r: Record, start: nat)
    ensures HasAliased(log + [r], start) <==> HasAliased(log, start) || Aliased(log + [r], start, |log|)
  {
    var next := log + [r];
    assert forall k | 0 <= k < |log| :: next[k] == log[k];
    forall k | 0 <= k < |log| ensures Aliased(next, start, k) == Aliased(log, start, k) {
    }
    if HasAliased(log, start) {
      var k :| 0 <= k < |log| && Aliased(log, start, k);
      assert Aliased(next, start, k);
    }
  }

  /** The table finds a handle that has no full record exactly on the bad page. */
  lemma FoundWithoutRecord(s: State, r: Record, start: nat, tableSize: nat)
    requires Grounded(s, start, tableSize) && Sound(s.log)
    requires r.at == |s.text| && r.brief == Found(s, r.handle, start)
    ensures r.brief && !FullBefore(s.log, |s.log|, r.handle) <==>
            tableSize > 0 && Aliased(s.log + [r], start, |s.log|)
  {
    var next, n := s.log + [r], |s.log|;
    assert next[n] == r && forall j | 0 <= j < n :: next[j] == s.log[j];
    if r.brief && !FullBefore(s.log, n, r.handle) {
      var i :| 0 <= i < |s.table| && Seen(s, start)[i] == r.handle;
      assert i == 0 && |s.text| == start;
      forall j | 0 <= j < n ensures s.log[j].handle != r.handle {
        if s.log[j].handle == r.handle { FullHandle(s.log, j); }
      }
    }
    if tableSize > 0 && Aliased(next, start, n) {
      assert Seen(s, start)[0] == r.handle;
    }
  }

  /** In a sound log a handle that was printed at all was printed in full. */
  lemma FullHandle(log: seq<Record>, j: nat)
    requires Sound(log) && j < |log|
    ensures FullBefore(log, |log|, log[j].handle)
  {
    if log[j].brief {
      var i :| 0 <= i < j && !log[i].brief && log[i].handle == log[j].handle;
    }
  }

  lemma StepGrounded(s: State, p: Page, size: nat, tableSize: nat)
    requires tableSize <= size && tableSize % 4 == 0 && |s.text| < size && !s.done
    requires Grounded(s, size - tableSize, tableSize)
    ensures Grounded(Step(s, p, size, tableSize), size - tableSize, tableSize)
  {
    if p.handle != 0 {
      var t := Step(s, p, size, tableSize);
      var n := |s.log|;
      forall i | 0 <= i < |t.table| ensures FullBefore(t.log, |t.log|, t.table[i]) {
        if i < |s.table| {
          assert FullBefore(s.log, n, s.table[i]);
          FullStays(s.log, t.log[n], n, s.table[i]);
          assert FullBefore(t.log, n, t.table[i]);
        } else {
          assert !t.log[n].brief && t.log[n].handle == t.table[i];
        }
      }
    }
  }

  /** One page keeps soundness tied to the bad page. */
  lemma StepExact(s: State, p: Page, size: nat, tableSize: nat)
    requires tableSize <= size && tableSize % 4 == 0 && |s.text| < size && !s.done
    requires Grounded(s, size - tableSize, tableSize)
    requires Sound(s.log) <==> tableSize == 0 || !HasAliased(s.log, size - tableSize)
    ensures var t := Step(s, p, size, tableSize);
            Sound(t.log) <==> tableSize == 0 || !HasAliased(t.log, size - tableSize)
  {
    if p.handle != 0 {
      var start := size - tableSize;
      var r := Record(p.handle, Found(s, p.handle, start), |s.text|);
      SoundSnoc(s.log, r);
      AliasedSnoc(s.log, r, start);
      if Sound(s.log) { FoundWithoutRecord(s, r, start, tableSize); }
    }
  }

  /** For any pages, buffer and table: every short record follows a full record of the same handle
      exactly when no record starts on the table's first byte with a new handle that is the first
      page's with its low byte cleared. */
  lemma {:induction false} RunExact(ps: seq<Page>, n: nat, size: nat, tableSize: nat)
    requires n <= |ps| && tableSize <= size && tableSize % 4 == 0 && size > 0
    ensures var s := Run(ps, n, size, tableSize);
            && Grounded(s, size - tableSize, tableSize)
            && (Sound(s.log) <==> tableSize == 0 || !HasAliased(s.log, size - tableSize))
  {
    if n == 0 {
      assert START.log == [];
    } else {
      RunExact(ps, n - 1, size, tableSize);
      var s := Run(ps, n - 1, size, tableSize);
      if !s.done {
        StepGrounded(s, ps[n - 1], size, tableSize);
        StepExact(s, ps[n - 1], size, tableSize);
      }
    }
  }

  /** In particular the dump is sound when no record starts on the table's first byte. */
  lemma SoundUnlessOnTable(ps: seq<Page>, size: nat, tableSize: nat)
    requires tableSize <= size && tableSize % 4 == 0 && size > 0
    requires var log := Run(ps, |ps|, size, tableSize).log; forall k | 0 < k < |log| :: log[k].at != size - tableSize
    ensures Sound(Run(ps, |ps|, size, tableSize).log)
  {
    RunExact(ps, |ps|, size, tableSize);
  }

  // ------------------------------------------------------------------ the bad page foreseen

  /** The handles the table would hold after the first `n` pages if text never reached it. */
  function Stored(ps: seq<Page>, n: nat, tableSize: nat): seq<Word>
    requires n <= |ps|
  {
    if n == 0 then []
    else
      var t, h := Stored(ps, n - 1, tableSize), ps[n - 1].handle;
      if h in t || 4 * |t| >= tableSize then t else t + [h]
  }

  /** How much text the first `n` pages would then take: a page with a stored handle its short record,
      any other its full one. */
  function Length(ps: seq<Page>, n: nat, tableSize: nat): nat
    requires n <= |ps|
  {
    if n == 0 then 0
    else
      var p := ps[n - 1];
      Length(ps, n - 1, tableSize) + if p.handle in Stored(ps, n - 1, tableSize) then |p.brief| else |Full(p)|
  }

  /** The bad page, told from the pages alone: the lengths before it add up to the text area, and its
      handle is new and the first one with the low byte cleared. */
  predicate WillAlias(ps: seq<Page>, start: nat, tableSize: nat) {
    exists k :: 0 < k < |ps| && Length(ps, k, tableSize) == start && ps[k].handle == ClearLow(ps[0].handle)
                && forall j | 0 <= j < k :: ps[j].handle != ps[k].handle
  }

  /** The records of a real page are not empty. */
  predicate Printable(p: Page) { p.brief != [] && p.heading != [] }

  lemma {:induction false} PlanStays(ps: seq<Page>, p: Page, n: nat, tableSize: nat)
    requires n <= |ps|
    ensures Stored(ps + [p], n, tableSize) == Stored(ps, n, tableSize)
            && Length(ps + [p], n, tableSize) == Length(ps, n, tableSize)
  {
    if n > 0 {
      PlanStays(ps, p, n - 1, tableSize);
      assert (ps + [p])[n - 1] == ps[n - 1];
    }
  }

  /** The plan of the earlier pages stays the plan. */
  lemma PlanStaysAll(ps: seq<Page>, p: Page, tableSize: nat)
    ensures forall k {:trigger Length(ps + [p], k, tableSize)} | 0 <= k <= |ps| ::
              Length(ps + [p], k, tableSize) == Length(ps, k, tableSize)
  {
    forall k | 0 <= k <= |ps| ensures Length(ps + [p], k, tableSize) == Length(ps, k, tableSize) {
      PlanStays(ps, p, k, tableSize);
    }
  }

  /** As long as the plan keeps to the text area the dump follows it, and after that the text is past
      the table's first byte. */
  predicate Follows(s: State, ps: seq<Page>, start: nat, tableSize: nat) {
    && (Length(ps, |ps|, tableSize) <= start ==>
          !s.done && |s.text| == Length(ps, |ps|, tableSize) && s.table == Stored(ps, |ps|, tableSize))
    && (Length(ps, |ps|, tableSize) > start ==> |s.text| > start)
    && PlannedLog(s.log, s.done, ps, start, tableSize)
  }

  predicate PlannedLog(log: seq<Record>, done: bool, ps: seq<Page>, start: nat, tableSize: nat) {
    && |log| <= |ps| && (!done ==> |log| == |ps|)
    && (forall k | 0 <= k < |log| :: log[k].handle == ps[k].handle)
    && (forall k | 0 <= k < |ps| && Length(ps, k, tableSize) <= start ::
          k < |log| && log[k].at == Length(ps, k, tableSize))
    && (forall k | 0 <= k < |log| && Length(ps, k, tableSize) > start :: log[k].at > start)
  }

  lemma LogFollows(log: seq<Record>, ps: seq<Page>, p: Page, r: Record, done: bool, start: nat, tableSize: nat)
    requires PlannedLog(log, false, ps, start, tableSize) && r.handle == p.handle
    requires if Length(ps, |ps|, tableSize) <= start then r.at == Length(ps, |ps|, tableSize) else r.at > start
    ensures PlannedLog(log + [r], done, ps + [p], start, tableSize)
  {
    hide Length;
    PlanStaysAll(ps, p, tableSize);
    var qs, next := ps + [p], log + [r];
    assert forall k | 0 <= k < |ps| :: qs[k] == ps[k] && next[k] == log[k];
  }

  lemma LogDone(log: seq<Record>, ps: seq<Page>, p: Page, start: nat, tableSize: nat)
    requires PlannedLog(log, true, ps, start, tableSize) && Length(ps, |ps|, tableSize) > start
    ensures PlannedLog(log, true, ps + [p], start, tableSize)
  {
    hide Length;
    PlanStaysAll(ps, p, tableSize);
    assert forall k | 0 <= k < |ps| :: (ps + [p])[k] == ps[k];
  }

  lemma StepFollows(s: State, ps: seq<Page>, p: Page, size: nat, tableSize: nat)
    requires 4 <= tableSize <= size && |s.text| < size && !s.done && Printable(p) && p.handle != 0
    requires Follows(s, ps, size - tableSize, tableSize)
    ensures Follows(Step(s, p, size, tableSize), ps + [p], size - tableSize, tableSize)
  {
    hide Full, Length, Stored, PlannedLog;
    var start, t, n := size - tableSize, Step(s, p, size, tableSize), |ps|;
    FullNotEmpty(p);
    LogFollows(s.log, ps, p, Record(p.handle, Found(s, p.handle, start), |s.text|), t.done, start, tableSize);
    TextGrowsBy(s, p, size, tableSize);
    PlanNext(ps, p, tableSize);
    assert |s.text| < start ==> (Found(s, p.handle, start) <==> p.handle in s.table);
  }

  lemma FullNotEmpty(p: Page)
    requires Printable(p)
    ensures |Full(p)| > 0
  {
  }

  lemma TextGrowsBy(s: State, p: Page, size: nat, tableSize: nat)
    requires |s.text| < size && p.handle != 0
    ensures var t := Step(s, p, size, tableSize);
            var n := if Found(s, p.handle, size - tableSize) then |p.brief| else |Full(p)|;
            && |t.text| == (if n < size - |s.text| - 1 then |s.text| + n else size - 1)
            && (t.done <==> n >= size - |s.text| - 1)
  {
  }

  lemma PlanNext(ps: seq<Page>, p: Page, tableSize: nat)
    ensures var t := Stored(ps, |ps|, tableSize);
            && Stored(ps + [p], |ps| + 1, tableSize) ==
               (if p.handle in t || 4 * |t| >= tableSize then t else t + [p.handle])
            && Length(ps + [p], |ps| + 1, tableSize) ==
               Length(ps, |ps|, tableSize) + if p.handle in t then |p.brief| else |Full(p)|
  {
    PlanStays(ps, p, |ps|, tableSize);
  }

  lemma DoneFollows(s: State, ps: seq<Page>, p: Page, start: nat, tableSize: nat)
    requires Follows(s, ps, start, tableSize) && s.done
    ensures Follows(s, ps + [p], start, tableSize)
  {
    hide Length, Stored, PlannedLog;
    LogDone(s.log, ps, p, start, tableSize);
    PlanNext(ps, p, tableSize);
  }

  lemma {:induction false} RunFollows(ps: seq<Page>, n: nat, size: nat, tableSize: nat)
    requires n <= |ps| && 4 <= tableSize <= size && forall i | 0 <= i < |ps| :: Printable(ps[i])
    ensures Follows(Run(ps, n, size, tableSize), Owned(ps, n), size - tableSize, tableSize)
  {
    hide Follows, Step, Printable, Run, Owned;
    RunNext(ps, n, size, tableSize);
    if n == 0 {
      StartFollows(size - tableSize, tableSize);
    } else {
      RunFollows(ps, n - 1, size, tableSize);
      var s := Run(ps, n - 1, size, tableSize);
      if ps[n - 1].handle != 0 {
        if s.done {
          DoneFollows(s, Owned(ps, n - 1), ps[n - 1], size - tableSize, tableSize);
        } else {
          StepFollows(s, Owned(ps, n - 1), ps[n - 1], size, tableSize);
        }
      }
    }
  }

  lemma StartFollows(start: nat, tableSize: nat)
    ensures Follows(START, [], start, tableSize)
  {
  }

  lemma RunNext(ps: seq<Page>, n: nat, size: nat, tableSize: nat)
    requires n <= |ps| && size > 0
    ensures n == 0 ==> Owned(ps, n) == [] && Run(ps, n, size, tableSize) == START
    ensures n > 0 ==>
              var s, p := Run(ps, n - 1, size, tableSize), ps[n - 1];
              && Owned(ps, n) == (if p.handle == 0 then Owned(ps, n - 1) else Owned(ps, n - 1) + [p])
              && Run(ps, n, size, tableSize) == if s.done || p.handle == 0 then s else Step(s, p, size, tableSize)
  {
  }

  /** Whether a dump will be sound can be told beforehand, from the handles and the lengths of the
      records. */
  lemma SoundForeseen(ps: seq<Page>, size: nat, tableSize: nat)
    requires 4 <= tableSize <= size && tableSize % 4 == 0 && forall i | 0 <= i < |ps| :: Printable(ps[i])
    ensures Sound(Run(ps, |ps|, size, tableSize).log) <==> !WillAlias(Owned(ps, |ps|), size - tableSize, tableSize)
  {
    hide Run, Owned, Sound, Grounded, Follows, Printable, HasAliased, WillAlias;
    RunExact(ps, |ps|, size, tableSize);
    RunFollows(ps, |ps|, size, tableSize);
    AliasIsForeseen(Run(ps, |ps|, size, tableSize), Owned(ps, |ps|), size - tableSize, tableSize);
  }

  lemma AliasIsForeseen(s: State, ps: seq<Page>, start: nat, tableSize: nat)
    requires Follows(s, ps, start, tableSize)
    ensures HasAliased(s.log, start) <==> WillAlias(ps, start, tableSize)
  {
    hide Length, Stored, ClearLow;
    if HasAliased(s.log, start) {
      var k :| 0 <= k < |s.log| && Aliased(s.log, start, k);
      assert Length(ps, k, tableSize) == start && ps[k].handle == s.log[k].handle;
    }
    if WillAlias(ps, start, tableSize) {
      var k :| 0 < k < |ps| && Length(ps, k, tableSize) == start && ps[k].handle == ClearLow(ps[0].handle)
               && forall j | 0 <= j < k :: ps[j].handle != ps[k].handle;
      assert Aliased(s.log, start, k);
    }
  }

  /** A dump that is not sound: the first record fills the text area, its NUL turns handle 257
      into 256, and the page with handle 256 gets a short record. */
  lemma UnsoundDump()
    ensures var ps := [Page(257, [49, 50, 51, 10], [], [49, 10]), Page(256, [50, 51, 52, 10], [], [50, 10])];
            var log := Run(ps, 2, 12, 8).log;
            log == [Record(257, false, 0), Record(256, true, 4)] && !Sound(log)
  {
    var ps := [Page(257, [49, 50, 51, 10], [], [49, 10]), Page(256, [50, 51, 52, 10], [], [50, 10])];
    var one := Run(ps, 1, 12, 8);
    assert Run(ps, 0, 12, 8) == START;
    assert Full(ps[0]) == [49, 50, 51, 10];
    assert one == State([257], [Record(257, false, 0)], [49, 50, 51, 10], false);
    assert Seen(one, 4) == [256];
    var log := Run(ps, 2, 12, 8).log;
    assert log == [Record(257, false, 0), Record(256, true, 4)];
    assert log[1].brief && !FullBefore(log, 1, log[1].handle);
  }

  // ------------------------------------------------------------------ the dump in place

  class PageOwnerDump {
    const buf: array<Byte>
    const tableSize: nat
    var nrHandles: nat

    ghost predicate Shaped() { 0 < buf.Length && tableSize <= buf.Length && tableSize % 4 == 0 }

    function Start(): int { buf.Length - tableSize }

    /** The buffer begins with the text and a NUL, and as long as the table is consulted it holds
        the handles as the search sees them. */
    ghost predicate Holds(s: State)
      reads this, buf
    {
      && Shaped() && nrHandles == |s.table| && 4 * nrHandles <= tableSize && |s.text| < buf.Length
      && buf[..|s.text|] == s.text && (s.text != [] ==> buf[|s.text|] == 0)
      && (|s.text| <= Start() ==> TableReads(buf[..], Start(), Seen(s, Start())))
    }

    constructor (size: nat, handlesSize: nat)
      requires 0 < size && handlesSize <= size && handlesSize % 4 == 0
      ensures Holds(START) && buf.Length == size && tableSize == handlesSize && fresh(buf)
    {
      buf := new Byte[size](_ => 0);
      tableSize, nrHandles := handlesSize, 0;
    }

    /** `found_stack`: the handle is in the table, or is put there if there is room. */
    method FoundStack(handle: Word) returns (found: bool)
      requires Shaped() && 4 * nrHandles <= tableSize
      modifies `nrHandles, buf
      ensures found <==> exists i :: 0 <= i < old(nrHandles) && old(Slot(buf[..], Start(), i)) == handle
      ensures nrHandles == old(nrHandles) + if !found && 4 * old(nrHandles) < tableSize then 1 else 0
      ensures nrHandles == old(nrHandles) ==> buf[..] == old(buf[..])
      ensures nrHandles > old(nrHandles)
              ==> buf[..] == Written(old(buf[..]), Start() + 4 * old(nrHandles), HandleBytes(handle))
    {
      var handles := Start();
      for i := 0 to nrHandles
        invariant forall j | 0 <= j < i :: Slot(buf[..], handles, j) != handle
      {
        assert ReadHandle(handles + 4 * i) == Slot(buf[..], Start(), i);
        if ReadHandle(handles + 4 * i) == handle { return true; }
      }
      if handles + 4 * nrHandles < buf.Length {
        WriteBytes(handles + 4 * nrHandles, HandleBytes(handle));
        nrHandles := nrHandles + 1;
      }
      found := false;
    }

    function ReadHandle(i: nat): (h: Word)
      requires i + 4 <= buf.Length
      reads buf
      ensures h == HandleAt(buf[..], i)
    {
      buf[i] as int + 0x100 * buf[i + 1] as int + 0x1_0000 * buf[i + 2] as int + 0x100_0000 * buf[i + 3] as int
    }

    method WriteBytes(at: nat, b: seq<Byte>)
      requires at + |b| <= buf.Length
      modifies buf
      ensures buf[..] == Written(old(buf[..]), at, b)
    {
      for i := 0 to |b|
        invariant forall j | 0 <= j < buf.Length :: buf[j] == if at <= j < at + i then b[j - at] else old(buf[j])
      {
        buf[at + i] := b[i];
      }
    }

    /** `scnprintf` into the `count` bytes at `at`: what fits of the line, and a NUL. */
    method Scnprintf(at: nat, count: nat, line: seq<Byte>) returns (ret: nat)
      requires at + count == buf.Length && 0 < count
      modifies buf
      ensures ret == Fitting(line, count)
      ensures buf[..] == Written(old(buf[..]), at, line[..ret] + [0])
    {
      ret := if |line| < count - 1 then |line| else count - 1;
      WriteBytes(at, line[..ret] + [0]);
    }

    /** The lines of a full record, up to the one that exhausts the buffer. */
    method PrintFull(at: nat, count: nat, p: Page) returns (ret: nat)
      requires at + count == buf.Length && 0 < count
      modifies buf
      ensures ret == Fitting(Full(p), count)
      ensures buf[..] == Written(old(buf[..]), at, Full(p)[..ret] + [0])
    {
      hide Written, Flat;
      ghost var b := buf[..];
      ghost var text := p.heading;
      NothingPrinted(p);
      ret := Scnprintf(at, count, p.heading);
      var i := 0;
      while i < |p.stack| && ret != count - 1
        invariant i <= |p.stack| && text == p.heading + Flat(p.stack[..i])
        invariant ret == Fitting(text, count) && buf[..] == Written(b, at, text[..ret] + [0])
      {
        PrintStep(b, at, count, text, p.stack[i]);
        text := TextSnoc(p, i, text);
        var more := Scnprintf(at + ret, count - ret, p.stack[i]);
        ret := ret + more;
        i := i + 1;
      }
      AllPrinted(p, i, text, count);
    }

    /** The search as far as it is made at all. */
    method Consult(at: nat, handle: Word, ghost s: State) returns (found: bool)
      requires Holds(s) && at == |s.text|
      modifies `nrHandles, buf
      ensures found <==> Found(s, handle, Start())
      ensures nrHandles == |s.table| + (if Stores(s, handle, Start(), tableSize) then 1 else 0)
              && 4 * nrHandles <= tableSize
      ensures buf[..|s.text|] == s.text
      ensures |s.text| <= Start() ==> TableReads(buf[..], Start(), Viewed(s, handle, Start(), tableSize))
    {
      found := false;
      if at <= Start() {
        ghost var b, seen := buf[..], Seen(s, Start());
        found := FoundStack(handle);
        TableHas(b, Start(), seen, handle);
        if nrHandles > |s.table| { StoreReads(b, Start(), seen, handle); }
      }
    }

    /** `dump_page_owner_md` with every filter on. */
    method DumpPage(at: nat, count: nat, p: Page, ghost s: State) returns (ret: nat)
      requires Holds(s) && at == |s.text| && at + count == buf.Length && p.handle != 0 && !s.done
      modifies `nrHandles, buf
      ensures var t := Step(s, p, buf.Length, tableSize);
              Holds(t) && at + ret == |t.text| && (t.done <==> ret == count - 1)
    {
      var found := Consult(at, p.handle, s);
      ghost var b := buf[..];
      if !found { ret := PrintFull(at, count, p); } else { ret := Scnprintf(at, count, p.brief); }
      PageHolds(s, p, b, buf[..], ret, Start(), tableSize);
    }

    /** `md_dump_pageowner` over the allocated pages. What is printed and what is left of the
        buffer always add up to the whole. */
    method Dump(ps: seq<Page>) returns (ghost s: State)
      requires Holds(START)
      modifies `nrHandles, buf
      ensures s == Run(ps, |ps|, buf.Length, tableSize) && Holds(s)
    {
      var addr, dumpSize := 0, buf.Length;
      s := START;
      for i := 0 to |ps|
        invariant s == Run(ps, i, buf.Length, tableSize) && Holds(s) && !s.done
        invariant addr == |s.text| && addr + dumpSize == buf.Length
      {
        if ps[i].handle == 0 { continue; }
        ghost var before := s;
        s := Step(s, ps[i], buf.Length, tableSize);
        var size := DumpPage(addr, dumpSize, ps[i], before);
        if size == dumpSize - 1 {
          DoneStays(ps, i + 1, |ps|, buf.Length, tableSize);
          return;
        }
        dumpSize := dumpSize - size;
        addr := addr + size;
      }
    }
  }

  lemma {:induction false} DoneStays(ps: seq<Page>, i: nat, n: nat, size: nat, tableSize: nat)
    requires i <= n <= |ps| && size > 0 && Run(ps, i, size, tableSize).done
    ensures Run(ps, n, size, tableSize) == Run(ps, i, size, tableSize)
  {
    if i < n { DoneStays(ps, i, n - 1, size, tableSize); }
  }

  /** Does the search put the handle into the table, and how does the table read then? */
  predicate Stores(s: State, h: Word, start: int, tableSize: nat) {
    |s.text| <= start && !Found(s, h, start) && 4 * |s.table| < tableSize
  }

  function Viewed(s: State, h: Word, start: int, tableSize: nat): seq<Word> {
    if Stores(s, h, start, tableSize) then Seen(s, start) + [h] else Seen(s, start)
  }

  /** How many characters of a line `scnprintf` leaves in `count` bytes. */
  function Fitting(line: seq<Byte>, count: nat): (n: nat)
    requires count > 0
    ensures n <= |line|
  {
    if |line| < count - 1 then |line| else count - 1
  }

  lemma NothingPrinted(p: Page)
    ensures p.heading + Flat(p.stack[..0]) == p.heading
  {
  }

  lemma TextSnoc(p: Page, i: nat, text: seq<Byte>) returns (next: seq<Byte>)
    requires i < |p.stack| && text == p.heading + Flat(p.stack[..i])
    ensures next == text + p.stack[i] == p.heading + Flat(p.stack[..i + 1])
  {
    next := text + p.stack[i];
    FlatSnoc(p.stack, i);
    assert p.heading + (Flat(p.stack[..i]) + p.stack[i]) == next;
  }

  lemma AllPrinted(p: Page, i: nat, text: seq<Byte>, count: nat)
    requires i <= |p.stack| && text == p.heading + Flat(p.stack[..i]) && count > 0
    requires i == |p.stack| || Fitting(text, count) == count - 1
    ensures Fitting(text, count) == Fitting(Full(p), count)
    ensures text[..Fitting(text, count)] == Full(p)[..Fitting(text, count)]
  {
    FlatPrefix(p.stack, i);
    if i == |p.stack| { assert p.stack[..i] == p.stack; }
  }

  lemma PrintStep(b: seq<Byte>, at: nat, count: nat, text: seq<Byte>, line: seq<Byte>)
    requires at + count == |b| && |text| < count - 1
    ensures var more, next := Fitting(line, count - |text|), text + line;
            && |text| + more == Fitting(next, count)
            && Written(Written(b, at, text[..|text|] + [0]), at + |text|, line[..more] + [0])
               == Written(b, at, next[..|text| + more] + [0])
  {
    var more := Fitting(line, count - |text|);
    assert text[..|text|] == text && (text + line)[..|text| + more] == text + line[..more];
    WrittenTwice(b, at, text, line[..more]);
  }

  lemma TableHas(b: seq<Byte>, start: nat, handles: seq<Word>, h: Word)
    requires TableReads(b, start, handles)
    ensures h in handles <==> exists i :: 0 <= i < |handles| && Slot(b, start, i) == h
  {
    if h in handles {
      var i :| 0 <= i < |handles| && handles[i] == h;
      assert Slot(b, start, i) == h;
    }
  }

  /** Printing the page's record over a buffer that has been consulted gives the next state. */
  lemma PageHolds(s: State, p: Page, b: seq<Byte>, c: seq<Byte>, ret: nat, start: nat, tableSize: nat)
    requires start + tableSize == |b| && |s.text| < |b| && b[..|s.text|] == s.text && p.handle != 0 && !s.done
    requires |s.text| <= start ==> TableReads(b, start, Viewed(s, p.handle, start, tableSize))
    requires var line := if Found(s, p.handle, start) then p.brief else Full(p);
             ret == Fitting(line, |b| - |s.text|) && c == Written(b, |s.text|, line[..ret] + [0])
    ensures var t := Step(s, p, |b|, tableSize);
            && |s.text| + ret == |t.text| && (t.done <==> ret == |b| - |s.text| - 1)
            && c[..|t.text|] == t.text && c[|t.text|] == 0
            && (|t.text| <= start ==> TableReads(c, start, Seen(t, start)))
  {
    var t := Step(s, p, |b|, tableSize);
    var line := if Found(s, p.handle, start) then p.brief else Full(p);
    var out := line[..ret];
    assert t.text == s.text + out;
    TextWritten(b, s.text, out);
    if |t.text| <= start {
      TextReads(b, |s.text|, out, start, Viewed(s, p.handle, start, tableSize));
      SeenNext(s, t, p.handle, start, tableSize);
    }
  }

  lemma TextWritten(b: seq<Byte>, text: seq<Byte>, out: seq<Byte>)
    requires |text| + |out| + 1 <= |b| && b[..|text|] == text
    ensures var c := Written(b, |text|, out + [0]); c[..|text + out|] == text + out && c[|text + out|] == 0
  {
  }

  lemma SeenNext(s: State, t: State, h: Word, start: nat, tableSize: nat)
    requires |s.text| <= |t.text| <= start
    requires t.table == if Stores(s, h, start, tableSize) then s.table + [h] else s.table
    ensures var v := Viewed(s, h, start, tableSize);
            Seen(t, start) == if |t.text| == start && v != [] then v[0 := ClearLow(v[0])] else v
  {
  }

  lemma FlatSnoc(lines: seq<seq<Byte>>, i: nat)
    requires i < |lines|
    ensures Flat(lines[..i + 1]) == Flat(lines[..i]) + lines[i]
  {
    assert lines[..i + 1][..i] == lines[..i];
  }

  /** A full record is its heading and then its stack lines, in order and one behind the other. */
  lemma FullRecord(p: Page, i: nat)
    requires i < |p.stack|
    ensures Full(p)[..|p.heading|] == p.heading
    ensures var at := |p.heading| + |Flat(p.stack[..i])|;
            && at + |p.stack[i]| == |p.heading| + |Flat(p.stack[..i + 1])| <= |Full(p)|
            && Full(p)[at..at + |p.stack[i]|] == p.stack[i]
            && (i == 0 ==> at == |p.heading|) && (i + 1 == |p.stack| ==> at + |p.stack[i]| == |Full(p)|)
  {
    FlatSnoc(p.stack, i);
    FlatPrefix(p.stack, i + 1);
    if i + 1 == |p.stack| { assert p.stack[..i + 1] == p.stack; }
  }

  lemma {:induction false} FlatPrefix(lines: seq<seq<Byte>>, i: nat)
    requires i <= |lines|
    ensures Flat(lines[..i]) <= Flat(lines)
    decreases |lines| - i
  {
    if i < |lines| {
      FlatSnoc(lines, i);
      FlatPrefix(lines, i + 1);
    } else {
      assert lines[..i] == lines;
    }
  }

  lemma WrittenTwice(b: seq<Byte>, at: nat, x: seq<Byte>, y: seq<Byte>)
    requires at + |x| + |y| + 1 <= |b|
    ensures Written(Written(b, at, x + [0]), at + |x|, y + [0]) == Written(b, at, x + y + [0])
  {
  }

  lemma StoreReads(b: seq<Byte>, start: nat, handles: seq<Word>, h: Word)
    requires TableReads(b, start, handles) && start + 4 * |handles| + 4 <= |b|
    ensures TableReads(Written(b, start + 4 * |handles|, HandleBytes(h)), start, handles + [h])
  {
  }

  /** Text that stops short of the table leaves it alone; a NUL on its first byte clears the low
      byte of the first handle. */
  lemma TextReads(b: seq<Byte>, at: nat, w: seq<Byte>, start: nat, handles: seq<Word>)
    requires TableReads(b, start, handles) && at + |w| <= start && at + |w| + 1 <= |b|
    ensures TableReads(Written(b, at, w + [0]), start,
                       if at + |w| == start && handles != [] then handles[0 := ClearLow(handles[0])] else handles)
  {
  }

  function Written(b: seq<Byte>, at: nat, w: seq<Byte>): (r: seq<Byte>)
    requires at + |w| <= |b|
    ensures |r| == |b|
    ensures forall i {:trigger r[i]} | 0 <= i < |b| :: r[i] == if at <= i < at + |w| then w[i - at] else b[i]
  {
    b[..at] + w + b[at + |w|..]
  }

  /** The handles from `start` on are those listed. */
  ghost predicate TableReads(b: seq<Byte>, start: int, handles: seq<Word>) {
    0 <= start && start + 4 * |handles| <= |b| && forall i | 0 <= i < |handles| :: Slot(b, start, i) == handles[i]
  }
}
