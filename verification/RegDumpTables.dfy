/** The register-dump buffer as the driver keeps it: a word buffer written in place, and six
    counters. Ghost lists hold the accepted requests; the buffer always renders them. */
module RegDumpTables {
  import opened Kernel
  import opened Sequences
  import opened RegDump
  import opened RegDumpGuards

  /** `s` with the words `w` written at `i`. */
  function Put(s: seq<Word>, i: nat, w: seq<Word>): (r: seq<Word>)
    requires i + |w| <= |s|
    ensures |r| == |s|
  {
    s[..i] + w + s[i + |w|..]
  }

  /** `s` with the terminator at `end` and the output behind it. */
  function Ended(s: seq<Word>, end: nat): (r: seq<Word>)
    requires OUTPUT_DUMP_INDEX < |s| && end < |s| && 4 * (end + 1) < U32
    ensures |r| == |s|
  {
    s[end := 0][OUTPUT_DUMP_INDEX := 4 * (end + 1)]
  }

  class RegDumpTable {
    const p: array<Word>
    const size: Word
    const numCores: Word
    var coreRegNum: Word
    var coreRegUsedNum: Word
    var coreRegEndIndex: Word
    var sysRegSize: Word
    var usedMemory: Word
    ghost var cores: seq<Item>
    ghost var sys: seq<Item>

    ghost predicate Sized() {
      p.Length == size / 4 && numCores > 0
    }

    /** From the first successful table update on. */
    ghost predicate Valid()
      reads this, p
    {
      && Sized() && coreRegNum < CORE_REG_LIMIT && Fits(coreRegNum, cores, sys, p.Length)
      && p[..] == Render(coreRegNum, cores, sys, p.Length)
      && coreRegUsedNum == |cores| && coreRegEndIndex == PERCORE_INDEX + |Words(cores)|
      && sysRegSize == 4 * |Words(sys)|
      && usedMemory == UsedBytes(coreRegNum, cores, sys, numCores) <= size
    }

    /** `cpuss_regdump_init`: no header yet. */
    constructor (bytes: Word, cpus: Word)
      requires cpus > 0
      ensures Sized() && size == bytes && numCores == cpus && fresh(p)
    {
      p := new Word[bytes / 4](_ => 0);
      size, numCores := bytes, cpus;
      coreRegNum, coreRegUsedNum, coreRegEndIndex, sysRegSize, usedMemory := 0, 0, 0, 0, 0;
      cores, sys := [], [];
    }

    /** A count whose table the driver builds inside the buffer: below the limit, or refused. The rest,
        those the size check wrongly admits, send its own memset out of the buffer or build a table
        of another size. */
    ghost predicate Countable(n: Word) { n < CORE_REG_LIMIT || !Admits(n, size) }

    /** `update_reg_dump_table`: succeeds exactly when the empty table fits, and then starts
        over; otherwise nothing changes. */
    method UpdateTable(n: Word) returns (ret: int)
      requires Sized() && Countable(n)
      modifies this, p
      ensures ret == 0 <==> 4 * (SystemStart(n) + 1) < size
      ensures ret == 0 ==> Valid() && coreRegNum == n < CORE_REG_LIMIT && cores == [] && sys == []
      ensures ret != 0 ==> ret == -ENOMEM && unchanged(this) && unchanged(p)
    {
      var start := StartWord(n);
      var output := OutputWord(n);
      TableGuardExact(n, size);
      if output >= size || output / 4 < Wrap(start + 1) { return -ENOMEM; }
      coreRegNum, coreRegUsedNum, coreRegEndIndex := n, 0, PERCORE_INDEX;
      sysRegSize, usedMemory := 0, output;
      cores, sys := [], [];
      WriteHeader(n, start, output);
      assert |Words([])| == 0;
      ret := 0;
    }

    /** The buffer of an empty table: fill pattern, header, and zeros up to the terminator. */
    method WriteHeader(n: nat, start: Word, output: Word)
      requires start == SystemStart(n) && output == 4 * (start + 1) && Fits(n, [], [], p.Length)
      modifies p
      ensures p[..] == Render(n, [], [], p.Length)
    {
      assert Words([]) == [];
      FillWords(0, p.Length, FILL);
      p[0], p[1], p[SYS_REG_INPUT_INDEX], p[OUTPUT_DUMP_INDEX] := INPUT_DATA_BY_HLOS, FORMAT_VERSION_2, start, output;
      FillWords(PERCORE_INDEX, start + 1, 0);
    }

    /** memset over the words `lo..hi`. */
    method FillWords(lo: nat, hi: nat, w: Word)
      requires lo <= hi <= p.Length
      modifies p
      ensures forall i | 0 <= i < p.Length :: p[i] == if lo <= i < hi then w else old(p[i])
    {
      for i := lo to hi
        invariant forall j | 0 <= j < p.Length :: p[j] == if lo <= j < i then w else old(p[j])
      {
        p[i] := w;
      }
    }

    /** `config_cpuss_register`: the words of a request written at `index`, or nothing. */
    method Configure(index: nat, c: Item) returns (ret: int)
      requires Checked(c)
      requires ConfigAnswer(c) == 0 ==> index + |Encode(c)| <= p.Length
      modifies p
      ensures ret == ConfigAnswer(c)
      ensures ret != 0 ==> p[..] == old(p[..])
      ensures ret == 0 ==> WellFormed(c) && p[..] == Put(old(p[..]), index, Encode(c))
    {
      ret := 0;
      match c.cmd
      case 'r' =>
        if c.val > 4 {
          p[index] := c.off;
          p[index + 1] := c.val;
        } else {
          p[index] := c.off + CMD_READ_WORD;
        }
      case 'R' =>
        if c.val > MAX_EXTRA_VALUE { return -EINVAL; }
        p[index] := c.off + CMD_EXTRA;
        p[index + 1] := c.val + CMD_REPEAT_READ;
      case 'd' =>
        if c.val > MAX_EXTRA_VALUE { return -EINVAL; }
        p[index] := CMD_EXTRA;
        p[index + 1] := c.val + CMD_DELAY;
      case 'w' =>
        p[index] := c.off + CMD_WRITE;
        p[index + 1] := c.val;
      case _ =>
        ret := -EINVAL;
    }

    /** `register_config_store`. An accepted request joins its list; a refused one leaves buffer
        and counters as they were. */
    method Store(q: Parsed) returns (ret: int)
      requires Valid()
      modifies this, p
      ensures Valid() && coreRegNum == old(coreRegNum)
      ensures ret == StoreAnswer(q, numCores, coreRegNum, old(coreRegUsedNum), old(usedMemory), size)
      ensures ret == 0 ==>
                var c := Item(q.off, q.val, if q.nval == 2 then 'r' else q.cmd);
                if q.nval >= 4 && q.perCore == 1 then cores == old(cores) + [c] && sys == old(sys)
                else cores == old(cores) && sys == old(sys) + [c]
      ensures ret != 0 ==> cores == old(cores) && sys == old(sys) && p[..] == old(p[..])
      ensures ret != 0 ==> coreRegUsedNum == old(coreRegUsedNum) && coreRegEndIndex == old(coreRegEndIndex)
                           && sysRegSize == old(sysRegSize) && usedMemory == old(usedMemory)
    {
      var c := ItemOf(q);
      if q.nval < 2 || PerCore(q) > 1 || q.off % 4 != 0 { return -EINVAL; }
      if c.cmd == 'r' || c.cmd == 'R' {
        if q.val == 0 { return -EINVAL; }
        if c.cmd == 'r' && q.val % 4 != 0 { return -EINVAL; }
      }
      if PerCore(q) == 1 { ret := StoreCore(q, c); } else { ret := StoreSystem(q, c); }
    }

    /** Any run of requests: those admitted join the lists in order, the others leave no trace. */
    method StoreAll(qs: seq<Parsed>)
      requires Valid()
      modifies this, p
      ensures Valid() && coreRegNum == old(coreRegNum)
      ensures (cores, sys) == AcceptAll(qs, coreRegNum, old(cores), old(sys), numCores, size)
    {
      ghost var all := AcceptAll(qs, coreRegNum, cores, sys, numCores, size);
      for i := 0 to |qs|
        invariant Valid() && coreRegNum == old(coreRegNum)
        invariant AcceptAll(qs[i..], coreRegNum, cores, sys, numCores, size) == all
      {
        hide Render, Words, Encode, WellFormed, AllWellFormed, StoreAnswer, UsedBytes;
        AnswerAdmits(qs[i], coreRegNum, cores, sys, numCores, usedMemory, size);
        assert qs[i..][1..] == qs[i + 1..];
        var ret := Store(qs[i]);
      }
    }

    /** A table built, written and read back: what is shown is exactly what was admitted, unless a
        block read at offset 0 was. */
    method Session(n: Word, qs: seq<Parsed>) returns (ret: int, out: seq<Line>)
      requires Sized() && Countable(n)
      modifies this, p
      ensures ret == 0 <==> 4 * (SystemStart(n) + 1) < size
      ensures ret == 0 ==> var (cs, ss) := AcceptAll(qs, n, [], [], numCores, size);
                           out == Listing(cs, ss) <==> NoZeroBlock(cs) && NoZeroBlock(ss)
    {
      hide Listing, NoZeroBlock, AcceptAll;
      out := [];
      ret := UpdateTable(n);
      if ret != 0 { return; }
      StoreAll(qs);
      out := Show();
    }

    method StoreCore(q: Parsed, c: Item) returns (ret: int)
      requires Valid() && ParseOk(q) && c == ItemOf(q) && PerCore(q) == 1
      modifies this, p
      ensures Valid() && coreRegNum == old(coreRegNum) && sys == old(sys)
      ensures ret == StoreAnswer(q, numCores, coreRegNum, old(coreRegUsedNum), old(usedMemory), size)
      ensures ret == 0 ==> cores == old(cores) + [c]
      ensures ret != 0 ==> cores == old(cores) && p[..] == old(p[..])
      ensures ret != 0 ==> coreRegUsedNum == old(coreRegUsedNum) && coreRegEndIndex == old(coreRegEndIndex)
                           && sysRegSize == old(sysRegSize) && usedMemory == old(usedMemory)
    {
      assert AllWellFormed(cores) && AllWellFormed(sys) && |cores| <= coreRegNum;
      hide Render, Fits, Encode, WellFormed, AllWellFormed, Reserve, ReserveWord, StoreAnswer, Words, Wrap,
          UsedBytes, ParseOk, ItemOf;
      CoreSpace(q, numCores, coreRegNum, coreRegUsedNum, usedMemory, size);
      if coreRegUsedNum == coreRegNum { return -EINVAL; }
      var reserve := ReserveWord(c);
      var extra := Wrap(reserve * numCores);
      var used := Wrap(usedMemory + extra);
      if extra / numCores < reserve || used > size || used < usedMemory { return -ENOMEM; }
      ret := AddCore(c, used);
    }

    method AddCore(c: Item, used: Word) returns (ret: int)
      requires Valid() && Checked(c) && coreRegUsedNum < coreRegNum
      requires ConfigAnswer(c) == 0 ==> WellFormed(c) && used == usedMemory + Reserve(c) * numCores <= size
      modifies this, p
      ensures Valid() && coreRegNum == old(coreRegNum) && sys == old(sys) && ret == ConfigAnswer(c)
      ensures ret == 0 ==> cores == old(cores) + [c]
      ensures ret != 0 ==> p[..] == old(p[..]) && unchanged(this)
    {
      hide Render, Fits, Encode, WellFormed, AllWellFormed, Reserve, Reserved, Words, UsedBytes, Checked, Put;
      if ConfigAnswer(c) == 0 { GrowCore(coreRegNum, cores, sys, p.Length, c, numCores); }
      ret := Configure(coreRegEndIndex, c);
      if ret == 0 {
        assert p[..] == Render(coreRegNum, cores + [c], sys, p.Length);
        coreRegEndIndex := coreRegEndIndex + if c.cmd == 'r' && c.val == 4 then 1 else 2;
        coreRegUsedNum := coreRegUsedNum + 1;
        usedMemory := used;
        cores := cores + [c];
      }
    }

    method StoreSystem(q: Parsed, c: Item) returns (ret: int)
      requires Valid() && ParseOk(q) && c == ItemOf(q) && PerCore(q) != 1
      modifies this, p
      ensures Valid() && coreRegNum == old(coreRegNum) && cores == old(cores)
      ensures ret == StoreAnswer(q, numCores, coreRegNum, old(coreRegUsedNum), old(usedMemory), size)
      ensures ret == 0 ==> sys == old(sys) + [c]
      ensures ret != 0 ==> sys == old(sys) && p[..] == old(p[..])
      ensures ret != 0 ==> coreRegUsedNum == old(coreRegUsedNum) && coreRegEndIndex == old(coreRegEndIndex)
                           && sysRegSize == old(sysRegSize) && usedMemory == old(usedMemory)
    {
      hide Render, Fits, Encode, WellFormed, AllWellFormed, Reserve, ReserveWord, StoreAnswer, Words, Wrap,
          UsedBytes, ParseOk, ItemOf;
      SystemSpace(q, numCores, coreRegNum, coreRegUsedNum, usedMemory, size);
      var reserve: int := ReserveWord(c);
      var extra := Wrap((if c.cmd == 'r' && reserve == 4 then 4 else 8) + reserve);
      var used := Wrap(usedMemory + extra);
      if extra < reserve || used > size || used < usedMemory { return -ENOMEM; }
      ret := AddSystem(c, used);
    }

    /** Word `end` becomes the terminator, and the output starts behind it. */
    method Terminate(end: Word)
      requires OUTPUT_DUMP_INDEX < p.Length && end < p.Length && 4 * (end + 1) < U32
      modifies p
      ensures p[..] == Ended(old(p[..]), end)
    {
      p[end] := 0;
      p[OUTPUT_DUMP_INDEX] := (end + 1) * 4;
    }

    /** The header's system index plus the words of the system commands. */
    method SystemIndex() returns (end: Word)
      requires Valid()
      ensures AllWellFormed(sys) && end == SystemEnd(coreRegNum, sys) && size - 3 <= 4 * p.Length <= size
    {
      RenderParts(coreRegNum, cores, sys, p.Length);
      hide Render, Words;
      end := p[SYS_REG_INPUT_INDEX] + sysRegSize / 4;
    }

    /** The buffer's part of an accepted system request: its words, the terminator, the output
        offset. */
    method WriteSystem(c: Item) returns (ret: int)
      requires Valid() && Checked(c)
      requires ConfigAnswer(c) == 0 ==> WellFormed(c) && usedMemory + 4 * |Encode(c)| + Reserve(c) <= size
      modifies p
      ensures ret == ConfigAnswer(c) && (ret != 0 ==> p[..] == old(p[..]))
      ensures ret == 0 ==> SystemGrown(coreRegNum, cores, sys, p.Length, c, numCores)
      ensures ret == 0 ==> p[..] == Render(coreRegNum, cores, sys + [c], p.Length)
    {
      var end := SystemIndex();
      hide Render, Fits, Encode, WellFormed, AllWellFormed, Reserve, Reserved, Words, UsedBytes, Checked, Put, Ended,
          SystemEnd, ConfigAnswer, Sized;
      if ConfigAnswer(c) == 0 { GrowSystem(coreRegNum, cores, sys, p.Length, c, numCores); }
      ret := Configure(end, c);
      if ret == 0 { Terminate(end + if c.cmd == 'r' && c.val == 4 then 1 else 2); }
    }

    method AddSystem(c: Item, used: Word) returns (ret: int)
      requires Valid() && Checked(c)
      requires ConfigAnswer(c) == 0 ==> WellFormed(c) && used == usedMemory + 4 * |Encode(c)| + Reserve(c) <= size
      modifies this, p
      ensures Valid() && coreRegNum == old(coreRegNum) && cores == old(cores) && ret == ConfigAnswer(c)
      ensures ret == 0 ==> sys == old(sys) + [c]
      ensures ret != 0 ==> p[..] == old(p[..]) && unchanged(this)
    {
      ret := WriteSystem(c);
      hide Render, Fits, Encode, WellFormed, AllWellFormed, Reserve, Reserved, Words, UsedBytes, Checked, SystemEnd,
          ConfigAnswer, Sized;
      if ret == 0 {
        sysRegSize := sysRegSize + if c.cmd == 'r' && c.val == 4 then 4 else 8;
        usedMemory := used;
        sys := sys + [c];
      }
    }

    /** `register_config_show`: it ends, and lists the accepted requests exactly when none of them
        is a block read at offset 0. */
    method Show() returns (out: seq<Line>)
      requires Valid()
      ensures out == Listing(cores, sys) <==> NoZeroBlock(cores) && NoZeroBlock(sys)
    {
      var start, end := ShowBounds();
      ShowExact(coreRegNum, cores, sys, p.Length);
      hide *;
      out := ShowWords(start, end);
    }

    /** Where the system commands start, and the end of what is in use. */
    method ShowBounds() returns (start: Word, end: nat)
      requires Valid()
      ensures PERCORE_INDEX < end <= p.Length && p[end - 1] == 0 && AllWellFormed(sys)
      ensures Decode(p[..], PERCORE_INDEX, start, end) == RegDump.Show(Render(coreRegNum, cores, sys, p.Length),
              coreRegNum, sys)
    {
      hide Render, Words, Decode;
      RenderParts(coreRegNum, cores, sys, p.Length);
      start := p[SYS_REG_INPUT_INDEX];
      end := start + sysRegSize / 4 + 1;
      assert start == SystemStart(coreRegNum) && end == SystemEnd(coreRegNum, sys) + 1;
    }

    /** The reader's loop over the words up to `end`, the last of which is a terminator. */
    method ShowWords(start: Word, end: nat) returns (out: seq<Line>)
      requires PERCORE_INDEX < end <= p.Length && p[end - 1] == 0
      ensures out == Decode(p[..], PERCORE_INDEX, start, end)
    {
      hide Decode;
      var index := PERCORE_INDEX;
      out := [];
      ghost var all := Decode(p[..], PERCORE_INDEX, start, end);
      assert [] + all == all;
      while index < end
        invariant index <= end
        invariant out + Decode(p[..], index, start, end) == all
        decreases end - index
      {
        DecodeNext(out, p[..], index, start, end);
        if index == start { out := out + [SystemHeading]; }
        var w := p[index];
        if w == 0 {
          index := index + 1;
        } else {
          var cmd, off := w % 4, w - w % 4;
          if cmd == 1 {
            out := out + [Config(Item(off, 4, 'r'))];
            index := index + 1;
          } else {
            var val := p[index + 1];
            if cmd == 0 {
              out := out + [Config(Item(off, val, 'r'))];
            } else if cmd == 2 {
              out := out + [Config(Item(off, val, 'w'))];
            } else if val - val % CMD_DELAY == CMD_DELAY {
              out := out + [Config(Item(off, val % CMD_DELAY, 'd'))];
            } else {
              out := out + [Config(Item(off, val % CMD_DELAY, 'R'))];
            }
            index := index + 2;
          }
        }
      }
      DecodeNothing(out, p[..], index, start, end);
    }

    /** The first critical section of `core_reg_num_store`: may the count be changed, is it the
        same already, or must the table be updated? */
    method CheckCoreRegNum(val: Word) returns (refused: bool, same: bool)
      requires Valid()
      ensures refused <==> cores != [] || sys != []
      ensures same <==> !refused && val == coreRegNum
    {
      refused := coreRegUsedNum != 0 || sysRegSize != 0;
      same := !refused && val == coreRegNum;
      if sys == [] { assert |Words(sys)| == 0; }
    }

    /** `register_reset_store` on the number converted: the default table of one per-core register. */
    method Reset(val: Word)
      requires Valid()
      modifies this, p
      ensures Valid()
      ensures val == 1 && size > 32 ==> coreRegNum == 1 && cores == [] && sys == []
      ensures !(val == 1 && size > 32) ==> unchanged(this) && unchanged(p)
    {
      if val != 1 { return; }
      var ret := UpdateTable(CORE_REG_NUM_DEFAULT);
    }

    /** What another thread may run between two critical sections of this one. */
    method RunSection(s: Section)
      requires Valid() && (s.Recount? ==> Countable(s.n))
      modifies this, p
      ensures Valid()
    {
      match s
      case Request(q) => var ret := Store(q);
      case Recount(n) => var ret := UpdateTable(n);
      case Default(val) => Reset(val);
    }

    /** `core_reg_num_store` with everything other threads may run in the gap between its two critical
        sections: requests, resets, and the second sections of other changes of the count. The
        space invariants hold throughout; what was accepted in the gap is gone when the update
        succeeds. */
    method StoreCoreRegNum(val: Word, gap: seq<Section>) returns (ret: int)
      requires Valid() && Countable(val) && forall i | 0 <= i < |gap| && gap[i].Recount? :: Countable(gap[i].n)
      modifies this, p
      ensures Valid()
      ensures ret == -1 <==> old(cores) != [] || old(sys) != []
      ensures ret == -1 ==> unchanged(this) && unchanged(p)
      ensures old(cores) == [] && old(sys) == [] && val == old(coreRegNum) ==>
                ret == 0 && unchanged(this) && unchanged(p)
      ensures ret == 0 && val != old(coreRegNum) ==> coreRegNum == val && cores == [] && sys == []
      ensures ret == -ENOMEM <==>
              old(cores) == [] && old(sys) == [] && val != old(coreRegNum) && 4 * (SystemStart(val) + 1) >= size
    {
      var refused, same := CheckCoreRegNum(val);
      if refused { return -EPERM; }
      if same { return 0; }
      for i := 0 to |gap|
        invariant Valid()
      {
        RunSection(gap[i]);
      }
      ret := UpdateTable(val);
    }
  }

  /** A critical section: a request stored, a table built for a count, a reset. */
  datatype Section = Request(q: Parsed) | Recount(n: Word) | Default(val: Word)

  // ------------------------------------------------------------------ the buffer grows by one

  lemma OverwriteGap(h: seq<Word>, a: seq<Word>, g: nat, r: seq<Word>, w: seq<Word>)
    requires |w| <= g
    ensures var p, i := h + a + Fill(0, g) + r, |h| + |a|;
            Put(p, i, w) == h + (a + w) + Fill(0, g - |w|) + r
  {
  }

  lemma OverwriteTail(x: seq<Word>, b: seq<Word>, t: nat, w: seq<Word>)
    requires |w| <= t
    ensures var p, i := x + b + [0] + Fill(FILL, t), |x| + |b|;
            Put(p, i, w)[i + |w| := 0] == x + (b + w) + [0] + Fill(FILL, t - |w|)
  {
  }

  lemma ChangeHead(x: seq<Word>, r: seq<Word>, v: Word)
    requires |x| > OUTPUT_DUMP_INDEX
    ensures (x + r)[OUTPUT_DUMP_INDEX := v] == x[OUTPUT_DUMP_INDEX := v] + r
  {
  }

  // ------------------------------------------------------------------ one turn of the reader

  lemma DecodeNext(out: seq<Line>, p: seq<Word>, i: nat, start: nat, end: nat)
    requires i < end
    ensures var next := if i == start then out + [SystemHeading] else out;
            var (c, k) := DecodeAt(p, i);
            out + Decode(p, i, start, end) ==
            if At(p, i) == 0 then next + Decode(p, i + 1, start, end)
            else next + [Config(c)] + Decode(p, i + k, start, end)
  {
    var (c, k) := DecodeAt(p, i);
    var h := Heading(i, start);
    var zero, more := Decode(p, i + 1, start, end), Decode(p, i + k, start, end);
    assert Decode(p, i, start, end) == if At(p, i) == 0 then h + zero else h + [Config(c)] + more;
    assert h == if i == start then [SystemHeading] else [];
    hide *;
    Pushed(out, h, [], zero);
    Pushed(out, h, [Config(c)], more);
  }

  lemma Pushed<T>(out: seq<T>, h: seq<T>, c: seq<T>, rest: seq<T>)
    ensures out + (h + c + rest) == out + h + c + rest
    ensures h + [] == h && out + [] == out && out + h + [] == out + h
  {
  }

  lemma DecodeNothing(out: seq<Line>, p: seq<Word>, i: nat, start: nat, end: nat)
    requires i >= end
    ensures out + Decode(p, i, start, end) == out
  {
  }

  /** Writing the words of `c` behind the per-core commands renders the longer list: they stay
      clear of the system commands. */
  lemma RenderCore(n: nat, cores: seq<Item>, sys: seq<Item>, len: nat, c: Item)
    requires Fits(n, cores, sys, len) && WellFormed(c) && |cores| < n
    ensures var p, i := Render(n, cores, sys, len), PERCORE_INDEX + |Words(cores)|;
            && Fits(n, cores + [c], sys, len) && i + |Encode(c)| < SystemStart(n) < len
            && Put(p, i, Encode(c)) == Render(n, cores + [c], sys, len)
  {
    hide Words, Encode, WellFormed, Head, Tail, AllWellFormed, Put;
    WordsSnoc(cores, c);
    var gap := SystemStart(n) - PERCORE_INDEX - |Words(cores)|;
    OverwriteGap(Head(n, sys), Words(cores), gap, Tail(n, sys, len), Encode(c));
  }

  /** Writing the words of `c`, a terminator and the new output offset renders the longer list. */
  lemma RenderSystem(n: nat, cores: seq<Item>, sys: seq<Item>, len: nat, c: Item)
    requires Fits(n, cores, sys, len) && WellFormed(c) && SystemEnd(n, sys) + |Encode(c)| < len && 4 * len < U32
    ensures var p, i, k := Render(n, cores, sys, len), SystemEnd(n, sys), |Encode(c)|;
            && Fits(n, cores, sys + [c], len) && SystemEnd(n, sys + [c]) == i + k
            && Ended(Put(p, i, Encode(c)), i + k)
               == Render(n, cores, sys + [c], len)
  {
    hide Words, Encode, WellFormed, AllWellFormed, Render, Put;
    WordsSnoc(sys, c);
    var i, k := SystemEnd(n, sys), |Encode(c)|;
    var head, next := Head(n, sys), Head(n, sys + [c]);
    var rest := Words(cores) + Fill(0, SystemStart(n) - PERCORE_INDEX - |Words(cores)|);
    var b, w, t, v := Words(sys), Encode(c), len - i - 1, 4 * (i + k + 1);
    RenderGroups(n, cores, sys, len);
    RenderGroups(n, cores, sys + [c], len);
    assert head[OUTPUT_DUMP_INDEX := v] == next;
    assert Words(sys + [c]) == b + w;
    hide *;
    OverwriteTail(head + rest, b, t, w);
    ChangeHead(head + rest, (b + w) + [0] + Fill(FILL, t - k), v);
    ChangeHead(head, rest, v);
    Associate(next + rest, (b + w), [0], Fill(FILL, t - k));
    Associate(head + rest, b, [0], Fill(FILL, t));
  }

  /** Everything that changes with one more per-core request. */
  lemma GrowCore(n: nat, cores: seq<Item>, sys: seq<Item>, len: nat, c: Item, numCores: nat)
    requires Fits(n, cores, sys, len) && WellFormed(c) && |cores| < n
    ensures var p, i, k := Render(n, cores, sys, len), PERCORE_INDEX + |Words(cores)|, |Encode(c)|;
            && Fits(n, cores + [c], sys, len) && AllWellFormed(cores + [c]) && i + k < SystemStart(n) < len
            && |Words(cores + [c])| == |Words(cores)| + k && k == (if c.cmd == 'r' && c.val == 4 then 1 else 2)
            && Put(p, i, Encode(c)) == Render(n, cores + [c], sys, len)
            && UsedBytes(n, cores + [c], sys, numCores) == UsedBytes(n, cores, sys, numCores) + Reserve(c) * numCores
  {
    hide Render, Put, Encode, Words, Reserve, WellFormed, AllWellFormed;
    RenderCore(n, cores, sys, len, c);
    WordsSnoc(cores, c);
    Distribute(Reserved(cores), Reserve(c), numCores);
  }

  /** What one more system request does to the counters. */
  ghost predicate SystemGrown(n: nat, cores: seq<Item>, sys: seq<Item>, len: nat, c: Item, numCores: nat) {
    && WellFormed(c) && AllWellFormed(sys) && Fits(n, cores, sys + [c], len)
    && |Words(sys + [c])| == |Words(sys)| + |Encode(c)|
    && |Encode(c)| == (if c.cmd == 'r' && c.val == 4 then 1 else 2)
    && UsedBytes(n, cores, sys + [c], numCores) == UsedBytes(n, cores, sys, numCores) + 4 * |Encode(c)| + Reserve(c)
  }

  /** Everything that changes with one more system request that fits the buffer. */
  lemma GrowSystem(n: nat, cores: seq<Item>, sys: seq<Item>, len: nat, c: Item, numCores: nat)
    requires Fits(n, cores, sys, len) && WellFormed(c) && 4 * len < U32
    requires UsedBytes(n, cores, sys, numCores) + 4 * |Encode(c)| + Reserve(c) <= 4 * len + 3
    ensures SystemGrown(n, cores, sys, len, c, numCores)
    ensures var p, i, k := Render(n, cores, sys, len), SystemEnd(n, sys), |Encode(c)|;
            && i + k < len && 4 * (i + k + 1) < U32
            && Ended(Put(p, i, Encode(c)), i + k) == Render(n, cores, sys + [c], len)
  {
    hide Render, Put, Ended, Encode, Words, Reserve, Reserved, WellFormed, AllWellFormed;
    WordsSnoc(sys, c);
    MultiplyMonotone(0, Reserved(cores), numCores);
    RenderSystem(n, cores, sys, len, c);
  }

  lemma Associate(x: seq<Word>, a: seq<Word>, b: seq<Word>, c: seq<Word>)
    ensures x + a + b + c == x + (a + b + c)
  {
  }

  lemma RenderGroups(n: nat, cores: seq<Item>, sys: seq<Item>, len: nat)
    requires Fits(n, cores, sys, len)
    ensures Render(n, cores, sys, len) ==
            (Head(n, sys) + (Words(cores) + Fill(0, SystemStart(n) - PERCORE_INDEX - |Words(cores)|)))
            + (Words(sys) + [0] + Fill(FILL, len - SystemEnd(n, sys) - 1))
  {
    hide Words, Head;
    var head, gap := Head(n, sys), Fill(0, SystemStart(n) - PERCORE_INDEX - |Words(cores)|);
    assert head + Words(cores) + gap == head + (Words(cores) + gap);
  }
}
