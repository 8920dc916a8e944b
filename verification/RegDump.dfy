/** The register-dump configuration buffer as a value: how requests are encoded into words, how
    the buffer of a list of requests looks, and what the reader makes of it. */
module RegDump {
  import opened Sequences

  const U32: int := 0x1_0000_0000
  type Word = w: int | 0 <= w < 0x1_0000_0000

  const INPUT_DATA_BY_HLOS: Word := 0x00C0_FFEE
  const FORMAT_VERSION_2: Word := 2
  const SYS_REG_INPUT_INDEX: nat := 2
  const OUTPUT_DUMP_INDEX: nat := 3
  const PERCORE_INDEX: nat := 4
  const SYSTEM_REGS_INPUT_INDEX: nat := 5
  const FILL: Word := 0xDEDE_DEDE
  const CMD_READ_WORD: Word := 1
  const CMD_WRITE: Word := 2
  const CMD_EXTRA: Word := 3
  const CMD_DELAY: Word := 0x100_0000
  const CMD_REPEAT_READ: Word := 0x200_0000
  const MAX_EXTRA_VALUE: Word := 0xFF_FFFF
  const CORE_REG_NUM_DEFAULT: Word := 1
  /** From this many per-core registers on, the index arithmetic leaves 32 bits. */
  const CORE_REG_LIMIT: int := 0x7FFF_FFFD

  /** One register request: offset, length or count or value, and command letter. */
  datatype Item = Item(off: Word, val: Word, cmd: char)

  /** What `sscanf` made of a line: the number of fields converted, and the fields. */
  datatype Parsed = Parsed(nval: int, off: Word, val: Word, cmd: char, perCore: Word)

  function ItemOf(q: Parsed): Item { Item(q.off, q.val, if q.nval == 2 then 'r' else q.cmd) }

  function PerCore(q: Parsed): Word { if q.nval < 4 then 0 else q.perCore }

  // ------------------------------------------------------------------ encoding

  /** What every request in the buffer satisfies. Offsets are multiples of four, so that the
      command in the two low bits, and the one above a 24-bit value, are simply added. */
  predicate WellFormed(c: Item) {
    && c.off % 4 == 0
    && match c.cmd
       case 'r' => c.val != 0 && c.val % 4 == 0
       case 'R' => c.val != 0 && c.val <= MAX_EXTRA_VALUE
       case 'd' => c.val <= MAX_EXTRA_VALUE
       case 'w' => true
       case _ => false
  }

  /** `config_cpuss_register`. */
  function Encode(c: Item): (w: seq<Word>)
    requires WellFormed(c)
    ensures 1 <= |w| <= 2 && (|w| == 1 <==> c.cmd == 'r' && c.val == 4)
  {
    match c.cmd
    case 'r' => if c.val > 4 then [c.off, c.val] else [c.off + CMD_READ_WORD]
    case 'R' => [c.off + CMD_EXTRA, c.val + CMD_REPEAT_READ]
    case 'd' => [CMD_EXTRA, c.val + CMD_DELAY]
    case 'w' => [c.off + CMD_WRITE, c.val]
  }

  predicate AllWellFormed(cs: seq<Item>) { forall i | 0 <= i < |cs| :: WellFormed(cs[i]) }

  function Words(cs: seq<Item>): (w: seq<Word>)
    requires AllWellFormed(cs)
    ensures |cs| <= |w| <= 2 * |cs|
  {
    if cs == [] then [] else Words(cs[..|cs| - 1]) + Encode(cs[|cs| - 1])
  }

  /** Output bytes a request reserves, per core or for the system. */
  function Reserve(c: Item): nat {
    if c.cmd == 'r' then c.val else if c.cmd == 'R' then 4 * c.val else 4
  }

  function Reserved(cs: seq<Item>): nat {
    if cs == [] then 0 else Reserved(cs[..|cs| - 1]) + Reserve(cs[|cs| - 1])
  }

  // ------------------------------------------------------------------ the buffer

  function SystemStart(n: nat): nat { SYSTEM_REGS_INPUT_INDEX + 2 * n }

  function SystemEnd(n: nat, sys: seq<Item>): nat
    requires AllWellFormed(sys)
  {
    SystemStart(n) + |Words(sys)|
  }

  /** The bytes in use: header and commands, and the output reserved behind them. */
  function UsedBytes(n: nat, cores: seq<Item>, sys: seq<Item>, numCores: nat): nat
    requires AllWellFormed(sys)
  {
    4 * (SystemEnd(n, sys) + 1) + Reserved(cores) * numCores + Reserved(sys)
  }

  predicate Fits(n: nat, cores: seq<Item>, sys: seq<Item>, len: nat) {
    && AllWellFormed(cores) && AllWellFormed(sys) && |cores| <= n
    && SystemEnd(n, sys) < len && 4 * (SystemEnd(n, sys) + 1) < U32
  }

  /** The words of a buffer with `n` per-core places holding `cores` and `sys`. */
  function Render(n: nat, cores: seq<Item>, sys: seq<Item>, len: nat): (p: seq<Word>)
    requires Fits(n, cores, sys, len)
    ensures |p| == len
  {
    Head(n, sys) + Words(cores) + Fill(0, SystemStart(n) - PERCORE_INDEX - |Words(cores)|) + Tail(n, sys, len)
  }

  /** Magic, format version, index of the system commands, byte offset of the output. */
  function Head(n: nat, sys: seq<Item>): (h: seq<Word>)
    requires AllWellFormed(sys) && 4 * (SystemEnd(n, sys) + 1) < U32
    ensures |h| == PERCORE_INDEX
  {
    [INPUT_DATA_BY_HLOS, FORMAT_VERSION_2, SystemStart(n), 4 * (SystemEnd(n, sys) + 1)]
  }

  /** The system commands, their terminator, and the fill pattern. */
  function Tail(n: nat, sys: seq<Item>, len: nat): seq<Word>
    requires AllWellFormed(sys) && SystemEnd(n, sys) < len
  {
    Words(sys) + [0] + Fill(FILL, len - SystemEnd(n, sys) - 1)
  }

  // ------------------------------------------------------------------ the reader

  /** A line of `register_config_show`. */
  datatype Line = SystemHeading | Config(c: Item)

  function At(p: seq<Word>, i: nat): Word { if i < |p| then p[i] else 0 }

  /** The request at a nonzero word, and how many words it takes. */
  function DecodeAt(p: seq<Word>, i: nat): (r: (Item, nat))
    ensures 1 <= r.1 <= 2
  {
    var w, v := At(p, i), At(p, i + 1);
    var off := w - w % 4;
    match w % 4
    case 0 => (Item(off, v, 'r'), 2)
    case 1 => (Item(off, 4, 'r'), 1)
    case 2 => (Item(off, v, 'w'), 2)
    case _ => (Item(off, v % CMD_DELAY, if v - v % CMD_DELAY == CMD_DELAY then 'd' else 'R'), 2)
  }

  function Heading(i: nat, start: nat): seq<Line> { if i == start then [SystemHeading] else [] }

  /** What the reader prints from word `i` on. */
  function Decode(p: seq<Word>, i: nat, start: nat, end: nat): seq<Line>
    decreases end - i
  {
    if i >= end then []
    else if At(p, i) == 0 then Heading(i, start) + Decode(p, i + 1, start, end)
    else var (c, k) := DecodeAt(p, i); Heading(i, start) + [Config(c)] + Decode(p, i + k, start, end)
  }

  /** A delay is shown with offset 0; everything else as it was stored. */
  function Shown(c: Item): Item { if c.cmd == 'd' then c.(off := 0) else c }

  function Lines(cs: seq<Item>): (l: seq<Line>)
    ensures |l| == |cs| && forall i | 0 <= i < |cs| :: l[i] == Config(Shown(cs[i]))
  {
    seq(|cs|, i requires 0 <= i < |cs| => Config(Shown(cs[i])))
  }

  /** A block read at register offset 0: its first word is a terminator. */
  predicate ZeroBlock(c: Item) { c.cmd == 'r' && c.val > 4 && c.off == 0 }

  predicate NoZeroBlock(cs: seq<Item>) { forall i | 0 <= i < |cs| :: !ZeroBlock(cs[i]) }

  lemma DecodeOne(p: seq<Word>, i: nat, c: Item)
    requires WellFormed(c) && !ZeroBlock(c)
    requires i + |Encode(c)| <= |p| && p[i..i + |Encode(c)|] == Encode(c)
    ensures At(p, i) != 0 && DecodeAt(p, i) == (Shown(c), |Encode(c)|)
  {
    var w := Encode(c);
    assert p[i] == p[i..i + |w|][0] == w[0];
    if |w| == 2 { assert p[i + 1] == p[i..i + |w|][1] == w[1]; }
  }

  lemma DecodeNonzero(p: seq<Word>, i: nat, start: nat, end: nat)
    requires i < end && At(p, i) != 0
    ensures var (c, k) := DecodeAt(p, i);
            Decode(p, i, start, end) == Heading(i, start) + [Config(c)] + Decode(p, i + k, start, end)
  {
    hide DecodeAt, Heading, At;
  }

  lemma DecodeStep(p: seq<Word>, i: nat, c: Item, start: nat, end: nat)
    requires WellFormed(c) && !ZeroBlock(c) && i < end
    requires i + |Encode(c)| <= |p| && p[i..i + |Encode(c)|] == Encode(c)
    ensures Decode(p, i, start, end) == Heading(i, start) + [Config(Shown(c))] + Decode(p, i + |Encode(c)|, start, end)
  {
    hide *;
    DecodeOne(p, i, c);
    DecodeNonzero(p, i, start, end);
  }

  lemma SliceSplit(p: seq<Word>, i: nat, a: seq<Word>, b: seq<Word>)
    requires i + |a| + |b| <= |p| && p[i..i + |a| + |b|] == a + b
    ensures p[i..i + |a|] == a && p[i + |a|..i + |a| + |b|] == b
  {
    var s := p[i..i + |a| + |b|];
    assert s[..|a|] == a && s[|a|..] == b;
  }

  lemma Regroup<T>(a: seq<T>, b: seq<T>, c: seq<T>, d: seq<T>)
    ensures (a + b) + (c + d) == (a + (b + c)) + d
    ensures [] + a == a && a + [] == a
  {
  }

  function BlockHeading(cs: seq<Item>, i: nat, start: nat): seq<Line> {
    if cs == [] then [] else Heading(i, start)
  }

  /** Word `i` starts a block: the words of `cs`, not running across `start`. */
  predicate BlockAt(p: seq<Word>, i: nat, cs: seq<Item>, start: nat, end: nat) {
    && AllWellFormed(cs) && NoZeroBlock(cs)
    && i + |Words(cs)| <= |p| && i + |Words(cs)| <= end && p[i..i + |Words(cs)|] == Words(cs)
    && (start <= i || i + |Words(cs)| <= start)
  }

  function AfterBlock(p: seq<Word>, i: nat, cs: seq<Item>, start: nat, end: nat): seq<Line>
    requires AllWellFormed(cs)
  {
    Decode(p, i + |Words(cs)|, start, end)
  }

  /** Reading over a block of requests prints exactly those requests. */
  lemma {:induction false} DecodeBlock(p: seq<Word>, i: nat, cs: seq<Item>, start: nat, end: nat)
    requires AllWellFormed(cs) && BlockAt(p, i, cs, start, end)
    ensures Decode(p, i, start, end) == BlockHeading(cs, i, start) + (Lines(cs) + AfterBlock(p, i, cs, start, end))
    decreases |cs|
  {
    hide *;
    if |cs| == 0 {
      EmptyBlock(p, i, cs, start, end);
    } else {
      BlockHead(p, i, cs, start, end);
      var k := |Encode(cs[0])|;
      DecodeBlock(p, i + k, cs[1..], start, end);
      Joined(Decode(p, i, start, end), Heading(i, start), [Config(Shown(cs[0]))], Decode(p, i + k, start, end),
             Lines(cs[1..]), AfterBlock(p, i, cs, start, end), Lines(cs));
    }
  }

  lemma EmptyBlock(p: seq<Word>, i: nat, cs: seq<Item>, start: nat, end: nat)
    requires |cs| == 0
    ensures AllWellFormed(cs)
    ensures Decode(p, i, start, end) == BlockHeading(cs, i, start) + (Lines(cs) + AfterBlock(p, i, cs, start, end))
  {
    hide Decode;
    assert |Words(cs)| == 0 && Lines(cs) == [] && BlockHeading(cs, i, start) == [];
    Regroup(Decode(p, i, start, end), [], [], []);
  }

  lemma Joined(all: seq<Line>, h: seq<Line>, c: seq<Line>, rest: seq<Line>, l: seq<Line>, last: seq<Line>,
               lines: seq<Line>)
    requires all == h + c + rest && rest == [] + (l + last) && lines == c + l
    ensures all == h + (lines + last)
  {
  }

  /** The first request of a block is printed, and the rest is a block behind it. */
  lemma BlockHead(p: seq<Word>, i: nat, cs: seq<Item>, start: nat, end: nat)
    requires AllWellFormed(cs) && BlockAt(p, i, cs, start, end) && |cs| > 0
    ensures WellFormed(cs[0]) && AllWellFormed(cs[1..])
    ensures BlockAt(p, i + |Encode(cs[0])|, cs[1..], start, end)
    ensures Decode(p, i, start, end) ==
            Heading(i, start) + [Config(Shown(cs[0]))] + Decode(p, i + |Encode(cs[0])|, start, end)
    ensures AfterBlock(p, i + |Encode(cs[0])|, cs[1..], start, end) == AfterBlock(p, i, cs, start, end)
    ensures Lines(cs) == [Config(Shown(cs[0]))] + Lines(cs[1..])
    ensures BlockHeading(cs[1..], i + |Encode(cs[0])|, start) == [] && BlockHeading(cs, i, start) == Heading(i, start)
  {
    hide Encode, Decode, Words, WellFormed, ZeroBlock, DecodeAt;
    assert AllWellFormed(cs[1..]) && NoZeroBlock(cs[1..]) && WellFormed(cs[0]) && !ZeroBlock(cs[0]);
    assert Lines(cs) == [Config(Shown(cs[0]))] + Lines(cs[1..]);
    hide AllWellFormed, NoZeroBlock, Lines;
    WordsCons(cs);
    SliceSplit(p, i, Encode(cs[0]), Words(cs[1..]));
    DecodeStep(p, i, cs[0], start, end);
  }

  lemma {:induction false} WordsCons(cs: seq<Item>)
    requires AllWellFormed(cs) && cs != []
    ensures Words(cs) == Encode(cs[0]) + Words(cs[1..])
    decreases |cs|
  {
    if |cs| == 1 {
      assert cs[..0] == [] && cs[1..] == [];
      assert Words(cs) == [] + Encode(cs[0]) && Words(cs[1..]) == [];
    } else {
      WordsCons(cs[..|cs| - 1]);
      WordsConsStep(cs);
    }
  }

  lemma WordsConsStep(cs: seq<Item>)
    requires AllWellFormed(cs) && |cs| > 1
    requires var front := cs[..|cs| - 1]; Words(front) == Encode(front[0]) + Words(front[1..])
    ensures Words(cs) == Encode(cs[0]) + Words(cs[1..])
  {
    hide Encode, Words, WellFormed;
    var n := |cs| - 1;
    var mid, c := cs[1..n], cs[n];
    assert cs[..n][1..] == mid && cs[..n] + [c] == cs && mid + [c] == cs[1..];
    WordsSnoc(cs[..n], c);
    WordsSnoc(mid, c);
    var x, y, z := Encode(cs[0]), Words(mid), Encode(c);
    assert Words(cs) == (x + y) + z && Words(cs[1..]) == y + z && Encode(cs[0]) == x;
    hide *;
    Regroup([], x, y, z);
  }

  lemma WordsSnoc(cs: seq<Item>, c: Item)
    requires AllWellFormed(cs) && WellFormed(c)
    ensures AllWellFormed(cs + [c]) && Words(cs + [c]) == Words(cs) + Encode(c)
    ensures Reserved(cs + [c]) == Reserved(cs) + Reserve(c)
  {
    assert (cs + [c])[..|cs|] == cs;
  }

  lemma {:induction false} DecodeZeros(p: seq<Word>, i: nat, j: nat, start: nat, end: nat)
    requires i <= j <= start && j <= end && j <= |p| && forall k | i <= k < j :: p[k] == 0
    ensures Decode(p, i, start, end) == Decode(p, j, start, end)
    decreases j - i
  {
    if i < j { DecodeZeros(p, i + 1, j, start, end); }
  }

  function Listing(cores: seq<Item>, sys: seq<Item>): seq<Line> {
    Lines(cores) + [SystemHeading] + Lines(sys)
  }

  function Show(p: seq<Word>, n: nat, sys: seq<Item>): seq<Line>
    requires AllWellFormed(sys)
  {
    Decode(p, PERCORE_INDEX, SystemStart(n), SystemEnd(n, sys) + 1)
  }

  /** Reading back the buffer of a list of requests lists exactly those requests. */
  lemma ShowRendered(n: nat, cores: seq<Item>, sys: seq<Item>, len: nat)
    requires Fits(n, cores, sys, len) && NoZeroBlock(cores) && NoZeroBlock(sys)
    ensures Show(Render(n, cores, sys, len), n, sys) == Listing(cores, sys)
  {
    hide Decode, DecodeAt, Words, Render, WellFormed, Lines;
    var p := Render(n, cores, sys, len);
    var start, end, mid := SystemStart(n), SystemEnd(n, sys) + 1, PERCORE_INDEX + |Words(cores)|;
    RenderParts(n, cores, sys, len);
    assert BlockAt(p, PERCORE_INDEX, cores, start, end) && BlockAt(p, start, sys, start, end);
    DecodeZeros(p, mid, start, start, end);
    ShowSystem(p, sys, start, end);
    ShowCores(p, cores, start, end);
    Regroup(Lines(cores), [SystemHeading], Lines(sys), []);
  }

  lemma ShowCores(p: seq<Word>, cores: seq<Item>, start: nat, end: nat)
    requires AllWellFormed(cores) && BlockAt(p, PERCORE_INDEX, cores, start, end) && PERCORE_INDEX < start
    ensures Decode(p, PERCORE_INDEX, start, end) == Lines(cores) + AfterBlock(p, PERCORE_INDEX, cores, start, end)
  {
    hide Decode, DecodeAt, Words, Lines, BlockAt;
    DecodeBlock(p, PERCORE_INDEX, cores, start, end);
    assert BlockHeading(cores, PERCORE_INDEX, start) == [];
    Regroup(Lines(cores) + AfterBlock(p, PERCORE_INDEX, cores, start, end), [], [], []);
  }

  lemma ShowSystem(p: seq<Word>, sys: seq<Item>, start: nat, end: nat)
    requires AllWellFormed(sys) && BlockAt(p, start, sys, start, end) && start + |Words(sys)| + 1 == end <= |p|
            && p[end - 1] == 0
    ensures Decode(p, start, start, end) == [SystemHeading] + Lines(sys)
  {
    hide Decode, DecodeAt, Words, Encode, BlockAt;
    DecodeBlock(p, start, sys, start, end);
    DecodeEnd(p, end - 1, start, end);
    if sys == [] {
      assert |Words(sys)| == 0 && Lines(sys) == [];
    } else {
      assert AfterBlock(p, start, sys, start, end) == Heading(end - 1, start) == [];
    }
    assert Lines(sys) + [] == Lines(sys);
  }

  /** The buffer's parts: the per-core commands, zeros up to the system commands, those, and a
      terminator. */
  lemma RenderParts(n: nat, cores: seq<Item>, sys: seq<Item>, len: nat)
    requires Fits(n, cores, sys, len)
    ensures var p, start, end, mid := Render(n, cores, sys, len), SystemStart(n), SystemEnd(n, sys),
            PERCORE_INDEX + |Words(cores)|;
            && mid < start <= end < len
            && p[PERCORE_INDEX..mid] == Words(cores) && (forall k | mid <= k < start :: p[k] == 0)
            && p[start..end] == Words(sys) && p[end] == 0
            && p[SYS_REG_INPUT_INDEX] == start && p[OUTPUT_DUMP_INDEX] == 4 * (end + 1)
            && p[..PERCORE_INDEX] == Head(n, sys) && forall k | end < k < len :: p[k] == FILL
  {
    var start, end := SystemStart(n), SystemEnd(n, sys);
    var head, a, b := Head(n, sys), Words(cores), Words(sys);
    var gap, tail := Fill(0, start - PERCORE_INDEX - |a|), Fill(FILL, len - end - 1);
    RenderIs(n, cores, sys, len);
    assert FILL == 0xDEDE_DEDE && PERCORE_INDEX == 4 && SYS_REG_INPUT_INDEX == 2 && OUTPUT_DUMP_INDEX == 3;
    hide *;
    SixParts(Render(n, cores, sys, len), head, a, gap, b, tail, start, end);
  }

  lemma RenderIs(n: nat, cores: seq<Item>, sys: seq<Item>, len: nat)
    requires Fits(n, cores, sys, len)
    ensures var start, end := SystemStart(n), SystemEnd(n, sys);
            && PERCORE_INDEX == 4 && 4 + |Words(cores)| < start <= end < len && end == start + |Words(sys)|
            && Render(n, cores, sys, len) ==
               Head(n, sys) + Words(cores) + Fill(0, start - PERCORE_INDEX - |Words(cores)|)
               + (Words(sys) + [0] + Fill(FILL, len - end - 1))
            && Head(n, sys)[SYS_REG_INPUT_INDEX] == start && Head(n, sys)[OUTPUT_DUMP_INDEX] == 4 * (end + 1)
  {
    hide Words, Encode, WellFormed;
  }

  /** The same in numbers: magic and version, where the system commands start and the output does, the
      commands at their places, zeros between them, a terminator, and the fill pattern behind it. */
  lemma BufferWords(n: nat, cores: seq<Item>, sys: seq<Item>, len: nat)
    requires Fits(n, cores, sys, len)
    ensures var p, mid, start := Render(n, cores, sys, len), 4 + |Words(cores)|, 5 + 2 * n;
            var end := start + |Words(sys)|;
            && mid < start <= end < len == |p|
            && p[..4] == [0x00C0_FFEE, 2, start, 4 * end + 4] && p[4..mid] == Words(cores)
            && (forall k | mid <= k < start :: p[k] == 0) && p[start..end] == Words(sys) && p[end] == 0
            && forall k | end < k < len :: p[k] == 0xDEDE_DEDE
  {
    RenderParts(n, cores, sys, len);
    hide Words, Fits, Render;
  }

  lemma SixParts(p: seq<Word>, head: seq<Word>, a: seq<Word>, gap: seq<Word>, b: seq<Word>, tail: seq<Word>,
                 start: nat, end: nat)
    requires p == head + a + gap + (b + [0] + tail) && |head| == 4
    requires start == 4 + |a| + |gap| && end == start + |b|
    requires (forall k | 0 <= k < |gap| :: gap[k] == 0) && forall k | 0 <= k < |tail| :: tail[k] == 0xDEDE_DEDE
    ensures |p| == end + 1 + |tail| && p[..4] == head && p[2] == head[2] && p[3] == head[3]
    ensures p[4..4 + |a|] == a && (forall k | 4 + |a| <= k < start :: p[k] == 0)
    ensures p[start..end] == b && p[end] == 0 && forall k | end < k < |p| :: p[k] == 0xDEDE_DEDE
  {
    forall k | 4 + |a| <= k < start ensures p[k] == 0 { assert p[k] == gap[k - (4 + |a|)]; }
    forall k | end < k < |p| ensures p[k] == 0xDEDE_DEDE { assert p[k] == tail[k - (end + 1)]; }
  }

  lemma DecodeEnd(p: seq<Word>, i: nat, start: nat, end: nat)
    requires i + 1 == end && i < |p| && p[i] == 0
    ensures Decode(p, i, start, end) == Heading(i, start)
  {
    assert Decode(p, end, start, end) == [];
  }

  /** The reader never prints a block read at offset 0. */
  lemma {:induction false} NeverShowsZeroBlock(p: seq<Word>, i: nat, start: nat, end: nat)
    ensures forall k | 0 <= k < |Decode(p, i, start, end)| && Decode(p, i, start, end)[k].Config? ::
              !ZeroBlock(Decode(p, i, start, end)[k].c)
    decreases end - i
  {
    if i < end {
      if At(p, i) == 0 {
        NeverShowsZeroBlock(p, i + 1, start, end);
      } else {
        var (c, k) := DecodeAt(p, i);
        assert !ZeroBlock(c);
        NeverShowsZeroBlock(p, i + k, start, end);
      }
    }
  }

  /** The round trip holds exactly when no block read at offset 0 was stored. */
  lemma ShowExact(n: nat, cores: seq<Item>, sys: seq<Item>, len: nat)
    requires Fits(n, cores, sys, len)
    ensures Show(Render(n, cores, sys, len), n, sys) == Listing(cores, sys) <==> NoZeroBlock(cores) && NoZeroBlock(sys)
  {
    var p, l := Render(n, cores, sys, len), Listing(cores, sys);
    if NoZeroBlock(cores) && NoZeroBlock(sys) {
      ShowRendered(n, cores, sys, len);
    } else {
      NeverShowsZeroBlock(p, PERCORE_INDEX, SystemStart(n), SystemEnd(n, sys) + 1);
      if i :| 0 <= i < |cores| && ZeroBlock(cores[i]) {
        assert l[i] == Config(cores[i]);
      } else {
        var j :| 0 <= j < |sys| && ZeroBlock(sys[j]);
        assert l[|cores| + 1 + j] == Config(sys[j]);
      }
    }
  }
}
