/** The special-purpose-register dump: one buffer for each core, to which register numbers are
    appended one word at a time. */
module SprDump {
  import opened Kernel
  import opened Sequences
  import opened RegDump
  import opened RegDumpGuards

  const SPR_HEADER: nat := 5
  const FORMAT_VERSION_1: Word := 1
  const MAX_CORE_NUM: nat := 8
  /** Bytes one register takes: a word of input and two of output. */
  const SPR_RESERVED: Word := 12
  /** The largest size for which the space check cannot wrap. */
  const MAX_SPR_SIZE: Word := 0xFFFF_FFFC

  // ------------------------------------------------------------------ the buffer as a value

  function SprUsed(n: nat): int { 24 + 12 * n }

  /** The header, the register numbers, a terminator, and the fill pattern. */
  function RenderSpr(data: seq<Word>, len: nat): (p: seq<Word>)
    requires SPR_HEADER + |data| + 1 <= len && 4 * (SPR_HEADER + |data| + 1) < U32
    ensures |p| == len
  {
    [INPUT_DATA_BY_HLOS, FORMAT_VERSION_1, SYSTEM_REGS_INPUT_INDEX, 4 * (SPR_HEADER + |data| + 1), 0]
    + data + [0] + Fill(FILL, len - SPR_HEADER - |data| - 1)
  }

  /** The buffer in numbers: magic and version, a pointer to the registers, the byte offset of the output
      behind them and their terminator, and the fill pattern. */
  lemma SprWords(data: seq<Word>, len: nat)
    requires SPR_HEADER + |data| + 1 <= len && 4 * (SPR_HEADER + |data| + 1) < U32
    ensures var p, n := RenderSpr(data, len), |data|;
            && |p| == len && p[..5] == [0x00C0_FFEE, 1, 5, 24 + 4 * n, 0] && p[5..5 + n] == data && p[5 + n] == 0
            && (forall k | 5 + n < k < len :: p[k] == 0xDEDE_DEDE) && SprUsed(n) == p[3] + 8 * n
  {
  }

  /** Appending a register rewrites the output offset, the terminator and the word behind it. */
  lemma RenderSprGrows(data: seq<Word>, len: nat, w: Word)
    requires SPR_HEADER + |data| + 2 <= len && 4 * (SPR_HEADER + |data| + 2) < U32
    ensures var i := SPR_HEADER + |data|;
            RenderSpr(data, len)[OUTPUT_DUMP_INDEX := 4 * (i + 2)][i := w][i + 1 := 0] == RenderSpr(data + [w], len)
  {
  }

  /** `n` registers leave room to spare; a buffer of just the header holds none. */
  predicate SprWithin(n: nat, size: Word) { SprUsed(n) < size || (n == 0 && size == 24) }

  predicate SprRoom(used: Word, size: Word) { size > Wrap(used + SPR_RESERVED) }

  /** After `n` registers the 32-bit check is the unbounded one, except at the single `n` whose
      next total is a word short of wrapping; buffers up to `MAX_SPR_SIZE` never reach it. */
  lemma SprGuardExact(n: nat, size: Word)
    requires SprWithin(n, size)
    ensures (SprRoom(SprUsed(n), size) <==> SprUsed(n + 1) < size) <==> n != 357913939
    ensures size <= MAX_SPR_SIZE ==> n != 357913939
  {
  }

  // ------------------------------------------------------------------ the buffer in place

  class SprTable {
    const p: array<Word>
    const size: Word
    var sprsDataIndex: Word
    var usedMemory: Word
    ghost var data: seq<Word>

    ghost predicate Sized() { p.Length == size / 4 && 24 <= size <= MAX_SPR_SIZE }

    /** From the first reset on. The space in use, the output offset in the header and the number
        of registers stay in step, below the size unless that is just the header's. */
    ghost predicate Valid()
      reads this, p
    {
      && Sized() && sprsDataIndex == |data| && usedMemory == SprUsed(|data|) && SprWithin(|data|, size)
      && p[..] == RenderSpr(data, p.Length)
      && usedMemory == p[OUTPUT_DUMP_INDEX] + 8 * |data|
    }

    /** `sprs_dump_init`: nothing is built until the first reset. */
    constructor (bytes: Word)
      requires 24 <= bytes <= MAX_SPR_SIZE
      ensures Sized() && size == bytes && data == [] && fresh(p)
    {
      p := new Word[bytes / 4](_ => 0);
      size := bytes;
      sprsDataIndex, usedMemory, data := 0, 0, [];
    }

    /** One turn of `reset_sprs_dump_table`. */
    method Reset()
      requires Sized()
      modifies this, p
      ensures Valid() && data == []
    {
      sprsDataIndex, usedMemory := 0, 24;
      for i := 0 to p.Length
        modifies p
        invariant forall j | 0 <= j < i :: p[j] == FILL
      {
        p[i] := FILL;
      }
      p[0], p[1] := INPUT_DATA_BY_HLOS, FORMAT_VERSION_1;
      p[SYS_REG_INPUT_INDEX], p[OUTPUT_DUMP_INDEX] := SYSTEM_REGS_INPUT_INDEX, 24;
      p[PERCORE_INDEX], p[PERCORE_INDEX + 1] := 0, 0;
      data := [];
    }

    /** The critical section of `spr_config_store`. */
    method Append(w: Word) returns (ret: int)
      requires Valid()
      modifies this, p
      ensures Valid()
      ensures ret == 0 <==> SprUsed(|old(data)| + 1) < size
      ensures ret == 0 ==> data == old(data) + [w]
      ensures ret != 0 ==> ret == -ENOMEM && unchanged(this) && unchanged(p)
    {
      SprGuardExact(|data|, size);
      var index := sprsDataIndex;
      if !(size > Wrap(usedMemory + SPR_RESERVED)) { return -ENOMEM; }
      WriteRegister(index, w);
      hide RenderSpr;
      sprsDataIndex := sprsDataIndex + 1;
      usedMemory := Wrap(usedMemory + SPR_RESERVED);
      data := data + [w];
      ret := 0;
    }

    /** The output offset, the register and the terminator behind it. */
    method WriteRegister(index: nat, w: Word)
      requires index == |data| && SPR_HEADER + index + 2 <= p.Length && 4 * (SPR_HEADER + index + 2) < U32
      requires p[..] == RenderSpr(data, p.Length)
      modifies p
      ensures p[..] == RenderSpr(data + [w], p.Length)
    {
      RenderSprGrows(data, p.Length, w);
      hide RenderSpr;
      p[OUTPUT_DUMP_INDEX] := (SPR_HEADER + index + 1 + 1) * 4;
      p[SPR_HEADER + index] := w;
      p[SPR_HEADER + index + 1] := 0;
    }

    /** One turn of `spr_config_show`: the register numbers in the order they were stored. */
    method Show() returns (out: seq<Word>)
      requires Valid()
      ensures out == data
    {
      var index := 0;
      out := [];
      while index < sprsDataIndex
        invariant index <= sprsDataIndex && out == data[..index]
      {
        out := out + [p[SPR_HEADER + index]];
        index := index + 1;
      }
    }
  }

  // ------------------------------------------------------------------ the eight cores

  /** Distinct cores have distinct buffers; a core may have none. */
  ghost predicate Separate(cpus: seq<SprTable?>) {
    && |cpus| == MAX_CORE_NUM
    && (forall j, k | 0 <= j < k < |cpus| && cpus[j] != null && cpus[k] != null ::
          cpus[j] != cpus[k] && cpus[j].p != cpus[k].p)
    && forall j | 0 <= j < |cpus| && cpus[j] != null :: cpus[j].Sized()
  }

  ghost function Footprint(cpus: seq<SprTable?>): set<object> {
    (set j | 0 <= j < |cpus| && cpus[j] != null :: cpus[j] as object)
    + (set j | 0 <= j < |cpus| && cpus[j] != null :: cpus[j].p as object)
  }

  /** `reset_sprs_dump_table`. */
  method ResetAll(cpus: seq<SprTable?>)
    requires Separate(cpus)
    modifies Footprint(cpus)
    ensures forall j | 0 <= j < |cpus| && cpus[j] != null :: cpus[j].Valid() && cpus[j].data == []
  {
    for i := 0 to |cpus|
      invariant forall j | 0 <= j < i && cpus[j] != null :: cpus[j].Valid() && cpus[j].data == []
    {
      if cpus[i] != null { cpus[i].Reset(); }
    }
  }

  /** `spr_config_store` on the converted fields: a core without a buffer is silently accepted,
      and no other core's buffer changes. */
  method Store(cpus: seq<SprTable?>, nval: int, w: Word, cpu: Word) returns (ret: int)
    requires Separate(cpus) && forall j | 0 <= j < |cpus| && cpus[j] != null :: cpus[j].Valid()
    modifies Footprint(cpus)
    ensures forall j | 0 <= j < |cpus| && cpus[j] != null :: cpus[j].Valid()
    ensures forall j | 0 <= j < |cpus| && cpus[j] != null && (j != cpu || ret != 0) :: cpus[j].data == old(cpus[j].data)
    ensures ret == -EINVAL <==> nval != 2 || cpu >= 8
    ensures ret == 0 && cpus[cpu] != null ==> cpus[cpu].data == old(cpus[cpu].data) + [w]
    ensures ret == -ENOMEM <==> nval == 2 && cpu < MAX_CORE_NUM && cpus[cpu] != null
                                && SprUsed(|old(cpus[cpu].data)| + 1) >= cpus[cpu].size
    ensures ret == 0 || ret == -EINVAL || ret == -ENOMEM
  {
    if nval != 2 || cpu >= MAX_CORE_NUM { return -EINVAL; }
    ret := 0;
    if cpus[cpu] != null { ret := cpus[cpu].Append(w); }
  }
}
