/** The driver's own 32-bit arithmetic: which requests and which table sizes its checks let in. */
module RegDumpGuards {
  import opened Kernel
  import opened RegDump

  function Wrap(x: int): Word { x % U32 }

  // ------------------------------------------------------------------ register_config_store

  /** The checks made before the mutex is taken. */
  predicate ParseOk(q: Parsed) { q.nval >= 2 && PerCore(q) <= 1 && Checked(ItemOf(q)) }

  predicate Checked(c: Item) {
    c.off % 4 == 0 && (c.cmd == 'r' || c.cmd == 'R' ==> c.val != 0) && (c.cmd == 'r' ==> c.val % 4 == 0)
  }

  /** `reserve_size`: a count of repeated reads is multiplied in 32 bits. */
  function ReserveWord(c: Item): Word {
    if c.cmd == 'R' then Wrap(c.val * 4) else if c.cmd == 'r' then c.val else 4
  }

  function ConfigAnswer(c: Item): int {
    if c.cmd == 'R' || c.cmd == 'd' then (if c.val > MAX_EXTRA_VALUE then -EINVAL else 0)
    else if c.cmd == 'r' || c.cmd == 'w' then 0
    else -EINVAL
  }

  function CoreExtra(c: Item, numCores: Word): Word { Wrap(ReserveWord(c) * numCores) }

  function SystemExtra(c: Item): Word {
    Wrap((if c.cmd == 'r' && ReserveWord(c) == 4 then 4 else 8) + ReserveWord(c))
  }

  /** The per-core space check, every operation in 32 bits. */
  predicate CoreRoom(c: Item, numCores: Word, used: Word, size: Word)
    requires numCores > 0
  {
    var extra := CoreExtra(c, numCores);
    var total := Wrap(used + extra);
    !(extra / numCores < ReserveWord(c) || total > size || total < used)
  }

  predicate SystemRoom(c: Item, used: Word, size: Word) {
    var extra := SystemExtra(c);
    var total := Wrap(used + extra);
    !(extra < ReserveWord(c) || total > size || total < used)
  }

  /** Every answer of `register_config_store`; 0 stands for the accepted byte count. */
  function StoreAnswer(q: Parsed, numCores: Word, coreNum: Word, coreUsed: Word, used: Word, size: Word): int
    requires numCores > 0
  {
    var c := ItemOf(q);
    if !ParseOk(q) then -EINVAL
    else if PerCore(q) == 1 then
      if coreUsed == coreNum then -EINVAL
      else if !CoreRoom(c, numCores, used, size) then -ENOMEM
      else ConfigAnswer(c)
    else if !SystemRoom(c, used, size) then -ENOMEM
    else ConfigAnswer(c)
  }

  lemma DivideBelow(w: nat, a: nat, n: nat)
    requires n > 0 && w < a * n
    ensures w / n < a
  {
    if w / n >= a { MultiplyMonotone(a, w / n, n); }
  }

  lemma MultiplyMonotone(a: nat, b: nat, n: nat)
    requires a <= b
    ensures a * n <= b * n
  {
  }

  lemma DivideBack(a: nat, n: nat)
    requires n > 0
    ensures a * n / n == a
  {
    if a * n / n < a { MultiplyMonotone(a * n / n + 1, a, n); }
    if a * n / n > a { MultiplyMonotone(a + 1, a * n / n, n); }
  }

  /** A product that wraps is caught by dividing back. */
  lemma ProductGuard(a: Word, n: Word)
    requires n > 0
    ensures 0 <= a * n && (Wrap(a * n) / n < a <==> a * n >= U32)
  {
    MultiplyMonotone(0, a, n);
    var x := a * n;
    if x >= U32 {
      DivideBelow(Wrap(x), a, n);
    } else {
      DivideBack(a, n);
    }
  }

  /** The checks accept exactly the requests whose unbounded total fits the buffer: no wrap of
      either kind slips through, the one of a repeat count being caught by the limit on it. */
  lemma GuardExact(q: Parsed, numCores: Word, coreNum: Word, coreUsed: Word, used: Word, size: Word)
    requires numCores > 0 && used <= size
    ensures StoreAnswer(q, numCores, coreNum, coreUsed, used, size) == 0 <==>
            && q.nval >= 2 && PerCore(q) <= 1 && WellFormed(ItemOf(q))
            && if PerCore(q) == 1 then coreUsed != coreNum && used + Reserve(ItemOf(q)) * numCores <= size
               else used + 4 * |Encode(ItemOf(q))| + Reserve(ItemOf(q)) <= size
  {
    var c := ItemOf(q);
    AnswerParts(q);
    hide ParseOk, ConfigAnswer, CoreRoom, SystemRoom, WellFormed, Reserve, ReserveWord, Encode;
    CoreRoomExact(c, numCores, used, size);
    SystemRoomExact(c, used, size);
  }

  /** Parsing and configuring together accept exactly the well-formed requests, and for those
      the reserve does not wrap. */
  lemma AnswerParts(q: Parsed)
    ensures var c := ItemOf(q);
            && (ParseOk(q) && ConfigAnswer(c) == 0 <==> q.nval >= 2 && PerCore(q) <= 1 && WellFormed(c))
            && (WellFormed(c) ==> ReserveWord(c) == Reserve(c))
            && (WellFormed(c) ==> (if c.cmd == 'r' && ReserveWord(c) == 4 then 4 else 8) == 4 * |Encode(c)|)
  {
  }

  lemma SystemRoomExact(c: Item, used: Word, size: Word)
    requires used <= size
    ensures SystemRoom(c, used, size) <==>
            used + (if c.cmd == 'r' && ReserveWord(c) == 4 then 4 else 8) + ReserveWord(c) <= size
  {
  }

  lemma CoreRoomExact(c: Item, numCores: Word, used: Word, size: Word)
    requires numCores > 0 && used <= size
    ensures CoreRoom(c, numCores, used, size) <==> used + ReserveWord(c) * numCores <= size
  {
    ProductGuard(ReserveWord(c), numCores);
  }

  /** A parsed per-core request is answered by the place check, the space check and the command
      check in this order, and the space it takes has not wrapped. */
  lemma CoreSpace(q: Parsed, numCores: Word, coreNum: Word, coreUsed: Word, used: Word, size: Word)
    requires numCores > 0 && used <= size && ParseOk(q) && PerCore(q) == 1
    ensures var c := ItemOf(q); var extra := Wrap(ReserveWord(c) * numCores); var total := Wrap(used + extra);
            var refused := extra / numCores < ReserveWord(c) || total > size || total < used;
            && StoreAnswer(q, numCores, coreNum, coreUsed, used, size)
               == (if coreUsed == coreNum then -EINVAL else if refused then -ENOMEM else ConfigAnswer(c))
            && Checked(c)
            && (ConfigAnswer(c) == 0 ==> WellFormed(c))
            && (ConfigAnswer(c) == 0 && !refused ==> total == used + Reserve(c) * numCores <= size)
  {
    var c := ItemOf(q);
    AnswerParts(q);
    hide Checked, ConfigAnswer, WellFormed, Reserve, ReserveWord;
    CoreRoomExact(c, numCores, used, size);
    MultiplyMonotone(0, ReserveWord(c), numCores);
  }

  lemma SystemSpace(q: Parsed, numCores: Word, coreNum: Word, coreUsed: Word, used: Word, size: Word)
    requires numCores > 0 && used <= size && ParseOk(q) && PerCore(q) != 1
    ensures var c := ItemOf(q);
            var extra := Wrap((if c.cmd == 'r' && ReserveWord(c) == 4 then 4 else 8) + ReserveWord(c));
            var total := Wrap(used + extra);
            var refused := extra < ReserveWord(c) || total > size || total < used;
            && StoreAnswer(q, numCores, coreNum, coreUsed, used, size) == (if refused then -ENOMEM else ConfigAnswer(c))
            && Checked(c)
            && (ConfigAnswer(c) == 0 ==> WellFormed(c))
            && (ConfigAnswer(c) == 0 && !refused ==> total == used + 4 * |Encode(c)| + Reserve(c) <= size)
  {
    AnswerParts(q);
    hide Checked, ConfigAnswer, WellFormed, Reserve, ReserveWord, Encode;
    SystemRoomExact(ItemOf(q), used, size);
  }

  /** The bytes a request asks for, its repeat count as the driver multiplies it. */
  function Wanted(cmd: char, val: Word): nat {
    if cmd == 'R' then 4 * val % 0x1_0000_0000 else if cmd == 'r' then val else 4
  }

  /** Every refusal of `register_config_store`, on the fields of the line, in numbers and over the integers:
      a malformed line first, then a full per-core list, then the space, and only then the command. Two
      fields are a read, and fewer than four one for the system. */
  lemma StoreAnswers(q: Parsed, numCores: Word, coreNum: Word, coreUsed: Word, used: Word, size: Word)
    requires numCores > 0 && used <= size
    ensures var cmd, core := if q.nval == 2 then 'r' else q.cmd, if q.nval < 4 then 0 else q.perCore;
            var read, extra := cmd == 'r' || cmd == 'R', cmd == 'd' || cmd == 'R';
            var total := used + if core == 1 then Wanted(cmd, q.val) * numCores
                                else (if cmd == 'r' && q.val == 4 then 4 else 8) + Wanted(cmd, q.val);
            StoreAnswer(q, numCores, coreNum, coreUsed, used, size) ==
            if q.nval < 2 || core > 1 || q.off % 4 != 0 || (read && q.val == 0) || (cmd == 'r' && q.val % 4 != 0)
            then -22
            else if core == 1 && coreUsed == coreNum then -22
            else if total > size then -12
            else if (extra && q.val > 0xFF_FFFF) || (!read && !extra && cmd != 'w') then -22
            else 0
  {
    var c := ItemOf(q);
    hide CoreRoom, SystemRoom;
    assert ReserveWord(c) == Wanted(c.cmd, c.val);
    CoreRoomExact(c, numCores, used, size);
    SystemRoomExact(c, used, size);
    hide ReserveWord;
  }

  // ------------------------------------------------------------------ whole runs

  /** A request is let in when it is well formed and the buffer with it would still fit. */
  predicate Admitted(q: Parsed, n: nat, cores: seq<Item>, sys: seq<Item>, numCores: nat, size: nat)
    requires AllWellFormed(sys)
  {
    var c := ItemOf(q);
    && q.nval >= 2 && PerCore(q) <= 1 && WellFormed(c)
    && if PerCore(q) == 1 then |cores| < n && UsedBytes(n, cores + [c], sys, numCores) <= size
       else UsedBytes(n, cores, sys + [c], numCores) <= size
  }

  /** What a run of requests leaves in the two lists. */
  function AcceptAll(qs: seq<Parsed>, n: nat, cores: seq<Item>, sys: seq<Item>, numCores: nat,
      size: nat): (seq<Item>, seq<Item>)
    requires AllWellFormed(sys)
    decreases |qs|
  {
    if qs == [] then (cores, sys)
    else if !Admitted(qs[0], n, cores, sys, numCores, size) then AcceptAll(qs[1..], n, cores, sys, numCores, size)
    else if PerCore(qs[0]) == 1 then AcceptAll(qs[1..], n, cores + [ItemOf(qs[0])], sys, numCores, size)
    else AcceptAll(qs[1..], n, cores, sys + [ItemOf(qs[0])], numCores, size)
  }

  /** What one more per-core request adds to the bytes in use, `product` being its reserve on all cores. */
  lemma UsedWithCore(n: nat, cores: seq<Item>, sys: seq<Item>, numCores: nat, c: Item, product: nat)
    requires AllWellFormed(sys) && product == Reserve(c) * numCores
    ensures UsedBytes(n, cores + [c], sys, numCores) == UsedBytes(n, cores, sys, numCores) + product
  {
    hide Words, Encode, Reserve, AllWellFormed;
    assert (cores + [c])[..|cores|] == cores;
    Distribute(Reserved(cores), Reserve(c), numCores);
  }

  lemma UsedWithSystem(n: nat, cores: seq<Item>, sys: seq<Item>, numCores: nat, c: Item)
    requires AllWellFormed(sys) && WellFormed(c)
    ensures AllWellFormed(sys + [c])
    ensures UsedBytes(n, cores, sys + [c], numCores) ==
            UsedBytes(n, cores, sys, numCores) + 4 * |Encode(c)| + Reserve(c)
  {
    hide Encode, Reserve, WellFormed;
    assert (sys + [c])[..|sys|] == sys;
    WordsSnoc(sys, c);
    hide Words;
  }

  /** The driver's answer, worked out in 32 bits from its counters, is 0 exactly when the request
      is admitted. */
  lemma AnswerAdmits(q: Parsed, n: Word, cores: seq<Item>, sys: seq<Item>, numCores: Word, used: Word, size: Word)
    requires numCores > 0 && AllWellFormed(sys) && |cores| <= n
    requires used == UsedBytes(n, cores, sys, numCores) <= size
    ensures StoreAnswer(q, numCores, n, |cores|, used, size) == 0 <==> Admitted(q, n, cores, sys, numCores, size)
  {
    hide StoreAnswer, Encode, Words, Reserve, WellFormed, AllWellFormed, UsedBytes;
    var c := ItemOf(q);
    GuardExact(q, numCores, n, |cores|, used, size);
    UsedWithCore(n, cores, sys, numCores, c, Reserve(c) * numCores);
    if WellFormed(c) { UsedWithSystem(n, cores, sys, numCores, c); }
  }

  lemma Distribute(a: nat, b: nat, n: nat)
    ensures (a + b) * n == a * n + b * n
  {
  }

  // ------------------------------------------------------------------ update_reg_dump_table

  function StartWord(n: Word): Word { Wrap(SYSTEM_REGS_INPUT_INDEX + n * 2) }

  function OutputWord(n: Word): Word { Wrap(Wrap(StartWord(n) + 1) * 4) }

  predicate TableRoom(n: Word, size: Word) {
    !(OutputWord(n) >= size || OutputWord(n) / 4 < Wrap(StartWord(n) + 1))
  }

  /** What the size check comes to on `n` and `size` alone. It sees `n` without its top bit, and of the
      last three such counts only what `2 * n + 6` leaves of 32 bits. */
  predicate Admits(n: Word, size: Word) {
    var m := n % 0x8000_0000;
    if m < CORE_REG_LIMIT then 4 * (2 * m + 6) < size
    else if m == CORE_REG_LIMIT then size > 0
    else 4 * (2 * m + 6 - U32) < size
  }

  lemma TableGuardWraps(n: Word, size: Word)
    ensures TableRoom(n, size) <==> Admits(n, size)
  {
    hide StartWord, Wrap;
    if n >= 0x8000_0000 {
      TopBit(n);
      LowCounts(n - 0x8000_0000, size);
    } else {
      LowCounts(n, size);
    }
  }

  lemma TopBit(n: Word)
    requires n >= 0x8000_0000
    ensures StartWord(n) == StartWord(n - 0x8000_0000) && n % 0x8000_0000 == n - 0x8000_0000
  {
    assert n * 2 + 5 == (n - 0x8000_0000) * 2 + 5 + U32;
  }

  lemma LowCounts(n: Word, size: Word)
    requires n < 0x8000_0000
    ensures TableRoom(n, size) <==>
            if n < CORE_REG_LIMIT then 4 * (2 * n + 6) < size
            else if n == CORE_REG_LIMIT then size > 0
            else 4 * (2 * n + 6 - U32) < size
  {
  }

  /** The size check agrees with the unbounded total for every count below the limit. At or above it
      the total never fits, so there it agrees exactly when what is left of `n` does not fit
      either. */
  lemma TableGuardExact(n: Word, size: Word)
    ensures n < CORE_REG_LIMIT ==> (TableRoom(n, size) <==> 4 * (SystemStart(n) + 1) < size)
    ensures (TableRoom(n, size) <==> 4 * (SystemStart(n) + 1) < size) <==> n < CORE_REG_LIMIT || !Admits(n, size)
  {
    TableGuardWraps(n, size);
    hide TableRoom;
  }
}
