/** The register-dump words bit by bit. The encoder of RegDump adds and its reader takes remainders; here
    both are the driver's bitwise operations. */
module RegDumpBits {
  import opened RegDump
  import opened RegDumpGuards

  /** Bit `k` of a number. */
  predicate Bit(x: nat, k: nat) { if k == 0 then x % 2 == 1 else Bit(x / 2, k - 1) }

  function Or(a: nat, b: nat): nat
    decreases a + b
  {
    if a == 0 && b == 0 then 0 else 2 * Or(a / 2, b / 2) + if a % 2 == 1 || b % 2 == 1 then 1 else 0
  }

  function And(a: nat, b: nat): nat
    decreases a + b
  {
    if a == 0 && b == 0 then 0 else 2 * And(a / 2, b / 2) + if a % 2 == 1 && b % 2 == 1 then 1 else 0
  }

  lemma Steps(a: nat, b: nat)
    ensures Or(a, b) == 2 * Or(a / 2, b / 2) + if a % 2 == 1 || b % 2 == 1 then 1 else 0
    ensures And(a, b) == 2 * And(a / 2, b / 2) + if a % 2 == 1 && b % 2 == 1 then 1 else 0
  {
  }

  lemma LowBit(h: nat, low: nat, k: nat)
    requires low <= 1
    ensures Bit(2 * h + low, k) <==> if k == 0 then low == 1 else Bit(h, k - 1)
  {
    Halved(2 * h + low, h, low);
  }

  /** `Or` and `And` are what their names say, on every bit. */
  lemma {:induction false} BitByBit(a: nat, b: nat, k: nat)
    ensures Bit(Or(a, b), k) <==> Bit(a, k) || Bit(b, k)
    ensures Bit(And(a, b), k) <==> Bit(a, k) && Bit(b, k)
    decreases k
  {
    hide Or, And;
    Steps(a, b);
    LowBit(Or(a / 2, b / 2), if a % 2 == 1 || b % 2 == 1 then 1 else 0, k);
    LowBit(And(a / 2, b / 2), if a % 2 == 1 && b % 2 == 1 then 1 else 0, k);
    if k > 0 { BitByBit(a / 2, b / 2, k - 1); }
  }

  function Two(k: nat): (n: nat)
    ensures n > 0
  {
    if k == 0 then 1 else 2 * Two(k - 1)
  }

  lemma {:induction false} OrZero(a: nat)
    ensures Or(a, 0) == Or(0, a) == a
  {
    if a > 0 { OrZero(a / 2); }
  }

  /** A multiple of a power of two and a number below it have no bit in common. */
  lemma {:induction false} OrAdds(q: nat, b: nat, k: nat)
    requires b < Two(k)
    ensures Or(Two(k) * q, b) == Or(b, Two(k) * q) == Two(k) * q + b
    decreases k
  {
    hide Or;
    if k == 0 {
      OrZero(q);
    } else {
      OrAdds(q, b / 2, k - 1);
      var a, h := Two(k) * q, Two(k - 1) * q;
      Twice(Two(k - 1), q);
      Halved(a, h, 0);
      Steps(a, b);
      Steps(b, a);
    }
  }

  lemma Twice(m: nat, q: nat)
    ensures 2 * m * q == 2 * (m * q)
  {
  }

  lemma Halved(a: nat, h: nat, low: nat)
    requires a == 2 * h + low && low <= 1
    ensures a / 2 == h && a % 2 == low
  {
  }

  /** The mask of the low `k` bits takes a remainder. */
  lemma {:induction false} AndLow(x: nat, k: nat)
    ensures And(x, Two(k) - 1) == x % Two(k)
    decreases k
  {
    hide And;
    if k == 0 {
      AndZero(x);
    } else {
      AndLow(x / 2, k - 1);
      Halved(Two(k) - 1, Two(k - 1) - 1, 1);
      HalfRemainder(x, Two(k - 1));
      Steps(x, Two(k) - 1);
    }
  }

  lemma {:induction false} AndZero(x: nat)
    ensures And(x, 0) == 0
  {
    if x > 0 { AndZero(x / 2); }
  }

  lemma HalfRemainder(x: nat, m: nat)
    requires m > 0
    ensures x % (2 * m) == 2 * (x / 2 % m) + x % 2
  {
    var q, r := x / 2 / m, x / 2 % m;
    assert x / 2 == m * q + r;
    Remainder(x, 2 * m, q, 2 * r + x % 2);
  }

  lemma Remainder(x: nat, m: nat, q: nat, r: nat)
    requires m > 0 && x == m * q + r && r < m
    ensures x % m == r
  {
    var p := x / m;
    if p < q { MultiplyMonotone(p + 1, q, m); }
    if q < p { MultiplyMonotone(q + 1, p, m); }
  }

  /** The mask of bits `k` to `n` takes the remainder away. */
  lemma {:induction false} AndHigh(x: nat, n: nat, k: nat)
    requires x < Two(n) && k <= n
    ensures Two(k) <= Two(n) && And(x, Two(n) - Two(k)) == x - x % Two(k)
    decreases k
  {
    hide And;
    if k == 0 {
      AndLow(x, n);
      SmallRemainder(x, Two(n));
    } else {
      AndHigh(x / 2, n - 1, k - 1);
      var a, b, m := Two(n - 1), Two(k - 1), Two(n) - Two(k);
      Halved(m, a - b, 0);
      HalfRemainder(x, b);
      Steps(x, m);
    }
  }

  lemma SmallRemainder(x: nat, m: nat)
    requires x < m
    ensures x % m == x
  {
  }

  lemma Powers()
    ensures Two(2) == 4 && Two(24) == 0x100_0000 && Two(32) == 0x1_0000_0000
  {
    assert Two(8) == 256;
    assert Two(16) == 0x1_0000;
    assert Two(24) == 0x100_0000;
  }

  /** The two low bits of a request's first word. */
  function Command(c: Item): nat {
    if c.cmd == 'r' then (if c.val == 4 then 1 else 0) else if c.cmd == 'w' then 2 else 3
  }

  /** The words stored for a request: the offset with the command in its two low bits, 0 for a delay; then,
      but for a single word read, the value, with 2 or 1 in its highest byte for a repeated read or a
      delay. */
  lemma CommandBits(c: Item)
    requires WellFormed(c)
    ensures var w := Encode(c);
            && w[0] == Or(if c.cmd == 'd' then 0 else c.off, Command(c))
            && (|w| == 1 <==> Command(c) == 1)
            && (|w| == 2 ==> w[1] == Or(c.val, if c.cmd == 'R' then 0x0200_0000
                                               else if c.cmd == 'd' then 0x0100_0000 else 0))
  {
    hide Or, Two;
    Powers();
    OrAdds(c.off / 4, Command(c), 2);
    OrZero(Command(c));
    OrZero(c.val);
    if c.cmd == 'R' { OrAdds(2, c.val, 24); }
    if c.cmd == 'd' { OrAdds(1, c.val, 24); }
  }

  /** What the reader makes of a nonzero word and the next one, by its masks. */
  lemma ExtraBits(p: seq<Word>, i: nat)
    ensures var (c, k) := DecodeAt(p, i); var w, v := At(p, i), At(p, i + 1);
            && c.off == And(w, 0xFFFF_FFFC) && k == (if And(w, 3) == 1 then 1 else 2)
            && c.cmd == (if And(w, 3) <= 1 then 'r' else if And(w, 3) == 2 then 'w'
                         else if And(v, 0xFF00_0000) == 0x0100_0000 then 'd' else 'R')
            && c.val == if And(w, 3) == 1 then 4 else if And(w, 3) == 3 then And(v, 0x00FF_FFFF) else v
  {
    hide And, Two, At;
    var w, v := At(p, i), At(p, i + 1);
    Powers();
    AndLow(w, 2);
    AndLow(v, 24);
    AndHigh(w, 32, 2);
    AndHigh(v, 32, 24);
  }
}
