/** Sequence vocabulary shared by every table of the model: linear search, removal of one
    element, prefix sums, and the memmove that closes a gap in place. */
module Sequences {

  /** The index of the first element satisfying `p`, or `|s|` when there is none. */
  function First<T>(s: seq<T>, p: T -> bool): (i: nat)
    ensures i <= |s|
    ensures i < |s| ==> p(s[i])
    ensures forall j | 0 <= j < i :: !p(s[j])
  {
    if s == [] then 0
    else if p(s[0]) then 0
    else
      var rest := First(s[1..], p);
      assert forall j | 1 <= j < 1 + rest :: s[j] == s[1..][j - 1];
      1 + rest
  }

  /** `s` without its element `k`. */
  function Drop<T>(s: seq<T>, k: nat): (r: seq<T>)
    requires k < |s|
    ensures |r| == |s| - 1
    ensures forall i {:trigger r[i]} | 0 <= i < |r| :: r[i] == if i < k then s[i] else s[i + 1]
  {
    s[..k] + s[k + 1..]
  }

  /** The sum of the first `i` weights. */
  function Prefix(w: seq<nat>, i: nat): nat
    requires i <= |w|
  {
    if i == 0 then 0 else Prefix(w, i - 1) + w[i - 1]
  }

  lemma {:induction false} PrefixAgrees(w: seq<nat>, v: seq<nat>, i: nat)
    requires i <= |w| && i <= |v|
    requires forall j | 0 <= j < i :: w[j] == v[j]
    ensures Prefix(w, i) == Prefix(v, i)
  {
    if i > 0 { PrefixAgrees(w, v, i - 1); }
  }

  lemma {:induction false} PrefixMonotone(w: seq<nat>, i: nat, j: nat)
    requires i <= j <= |w|
    ensures Prefix(w, i) <= Prefix(w, j)
    ensures i < j ==> Prefix(w, i) + w[i] <= Prefix(w, j)
  {
    if i < j { PrefixMonotone(w, i, j - 1); }
  }

  /** Removing weight `k` leaves the earlier sums alone and lowers every later one by it. */
  lemma {:induction false} PrefixDrop(w: seq<nat>, k: nat, i: nat)
    requires k < |w| && i < |w|
    ensures Prefix(Drop(w, k), i) == if i < k then Prefix(w, i) else Prefix(w, i + 1) - w[k]
  {
    if i > 0 { PrefixDrop(w, k, i - 1); }
  }

  /** `n` copies of `x`. */
  function Fill<T>(x: T, n: nat): (r: seq<T>)
    ensures |r| == n && forall i {:trigger r[i]} | 0 <= i < n :: r[i] == x
  {
    seq(n, _ => x)
  }

  /** The contents after `memmove(&a[dst], &a[src], n)` with `dst <= src`. */
  function Moved<T>(s: seq<T>, dst: nat, src: nat, n: nat): (r: seq<T>)
    requires dst <= src && src + n <= |s|
    ensures |r| == |s|
    ensures forall i {:trigger r[i]} | 0 <= i < |s| :: r[i] == if dst <= i < dst + n then s[i + (src - dst)] else s[i]
  {
    s[..dst] + s[src..src + n] + s[dst + n..]
  }

  lemma SliceOfLeft<T>(a: seq<T>, b: seq<T>, i: nat, j: nat)
    requires i <= j <= |a|
    ensures (a + b)[i..j] == a[i..j]
  {
  }

  /** Cutting `i..j` out of a sum whose cut lies in the left part, or is the right part. */
  lemma CutFromSum<T>(a: seq<T>, b: seq<T>, i: nat, j: nat)
    requires i <= j <= |a| || (i == |a| && j == |a + b|)
    ensures (a + b)[..i] + (a + b)[j..] == a[..i] + if j <= |a| then a[j..] + b else []
  {
  }

  /** Moving the rest of `a` down over `len` cells at `at` draws `len` fill cells in behind it. */
  lemma MovedOver<T>(a: seq<T>, x: T, pad: nat, at: nat, len: nat)
    requires at + len <= |a| && len <= pad
    ensures Moved(a + Fill(x, pad), at, at + len, |a| - at) == a[..at] + a[at + len..] + Fill(x, pad + len)
  {
  }

  /** memmove towards lower indices, one cell at a time. */
  method MoveDown<T>(a: array<T>, dst: nat, src: nat, n: nat)
    requires dst <= src && src + n <= a.Length
    modifies a
    ensures a[..] == Moved(old(a[..]), dst, src, n)
  {
    for i := 0 to n
      invariant forall j | 0 <= j < a.Length ::
        a[j] == if dst <= j < dst + i then old(a[j + (src - dst)]) else old(a[j])
    {
      a[dst + i] := a[src + i];
    }
  }
}
