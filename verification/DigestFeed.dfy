/** Building blocks shared by the password hashes: what their loops feed to a digest. */
module DigestFeed {
  import opened Base
  import opened Crypt64

  /** A message digest as a function on byte strings. */
  type Hash = seq<byte> -> seq<byte>

  ghost predicate Sized(h: Hash, n: nat) { forall x: seq<byte> :: |h(x)| == n }

  /** The bytes of a C string. */
  function Oct(s: string): (b: seq<byte>)
    ensures |b| == |s|
  {
    seq(|s|, i requires 0 <= i < |s| => (s[i] as int % 256) as byte)
  }

  /** The first n bytes of d, d, d, ... */
  function Cyclic(d: seq<byte>, n: nat): (b: seq<byte>)
    requires d != []
    ensures |b| == n && forall i :: 0 <= i < n ==> b[i] == d[i % |d|]
  {
    seq(n, i requires 0 <= i < n => d[i % |d|])
  }

  /** s repeated k times. */
  function Times(s: seq<byte>, k: nat): seq<byte> {
    if k == 0 then [] else Times(s, k - 1) + s
  }

  lemma {:induction false} TimesExactly(s: seq<byte>, k: nat)
    ensures s != [] ==> Times(s, k) == Cyclic(s, |s| * k)
    ensures s == [] ==> Times(s, k) == []
  {
    if k > 0 {
      TimesExactly(s, k - 1);
      if s != [] {
        CyclicBlock(s, k - 1, |s|);
        assert |s| * k == |s| * (k - 1) + |s|;
        assert s[..|s|] == s;
      }
    }
  }

  /** For every bit of n from the lowest to the highest set one: one for a 1, zero for a 0. */
  function LengthBits(n: nat, one: seq<byte>, zero: seq<byte>): seq<byte> {
    if n == 0 then [] else (if n % 2 == 1 then one else zero) + LengthBits(n / 2, one, zero)
  }

  function Pow2(k: nat): (p: nat)
    ensures p > 0
  {
    if k == 0 then 1 else 2 * Pow2(k - 1)
  }

  predicate Bit(n: nat, k: nat) { n / Pow2(k) % 2 == 1 }

  function BitLength(n: nat): nat { if n == 0 then 0 else 1 + BitLength(n / 2) }

  function BitPieces(n: nat, one: seq<byte>, zero: seq<byte>): seq<seq<byte>> {
    seq(BitLength(n), k requires 0 <= k => if Bit(n, k) then one else zero)
  }

  lemma {:induction false} HalvedBit(n: nat, k: nat)
    ensures Bit(n / 2, k) <==> Bit(n, k + 1)
  {
    var p := Pow2(k);
    assert n / 2 / p == n / (2 * p) by { DivTwice(n, p); }
  }

  lemma {:induction false} DivTwice(n: nat, p: nat)
    requires p > 0
    ensures n / 2 / p == n / (2 * p)
  {
    var q, r := n / (2 * p), n % (2 * p);
    assert n == 2 * p * q + r;
    var s := r / 2;
    assert n / 2 == p * q + s by { assert n == 2 * (p * q) + r; }
    assert 0 <= s < p;
    DivUnique(n / 2, p, q, s);
  }

  /** The length loop feeds exactly the binary expansion of the length, lowest bit first. */
  lemma {:induction false} LengthBitsAreBits(n: nat, one: seq<byte>, zero: seq<byte>)
    ensures LengthBits(n, one, zero) == Flat(BitPieces(n, one, zero))
  {
    if n > 0 {
      LengthBitsAreBits(n / 2, one, zero);
      var ps, qs := BitPieces(n, one, zero), BitPieces(n / 2, one, zero);
      assert Bit(n, 0) <==> n % 2 == 1;
      forall k | 0 <= k < |qs|
        ensures ps[k + 1] == qs[k]
      {
        HalvedBit(n, k);
      }
      assert ps[1..] == qs;
    }
  }

  lemma {:induction false} CycleStart(m: nat, k: nat, i: nat)
    requires i < m
    ensures (m * k + i) % m == i
  {
    DivUnique(m * k + i, m, k, i);
  }

  /** A further block of the cycle, or a part of one. */
  lemma {:induction false} CyclicBlock(d: seq<byte>, k: nat, n: nat)
    requires d != [] && n <= |d|
    ensures Cyclic(d, |d| * k + n) == Cyclic(d, |d| * k) + d[..n]
  {
    var base := |d| * k;
    var long := Cyclic(d, base + n);
    forall i | 0 <= i < n
      ensures long[base + i] == d[i]
    {
      CycleStart(|d|, k, i);
    }
    assert long[..base] == Cyclic(d, base);
    assert long[base..] == d[..n];
  }

  /** The block loop (apps/passwd.c:629-634): it feeds the digest cyclically, as many bytes as wanted. */
  method FeedCyclic(md: seq<byte>, buf: seq<byte>, len: nat) returns (out: seq<byte>)
    requires buf != []
    ensures out == md + Cyclic(buf, len)
  {
    out := md;
    var n := len;
    ghost var k := 0;
    while n > |buf|
      invariant 0 <= n <= len && len - n == |buf| * k
      invariant out == md + Cyclic(buf, |buf| * k)
    {
      CyclicBlock(buf, k, |buf|);
      out := out + buf;
      n := n - |buf|;
      k := k + 1;
    }
    CyclicBlock(buf, k, n);
    out := out + buf[..n];
  }

  /** Filling a buffer of the given length with copies of a block (apps/passwd.c:660-662, 677-679). */
  method FillCyclic(block: seq<byte>, len: nat) returns (bytes: array<byte>)
    requires block != []
    ensures bytes[..] == Cyclic(block, len)
  {
    bytes := new byte[len];
    var cp, n := 0, len;
    ghost var k := 0;
    while n > |block|
      invariant 0 <= n <= len && cp == len - n == |block| * k && bytes.Length == len
      invariant bytes[..cp] == Cyclic(block, |block| * k)
    {
      CyclicBlock(block, k, |block|);
      MemCpy(bytes, cp, block, |block|);
      cp, n := cp + |block|, n - |block|;
      k := k + 1;
    }
    CyclicBlock(block, k, n);
    MemCpy(bytes, cp, block, n);
    assert bytes[..] == bytes[..len];
  }

  /** memcpy(a + at, src, n). */
  method MemCpy(a: array<byte>, at: nat, src: seq<byte>, n: nat)
    requires at + n <= a.Length && n <= |src|
    modifies a
    ensures a[..at + n] == old(a[..at]) + src[..n]
  {
    var i := 0;
    while i < n
      invariant 0 <= i <= n && a[..at + i] == old(a[..at]) + src[..i]
    {
      ghost var before := a[..at + i];
      a[at + i] := src[i];
      assert a[..at + i + 1] == before + [src[i]];
      i := i + 1;
    }
  }

  /** The repetition loop (apps/passwd.c:651-653). */
  method FeedTimes(s: seq<byte>, k: nat) returns (out: seq<byte>)
    ensures out == Times(s, k)
  {
    out := [];
    var n := k;
    while n > 0
      invariant 0 <= n <= k && out == Times(s, k - n)
    {
      out := out + s;
      n := n - 1;
    }
  }

  /** The length loop (apps/passwd.c:636-643). */
  method FeedBits(md: seq<byte>, len: nat, one: seq<byte>, zero: seq<byte>) returns (out: seq<byte>)
    ensures out == md + LengthBits(len, one, zero)
  {
    out := md;
    var n := len;
    while n != 0
      invariant out + LengthBits(n, one, zero) == md + LengthBits(len, one, zero)
    {
      var piece := if n % 2 == 1 then one else zero;
      assert out + LengthBits(n, one, zero) == (out + piece) + LengthBits(n / 2, one, zero);
      out := out + piece;
      n := n / 2;
    }
    assert out == out + LengthBits(0, one, zero);
  }

  /** x is the password, then mid, then as many bytes of b over and over as the password has, and, for every bit of the
      password's length from the lowest, one for a 1 and zero for a 0. */
  ghost predicate FirstInput(x: seq<byte>, key: seq<byte>, mid: seq<byte>, b: seq<byte>, one: seq<byte>,
                             zero: seq<byte>) {
    var n, m := |key|, |mid|;
    |x| >= 2 * n + m && b != [] &&
    (forall i :: 0 <= i < n ==> x[i] == key[i]) && (forall i :: 0 <= i < m ==> x[n + i] == mid[i]) &&
    (forall i :: 0 <= i < n ==> x[n + m + i] == b[i % |b|]) && x[2 * n + m..] == Flat(BitPieces(n, one, zero))
  }

  lemma {:induction false} InputIsFirst(key: seq<byte>, mid: seq<byte>, b: seq<byte>, one: seq<byte>, zero: seq<byte>)
    requires b != []
    ensures FirstInput(key + mid + Cyclic(b, |key|) + LengthBits(|key|, one, zero), key, mid, b, one, zero)
  {
    var cyc, bits := Cyclic(b, |key|), LengthBits(|key|, one, zero);
    var x := key + mid + cyc + bits;
    LengthBitsAreBits(|key|, one, zero);
    assert x[2 * |key| + |mid|..] == bits;
    assert forall i :: 0 <= i < |key| ==> x[|key| + |mid| + i] == cyc[i];
  }

  /** What one round of either hash feeds (apps/passwd.c:681-702). */
  function RoundInput(i: nat, c: seq<byte>, p: seq<byte>, s: seq<byte>): seq<byte> {
    (if i % 2 == 1 then p else c) + (if i % 3 != 0 then s else []) + (if i % 7 != 0 then p else []) +
    (if i % 2 == 1 then c else p)
  }

  function Rounds(h: Hash, n: nat, c: seq<byte>, p: seq<byte>, s: seq<byte>): seq<byte> {
    if n == 0 then c else h(RoundInput(n - 1, Rounds(h, n - 1, c, p, s), p, s))
  }

  /** Every round's digest is that of: the previous digest first in an even round and p first in an odd one, then s
      unless the round is divisible by three, then p unless it is divisible by seven, then the other of the two. */
  ghost predicate Chained(h: Hash, p: seq<byte>, s: seq<byte>, cs: seq<seq<byte>>, i: nat)
    requires i + 1 < |cs|
  {
    exists x :: cs[i + 1] == h(x) && Fed(i, cs[i], p, s, x)
  }

  ghost predicate Fed(i: nat, c: seq<byte>, p: seq<byte>, s: seq<byte>, x: seq<byte>) {
    (i % 2 == 0 && i % 3 == 0 && i % 7 == 0 ==> x == c + p) &&
    (i % 2 == 0 && i % 3 != 0 && i % 7 == 0 ==> x == c + s + p) &&
    (i % 2 == 0 && i % 3 == 0 && i % 7 != 0 ==> x == c + p + p) &&
    (i % 2 == 0 && i % 3 != 0 && i % 7 != 0 ==> x == c + s + p + p) &&
    (i % 2 == 1 && i % 3 == 0 && i % 7 == 0 ==> x == p + c) &&
    (i % 2 == 1 && i % 3 != 0 && i % 7 == 0 ==> x == p + s + c) &&
    (i % 2 == 1 && i % 3 == 0 && i % 7 != 0 ==> x == p + p + c) &&
    (i % 2 == 1 && i % 3 != 0 && i % 7 != 0 ==> x == p + s + p + c)
  }

  lemma {:induction false} InputFed(i: nat, c: seq<byte>, p: seq<byte>, s: seq<byte>)
    ensures Fed(i, c, p, s, RoundInput(i, c, p, s))
  {
    assert c + [] == c && p + [] == p && c + s + [] == c + s && p + s + [] == p + s;
  }

  /** The digests of n rounds, from the first to the last. */
  ghost predicate RoundsOf(h: Hash, n: nat, c: seq<byte>, p: seq<byte>, s: seq<byte>, cs: seq<seq<byte>>) {
    |cs| == n + 1 && cs[0] == c && forall i :: 0 <= i < n ==> Chained(h, p, s, cs, i)
  }

  lemma {:induction false} RoundsExactly(h: Hash, n: nat, c: seq<byte>, p: seq<byte>, s: seq<byte>)
    returns (cs: seq<seq<byte>>)
    ensures RoundsOf(h, n, c, p, s, cs) && cs[n] == Rounds(h, n, c, p, s)
  {
    hide Fed, RoundInput;
    if n == 0 {
      cs := [c];
    } else {
      var front := RoundsExactly(h, n - 1, c, p, s);
      cs := front + [Rounds(h, n, c, p, s)];
      forall i | 0 <= i < n ensures Chained(h, p, s, cs, i) {
        if i < n - 1 {
          assert Chained(h, p, s, front, i);
        } else {
          InputFed(i, front[i], p, s);
        }
      }
    }
  }

  method RunRounds(h: Hash, rounds: nat, c: seq<byte>, p: seq<byte>, s: seq<byte>) returns (buf: seq<byte>)
    ensures buf == Rounds(h, rounds, c, p, s)
    ensures exists cs :: RoundsOf(h, rounds, c, p, s, cs) && cs[rounds] == buf
  {
    hide RoundsOf;
    ghost var cs := RoundsExactly(h, rounds, c, p, s);
    buf := c;
    var n := 0;
    while n < rounds
      invariant 0 <= n <= rounds && buf == Rounds(h, n, c, p, s)
    {
      var md := if n % 2 == 1 then p else buf;
      if n % 3 != 0 { md := md + s; } else { assert md == md + []; }
      if n % 7 != 0 { md := md + p; } else { assert md == md + []; }
      md := md + if n % 2 == 1 then buf else p;
      buf := h(md);
      n := n + 1;
    }
  }
}
