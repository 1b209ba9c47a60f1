/** The 6-bit text encoding of password digests (apps/passwd.c:25-35, 449-481, 712-766). */
module Crypt64 {

  newtype byte = x: int | 0 <= x < 256

  /** cov_2char: '.' and '/', the digits, the upper-case and the lower-case letters. */
  function Cov(d: nat): char
    requires d < 64
  {
    if d < 12 then ('.' as int + d) as char
    else if d < 38 then ('A' as int + d - 12) as char
    else ('a' as int + d - 38) as char
  }

  /** The table that is meant: "./0123456789A...Za...z". */
  lemma {:induction false} CovTable(d: nat)
    requires d < 64
    ensures d == 0 ==> Cov(d) == '.'
    ensures d == 1 ==> Cov(d) == '/'
    ensures 2 <= d < 12 ==> Cov(d) as int == '0' as int + (d - 2)
    ensures 12 <= d < 38 ==> Cov(d) as int == 'A' as int + (d - 12)
    ensures 38 <= d ==> Cov(d) as int == 'a' as int + (d - 38)
  {
  }

  /** The characters of the n low 6-bit digits of w, lowest first. */
  function Enc6(w: nat, n: nat): (s: string)
    ensures |s| == n
  {
    if n == 0 then "" else [Cov(w % 64)] + Enc6(w / 64, n - 1)
  }

  /** Character i is that of the i-th 6-bit digit, counted from the lowest. */
  lemma {:induction false} Enc6At(w: nat, n: nat, i: nat)
    requires i < n
    ensures Pow64(i) > 0 && w / Pow64(i) % 64 < 64 && Enc6(w, n)[i] == Cov(w / Pow64(i) % 64)
  {
    if i == 0 {
      assert Pow64(0) == 1;
    } else {
      Enc6At(w / 64, n - 1, i - 1);
      var p := Pow64(i - 1);
      assert w / 64 / p == w / (64 * p) by { DivTwice64(w, p); }
    }
  }

  lemma {:induction false} DivTwice64(w: nat, p: nat)
    requires p > 0
    ensures w / 64 / p == w / (64 * p)
  {
    var q, r := w / (64 * p), w % (64 * p);
    assert w == 64 * (p * q) + r;
    assert w / 64 == p * q + r / 64;
    assert 0 <= r / 64 < p;
    DivUnique(w / 64, p, q, r / 64);
  }

  lemma {:induction false} MulGap(m: nat, x: nat, q: nat)
    requires x < q
    ensures m * x + m <= m * q
  {
    assert m * q == m * x + m * (q - x);
    assert m * (q - x) == m + m * (q - x - 1);
  }

  lemma {:induction false} SameQuotient(m: nat, x: nat, y: nat, q: nat, r: nat)
    requires m * x + y == m * q + r && y < m && r < m
    ensures x == q && y == r
  {
    if x < q { MulGap(m, x, q); }
    if q < x { MulGap(m, q, x); }
  }

  lemma {:induction false} DivUnique(a: nat, m: nat, q: nat, r: nat)
    requires m > 0 && a == m * q + r && r < m
    ensures a / m == q && a % m == r
  {
    SameQuotient(m, a / m, a % m, q, r);
  }

  function CovIndex(c: char): nat {
    if c <= '9' then (if c < '.' then 0 else c as int - '.' as int)
    else if c <= 'Z' then (if c < 'A' then 0 else c as int - 'A' as int + 12)
    else (if c < 'a' then 0 else c as int - 'a' as int + 38)
  }

  function Dec6(s: string): nat {
    if s == "" then 0 else CovIndex(s[0]) + 64 * Dec6(s[1..])
  }

  lemma {:induction false} CovIndexOf(d: nat)
    requires d < 64
    ensures CovIndex(Cov(d)) == d && Cov(d) != '\0' && Cov(d) != '$'
  {
  }

  function Pow64(n: nat): nat { if n == 0 then 1 else 64 * Pow64(n - 1) }

  lemma {:induction false} Dec6Enc6(w: nat, n: nat)
    requires w < Pow64(n)
    ensures Dec6(Enc6(w, n)) == w
  {
    if n > 0 {
      CovIndexOf(w % 64);
      Dec6Enc6(w / 64, n - 1);
      assert Enc6(w, n)[1..] == Enc6(w / 64, n - 1);
    }
  }

  /** Three digest positions and the number of characters; -1 stands for a literal zero. */
  datatype Group = Group(b2: int, b1: int, b0: int, n: nat)

  const SHA256_GROUPS: seq<Group> :=
    [Group(0, 10, 20, 4), Group(21, 1, 11, 4), Group(12, 22, 2, 4), Group(3, 13, 23, 4),
     Group(24, 4, 14, 4), Group(15, 25, 5, 4), Group(6, 16, 26, 4), Group(27, 7, 17, 4),
     Group(18, 28, 8, 4), Group(9, 19, 29, 4), Group(-1, 31, 30, 3)]

  const SHA512_GROUPS: seq<Group> :=
    [Group(0, 21, 42, 4), Group(22, 43, 1, 4), Group(44, 2, 23, 4), Group(3, 24, 45, 4),
     Group(25, 46, 4, 4), Group(47, 5, 26, 4), Group(6, 27, 48, 4), Group(28, 49, 7, 4),
     Group(50, 8, 29, 4), Group(9, 30, 51, 4), Group(31, 52, 10, 4), Group(53, 11, 32, 4),
     Group(12, 33, 54, 4), Group(34, 55, 13, 4), Group(56, 14, 35, 4), Group(15, 36, 57, 4),
     Group(37, 58, 16, 4), Group(59, 17, 38, 4), Group(18, 39, 60, 4), Group(40, 61, 19, 4),
     Group(62, 20, 41, 4), Group(-1, -1, 63, 2)]

  /** What the md5 permutation amounts to. */
  const MD5_GROUPS: seq<Group> :=
    [Group(0, 6, 12, 4), Group(1, 7, 13, 4), Group(2, 8, 14, 4), Group(3, 9, 15, 4), Group(4, 10, 5, 4),
     Group(-1, -1, 11, 2)]

  predicate Fits(g: Group, size: nat) {
    -1 <= g.b2 < size && -1 <= g.b1 < size && -1 <= g.b0 < size &&
    g.n <= 4 && (g.n < 4 ==> g.b2 == -1) && (g.n < 3 ==> g.b1 == -1) && g.n >= 2
  }

  ghost predicate AllFit(t: seq<Group>, size: nat) { forall k :: 0 <= k < |t| ==> Fits(t[k], size) }

  function At(d: seq<byte>, i: int): nat
    requires -1 <= i < |d|
  {
    if i == -1 then 0 else d[i] as nat
  }

  function Word(d: seq<byte>, g: Group): nat
    requires Fits(g, |d|)
  {
    At(d, g.b2) * 65536 + At(d, g.b1) * 256 + At(d, g.b0)
  }

  function Encode(d: seq<byte>, t: seq<Group>): (s: string)
    requires AllFit(t, |d|)
    ensures |s| == Length(t)
  {
    if t == [] then "" else
      Encode(d, t[..|t| - 1]) + Enc6(Word(d, t[|t| - 1]), t[|t| - 1].n)
  }

  function Length(t: seq<Group>): nat {
    if t == [] then 0 else Length(t[..|t| - 1]) + t[|t| - 1].n
  }

  /** The decoder: the digest bytes a text determines, by position. */
  function Decode(s: string, t: seq<Group>): map<int, int>
    requires |s| == Length(t)
    decreases t
  {
    if t == [] then map[] else
      var g := t[|t| - 1];
      var w := Dec6(s[|s| - g.n..]);
      Decode(s[..|s| - g.n], t[..|t| - 1])[g.b2 := w / 65536][g.b1 := w / 256 % 256][g.b0 := w % 256]
  }

  function Slots(g: Group): set<int> { {g.b2, g.b1, g.b0} }

  lemma {:induction false} ThreeBytes(a: nat, b: nat, c: nat)
    requires a < 256 && b < 256 && c < 256
    ensures var w := a * 65536 + b * 256 + c; w / 65536 == a && w / 256 % 256 == b && w % 256 == c
  {
    var w := a * 65536 + b * 256 + c;
    assert w / 256 == a * 256 + b;
  }

  lemma {:induction false} WordBytes(d: seq<byte>, g: Group)
    requires Fits(g, |d|)
    ensures var w := Word(d, g);
            w / 65536 == At(d, g.b2) && w / 256 % 256 == At(d, g.b1) && w % 256 == At(d, g.b0) && w < Pow64(g.n)
  {
    assert Pow64(1) == 64 && Pow64(2) == 4096 && Pow64(3) == 262144 && Pow64(4) == 16777216;
    ThreeBytes(At(d, g.b2), At(d, g.b1), At(d, g.b0));
  }

  lemma {:induction false} DecodeLast(d: seq<byte>, t: seq<Group>)
    requires AllFit(t, |d|) && t != []
    ensures var g, init := t[|t| - 1], t[..|t| - 1];
            Decode(Encode(d, t), t) ==
            Decode(Encode(d, init), init)[g.b2 := At(d, g.b2)][g.b1 := At(d, g.b1)][g.b0 := At(d, g.b0)]
  {
    var g, init := t[|t| - 1], t[..|t| - 1];
    var s, head, last := Encode(d, t), Encode(d, init), Enc6(Word(d, g), g.n);
    assert s == head + last;
    assert s[..|head|] == head && s[|head|..] == last;
    WordBytes(d, g);
    Dec6Enc6(Word(d, g), g.n);
  }

  /** Setting the positions of a group to the bytes of d keeps a position that is right, and puts its own right. */
  lemma {:induction false} Overlay(d: seq<byte>, m: map<int, int>, g: Group, i: int)
    requires Fits(g, |d|) && -1 <= i < |d| && (i in Slots(g) || (i in m && m[i] == At(d, i)))
    ensures var all := m[g.b2 := At(d, g.b2)][g.b1 := At(d, g.b1)][g.b0 := At(d, g.b0)];
            i in all && all[i] == At(d, i)
  {
  }

  /** Every position that occurs in the table is decoded to the byte that was encoded. */
  lemma {:induction false} DecodeEncode(d: seq<byte>, t: seq<Group>, k: nat, i: int)
    requires AllFit(t, |d|) && k < |t| && i in Slots(t[k])
    ensures i in Decode(Encode(d, t), t) && Decode(Encode(d, t), t)[i] == At(d, i)
  {
    var g, init := t[|t| - 1], t[..|t| - 1];
    DecodeLast(d, t);
    if k < |t| - 1 { DecodeEncode(d, init, k, i); }
    Overlay(d, Decode(Encode(d, init), init), g, i);
  }

  lemma {:induction false} Sha512Shape(k: nat)
    requires k < 21
    ensures SHA512_GROUPS[k] == Group(k + 21 * (k % 3), k + 21 * ((k + 1) % 3), k + 21 * ((k + 2) % 3), 4)
  {
  }

  lemma {:induction false} Sha256Shape(k: nat)
    requires k < 10
    ensures SHA256_GROUPS[k] == Group(k + 10 * (2 * k % 3), k + 10 * ((2 * k + 1) % 3), k + 10 * ((2 * k + 2) % 3), 4)
  {
  }

  lemma {:induction false} TablesFit()
    ensures AllFit(SHA256_GROUPS, 32) && AllFit(SHA512_GROUPS, 64) && AllFit(MD5_GROUPS, 16)
  {
    forall k | 0 <= k < |SHA512_GROUPS| ensures Fits(SHA512_GROUPS[k], 64) {
      if k < 21 { Sha512Shape(k); }
    }
    forall k | 0 <= k < |SHA256_GROUPS| ensures Fits(SHA256_GROUPS[k], 32) {
      if k < 10 { Sha256Shape(k); }
    }
  }

  /** The group in which a digest position is encoded. */
  function Sha512Place(i: nat): nat { if i == 63 then 21 else i % 21 }
  function Sha256Place(i: nat): nat { if i >= 30 then 10 else i % 10 }

  lemma {:induction false} Sha512Placed(i: nat)
    requires i < 64
    ensures i in Slots(SHA512_GROUPS[Sha512Place(i)])
  {
    if i < 63 {
      Sha512Shape(i % 21);
      assert i == i % 21 + 21 * (i / 21) && i / 21 < 3;
    }
  }

  lemma {:induction false} Sha256Placed(i: nat)
    requires i < 32
    ensures i in Slots(SHA256_GROUPS[Sha256Place(i)])
  {
    if i < 30 {
      Sha256Shape(i % 10);
      assert i == i % 10 + 10 * (i / 10) && i / 10 < 3;
    }
  }

  function Md5Place(i: nat): nat {
    if i == 5 then 4 else if i == 11 then 5 else if i < 6 then i else if i < 12 then i - 6 else i - 12
  }

  lemma {:induction false} Md5Placed(i: nat)
    requires i < 16
    ensures i in Slots(MD5_GROUPS[Md5Place(i)])
  {
  }

  /** Each of the three encodings determines every byte of its digest. */
  lemma {:induction false} Sha512Decodes(d: seq<byte>, i: nat)
    requires |d| == 64 && i < 64
    ensures AllFit(SHA512_GROUPS, 64) && i in Decode(Encode(d, SHA512_GROUPS), SHA512_GROUPS)
    ensures Decode(Encode(d, SHA512_GROUPS), SHA512_GROUPS)[i] == d[i] as int
  {
    TablesFit();
    Sha512Placed(i);
    DecodeEncode(d, SHA512_GROUPS, Sha512Place(i), i);
  }

  lemma {:induction false} Sha256Decodes(d: seq<byte>, i: nat)
    requires |d| == 32 && i < 32
    ensures AllFit(SHA256_GROUPS, 32) && i in Decode(Encode(d, SHA256_GROUPS), SHA256_GROUPS)
    ensures Decode(Encode(d, SHA256_GROUPS), SHA256_GROUPS)[i] == d[i] as int
  {
    TablesFit();
    Sha256Placed(i);
    DecodeEncode(d, SHA256_GROUPS, Sha256Place(i), i);
  }

  lemma {:induction false} Md5Decodes(d: seq<byte>, i: nat)
    requires |d| == 16 && i < 16
    ensures AllFit(MD5_GROUPS, 16) && i in Decode(Encode(d, MD5_GROUPS), MD5_GROUPS)
    ensures Decode(Encode(d, MD5_GROUPS), MD5_GROUPS)[i] == d[i] as int
  {
    TablesFit();
    Md5Placed(i);
    DecodeEncode(d, MD5_GROUPS, Md5Place(i), i);
  }

  // ---- Finding the text behind the last '$' ----

  /** The position of the last '$', or -1. */
  function LastDollar(s: string): (p: int)
    ensures -1 <= p < |s|
  {
    if s == "" then -1 else if s[|s| - 1] == '$' then |s| - 1 else LastDollar(s[..|s| - 1])
  }

  lemma {:induction false} LastDollarAt(a: string, b: string)
    requires '$' !in b
    ensures LastDollar(a + "$" + b) == |a|
    decreases b
  {
    var s := a + "$" + b;
    if b != "" {
      var n := |b| - 1;
      assert s[|s| - 1] == b[n] && b[n] in b;
      assert s[..|s| - 1] == a + "$" + b[..n];
      LastDollarAt(a, b[..n]);
    }
  }

  lemma {:induction false} Enc6NoDollar(w: nat, n: nat)
    ensures '$' !in Enc6(w, n)
  {
    if n > 0 {
      CovIndexOf(w % 64);
      Enc6NoDollar(w / 64, n - 1);
    }
  }

  lemma {:induction false} EncodeNoDollar(d: seq<byte>, t: seq<Group>)
    requires AllFit(t, |d|)
    ensures '$' !in Encode(d, t)
  {
    if t != [] {
      EncodeNoDollar(d, t[..|t| - 1]);
      Enc6NoDollar(Word(d, t[|t| - 1]), t[|t| - 1].n);
    }
  }

  /** b64_from_24bit (apps/passwd.c:715-723) writing at position cp of the output buffer. */
  method B64From24Bit(out: array<char>, cp: nat, b2: nat, b1: nat, b0: nat, n: nat) returns (end: nat)
    requires b2 < 256 && b1 < 256 && b0 < 256 && cp + n <= out.Length
    modifies out
    ensures end == cp + n
    ensures out[..end] == old(out[..cp]) + Enc6(b2 * 65536 + b1 * 256 + b0, n)
  {
    var w: nat := b2 * 65536 + b1 * 256 + b0;
    ghost var want := out[..cp] + Enc6(w, n);
    var i := n;
    end := cp;
    while i > 0
      invariant 0 <= i <= n && end == cp + n - i
      invariant out[..end] + Enc6(w, i) == want
    {
      i := i - 1;
      ghost var before := out[..end];
      out[end] := Cov(w % 64);
      assert out[..end + 1] == before + [Cov(w % 64)];
      w := w / 64;
      end := end + 1;
    }
  }

  /** The switch that encodes a SHA digest, group by group. */
  method EncodeDigest(out: array<char>, cp: nat, d: seq<byte>, t: seq<Group>) returns (end: nat)
    requires AllFit(t, |d|) && cp + Length(t) <= out.Length
    modifies out
    ensures end == cp + Length(t)
    ensures out[..end] == old(out[..cp]) + Encode(d, t)
  {
    hide Encode, Length, Fits, Word;
    ghost var head := out[..cp];
    end := cp;
    var k := 0;
    EncodeNone(d, t);
    assert head + "" == head;
    while k < |t|
      invariant 0 <= k <= |t| && end == cp + Length(t[..k]) <= out.Length && AllFit(t[..k], |d|)
      invariant out[..end] == head + Encode(d, t[..k])
    {
      EncodeStep(d, t, k);
      end := EncodeGroup(out, end, d, t[k]);
      k := k + 1;
    }
    assert t[..k] == t;
  }

  method EncodeGroup(out: array<char>, cp: nat, d: seq<byte>, g: Group) returns (end: nat)
    requires Fits(g, |d|) && cp + g.n <= out.Length
    modifies out
    ensures end == cp + g.n
    ensures out[..end] == old(out[..cp]) + Enc6(Word(d, g), g.n)
  {
    end := B64From24Bit(out, cp, At(d, g.b2), At(d, g.b1), At(d, g.b0), g.n);
  }

  lemma {:induction false} EncodeNone(d: seq<byte>, t: seq<Group>)
    ensures AllFit(t[..0], |d|) && Length(t[..0]) == 0 && Encode(d, t[..0]) == ""
  {
  }

  lemma {:induction false} EncodeStep(d: seq<byte>, t: seq<Group>, k: nat)
    requires k < |t| && AllFit(t, |d|)
    ensures AllFit(t[..k], |d|) && AllFit(t[..k + 1], |d|) && Fits(t[k], |d|)
    ensures Length(t[..k + 1]) == Length(t[..k]) + t[k].n <= Length(t)
    ensures Encode(d, t[..k + 1]) == Encode(d, t[..k]) + Enc6(Word(d, t[k]), t[k].n)
  {
    assert t[..k + 1][..k] == t[..k];
    LengthPrefix(t, k + 1);
  }

  lemma {:induction false} FourEach(t: seq<Group>, k: nat)
    requires k <= |t| && forall i :: 0 <= i < k ==> t[i].n == 4
    ensures Length(t[..k]) == 4 * k
  {
    if k > 0 {
      FourEach(t, k - 1);
      assert t[..k][..k - 1] == t[..k - 1];
    }
  }

  /** 43, 86 and 22 characters. */
  lemma {:induction false} TextLengths()
    ensures Length(SHA256_GROUPS) == 43 && Length(SHA512_GROUPS) == 86 && Length(MD5_GROUPS) == 22
  {
    forall k | 0 <= k < 21 ensures SHA512_GROUPS[k].n == 4 { Sha512Shape(k); }
    forall k | 0 <= k < 10 ensures SHA256_GROUPS[k].n == 4 { Sha256Shape(k); }
    FourEach(SHA512_GROUPS, 21);
    FourEach(SHA256_GROUPS, 10);
    FourEach(MD5_GROUPS, 5);
  }

  lemma {:induction false} LengthPrefix(t: seq<Group>, k: nat)
    requires k <= |t|
    ensures Length(t[..k]) <= Length(t)
    decreases |t| - k
  {
    if k < |t| {
      assert t[..k + 1][..k] == t[..k];
      LengthPrefix(t, k + 1);
    } else {
      assert t[..k] == t;
    }
  }
}
