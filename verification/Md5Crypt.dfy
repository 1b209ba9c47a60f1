/** The MD5-based password hashes: BSD "1", Apache "apr1" and AIX "" (apps/passwd.c:322-494). */
module Md5Crypt {
  import opened Base
  import opened CStr
  import opened Crypt64
  import opened DigestFeed

  const SALT_MAX := 8
  const OUT_SIZE := 6 + 9 + 24 + 2

  function Trunc(s: string): string { s[..Min(|s|, SALT_MAX)] }

  function Marker(magic: string): string { if magic == "" then "" else "$" + magic + "$" }

  /** The algorithm with the digest uninterpreted: a first digest over key, marker and salt, the cycled digest of
      key, salt, key, and one byte per bit of the key length; then a thousand rounds. */
  function Digest(h: Hash, key: seq<byte>, marker: seq<byte>, salt: seq<byte>): seq<byte>
    requires Sized(h, 16)
  {
    var b := h(key + salt + key);
    var a := h(key + marker + salt + Cyclic(b, |key|) + LengthBits(|key|, [0], key[..Min(1, |key|)]));
    Rounds(h, 1000, a, key, salt)
  }

  /** What md5crypt returns; a magic longer than four characters is refused. */
  function Crypt(h: Hash, key: seq<byte>, magic: string, salt: string): Option<string>
    requires Sized(h, 16)
  {
    if |magic| > 4 then None
    else
      TablesFit();
      var d := Digest(h, key, Oct(Marker(magic)), Oct(Trunc(salt)));
      DigestSized(h, key, Oct(Marker(magic)), Oct(Trunc(salt)));
      Some(Marker(magic) + Trunc(salt) + "$" + Encode(d, MD5_GROUPS))
  }

  lemma {:induction false} DigestSized(h: Hash, key: seq<byte>, marker: seq<byte>, salt: seq<byte>)
    requires Sized(h, 16)
    ensures |Digest(h, key, marker, salt)| == 16
  {
  }

  /** What goes into a digest on the way: b, the input x of the first one, and the rounds. */
  datatype Work = Work(b: seq<byte>, x: seq<byte>, cs: seq<seq<byte>>)

  /** The digest d: x has the marker and the salt behind the password, and a zero byte for a 1 and the password's first
      byte for a 0 at its end; a thousand rounds with password and salt follow. */
  ghost predicate Works(h: Hash, key: seq<byte>, marker: seq<byte>, salt: seq<byte>, w: Work, d: seq<byte>) {
    w.b == h(key + salt + key) &&
    FirstInput(w.x, key, marker + salt, w.b, [0], if key == [] then [] else [key[0]]) &&
    RoundsOf(h, 1000, h(w.x), key, salt, w.cs) && d == w.cs[1000]
  }

  lemma {:induction false} DigestExactly(h: Hash, key: seq<byte>, marker: seq<byte>, salt: seq<byte>)
    returns (w: Work)
    requires Sized(h, 16)
    ensures Works(h, key, marker, salt, w, Digest(h, key, marker, salt))
  {
    hide Chained, FirstInput;
    var b, zero := h(key + salt + key), if key == [] then [] else [key[0]];
    assert key[..Min(1, |key|)] == zero;
    var x := key + (marker + salt) + Cyclic(b, |key|) + LengthBits(|key|, [0], zero);
    assert key + marker + salt + Cyclic(b, |key|) == key + (marker + salt) + Cyclic(b, |key|);
    InputIsFirst(key, marker + salt, b, [0], zero);
    var cs := RoundsExactly(h, 1000, h(x), key, salt);
    w := Work(b, x, cs);
  }

  /** There is an output exactly for a magic of at most four characters. It is "$magic$" unless the magic is empty, the
      first eight characters of the salt, "$" and 22 characters, none '$', from which the digest is decoded. */
  ghost predicate CryptOutcome(h: Hash, key: seq<byte>, magic: string, salt: string, r: Option<string>) {
    (r.Some? <==> |magic| <= 4) &&
    (r.Some? ==>
       var marker, cut := if magic == "" then "" else "$" + magic + "$", if |salt| <= 8 then salt else salt[..8];
       exists w, d :: |d| == 16 && Works(h, key, Oct(marker), Oct(cut), w, d) && Shows(r.value, marker + cut + "$", d))
  }

  ghost predicate Shows(out: string, head: string, d: seq<byte>) {
    |out| == |head| + 22 && head <= out && '$' !in out[|head|..] && Length(MD5_GROUPS) == 22 &&
    forall i: nat :: i < |d| ==>
      i in Decode(out[|head|..], MD5_GROUPS) && Decode(out[|head|..], MD5_GROUPS)[i] == d[i] as int
  }

  lemma {:induction false} CryptExactly(h: Hash, key: seq<byte>, magic: string, salt: string)
    requires Sized(h, 16)
    ensures CryptOutcome(h, key, magic, salt, Crypt(h, key, magic, salt))
  {
    hide Works, Shows, Digest, Encode;
    if |magic| <= 4 {
      var marker, cut := Marker(magic), Trunc(salt);
      assert salt[..|salt|] == salt;
      var d := Digest(h, key, Oct(marker), Oct(cut));
      var w := DigestExactly(h, key, Oct(marker), Oct(cut));
      DigestSized(h, key, Oct(marker), Oct(cut));
      OutputShows(marker + cut + "$", d);
    }
  }

  lemma {:induction false} OutputShows(head: string, d: seq<byte>)
    requires |d| == 16
    ensures AllFit(MD5_GROUPS, |d|) && Shows(head + Encode(d, MD5_GROUPS), head, d)
  {
    hide Encode, Decode, Length;
    TablesFit();
    TextLengths();
    var text := Encode(d, MD5_GROUPS);
    assert (head + text)[|head|..] == text;
    EncodeNoDollar(d, MD5_GROUPS);
    forall i: nat | i < |d| ensures i in Decode(text, MD5_GROUPS) && Decode(text, MD5_GROUPS)[i] == d[i] as int {
      Md5Decodes(d, i);
    }
  }

  method ComputeDigest(h: Hash, key: seq<byte>, marker: seq<byte>, salt: seq<byte>) returns (buf: seq<byte>)
    requires Sized(h, 16)
    ensures buf == Digest(h, key, marker, salt) && |buf| == 16
  {
    var md := key;
    if marker != [] { md := md + marker; } else { assert md == md + marker; }
    md := md + salt;
    buf := h(key + salt + key);
    md := FeedCyclic(md, buf, |key|);
    md := FeedBits(md, |key|, [0], key[..Min(1, |key|)]);
    buf := h(md);
    buf := RunRounds(h, 1000, buf, key, salt);
    DigestSized(h, key, marker, salt);
  }

  /** Where position k of the permuted digest comes from. */
  function Source(k: nat): (i: nat)
    requires k < 16
    ensures i < 16
  {
    if k == 14 then 5 else if k == 15 then 11 else 6 * k % 17
  }

  /** "silly output permutation" (apps/passwd.c:455-460). */
  method Permute(buf: seq<byte>) returns (perm: seq<byte>)
    requires |buf| == 16
    ensures |perm| == 16 && forall k :: 0 <= k < 16 ==> perm[k] == buf[Source(k)]
  {
    var bufPerm := new byte[16];
    var dest, source := 0, 0;
    while dest < 14
      invariant 0 <= dest <= 14 && bufPerm.Length == 16 && (dest < 14 ==> source == Source(dest))
      invariant bufPerm[..dest] == Moved(buf, dest)
    {
      ghost var before := bufPerm[..dest];
      bufPerm[dest] := buf[source];
      assert bufPerm[..dest + 1] == before + [buf[source]];
      if dest < 13 { NextSource(dest); }
      dest, source := dest + 1, (source + 6) % 17;
    }
    bufPerm[14] := buf[5];
    bufPerm[15] := buf[11];
    perm := bufPerm[..];
    assert perm == Moved(buf, 14) + [buf[Source(14)], buf[Source(15)]];
    forall k | 0 <= k < 14 ensures perm[k] == buf[Source(k)] { MovedAt(buf, 14, k); }
  }

  /** The first n bytes of the permuted digest. */
  ghost function Moved(buf: seq<byte>, n: nat): (m: seq<byte>)
    requires |buf| == 16 && n <= 16
    ensures |m| == n
  {
    if n == 0 then [] else Moved(buf, n - 1) + [buf[Source(n - 1)]]
  }

  lemma {:induction false} MovedAt(buf: seq<byte>, n: nat, k: nat)
    requires |buf| == 16 && k < n <= 16
    ensures Moved(buf, n)[k] == buf[Source(k)]
  {
    if k < n - 1 { MovedAt(buf, n - 1, k); }
  }

  lemma {:induction false} NextSource(d: nat)
    requires d < 13
    ensures (Source(d) + 6) % 17 == Source(d + 1)
  {
    var q, r := 6 * d / 17, 6 * d % 17;
    assert 6 * (d + 1) == 17 * q + (r + 6);
    if r + 6 >= 17 { assert 6 * (d + 1) == 17 * (q + 1) + (r - 11); }
  }

  /** The four expressions written for three bytes (apps/passwd.c:471-476) are b64_from_24bit. */
  lemma {:induction false} FourExpressions(p0: nat, p1: nat, p2: nat)
    requires p0 < 256 && p1 < 256 && p2 < 256
    ensures p1 % 16 * 4 + p2 / 64 < 64 && p0 % 4 * 16 + p1 / 16 < 64 && p0 / 4 < 64
    ensures [Cov(p2 % 64), Cov(p1 % 16 * 4 + p2 / 64), Cov(p0 % 4 * 16 + p1 / 16), Cov(p0 / 4)]
            == Enc6(p0 * 65536 + p1 * 256 + p2, 4)
  {
    var w := p0 * 65536 + p1 * 256 + p2;
    var w1, w2, w3 := w / 64, w / 64 / 64, w / 64 / 64 / 64;
    SixBits(p0, p1, p2);
    assert Enc6(w3, 1) == [Cov(w3 % 64)] + Enc6(w3 / 64, 0);
    assert Enc6(w2, 2) == [Cov(w2 % 64)] + Enc6(w3, 1);
    assert Enc6(w1, 3) == [Cov(w1 % 64)] + Enc6(w2, 2);
    assert Enc6(w, 4) == [Cov(w % 64)] + Enc6(w1, 3);
  }

  lemma {:induction false} SixBits(p0: nat, p1: nat, p2: nat)
    requires p0 < 256 && p1 < 256 && p2 < 256
    ensures var w := p0 * 65536 + p1 * 256 + p2;
            w % 64 == p2 % 64 && w / 64 % 64 == p1 % 16 * 4 + p2 / 64 && w / 64 / 64 % 64 == p0 % 4 * 16 + p1 / 16 &&
            w / 64 / 64 / 64 == p0 / 4 && p0 / 4 % 64 == p0 / 4
  {
    var w := p0 * 65536 + p1 * 256 + p2;
    SplitAt64(w, p0 * 1024 + p1 * 4 + p2 / 64, p2 % 64);
    SplitAt64(p0 * 1024 + p1 * 4 + p2 / 64, p0 * 16 + p1 / 16, p1 % 16 * 4 + p2 / 64);
    SplitAt64(p0 * 16 + p1 / 16, p0 / 4, p0 % 4 * 16 + p1 / 16);
  }

  lemma {:induction false} SplitAt64(x: nat, q: nat, r: nat)
    requires x == 64 * q + r && r < 64
    ensures x / 64 == q && x % 64 == r
  {
  }

  method WriteTriple(out: array<char>, cp: nat, p0: nat, p1: nat, p2: nat)
    requires p0 < 256 && p1 < 256 && p2 < 256 && cp + 4 <= out.Length
    modifies out
    ensures out[..cp + 4] == old(out[..cp]) + Enc6(p0 * 65536 + p1 * 256 + p2, 4)
  {
    FourExpressions(p0, p1, p2);
    ghost var head := out[..cp];
    out[cp] := Cov(p2 % 64);
    out[cp + 1] := Cov(p1 % 16 * 4 + p2 / 64);
    out[cp + 2] := Cov(p0 % 4 * 16 + p1 / 16);
    out[cp + 3] := Cov(p0 / 4);
    assert out[..cp + 4] == head + [out[cp], out[cp + 1], out[cp + 2], out[cp + 3]];
  }

  /** The groups that the permutation produces: three bytes each for the first five, one for the last. */
  ghost predicate Permuted(t: seq<Group>) {
    |t| == 6 && t[5] == Group(-1, -1, Source(15), 2) &&
    forall k :: 0 <= k < 5 ==> t[k] == Group(Source(3 * k), Source(3 * k + 1), Source(3 * k + 2), 4)
  }

  lemma {:induction false} Md5GroupsPermuted()
    ensures Permuted(MD5_GROUPS) && AllFit(MD5_GROUPS, 16)
  {
    TablesFit();
    var t := MD5_GROUPS;
    assert t[0] == Group(Source(0), Source(1), Source(2), 4) && t[1] == Group(Source(3), Source(4), Source(5), 4);
    assert t[2] == Group(Source(6), Source(7), Source(8), 4) && t[3] == Group(Source(9), Source(10), Source(11), 4);
    assert t[4] == Group(Source(12), Source(13), Source(14), 4);
  }

  /** One turn of the loop over the permuted bytes. */
  method WriteGroup(out: array<char>, cp: nat, perm: seq<byte>, i: nat, ghost buf: seq<byte>, ghost g: Group)
    requires |perm| == 16 && i <= 12 && |buf| == 16 && forall k :: 0 <= k < 16 ==> perm[k] == buf[Source(k)]
    requires g == Group(Source(i), Source(i + 1), Source(i + 2), 4) && cp + 4 <= out.Length
    modifies out
    ensures out[..cp + 4] == old(out[..cp]) + Enc6(Word(buf, g), g.n)
  {
    WriteTriple(out, cp, perm[i] as nat, perm[i + 1] as nat, perm[i + 2] as nat);
  }

  /** The encoding part of md5crypt (apps/passwd.c:449-485). */
  method EncodeMd5(out: array<char>, cp: nat, buf: seq<byte>, ghost t: seq<Group>) returns (end: nat)
    requires |buf| == 16 && cp + 22 <= out.Length && Permuted(t) && AllFit(t, 16)
    modifies out
    ensures end == cp + 22
    ensures out[..end] == old(out[..cp]) + Encode(buf, t)
  {
    ghost var head := out[..cp];
    var perm := Permute(buf);
    var i := 0;
    ghost var k := 0;
    end := cp;
    while i < 15
      invariant 0 <= k <= 5 && i == 3 * k && end == cp + 4 * k
      invariant AllFit(t[..k], 16)
      invariant out[..end] == head + Encode(buf, t[..k])
    {
      NextGroup(buf, t, k, head);
      WriteGroup(out, end, perm, i, buf, t[k]);
      end := end + 4;
      i, k := i + 3, k + 1;
    }
    LastGroup(buf, t, head);
    end := WriteLast(out, end, perm[15] as nat);
  }

  lemma {:induction false} NextGroup(buf: seq<byte>, t: seq<Group>, k: nat, head: string)
    requires |buf| == 16 && Permuted(t) && AllFit(t, 16) && k < 5
    ensures AllFit(t[..k], 16) && AllFit(t[..k + 1], 16) && Fits(t[k], 16)
    ensures t[k] == Group(Source(3 * k), Source(3 * k + 1), Source(3 * k + 2), 4)
    ensures head + Encode(buf, t[..k + 1]) == head + Encode(buf, t[..k]) + Enc6(Word(buf, t[k]), t[k].n)
  {
    EncodeStep(buf, t, k);
    assert head + (Encode(buf, t[..k]) + Enc6(Word(buf, t[k]), t[k].n))
        == head + Encode(buf, t[..k]) + Enc6(Word(buf, t[k]), t[k].n);
  }

  lemma {:induction false} LastGroup(buf: seq<byte>, t: seq<Group>, head: string)
    requires |buf| == 16 && Permuted(t) && AllFit(t, 16)
    ensures AllFit(t[..5], 16) && head + Encode(buf, t) == head + Encode(buf, t[..5]) + Enc6(buf[Source(15)] as nat, 2)
  {
    EncodeStep(buf, t, 5);
    assert t[..6] == t;
    assert Word(buf, t[5]) == buf[Source(15)] as nat;
  }

  /** The two characters of the last byte. */
  method WriteLast(out: array<char>, cp: nat, b: nat) returns (end: nat)
    requires b < 256 && cp + 2 <= out.Length
    modifies out
    ensures end == cp + 2 && out[..end] == old(out[..cp]) + Enc6(b, 2)
  {
    LastTwo(b);
    ghost var before := out[..cp];
    out[cp] := Cov(b % 64);
    out[cp + 1] := Cov(b / 64);
    assert out[..cp + 2] == before + [Cov(b % 64), Cov(b / 64)];
    end := cp + 2;
  }

  lemma {:induction false} LastTwo(b: nat)
    requires b < 256
    ensures [Cov(b % 64), Cov(b / 64)] == Enc6(b, 2)
  {
    assert b / 64 % 64 == b / 64;
    assert Enc6(b / 64, 1) == [Cov(b / 64)] + Enc6(b / 64 / 64, 0);
  }

  /** "$magic$salt" in the output buffer (apps/passwd.c:361-371). */
  method WriteHeader(out: array<char>, magic: string, salt: string)
    requires out.Length == OUT_SIZE && |magic| <= 4 && |salt| <= SALT_MAX && '\0' !in salt && '\0' !in magic
    modifies out
    ensures Holds(out, OUT_SIZE, Marker(magic) + salt)
  {
    out[0] := '\0';
    if |magic| > 0 {
      Append(out, "$", "");
      Append(out, magic, "$");
      Append(out, "$", "$" + magic);
    }
    Append(out, salt, Marker(magic));
  }

  /** md5crypt (apps/passwd.c:322-494): the guard on the header never fires, and text and terminator fit. */
  method Md5Crypt(h: Hash, key: seq<byte>, magic: string, salt: string) returns (r: Option<string>)
    requires Sized(h, 16) && '\0' !in salt && '\0' !in magic
    ensures CryptOutcome(h, key, magic, salt, r)
    ensures r == Crypt(h, key, magic, salt)
  {
    hide CryptOutcome;
    CryptExactly(h, key, magic, salt);
    if |magic| > 4 { return None; }
    var out := new char[OUT_SIZE];
    var asciiSalt := Trunc(salt);
    WriteHeader(out, magic, asciiSalt);
    ghost var head := Marker(magic) + asciiSalt;
    var len := StrLen(out, OUT_SIZE, head);
    if len > 6 + 8 { assert false; }
    var buf := ComputeDigest(h, key, Oct(Marker(magic)), Oct(asciiSalt));
    out[len] := '$';
    assert out[..len + 1] == head + "$";
    Md5GroupsPermuted();
    var end := EncodeMd5(out, len + 1, buf, MD5_GROUPS);
    ghost var text := out[..end];
    out[end] := '\0';
    assert out[..end] == text;
    r := Some(out[..end]);
  }

  /** The salt that an output carries: what stands between its marker and its last '$'. */
  function SaltIn(out: string, magic: string): string {
    var p := LastDollar(out);
    if |Marker(magic)| <= p then out[|Marker(magic)|..p] else ""
  }

  lemma {:induction false} OutputShape(h: Hash, key: seq<byte>, magic: string, salt: string)
    requires Sized(h, 16) && |magic| <= 4
    ensures var out, m, s := Crypt(h, key, magic, salt).value, Marker(magic), Trunc(salt);
            |out| == |m| + |s| + 23 && LastDollar(out) == |m| + |s| &&
            out[|m|..|m| + |s|] == s && |out[|m|..]| == |s| + 23 && out[|m|..][..|s|] == s
  {
    TablesFit();
    TextLengths();
    var out, m, s := Crypt(h, key, magic, salt).value, Marker(magic), Trunc(salt);
    var d := Digest(h, key, Oct(m), Oct(s));
    DigestSized(h, key, Oct(m), Oct(s));
    var text := Encode(d, MD5_GROUPS);
    EncodeNoDollar(d, MD5_GROUPS);
    LastDollarAt(m + s, text);
    assert out == m + s + "$" + text;
  }

  /** Hashing again with the salt that an output carries reproduces the output, also when that salt contains '$'. */
  lemma {:induction false} Rehash(h: Hash, key: seq<byte>, magic: string, salt: string)
    requires Sized(h, 16) && Crypt(h, key, magic, salt).Some?
    ensures Crypt(h, key, magic, SaltIn(Crypt(h, key, magic, salt).value, magic)) == Crypt(h, key, magic, salt)
  {
    OutputShape(h, key, magic, salt);
    assert Trunc(Trunc(salt)) == Trunc(salt);
  }

  /** Feeding back the whole output behind its marker reproduces it exactly when the salt fills its eight characters. */
  lemma {:induction false} RehashWhole(h: Hash, key: seq<byte>, magic: string, salt: string)
    requires Sized(h, 16) && Crypt(h, key, magic, salt).Some?
    ensures Crypt(h, key, magic, Crypt(h, key, magic, salt).value[|Marker(magic)|..]) == Crypt(h, key, magic, salt) <==>
            |Trunc(salt)| == SALT_MAX
  {
    OutputShape(h, key, magic, salt);
    var whole := Crypt(h, key, magic, salt).value[|Marker(magic)|..];
    OutputShape(h, key, magic, whole);
    if |Trunc(salt)| == SALT_MAX { assert Trunc(whole) == whole[..SALT_MAX] == Trunc(salt); }
  }
}
