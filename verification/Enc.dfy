/** The data path of "openssl enc": hex arguments, salt header, filter chain and copy loop (apps/enc.c). */
module Enc {
  import opened Base
  import opened Crypt64
  import Serial

  type Bytes = seq<byte>

  // ---- Hex arguments ----

  /** The hex digits given for byte k count, missing ones are zero. */
  function HexByte(s: string, k: nat): byte
    requires Serial.AllHex(s)
  {
    var hi := if 2 * k < |s| then Serial.DigitValue(s[2 * k]) else 0;
    var lo := if 2 * k + 1 < |s| then Serial.DigitValue(s[2 * k + 1]) else 0;
    DigitBound(s);
    (16 * hi + lo) as byte
  }

  lemma {:induction false} DigitBound(s: string)
    requires Serial.AllHex(s)
    ensures forall i :: 0 <= i < |s| ==> Serial.IsXDigit(s[i]) && Serial.DigitValue(s[i]) < 16
  {
    forall i | 0 <= i < |s|
      ensures Serial.IsXDigit(s[i]) && Serial.DigitValue(s[i]) < 16
    {
      assert s[i] in s;
    }
  }

  function Used(s: string, size: nat): string { s[..Min(|s|, 2 * size)] }

  /** The bytes a hex argument sets: excess is ignored, and a short argument is padded with zero on the right. */
  function HexBytes(s: string, size: nat): Option<Bytes> {
    var u := Used(s, size);
    if Serial.AllHex(u) then Some(seq(size, k requires 0 <= k => HexByte(u, k))) else None
  }

  /** set_hex (apps/enc.c:849-877). */
  method SetHex(s: string, size: nat) returns (ok: bool, bytes: array<byte>)
    ensures bytes.Length == size
    ensures ok <==> HexBytes(s, size).Some?
    ensures ok ==> bytes[..] == HexBytes(s, size).value
  {
    var n := |s|;
    if n > 2 * size { n := 2 * size; }
    ghost var u := Used(s, size);
    assert u == s[..n];
    bytes := new byte[size](k => 0);
    var i := 0;
    while i < n
      invariant 0 <= i <= n && bytes.Length == size && Serial.AllHex(s[..i])
      invariant forall k :: 0 <= k < size ==> bytes[k] == HexByte(s[..i], k)
    {
      if !Serial.IsXDigit(s[i]) {
        assert s[i] == u[i] && s[i] in u;
        return false, bytes;
      }
      assert s[..i + 1] == s[..i] + [s[i]];
      var j := Serial.DigitValue(s[i]);
      HexStep(s, i);
      if i % 2 == 1 {
        bytes[i / 2] := bytes[i / 2] + j as byte;
      } else {
        bytes[i / 2] := (16 * j) as byte;
      }
      i := i + 1;
    }
    assert bytes[..] == seq(size, k requires 0 <= k => HexByte(u, k));
    return true, bytes;
  }

  /** One more digit changes only its own byte, by that digit. */
  lemma {:induction false} HexStep(s: string, i: nat)
    requires i < |s| && Serial.AllHex(s[..i]) && Serial.IsXDigit(s[i])
    ensures Serial.AllHex(s[..i + 1]) && Serial.DigitValue(s[i]) < 16
    ensures forall k :: 0 <= k && k != i / 2 ==> HexByte(s[..i + 1], k) == HexByte(s[..i], k)
    ensures i % 2 == 0 ==> HexByte(s[..i + 1], i / 2) as int == 16 * Serial.DigitValue(s[i])
    ensures i % 2 == 1 ==> HexByte(s[..i], i / 2) as int <= 240 &&
                           HexByte(s[..i + 1], i / 2) as int == HexByte(s[..i], i / 2) as int + Serial.DigitValue(s[i])
  {
    assert s[..i + 1] == s[..i] + [s[i]];
    DigitBound(s[..i]);
  }

  /** printf("%02X") of every byte (apps/enc.c:754-772). */
  function Printed(b: Bytes): (s: string)
    ensures |s| == 2 * |b|
  {
    if b == [] then "" else Printed(b[..|b| - 1]) + Serial.Pair(b[|b| - 1] as nat)
  }

  lemma {:induction false} PrintedDigit(b: Bytes, k: nat)
    requires k < |b|
    ensures Printed(b)[2 * k] == Serial.Digit(b[k] as nat / 16)
    ensures Printed(b)[2 * k + 1] == Serial.Digit(b[k] as nat % 16)
  {
    if k < |b| - 1 { PrintedDigit(b[..|b| - 1], k); }
  }

  /** Reading printed bytes back gives the bytes, padded with zeros to a larger size and cut to a smaller one. */
  lemma {:induction false} HexRoundTrip(b: Bytes, size: nat)
    ensures HexBytes(Printed(b), size) ==
            Some(seq(size, k requires 0 <= k => if k < |b| then b[k] else 0))
  {
    var s := Printed(b);
    var u := Used(s, size);
    forall i | 0 <= i < |u|
      ensures Serial.IsXDigit(u[i])
    {
      PrintedDigit(b, i / 2);
      Serial.DigitRoundTrip(b[i / 2] as nat / 16);
      Serial.DigitRoundTrip(b[i / 2] as nat % 16);
    }
    assert Serial.AllHex(u);
    forall k | 0 <= k < size
      ensures HexByte(u, k) == if k < |b| then b[k] else 0
    {
      if k < |b| {
        PrintedDigit(b, k);
        Serial.DigitRoundTrip(b[k] as nat / 16);
        Serial.DigitRoundTrip(b[k] as nat % 16);
      }
    }
    assert HexBytes(s, size).value == seq(size, k requires 0 <= k => if k < |b| then b[k] else 0);
  }

  // ---- Filters ----

  /** A filter BIO as a pair of functions on whole streams. */
  datatype Filter = Filter(write: Bytes -> Bytes, read: Bytes -> Bytes)

  ghost predicate Invertible(f: Filter) { forall x: Bytes :: f.read(f.write(x)) == x }

  /** Which filters are asked for; any compression switches base64 off (apps/enc.c:398-405). */
  datatype Wanted = Wanted(zlib: bool, brotli: bool, zstd: bool, base64: bool)

  datatype Codecs = Codecs(zlib: Filter, brotli: Filter, zstd: Filter, base64: Filter)

  ghost predicate AllInvertible(c: Codecs) {
    Invertible(c.zlib) && Invertible(c.brotli) && Invertible(c.zstd) && Invertible(c.base64)
  }

  /** The chain in the order in which the filters are pushed (apps/enc.c:483-545): the last one
      pushed is nearest to the program. */
  function Chain(w: Wanted, c: Codecs): seq<Filter> {
    (if w.zlib then [c.zlib] else []) + (if w.brotli then [c.brotli] else []) + (if w.zstd then [c.zstd] else []) +
    (if w.base64 && !w.zlib && !w.brotli && !w.zstd then [c.base64] else [])
  }

  /** What reaches the file when data is written to the chain. */
  function Written(ch: seq<Filter>, data: Bytes): Bytes {
    if ch == [] then data else Written(ch[..|ch| - 1], ch[|ch| - 1].write(data))
  }

  /** What the program reads when the chain stands on a file. */
  function ReadBack(ch: seq<Filter>, file: Bytes): Bytes {
    if ch == [] then file else ch[|ch| - 1].read(ReadBack(ch[..|ch| - 1], file))
  }

  lemma {:induction false} ChainInverts(ch: seq<Filter>, data: Bytes)
    requires forall i :: 0 <= i < |ch| ==> Invertible(ch[i])
    ensures ReadBack(ch, Written(ch, data)) == data
  {
    if ch != [] {
      var n := |ch| - 1;
      ChainInverts(ch[..n], ch[n].write(data));
    }
  }

  // ---- Cipher and copy loop ----

  /** A cipher context: its state is advanced byte by byte and may hold data back until the end. */
  datatype Cipher = Cipher(begin: (bool, Bytes) -> int, step: (int, byte) -> (int, Bytes), finish: int -> Option<Bytes>)

  function Process(c: Cipher, st: int, data: Bytes): (int, Bytes) {
    if data == [] then (st, [])
    else
      var (st1, out) := Process(c, st, data[..|data| - 1]);
      var (st2, more) := c.step(st1, data[|data| - 1]);
      (st2, out + more)
  }

  /** The cipher applied to a whole message. */
  function Whole(c: Cipher, enc: bool, key: Bytes, data: Bytes): Option<Bytes> {
    var (st, out) := Process(c, c.begin(enc, key), data);
    var last := c.finish(st);
    if last == None then None else Some(out + last.value)
  }

  lemma {:induction false} ProcessConcat(c: Cipher, st: int, a: Bytes, b: Bytes)
    ensures var (st1, out1) := Process(c, st, a);
            var (st2, out2) := Process(c, st1, b);
            Process(c, st, a + b) == (st2, out1 + out2)
  {
    var (st1, out1) := Process(c, st, a);
    if b == [] {
      assert a + b == a && out1 + [] == out1;
    } else {
      var n := |b| - 1;
      ProcessConcat(c, st, a, b[..n]);
      assert (a + b)[..|a + b| - 1] == a + b[..n];
      var (st2, out2) := Process(c, st1, b[..n]);
      var more := c.step(st2, b[n]).1;
      assert out1 + out2 + more == out1 + (out2 + more);
    }
  }

  /** How many bytes the k-th read returns: any number the buffer and what is left allow, as the input BIO likes. */
  type Reads = nat -> nat

  function Taken(amounts: Reads, k: nat, bsize: nat, left: nat): (n: nat)
    requires bsize > 0 && left > 0
    ensures 0 < n <= bsize && n <= left
  {
    var most := Min(bsize, left);
    if amounts(k) < 1 then 1 else if amounts(k) > most then most else amounts(k)
  }

  /** A cipher mode that is not streamable needs the whole input from the first read. */
  predicate Fits(streamable: bool, data: Bytes, amounts: Reads, bsize: nat)
    requires bsize > 0
  {
    streamable || data == [] || Taken(amounts, 0, bsize, |data|) == |data|
  }

  /** The copy loop (apps/enc.c:780-803): for a streamable cipher the result depends neither on the buffer size nor on
      how much each read returns; an unstreamable one gets its whole input from the first read or the run fails. */
  method CopyLoop(c: Cipher, enc: bool, key: Bytes, data: Bytes, amounts: Reads, bsize: nat, streamable: bool)
    returns (r: Option<Bytes>)
    requires bsize > 0
    ensures r == if Fits(streamable, data, amounts, bsize) then Whole(c, enc, key, data) else None
  {
    var st, out := c.begin(enc, key), [];
    var pos, k := 0, 0;
    while pos < |data|
      invariant 0 <= pos <= |data| && k >= 0 && (k == 0 <==> pos == 0)
      invariant (st, out) == Process(c, c.begin(enc, key), data[..pos])
      invariant Fits(streamable, data, amounts, bsize) || pos == 0
      invariant !streamable ==> pos == 0 || pos == |data|
    {
      var inl := Taken(amounts, k, bsize, |data| - pos);
      if !streamable && pos + inl < |data| { return None; }
      var chunk := data[pos..pos + inl];
      ProcessConcat(c, c.begin(enc, key), data[..pos], chunk);
      assert data[..pos] + chunk == data[..pos + inl];
      var (next, more) := Process(c, st, chunk);
      st, out := next, out + more;
      pos, k := pos + inl, k + 1;
    }
    assert data[..pos] == data;
    var last := c.finish(st);
    if last == None { return None; }
    return Some(out + last.value);
  }

  // ---- The salt header ----

  const MAGIC: Bytes := [0x53, 0x61, 0x6C, 0x74, 0x65, 0x64, 0x5F, 0x5F]

  /** The salt options: -nosalt, or -S with a hex value, or neither. */
  datatype Salting = NoSalt | HexSalt(hex: string) | Header

  datatype Setup = Setup(wanted: Wanted, codecs: Codecs, cipher: Cipher, salting: Salting, saltLen: nat,
                         derive: Option<Bytes> -> Bytes)

  ghost predicate Sound(u: Setup) {
    AllInvertible(u.codecs) &&
    forall key: Bytes, m: Bytes ::
      Whole(u.cipher, true, key, m).Some? ==>
        Whole(u.cipher, false, key, Whole(u.cipher, true, key, m).value) == Some(m)
  }

  /** The salt in use when encrypting with the given random bytes, or a bad -S value. */
  function SaltUsed(u: Setup, random: Bytes): Option<Option<Bytes>> {
    match u.salting
    case NoSalt => Some(None)
    case HexSalt(hex) => var s := HexBytes(hex, u.saltLen); if s == None then None else Some(s)
    case Header => Some(Some(random))
  }

  function HeaderFor(u: Setup, random: Bytes): Bytes { if u.salting == Header then MAGIC + random else [] }

  /** The file produced by encryption. */
  function Encrypted(u: Setup, random: Bytes, data: Bytes): Option<Bytes> {
    var salt := SaltUsed(u, random);
    if salt == None then None
    else
      var body := Whole(u.cipher, true, u.derive(salt.value), data);
      if body == None then None
      else Some(Written(Chain(u.wanted, u.codecs),
                        HeaderFor(u, random) + body.value))
  }

  // ---- The file in so many words ----

  /** What reaches the file: zstd is applied first, then brotli, then zlib, each if asked for, and base64 only when no
      compression is. */
  ghost predicate Wraps(w: Wanted, c: Codecs, stream: Bytes, file: Bytes) {
    var s := if w.zstd then c.zstd.write(stream) else stream;
    var b := if w.brotli then c.brotli.write(s) else s;
    var z := if w.zlib then c.zlib.write(b) else b;
    file == if w.base64 && !w.zlib && !w.brotli && !w.zstd then c.base64.write(z) else z
  }

  lemma {:induction false} WrittenSnoc(ch: seq<Filter>, f: Filter, data: Bytes)
    ensures Written(ch + [f], data) == Written(ch, f.write(data))
  {
    assert (ch + [f])[..|ch|] == ch;
  }

  lemma {:induction false} ChainWraps(w: Wanted, c: Codecs, stream: Bytes)
    ensures Wraps(w, c, stream, Written(Chain(w, c), stream))
  {
    var z := if w.zlib then [c.zlib] else [];
    var b := z + if w.brotli then [c.brotli] else [];
    var s := b + if w.zstd then [c.zstd] else [];
    var packed := w.zlib || w.brotli || w.zstd;
    if w.base64 && !packed {
      assert Chain(w, c) == [] + [c.base64];
      WrittenSnoc([], c.base64, stream);
    } else {
      assert Chain(w, c) == s;
      Unpeel(b, c.zstd, w.zstd, stream);
      var s1 := if w.zstd then c.zstd.write(stream) else stream;
      Unpeel(z, c.brotli, w.brotli, s1);
      Unpeel([], c.zlib, w.zlib, if w.brotli then c.brotli.write(s1) else s1);
      assert [] + (if w.zlib then [c.zlib] else []) == z;
    }
  }

  lemma {:induction false} Unpeel(ch: seq<Filter>, f: Filter, wanted: bool, data: Bytes)
    ensures Written(ch + (if wanted then [f] else []), data) == Written(ch, if wanted then f.write(data) else data)
  {
    if wanted { WrittenSnoc(ch, f, data); } else { assert ch + [] == ch; }
  }

  /** The file wraps the encrypted message. With a random salt that is preceded by "Salted__" and the salt; the key
      comes from the salt in use, or from none with -nosalt. */
  ghost predicate FileFor(u: Setup, random: Bytes, data: Bytes, file: Bytes) {
    exists salt, body ::
      body == Whole(u.cipher, true, u.derive(salt), data) && body.Some? &&
      match u.salting
      case NoSalt => salt == None && Wraps(u.wanted, u.codecs, body.value, file)
      case HexSalt(hex) => salt == HexBytes(hex, u.saltLen) && salt.Some? && Wraps(u.wanted, u.codecs, body.value, file)
      case Header =>
        salt == Some(random) &&
        Wraps(u.wanted, u.codecs, [0x53, 0x61, 0x6C, 0x74, 0x65, 0x64, 0x5F, 0x5F] + random + body.value, file)
  }

  lemma {:induction false} EncryptedExactly(u: Setup, random: Bytes, data: Bytes)
    ensures Encrypted(u, random, data).Some? ==> FileFor(u, random, data, Encrypted(u, random, data).value)
  {
    hide Wraps, Whole, HexBytes, Chain, Written;
    if Encrypted(u, random, data).Some? {
      var salt := SaltUsed(u, random).value;
      var body := Whole(u.cipher, true, u.derive(salt), data);
      var stream := HeaderFor(u, random) + body.value;
      ChainWraps(u.wanted, u.codecs, stream);
      if u.salting != Header { assert stream == body.value; }
    }
  }

  /** A stream is read as salt and rest exactly when it is "Salted__", the salt and the rest. */
  lemma {:induction false} SaltFoundExactly(u: Setup, stream: Bytes, salt: Bytes, rest: Bytes)
    requires u.salting == Header
    ensures SaltFound(u, stream) == Some((Some(salt), rest)) <==>
            stream == [0x53, 0x61, 0x6C, 0x74, 0x65, 0x64, 0x5F, 0x5F] + salt + rest && |salt| == u.saltLen
    ensures SaltFound(u, stream).Some? ==> SaltFound(u, stream).value.0.Some?
  {
    if stream == MAGIC + salt + rest && |salt| == u.saltLen {
      assert stream[..8] == MAGIC && stream[8..8 + u.saltLen] == salt && stream[8 + u.saltLen..] == rest;
    }
    if SaltFound(u, stream) == Some((Some(salt), rest)) {
      assert stream == stream[..8] + stream[8..8 + u.saltLen] + stream[8 + u.saltLen..];
    }
  }

  /** The salt found when decrypting, with the rest of the stream. */
  function SaltFound(u: Setup, stream: Bytes): Option<(Option<Bytes>, Bytes)> {
    match u.salting
    case NoSalt => Some((None, stream))
    case HexSalt(hex) => var s := HexBytes(hex, u.saltLen); if s == None then None else Some((s, stream))
    case Header =>
      if MAGIC <= stream && |stream| >= |MAGIC| + u.saltLen then
        Some((Some(stream[|MAGIC|..|MAGIC| + u.saltLen]), stream[|MAGIC| + u.saltLen..]))
      else None
  }

  function Decrypted(u: Setup, file: Bytes): Option<Bytes> {
    var found := SaltFound(u, ReadBack(Chain(u.wanted, u.codecs), file));
    if found == None then None else Whole(u.cipher, false, u.derive(found.value.0), found.value.1)
  }

  lemma {:induction false} ChainInvertible(w: Wanted, c: Codecs)
    requires AllInvertible(c)
    ensures forall i :: 0 <= i < |Chain(w, c)| ==> Invertible(Chain(w, c)[i])
  {
  }

  /** With the same options, decryption finds the salt that encryption used and recovers the message. */
  lemma {:induction false} DecryptInvertsEncrypt(u: Setup, random: Bytes, data: Bytes)
    requires Sound(u) && |random| == u.saltLen && Encrypted(u, random, data).Some?
    ensures Decrypted(u, Encrypted(u, random, data).value) == Some(data)
  {
    var ch, salt := Chain(u.wanted, u.codecs), SaltUsed(u, random).value;
    var body := Whole(u.cipher, true, u.derive(salt), data).value;
    var stream := HeaderFor(u, random) + body;
    ChainInvertible(u.wanted, u.codecs);
    ChainInverts(ch, stream);
    SaltFoundAgain(u, random, body);
  }

  lemma {:induction false} SaltFoundAgain(u: Setup, random: Bytes, body: Bytes)
    requires |random| == u.saltLen && SaltUsed(u, random).Some?
    ensures SaltFound(u, HeaderFor(u, random) + body) == Some((SaltUsed(u, random).value, body))
  {
    var stream := HeaderFor(u, random) + body;
    if u.salting == Header {
      assert stream[..|MAGIC|] == MAGIC;
      assert stream[|MAGIC|..|MAGIC| + u.saltLen] == random && stream[|MAGIC| + u.saltLen..] == body;
    } else {
      assert stream == body;
    }
  }

  /** The encrypting run (apps/enc.c:548-598, 776-803). */
  method Encrypt(u: Setup, random: Bytes, data: Bytes, amounts: Reads, bsize: nat, streamable: bool)
    returns (file: Option<Bytes>)
    requires bsize > 0 && |random| == u.saltLen
    ensures file.Some? ==> FileFor(u, random, data, file.value)
    ensures file == if Fits(streamable, data, amounts, bsize) then Encrypted(u, random, data) else None
  {
    hide FileFor;
    EncryptedExactly(u, random, data);
    var sptr, header: Bytes := None, [];
    match u.salting {
      case NoSalt =>
      case HexSalt(hex) =>
        var ok, salt := SetHex(hex, u.saltLen);
        if !ok { return None; }
        sptr := Some(salt[..]);
      case Header =>
        sptr := Some(random);
        header := MAGIC + random;
    }
    var body := CopyLoop(u.cipher, true, u.derive(sptr), data, amounts, bsize, streamable);
    if body == None { return None; }
    return Some(Written(Chain(u.wanted, u.codecs), header + body.value));
  }

  /** What a decrypting run leaves to the cipher. */
  function Body(u: Setup, file: Bytes): Option<Bytes> {
    var found := SaltFound(u, ReadBack(Chain(u.wanted, u.codecs), file));
    if found == None then None else Some(found.value.1)
  }

  /** The decrypting run. */
  method Decrypt(u: Setup, file: Bytes, amounts: Reads, bsize: nat, streamable: bool) returns (data: Option<Bytes>)
    requires bsize > 0
    ensures data == if Body(u, file).Some? && Fits(streamable, Body(u, file).value, amounts, bsize) then
                      Decrypted(u, file)
                    else None
  {
    var rest := ReadBack(Chain(u.wanted, u.codecs), file);
    var sptr;
    var ok;
    ok, sptr, rest := ReadSalt(u, rest);
    if !ok { return None; }
    data := CopyLoop(u.cipher, false, u.derive(sptr), rest, amounts, bsize, streamable);
  }

  method ReadSalt(u: Setup, stream: Bytes) returns (ok: bool, sptr: Option<Bytes>, rest: Bytes)
    ensures SaltFound(u, stream) == if ok then Some((sptr, rest)) else None
  {
    rest, sptr := stream, None;
    match u.salting {
      case NoSalt =>
      case HexSalt(hex) =>
        var good, salt := SetHex(hex, u.saltLen);
        if !good { return false, sptr, rest; }
        sptr := Some(salt[..]);
      case Header =>
        if |rest| < |MAGIC| { return false, sptr, rest; }
        var mbuf := rest[..|MAGIC|];
        rest := rest[|MAGIC|..];
        if mbuf != MAGIC { return false, sptr, rest; }
        if |rest| < u.saltLen { return false, sptr, rest; }
        sptr, rest := Some(rest[..u.saltLen]), rest[u.saltLen..];
        assert sptr.value == stream[|MAGIC|..|MAGIC| + u.saltLen] && rest == stream[|MAGIC| + u.saltLen..];
    }
    ok := true;
  }

  /** Encrypting and decrypting one after the other, with any two buffer sizes and any lengths of the reads. */
  method RoundTrip(u: Setup, random: Bytes, data: Bytes, r1: Reads, b1: nat, r2: Reads, b2: nat, streamable: bool)
    returns (file: Option<Bytes>, back: Option<Bytes>)
    requires Sound(u) && b1 > 0 && b2 > 0 && |random| == u.saltLen
    ensures file == if Fits(streamable, data, r1, b1) then Encrypted(u, random, data) else None
    ensures file.Some? ==>
              Body(u, file.value).Some? &&
              back == (if Fits(streamable, Body(u, file.value).value, r2, b2) then Some(data) else None)
  {
    file := Encrypt(u, random, data, r1, b1, streamable);
    back := None;
    if file.Some? {
      DecryptInvertsEncrypt(u, random, data);
      back := Decrypt(u, file.value, r2, b2, streamable);
    }
  }
}
