/** The SHA-crypt password hash (apps/passwd.c:496-780), after Drepper's "Unix crypt using SHA-256 and SHA-512". */
module ShaCrypt {
  import opened Base
  import opened CStr
  import opened Decimal
  import opened Crypt64
  import opened DigestFeed
  import TimeText

  const SALT_LEN_MAX := 16
  const ROUNDS_DEFAULT := 5000
  const ROUNDS_MIN := 1000
  const ROUNDS_MAX := 999999999
  const PREFIX: string := "rounds="
  const OUT_SIZE := 3 + 17 + 17 + 86 + 1

  /** The settings of a hash: whether the round count is spelled out, the count, and the salt. */
  datatype Settings = Settings(custom: bool, rounds: nat, salt: string)

  function Clamp(n: int): nat {
    if n > ROUNDS_MAX then ROUNDS_MAX else if n < ROUNDS_MIN then ROUNDS_MIN else n
  }

  function Trunc(s: string): string { s[..Min(|s|, SALT_LEN_MAX)] }

  /** The settings a -salt argument asks for, or None when its round count is malformed (apps/passwd.c:552-578). */
  function Parse(salt: string): Option<Settings> {
    if PREFIX <= salt then ParseRounds(salt[|PREFIX|..])
    else Some(Settings(false, ROUNDS_DEFAULT, Trunc(salt)))
  }

  function ParseRounds(num: string): Option<Settings> {
    var (n, end) := StrToUl(num);
    if end < |num| && num[end] == '$' then Some(Settings(true, Clamp(n), Trunc(num[end + 1..]))) else None
  }

  /** The settings part of the output (apps/passwd.c:595-607). */
  function Print(st: Settings): string {
    (if st.custom then PREFIX + Dec(st.rounds) + "$" else "") + st.salt
  }

  /** The SHA-crypt specification, steps 1 to 12. */
  function Intermediate(h: Hash, key: seq<byte>, salt: seq<byte>, size: nat): seq<byte>
    requires Sized(h, size) && size > 0
  {
    var b := h(key + salt + key);
    h(key + salt + Cyclic(b, |key|) + LengthBits(|key|, b, key))
  }

  /** The SHA-crypt specification, steps 1 to 21. */
  function Digest(h: Hash, key: seq<byte>, salt: seq<byte>, rounds: nat, size: nat): seq<byte>
    requires Sized(h, size) && size > 0
  {
    var a := Intermediate(h, key, salt, size);
    var p := Cyclic(h(Times(key, |key|)), |key|);
    var s := Cyclic(h(Times(salt, 16 + a[0] as nat)), |salt|);
    Rounds(h, rounds, a, p, s)
  }

  datatype Variant = Sha256 | Sha512

  function VariantOf(magic: string): Option<Variant> {
    if magic == "5" then Some(Sha256) else if magic == "6" then Some(Sha512) else None
  }

  function Size(v: Variant): nat { if v.Sha256? then 32 else 64 }

  function Groups(v: Variant): seq<Group> { if v.Sha256? then SHA256_GROUPS else SHA512_GROUPS }

  /** The two digests. */
  datatype Hashes = Hashes(sha256: Hash, sha512: Hash)

  function HashOf(hs: Hashes, v: Variant): Hash { if v.Sha256? then hs.sha256 else hs.sha512 }

  ghost predicate Proper(hs: Hashes) { Sized(hs.sha256, 32) && Sized(hs.sha512, 64) }

  /** What shacrypt returns: nothing for an unknown magic, a malformed round count, or an empty password
      or salt (OPENSSL_zalloc(0) fails); otherwise "$magic$settings$digest". */
  function Crypt(hs: Hashes, key: seq<byte>, magic: string, salt: string): Option<string>
    requires Proper(hs)
  {
    var v, st := VariantOf(magic), Parse(salt);
    if v == None || st == None || key == [] || st.value.salt == "" then None
    else Some("$" + magic + "$" + Print(st.value) + "$" + DigestText(hs, v.value, key, st.value))
  }

  function DigestText(hs: Hashes, v: Variant, key: seq<byte>, st: Settings): (s: string)
    requires Proper(hs)
    ensures |s| == Length(Groups(v))
  {
    TablesFit();
    var d := Digest(HashOf(hs, v), key, Oct(st.salt), st.rounds, Size(v));
    RoundsSized(HashOf(hs, v), Size(v));
    Encode(d, Groups(v))
  }

  lemma {:induction false} RoundsSized(h: Hash, size: nat)
    requires Sized(h, size)
    ensures forall n: nat, c: seq<byte>, p: seq<byte>, s: seq<byte> :: |c| == size ==> |Rounds(h, n, c, p, s)| == size
  {
  }

  // ---- What the output is, byte by byte ----

  /** What goes into a digest on the way: b, the input x of the first one, a, the fills p and s, and the rounds. */
  datatype Work = Work(b: seq<byte>, x: seq<byte>, a: seq<byte>, p: seq<byte>, s: seq<byte>, cs: seq<seq<byte>>)

  /** p has n bytes, those of the digest d over and over. */
  ghost predicate Filled(p: seq<byte>, n: nat, d: seq<byte>) {
    |p| == n && d != [] && forall i :: 0 <= i < n ==> p[i] == d[i % |d|]
  }

  /** The digest d, after the SHA-crypt specification: the password is hashed |key| times over for p, and the salt
      16 + a[0] times for s. */
  ghost predicate Works(h: Hash, key: seq<byte>, salt: seq<byte>, rounds: nat, w: Work, d: seq<byte>) {
    w.b == h(key + salt + key) && FirstInput(w.x, key, salt, w.b, w.b, key) && w.a == h(w.x) && w.a != [] &&
    key != [] && Filled(w.p, |key|, h(Cyclic(key, |key| * |key|))) &&
    salt != [] && Filled(w.s, |salt|, h(Cyclic(salt, |salt| * (16 + w.a[0] as nat)))) &&
    RoundsOf(h, rounds, w.a, w.p, w.s, w.cs) && d == w.cs[rounds]
  }

  lemma {:induction false} FirstExactly(h: Hash, key: seq<byte>, salt: seq<byte>, size: nat) returns (x: seq<byte>)
    requires Sized(h, size) && size > 0
    ensures var b := h(key + salt + key);
            FirstInput(x, key, salt, b, b, key) && Intermediate(h, key, salt, size) == h(x)
  {
    var b := h(key + salt + key);
    InputIsFirst(key, salt, b, b, key);
    x := key + salt + Cyclic(b, |key|) + LengthBits(|key|, b, key);
  }

  lemma {:induction false} DigestExactly(h: Hash, key: seq<byte>, salt: seq<byte>, rounds: nat, size: nat)
    returns (w: Work)
    requires Sized(h, size) && size > 0 && key != [] && salt != []
    ensures Works(h, key, salt, rounds, w, Digest(h, key, salt, rounds, size))
  {
    hide Chained, FirstInput, Intermediate, Times;
    var x := FirstExactly(h, key, salt, size);
    var a := h(x);
    TimesExactly(key, |key|);
    TimesExactly(salt, 16 + a[0] as nat);
    var p := Cyclic(h(Times(key, |key|)), |key|);
    var s := Cyclic(h(Times(salt, 16 + a[0] as nat)), |salt|);
    var cs := RoundsExactly(h, rounds, a, p, s);
    w := Work(h(key + salt + key), x, a, p, s, cs);
  }

  /** out is "$", the magic, "$", the settings, "$" and len further characters, none of them '$', from which every byte
      of the digest is decoded. */
  ghost predicate Shows(out: string, magic: string, st: Settings, d: seq<byte>, t: seq<Group>, len: nat) {
    var head := "$" + magic + "$" + Print(st) + "$";
    |out| == |head| + len && head <= out && '$' !in out[|head|..] && Length(t) == len &&
    forall i: nat :: i < |d| ==>
      i in Decode(out[|head|..], t) && Decode(out[|head|..], t)[i] == d[i] as int
  }

  /** There is an output exactly for magic "5" or "6", well-formed settings, a password and a salt. For "5" it shows 32
      bytes made with SHA-256 alone in 43 characters, for "6" 64 bytes made with SHA-512 alone in 86. */
  ghost predicate CryptOutcome(hs: Hashes, key: seq<byte>, magic: string, salt: string, r: Option<string>) {
    (r.Some? <==> (magic == "5" || magic == "6") && Parse(salt).Some? && Parse(salt).value.salt != "" && key != []) &&
    (r.Some? && magic == "5" ==> MadeWith(hs.sha256, 32, key, "5", Parse(salt).value, SHA256_GROUPS, 43, r.value)) &&
    (r.Some? && magic == "6" ==> MadeWith(hs.sha512, 64, key, "6", Parse(salt).value, SHA512_GROUPS, 86, r.value))
  }

  ghost predicate MadeWith(h: Hash, size: nat, key: seq<byte>, magic: string, st: Settings, t: seq<Group>, len: nat,
                           out: string) {
    exists w, d :: |d| == size && Works(h, key, Oct(st.salt), st.rounds, w, d) && Shows(out, magic, st, d, t, len)
  }

  lemma {:induction false} CryptExactly(hs: Hashes, key: seq<byte>, magic: string, salt: string)
    requires Proper(hs)
    ensures CryptOutcome(hs, key, magic, salt, Crypt(hs, key, magic, salt))
  {
    hide Works, Shows, Digest, Parse, Print, Encode, Length;
    if Crypt(hs, key, magic, salt).Some? {
      var v, st := VariantOf(magic).value, Parse(salt).value;
      var h, size := HashOf(hs, v), Size(v);
      var d := Digest(h, key, Oct(st.salt), st.rounds, size);
      var w := DigestExactly(h, key, Oct(st.salt), st.rounds, size);
      DigestLength(h, key, Oct(st.salt), st.rounds, size);
      OutputShows(magic, st, d, v);
    }
  }

  lemma {:induction false} DigestLength(h: Hash, key: seq<byte>, salt: seq<byte>, rounds: nat, size: nat)
    requires Sized(h, size) && size > 0
    ensures |Digest(h, key, salt, rounds, size)| == size
  {
    RoundsSized(h, size);
  }

  lemma {:induction false} OutputShows(magic: string, st: Settings, d: seq<byte>, v: Variant)
    requires |d| == Size(v)
    ensures AllFit(Groups(v), |d|)
    ensures Shows("$" + magic + "$" + Print(st) + "$" + Encode(d, Groups(v)), magic, st, d, Groups(v),
                  if v.Sha256? then 43 else 86)
  {
    hide Print, Encode, Decode, Length;
    TablesFit();
    TextLengths();
    var head, text := "$" + magic + "$" + Print(st) + "$", Encode(d, Groups(v));
    assert (head + text)[|head|..] == text;
    EncodeNoDollar(d, Groups(v));
    forall i: nat | i < |d| ensures i in Decode(text, Groups(v)) && Decode(text, Groups(v))[i] == d[i] as int {
      if v.Sha256? { Sha256Decodes(d, i); } else { Sha512Decodes(d, i); }
    }
  }

  /** Magic "5" does not look at SHA-512, nor "6" at SHA-256. */
  lemma {:induction false} OneDigestOnly(a: Hashes, b: Hashes, key: seq<byte>, magic: string, salt: string)
    requires Proper(a) && Proper(b)
    requires (magic == "5" && a.sha256 == b.sha256) || (magic == "6" && a.sha512 == b.sha512)
    ensures Crypt(a, key, magic, salt) == Crypt(b, key, magic, salt)
  {
  }

  /** Settings without "rounds=" have 5000 rounds, and the salt is cut to sixteen characters. */
  lemma {:induction false} ParsePlain(salt: string)
    requires !("rounds=" <= salt)
    ensures Parse(salt) == Some(Settings(false, 5000, if |salt| <= 16 then salt else salt[..16]))
  {
    assert salt[..|salt|] == salt;
  }

  /** Settings with "rounds=" and a number have that number, as strtoul reads it, brought between 1000 and 999999999. */
  lemma {:induction false} ParseCounted(n: int, rest: string)
    ensures var u := if n > 0xFFFF_FFFF_FFFF_FFFF || n < -0xFFFF_FFFF_FFFF_FFFF then 0xFFFF_FFFF_FFFF_FFFF
                     else if n < 0 then 0x1_0000_0000_0000_0000 + n else n;
            Parse("rounds=" + DecInt(n) + "$" + rest) ==
            Some(Settings(true, if u < 1000 then 1000 else if u > 999999999 then 999999999 else u,
                          if |rest| <= 16 then rest else rest[..16]))
  {
    hide DecInt, StrToUl;
    var num := DecInt(n) + ("$" + rest);
    StrToUlExactly(n, "$" + rest);
    assert "rounds=" + DecInt(n) + "$" + rest == PREFIX + num;
    PrefixOff(num);
    assert num[|DecInt(n)|] == '$' && num[|DecInt(n)| + 1..] == rest;
    assert rest[..|rest|] == rest;
  }

  lemma {:induction false} PrefixOff(num: string)
    ensures Parse(PREFIX + num) == ParseRounds(num)
  {
    hide ParseRounds;
    assert (PREFIX + num)[|PREFIX|..] == num;
  }

  /** A number without '$' behind it is refused. */
  lemma {:induction false} ParseUncounted(n: int, rest: string)
    requires rest == "" || (!TimeText.IsDigit(rest[0]) && rest[0] != '$')
    ensures Parse("rounds=" + DecInt(n) + rest) == None
  {
    hide DecInt, StrToUl;
    var num := DecInt(n) + rest;
    StrToUlExactly(n, rest);
    assert "rounds=" + DecInt(n) + rest == PREFIX + num;
    PrefixOff(num);
  }

  // ---- The settings survive printing and parsing ----

  lemma {:induction false} ClampBounds(n: int)
    ensures ROUNDS_MIN <= Clamp(n) <= ROUNDS_MAX && Clamp(Clamp(n)) == Clamp(n)
  {
  }

  lemma {:induction false} ParseRoundsPrinted(n: nat, rest: string)
    requires ROUNDS_MIN <= n <= ROUNDS_MAX
    ensures ParseRounds(Dec(n) + ("$" + rest)) == Some(Settings(true, n, Trunc(rest)))
  {
    var num := Dec(n) + ("$" + rest);
    StrToUlPrinted(n, "$" + rest);
    assert num[|Dec(n)|] == '$' && num[|Dec(n)| + 1..] == rest;
  }

  lemma {:induction false} ParseCustom(n: nat, rest: string)
    requires ROUNDS_MIN <= n <= ROUNDS_MAX
    ensures Parse(PREFIX + Dec(n) + "$" + rest) == Some(Settings(true, n, Trunc(rest)))
  {
    var num := Dec(n) + ("$" + rest);
    assert PREFIX + Dec(n) + "$" + rest == PREFIX + num;
    assert (PREFIX + num)[|PREFIX|..] == num;
    ParseRoundsPrinted(n, rest);
  }

  lemma {:induction false} NoPrefix(salt: string, more: string)
    requires !(PREFIX <= salt) && (more == "" || more[0] == '$')
    ensures !(PREFIX <= Trunc(salt) + more)
  {
    var s := Trunc(salt);
    assert '$' !in PREFIX;
    if |s| >= |PREFIX| {
      assert (s + more)[..|PREFIX|] == salt[..|PREFIX|];
    } else if more != "" {
      assert (s + more)[|s|] == '$' && PREFIX[|s|] in PREFIX;
    }
  }

  lemma {:induction false} RoundsBounds(num: string)
    requires ParseRounds(num).Some?
    ensures var st := ParseRounds(num).value;
            st.custom && ROUNDS_MIN <= st.rounds <= ROUNDS_MAX && |st.salt| <= SALT_LEN_MAX
  {
  }

  /** Text behind the settings part of an output only lengthens the salt. */
  lemma {:induction false} ParseLonger(salt: string, more: string)
    requires Parse(salt).Some? && (more == "" || more[0] == '$')
    ensures var st := Parse(salt).value;
            Parse(Print(st) + more) == Some(st.(salt := Trunc(st.salt + more)))
  {
    hide StrToUl, Dec, ParseRounds;
    var st := Parse(salt).value;
    if PREFIX <= salt {
      RoundsBounds(salt[|PREFIX|..]);
      assert Print(st) + more == PREFIX + Dec(st.rounds) + "$" + (st.salt + more);
      ParseCustom(st.rounds, st.salt + more);
    } else {
      assert Print(st) + more == st.salt + more;
      NoPrefix(salt, more);
    }
  }

  /** Whatever the original argument was, the settings part of the output asks for the same settings. */
  lemma {:induction false} SettingsRoundTrip(salt: string)
    requires Parse(salt).Some?
    ensures Parse(Print(Parse(salt).value)) == Parse(salt)
  {
    var st := Parse(salt).value;
    ParseLonger(salt, "");
    assert Print(st) + "" == Print(st) && st.salt + "" == st.salt && Trunc(st.salt) == st.salt;
  }

  /** Hashing again with the settings part of an earlier output as salt reproduces that output. */
  lemma {:induction false} Rehash(hs: Hashes, key: seq<byte>, magic: string, salt: string)
    requires Proper(hs) && Crypt(hs, key, magic, salt).Some?
    ensures Crypt(hs, key, magic, Print(Parse(salt).value)) == Crypt(hs, key, magic, salt)
  {
    SettingsRoundTrip(salt);
  }

  /** The settings that an output carries: what stands between "$magic$" and its last '$'. */
  function SettingsIn(out: string): string {
    var p := LastDollar(out);
    if 3 <= p then out[3..p] else ""
  }

  /** Reading the settings out of an output and hashing again with them reproduces the output. */
  lemma {:induction false} RehashOutput(hs: Hashes, key: seq<byte>, magic: string, salt: string)
    requires Proper(hs) && Crypt(hs, key, magic, salt).Some?
    ensures Crypt(hs, key, magic, SettingsIn(Crypt(hs, key, magic, salt).value)) == Crypt(hs, key, magic, salt)
  {
    SettingsRead(hs, key, magic, salt);
    Rehash(hs, key, magic, salt);
  }

  lemma {:induction false} SettingsRead(hs: Hashes, key: seq<byte>, magic: string, salt: string)
    requires Proper(hs) && Crypt(hs, key, magic, salt).Some?
    ensures SettingsIn(Crypt(hs, key, magic, salt).value) == Print(Parse(salt).value)
  {
    var v, st, out := VariantOf(magic).value, Parse(salt).value, Crypt(hs, key, magic, salt).value;
    var text := DigestText(hs, v, key, st);
    TextNoDollar(hs, v, key, st);
    CryptShape(hs, key, magic, salt);
    MiddleRead(out, Print(st), text);
  }

  lemma {:induction false} MiddleRead(out: string, mid: string, text: string)
    requires |out| >= 3 && out[3..] == mid + ("$" + text) && '$' !in text
    ensures SettingsIn(out) == mid
  {
    var head := out[..3];
    assert out == head + mid + "$" + text;
    LastDollarAt(head + mid, text);
  }

  lemma {:induction false} TextNoDollar(hs: Hashes, v: Variant, key: seq<byte>, st: Settings)
    requires Proper(hs)
    ensures '$' !in DigestText(hs, v, key, st)
  {
    TablesFit();
    RoundsSized(HashOf(hs, v), Size(v));
    EncodeNoDollar(Digest(HashOf(hs, v), key, Oct(st.salt), st.rounds, Size(v)), Groups(v));
  }

  /** crypt(3) takes a whole hash as its setting. Here the salt is not cut at '$', so feeding back the whole
      output after "$magic$" reproduces it exactly when the salt fills its sixteen characters. */
  lemma {:induction false} RehashWhole(hs: Hashes, key: seq<byte>, magic: string, salt: string)
    requires Proper(hs) && Crypt(hs, key, magic, salt).Some?
    ensures Crypt(hs, key, magic, Crypt(hs, key, magic, salt).value[3..]) == Crypt(hs, key, magic, salt) <==>
            |Parse(salt).value.salt| == SALT_LEN_MAX
  {
    var st, v := Parse(salt).value, VariantOf(magic).value;
    var text := DigestText(hs, v, key, st);
    var whole := Print(st) + ("$" + text);
    var longer := st.(salt := Trunc(st.salt + ("$" + text)));
    CryptShape(hs, key, magic, salt);
    ParseLonger(salt, "$" + text);
    TextLengths();
    CryptShape(hs, key, magic, whole);
    if |st.salt| == SALT_LEN_MAX {
      assert longer.salt == st.salt;
    } else {
      assert |longer.salt| > |st.salt|;
      assert |Print(longer)| > |Print(st)|;
    }
  }

  lemma {:induction false} CryptShape(hs: Hashes, key: seq<byte>, magic: string, salt: string)
    requires Proper(hs)
    ensures var v, st := VariantOf(magic), Parse(salt);
            var out := Crypt(hs, key, magic, salt);
            out.Some? ==>
              |out.value| == 4 + |Print(st.value)| + Length(Groups(v.value)) &&
              out.value[3..] == Print(st.value) + ("$" + DigestText(hs, v.value, key, st.value))
  {
    var v, st := VariantOf(magic), Parse(salt);
    var out := Crypt(hs, key, magic, salt);
    if out.Some? {
      var text := DigestText(hs, v.value, key, st.value);
      assert |magic| == 1;
      assert out.value == ("$" + magic + "$") + (Print(st.value) + ("$" + text));
    }
  }

  // ---- The program ----

  /** The parsing part of shacrypt (apps/passwd.c:552-578). */
  method ReadSettings(salt: string) returns (st: Option<Settings>)
    ensures st == Parse(salt)
  {
    var rounds, custom, rest := ROUNDS_DEFAULT, false, salt;
    if PREFIX <= salt {
      var num := salt[|PREFIX|..];
      var (srounds, endp) := StrToUl(num);
      if endp < |num| && num[endp] == '$' {
        rest := num[endp + 1..];
        if srounds > ROUNDS_MAX {
          rounds := ROUNDS_MAX;
        } else if srounds < ROUNDS_MIN {
          rounds := ROUNDS_MIN;
        } else {
          rounds := srounds;
        }
        custom := true;
      } else {
        return None;
      }
    }
    return Some(Settings(custom, rounds, Trunc(rest)));
  }

  method ComputeIntermediate(h: Hash, key: seq<byte>, salt: seq<byte>, ghost size: nat) returns (buf: seq<byte>)
    requires Sized(h, size) && size > 0
    ensures buf == Intermediate(h, key, salt, size)
  {
    var md := key + salt;
    buf := h(key + salt + key);
    md := FeedCyclic(md, buf, |key|);
    md := FeedBits(md, |key|, buf, key);
    buf := h(md);
  }

  /** The digest part of shacrypt (apps/passwd.c:613-702). */
  method ComputeDigest(h: Hash, key: seq<byte>, salt: seq<byte>, rounds: nat, size: nat) returns (buf: seq<byte>)
    requires Sized(h, size) && size > 0
    ensures buf == Digest(h, key, salt, rounds, size)
  {
    buf := ComputeIntermediate(h, key, salt, size);
    var md2 := FeedTimes(key, |key|);
    var p := FillCyclic(h(md2), |key|);
    md2 := FeedTimes(salt, 16 + buf[0] as nat);
    var s := FillCyclic(h(md2), |salt|);
    buf := RunRounds(h, rounds, buf, p[..], s[..]);
  }

  function Header(magic: string, st: Settings): string { "$" + magic + "$" + Print(st) }

  ghost predicate InBounds(st: Settings) {
    ROUNDS_MIN <= st.rounds <= ROUNDS_MAX && |st.salt| <= SALT_LEN_MAX && '\0' !in st.salt
  }

  lemma {:induction false} ParsedInBounds(salt: string)
    requires Parse(salt).Some? && '\0' !in salt
    ensures InBounds(Parse(salt).value)
  {
    if PREFIX <= salt {
      var num := salt[|PREFIX|..];
      ClampBounds(StrToUl(num).0);
    }
  }

  lemma {:induction false} DecFacts(n: nat)
    requires n <= ROUNDS_MAX
    ensures |Dec(n)| <= 9 && '\0' !in Dec(n)
  {
    assert Pow10(9) == 1000000000 by {
      assert Pow10(3) == 1000;
      assert Pow10(6) == 1000000;
    }
    DecLength(n, 9);
    DecValue(n);
  }

  /** The length the guard at apps/passwd.c:610 compares with: it is never exceeded. */
  lemma {:induction false} HeaderFits(magic: string, st: Settings)
    requires |magic| == 1 && InBounds(st)
    ensures |Header(magic, st)| <= 3 + (if st.custom then 17 else 0) + |st.salt| <= 36
  {
    DecFacts(st.rounds);
  }

  /** The copies that build "$magic$[rounds=N$]salt" in the output buffer (apps/passwd.c:591-607). */
  method WriteHeader(out: array<char>, magic: string, st: Settings)
    requires out.Length == OUT_SIZE && |magic| == 1 && '\0' !in magic && InBounds(st)
    modifies out
    ensures Holds(out, OUT_SIZE, Header(magic, st))
  {
    hide Holds, Dec;
    HeaderFits(magic, st);
    DecFacts(st.rounds);
    WriteMagic(out, magic);
    ghost var head := "$" + magic + "$";
    if st.custom {
      WriteRounds(out, st.rounds, head);
      Append(out, st.salt, head + PREFIX + Dec(st.rounds) + "$");
      assert head + PREFIX + Dec(st.rounds) + "$" + st.salt == Header(magic, st);
    } else {
      Append(out, st.salt, head);
      assert head + st.salt == Header(magic, st);
    }
  }

  method WriteMagic(out: array<char>, magic: string)
    requires out.Length == OUT_SIZE && |magic| == 1 && '\0' !in magic
    modifies out
    ensures Holds(out, OUT_SIZE, "$" + magic + "$")
  {
    out[0] := '\0';
    Append(out, "$", "");
    Append(out, magic, "$");
    Append(out, "$", "$" + magic);
  }

  method WriteRounds(out: array<char>, rounds: nat, ghost head: string)
    requires out.Length == OUT_SIZE && rounds <= ROUNDS_MAX && |head| == 3 && Holds(out, OUT_SIZE, head)
    modifies out
    ensures Holds(out, OUT_SIZE, head + PREFIX + Dec(rounds) + "$")
  {
    DecFacts(rounds);
    var tmp := PREFIX + Dec(rounds);
    Append(out, tmp, head);
    Append(out, "$", head + tmp);
    assert head + tmp + "$" == head + PREFIX + Dec(rounds) + "$";
  }

  /** shacrypt (apps/passwd.c:501-780). Every write to the output buffer is in bounds, with room
      for the terminator, and the length guard never fires. */
  method ShaCrypt(hs: Hashes, key: seq<byte>, magic: string, salt: string) returns (r: Option<string>)
    requires Proper(hs) && '\0' !in salt
    ensures CryptOutcome(hs, key, magic, salt, r)
    ensures r == Crypt(hs, key, magic, salt)
  {
    hide CryptOutcome;
    CryptExactly(hs, key, magic, salt);
    if |magic| != 1 || (magic[0] != '5' && magic[0] != '6') { return None; }
    var v := if magic[0] == '5' then Sha256 else Sha512;
    assert VariantOf(magic) == Some(v);
    var st := ReadSettings(salt);
    if st == None { return None; }
    ParsedInBounds(salt);
    var out := new char[OUT_SIZE];
    WriteHeader(out, magic, st.value);
    ghost var head := Header(magic, st.value);
    HeaderFits(magic, st.value);
    var len := StrLen(out, OUT_SIZE, head);
    if len > 3 + (if st.value.custom then 17 else 0) + |st.value.salt| { assert false; }
    if key == [] || st.value.salt == "" { return None; }
    var buf := ComputeDigest(HashOf(hs, v), key, Oct(st.value.salt), st.value.rounds, Size(v));
    r := Finish(out, len, v, buf);
  }

  /** The '$' and the encoded digest behind the header (apps/passwd.c:712-766). */
  method Finish(out: array<char>, len: nat, v: Variant, buf: seq<byte>) returns (r: Option<string>)
    requires out.Length == OUT_SIZE && len <= 36 && |buf| == Size(v)
    modifies out
    ensures AllFit(Groups(v), |buf|) && r == Some(old(out[..len]) + "$" + Encode(buf, Groups(v)))
    ensures len + 1 + Length(Groups(v)) < OUT_SIZE
  {
    TextLengths();
    TablesFit();
    ghost var head := out[..len];
    out[len] := '$';
    assert out[..len + 1] == head + "$";
    var end := EncodeDigest(out, len + 1, buf, Groups(v));
    ghost var text := out[..end];
    out[end] := '\0';
    assert out[..end] == text;
    r := Some(out[..end]);
  }
}
