/** The textual forms of a certificate serial number (apps/ca.c, apps/ocsp.c). */
module Serial {

  const HEX_DIGITS: string := "0123456789ABCDEF"

  function Digit(d: nat): char
    requires d < 16
  {
    if d < 10 then ('0' as int + d) as char else ('A' as int + d - 10) as char
  }

  lemma {:induction false} DigitTable(d: nat)
    requires d < 16
    ensures HEX_DIGITS[d] == Digit(d)
  {
  }

  predicate IsXDigit(c: char) {
    '0' <= c <= '9' || 'A' <= c <= 'F' || 'a' <= c <= 'f'
  }

  function DigitValue(c: char): nat
    requires IsXDigit(c)
  {
    if c <= '9' then c as int - '0' as int
    else if c <= 'F' then c as int - 'A' as int + 10
    else c as int - 'a' as int + 10
  }

  function ToUpper(c: char): (u: char) {
    if 'a' <= c <= 'z' then (c as int - 32) as char else c
  }

  /** make_uppercase (apps/lib/apps.c:3402). */
  function Upper(s: string): string {
    seq(|s|, i requires 0 <= i < |s| => ToUpper(s[i]))
  }

  /** The octets of a positive magnitude, most significant first, none leading zero. */
  function Octets(n: nat): (b: seq<nat>)
    ensures forall i :: 0 <= i < |b| ==> b[i] < 256
    ensures n > 0 ==> b != []
  {
    if n == 0 then [] else Octets(n / 256) + [n % 256]
  }

  function Pair(b: nat): string
    requires b < 256
  {
    [Digit(b / 16), Digit(b % 16)]
  }

  function PairText(b: seq<nat>): (s: string)
    requires forall i :: 0 <= i < |b| ==> b[i] < 256
    ensures |s| == 2 * |b|
  {
    if b == [] then "" else PairText(b[..|b| - 1]) + Pair(b[|b| - 1])
  }

  function Abs(n: int): nat { if n < 0 then -n else n }

  /** BN_bn2hex, with the "00" that do_body, do_revoke and lookup_serial use for zero. */
  function Text(n: int): string {
    if n == 0 then "00"
    else if n < 0 then "-" + PairText(Octets(-n))
    else PairText(Octets(n))
  }

  /** The content octets of the ASN.1 integer: a single zero octet for zero. */
  function Content(n: int): (b: seq<nat>)
    ensures b != [] && forall i :: 0 <= i < |b| ==> b[i] < 256
  {
    if n == 0 then [0] else Octets(Abs(n))
  }

  predicate AllHex(s: string) { forall c :: c in s ==> IsXDigit(c) }

  function HexValue(s: string): nat
    requires AllHex(s)
  {
    if s == "" then 0 else 16 * HexValue(s[..|s| - 1]) + DigitValue(s[|s| - 1])
  }

  /** BN_hex2bn on a serial the load check lets through: optional sign, then hex digits. */
  function Value(s: string): int
    requires WellFormed(s)
  {
    if s[0] == '-' then -(HexValue(s[1..]) as int) else HexValue(s)
  }

  /** The serial part of the load check (apps/ca.c:754-771). */
  predicate WellFormed(s: string) {
    var p := if s != "" && s[0] == '-' then s[1..] else s;
    |p| % 2 == 0 && |p| >= 2 && AllHex(p)
  }

  /** index_serial_cmp compares serials after their leading '0' characters (apps/lib/apps.c:1467). */
  function Key(s: string): string {
    if s != "" && s[0] == '0' then Key(s[1..]) else s
  }

  /** get_certificate_status: pad to an even length, then upper case (apps/ca.c:2251-2269). */
  function StatusKey(s: string): string {
    Upper(Even(s))
  }

  /** Hex without padding, as a user types it. */
  function MinHex(n: nat): string {
    if n < 16 then [Digit(n)] else MinHex(n / 16) + [Digit(n % 16)]
  }

  lemma {:induction false} DigitRoundTrip(d: nat)
    requires d < 16
    ensures IsXDigit(Digit(d)) && DigitValue(Digit(d)) == d
    ensures Digit(d) == '0' <==> d == 0
    ensures ToUpper(Digit(d)) == Digit(d) && Digit(d) != '-'
  {
  }

  lemma {:induction false} PairValue(t: string, b: nat)
    requires AllHex(t) && b < 256
    ensures AllHex(t + Pair(b)) && HexValue(t + Pair(b)) == 256 * HexValue(t) + b
  {
    DigitRoundTrip(b / 16);
    DigitRoundTrip(b % 16);
    var s, u := t + Pair(b), t + [Digit(b / 16)];
    assert s[..|s| - 1] == u;
    assert u[..|u| - 1] == t;
  }

  lemma {:induction false} PairTextValue(n: nat)
    ensures AllHex(PairText(Octets(n))) && HexValue(PairText(Octets(n))) == n
  {
    if n > 0 {
      var b := Octets(n);
      assert b[..|b| - 1] == Octets(n / 256) && b[|b| - 1] == n % 256;
      PairTextValue(n / 256);
      PairValue(PairText(Octets(n / 256)), n % 256);
    }
  }

  lemma {:induction false} SignedForms(p: string)
    requires AllHex(p) && |p| % 2 == 0 && |p| >= 2
    ensures WellFormed(p) && Value(p) == HexValue(p)
    ensures WellFormed("-" + p) && Value("-" + p) == -(HexValue(p) as int)
  {
    assert p[0] in p && p[0] != '-';
    assert ("-" + p)[1..] == p;
  }

  lemma {:induction false} ZeroText()
    ensures Text(0) == Pair(0) == MinHex(0) + MinHex(0)
    ensures AllHex(Pair(0)) && HexValue(Pair(0)) == 0
  {
    PairValue("", 0);
    assert "" + Pair(0) == Pair(0);
  }

  /** Every stored serial passes the next run's load check and converts back to the number. */
  lemma {:induction false} TextRoundTrip(n: int)
    ensures WellFormed(Text(n)) && Value(Text(n)) == n
  {
    if n == 0 {
      ZeroText();
      SignedForms(Pair(0));
    } else {
      var m := Abs(n);
      var p := PairText(Octets(m));
      assert AllHex(p) && HexValue(p) == m by { PairTextValue(m); }
      assert |p| == 2 * |Octets(m)|;
      SignedForms(p);
      assert Text(n) == if n < 0 then "-" + p else p;
    }
  }

  lemma {:induction false} KeyKeepsValue(s: string)
    requires AllHex(s)
    ensures AllHex(Key(s)) && HexValue(Key(s)) == HexValue(s)
  {
    if s != "" && s[0] == '0' {
      DropZero(s);
      KeyKeepsValue(s[1..]);
    }
  }

  lemma {:induction false} DropZero(s: string)
    requires AllHex(s) && s != "" && s[0] == '0'
    ensures HexValue(s[1..]) == HexValue(s)
  {
    if |s| == 1 {
      assert s[..0] == "" && s[1..] == "";
    } else {
      var i := s[..|s| - 1];
      assert s[1..][..|s[1..]| - 1] == i[1..];
      DropZero(i);
    }
  }

  /** The serial index tells two stored serials apart exactly when the numbers differ. */
  lemma {:induction false} TextsInjective(m: int, n: int)
    ensures Key(Text(m)) == Key(Text(n)) <==> m == n
  {
    if Key(Text(m)) == Key(Text(n)) {
      assert m == KeyNumber(Key(Text(m))) by { TextKey(m); }
      assert n == KeyNumber(Key(Text(n))) by { TextKey(n); }
    }
  }

  /** The number a canonical index key stands for. */
  ghost function KeyNumber(k: string): int {
    if k != "" && k[0] == '-' && AllHex(k[1..]) then -(HexValue(k[1..]) as int)
    else if AllHex(k) then HexValue(k) else 0
  }

  lemma {:induction false} TextKey(n: int)
    ensures KeyNumber(Key(Text(n))) == n
    ensures n < 0 ==> Key(Text(n)) == Text(n)
  {
    TextRoundTrip(n);
    if n >= 0 {
      assert Text(n)[0] != '-' by { if n > 0 { PairTextValue(n); assert Text(n)[0] in Text(n); } }
      KeyKeepsValue(Text(n));
      assert Key(Text(n)) != "" ==> Key(Text(n))[0] in Key(Text(n));
    }
  }

  function Even(s: string): string {
    if |s| % 2 == 1 then "0" + s else s
  }

  lemma {:induction false} MinHexPairs(n: nat)
    requires n > 0
    ensures PairText(Octets(n)) == Even(MinHex(n))
  {
    var b := Octets(n);
    assert b[..|b| - 1] == Octets(n / 256) && b[|b| - 1] == n % 256;
    var p := PairText(b);
    if n < 256 {
      assert p == PairText([]) + Pair(n);
      MinHexSmall(n);
    } else {
      var q := PairText(Octets(n / 256));
      assert p == q + Pair(n % 256);
      MinHexStep(n);
      MinHexPairs(n / 256);
      EvenAppend(MinHex(n / 256), n % 256);
    }
  }

  lemma {:induction false} OneOctet(n: nat)
    requires 0 < n < 256
    ensures Text(n) == Pair(n)
  {
    var p := Pair(n);
    assert Octets(0) == [] && Octets(n) == [n] && [n][..0] == [];
    assert PairText([n]) == PairText([]) + p == p;
  }

  lemma {:induction false} EvenAppend(s: string, b: nat)
    requires b < 256
    ensures Even(s + Pair(b)) == Even(s) + Pair(b)
  {
    var p, z := Pair(b), "0";
    assert |s + p| == |s| + 2;
    assert z + (s + p) == (z + s) + p;
  }

  lemma {:induction false} MinHexSmall(n: nat)
    requires n < 256
    ensures Even(MinHex(n)) == Pair(n)
  {
    if n >= 16 { assert MinHex(n / 16) == [Digit(n / 16)]; }
  }

  lemma {:induction false} MinHexStep(n: nat)
    requires n >= 256
    ensures MinHex(n) == MinHex(n / 256) + Pair(n % 256)
  {
    assert n / 16 / 16 == n / 256 && n / 16 % 16 == n % 256 / 16 && n % 256 % 16 == n % 16;
    assert MinHex(n / 16) == MinHex(n / 256) + [Digit(n % 256 / 16)];
  }

  /** A status query typed as minimal hex, in any mix of cases, looks up the stored text. */
  lemma {:induction false} StatusFindsStored(n: nat, typed: string)
    requires Upper(typed) == MinHex(n)
    ensures StatusKey(typed) == Text(n)
  {
    if n > 0 { MinHexPairs(n); } else { MinHexSmall(n); ZeroText(); }
    UpperEven(typed);
  }

  lemma {:induction false} UpperEven(s: string)
    ensures Upper(Even(s)) == Even(Upper(s))
  {
    if |s| % 2 == 1 {
      var t, u := "0" + s, Upper(s);
      assert Upper(t) == "0" + u;
    }
  }

  /** The certificate file is named after the stored serial; a serial that is issued is never negative. */
  lemma {:induction false} StemIsStoredText(n: nat)
    ensures Stem(Content(n)) == Text(n)
  {
    if n == 0 {
      assert [0][..0] == [] && PairText([]) == "";
    }
  }

  // ---- Which serial columns the index finds under their number ----

  predicate IsLower(c: char) { 'a' <= c <= 'f' }

  predicate NoLower(s: string) { forall c :: c in s ==> !IsLower(c) }

  /** A column with upper-case digits only and, behind a sign, no superfluous zero octet. */
  predicate Plain(s: string) {
    NoLower(s) && !(|s| >= 3 && s[0] == '-' && s[1] == '0' && s[2] == '0')
  }

  lemma {:induction false} UpperDigit(c: char) returns (h: nat)
    requires IsXDigit(c) && !IsLower(c)
    ensures h < 16 && Digit(h) == c
  {
    h := DigitValue(c);
  }

  ghost predicate AllOctets(b: seq<nat>) { forall i :: 0 <= i < |b| ==> b[i] < 256 }

  function Big(b: seq<nat>): nat {
    if b == [] then 0 else 256 * Big(b[..|b| - 1]) + b[|b| - 1]
  }

  /** An even upper-case text is a list of octets. */
  lemma {:induction false} UpperIsPairs(p: string) returns (b: seq<nat>)
    requires AllHex(p) && NoLower(p) && |p| % 2 == 0
    ensures AllOctets(b) && PairText(b) == p
  {
    b := [];
    if p != "" {
      var n := |p| - 2;
      assert p[n] in p && p[n + 1] in p;
      var front := UpperIsPairs(p[..n]);
      var last := LastPair(p[n], p[n + 1]);
      b := front + [last];
      assert b[..|b| - 1] == front;
      assert p == p[..n] + [p[n], p[n + 1]];
    }
  }

  lemma {:induction false} LastPair(c: char, d: char) returns (b: nat)
    requires IsXDigit(c) && IsXDigit(d) && !IsLower(c) && !IsLower(d)
    ensures b < 256 && Pair(b) == [c, d]
  {
    var h := UpperDigit(c);
    var l := UpperDigit(d);
    PairOf(h, l);
    b := 16 * h + l;
  }

  lemma {:induction false} PairOf(h: nat, l: nat)
    requires h < 16 && l < 16
    ensures Pair(16 * h + l) == [Digit(h), Digit(l)]
  {
    assert (16 * h + l) / 16 == h && (16 * h + l) % 16 == l;
  }

  lemma {:induction false} BigText(b: seq<nat>)
    requires AllOctets(b)
    ensures AllHex(PairText(b)) && HexValue(PairText(b)) == Big(b)
  {
    if b != [] {
      BigText(b[..|b| - 1]);
      PairValue(PairText(b[..|b| - 1]), b[|b| - 1]);
    }
  }

  /** Octets without a leading zero are those of their number. */
  lemma {:induction false} OctetsBig(b: seq<nat>)
    requires AllOctets(b) && (b != [] ==> b[0] != 0)
    ensures Octets(Big(b)) == b && (b != [] ==> Big(b) > 0)
  {
    if b != [] {
      var init, last := b[..|b| - 1], b[|b| - 1];
      OctetsBig(init);
      BigSplit(Big(init), last);
      assert b == init + [last];
    }
  }

  lemma {:induction false} BigSplit(m: nat, last: nat)
    requires last < 256
    ensures (256 * m + last) / 256 == m && (256 * m + last) % 256 == last
  {
  }

  lemma {:induction false} BigHead(b: seq<nat>)
    requires AllOctets(b) && b != []
    ensures PairText(b) == Pair(b[0]) + PairText(b[1..])
    ensures b[0] == 0 ==> Big(b[1..]) == Big(b)
  {
    TextHead(b);
    if b[0] == 0 { DropZeroOctet(b); }
  }

  lemma {:induction false} TextHead(b: seq<nat>)
    requires AllOctets(b) && b != []
    ensures PairText(b) == Pair(b[0]) + PairText(b[1..])
  {
    hide Pair;
    if |b| == 1 {
      assert b[..0] == [] && b[1..] == [];
      assert PairText(b) == "" + Pair(b[0]);
    } else {
      var init, last := b[..|b| - 1], b[|b| - 1];
      TextHead(init);
      assert b[1..][..|b| - 2] == init[1..];
      assert PairText(b) == Pair(b[0]) + PairText(init[1..]) + Pair(last);
    }
  }

  lemma {:induction false} DropZeroOctet(b: seq<nat>)
    requires b != [] && b[0] == 0
    ensures Big(b[1..]) == Big(b)
  {
    if |b| == 1 {
      assert b[..0] == [] && b[1..] == [];
    } else {
      var init := b[..|b| - 1];
      DropZeroOctet(init);
      assert b[1..][..|b| - 2] == init[1..];
    }
  }

  lemma {:induction false} ZeroPair(b: nat)
    requires b < 256
    ensures Pair(b)[0] == '0' && Pair(b)[1] == '0' <==> b == 0
  {
    DigitRoundTrip(b / 16);
    DigitRoundTrip(b % 16);
  }

  lemma {:induction false} ZeroKey()
    ensures Key(Text(0)) == ""
  {
    assert "00"[1..] == "0" && "0"[1..] == "";
  }

  lemma {:induction false} SkipZeros(s: string)
    ensures Key(['0', '0'] + s) == Key(s)
  {
    var t := ['0', '0'] + s;
    assert t[1..][1..] == s;
  }

  /** Octets and the text of their number agree after leading zeros. */
  lemma {:induction false} OctetsKey(b: seq<nat>)
    requires AllOctets(b)
    ensures Key(PairText(b)) == Key(Text(Big(b)))
  {
    if b == [] {
      ZeroKey();
    } else if b[0] == 0 {
      BigHead(b);
      DigitRoundTrip(0);
      assert Pair(0) == ['0', '0'];
      SkipZeros(PairText(b[1..]));
      OctetsKey(b[1..]);
    } else {
      OctetsBig(b);
    }
  }

  /** Octets are those of their number exactly when they do not begin with zero. */
  lemma {:induction false} OctetsMinimal(b: seq<nat>)
    requires AllOctets(b) && b != []
    ensures Big(b) > 0 && PairText(Octets(Big(b))) == PairText(b) <==> b[0] != 0
  {
    if b[0] != 0 {
      OctetsBig(b);
    } else if Big(b) > 0 {
      LeadingOctet(Big(b));
      PairTextDiffers(Octets(Big(b)), b);
    }
  }

  lemma {:induction false} SameTail(s: string, t: string)
    requires s != "" && t != "" && s[0] == t[0]
    ensures s == t <==> s[1..] == t[1..]
  {
    if s[1..] == t[1..] { assert s == [s[0]] + s[1..] == t; }
  }

  lemma {:induction false} LeadingOctet(n: nat)
    requires n > 0
    ensures Octets(n)[0] != 0
  {
    if n >= 256 { LeadingOctet(n / 256); }
  }

  lemma {:induction false} PairTextDiffers(a: seq<nat>, b: seq<nat>)
    requires AllOctets(a) && AllOctets(b) && a != [] && b != [] && a[0] != 0 && b[0] == 0
    ensures PairText(a) != PairText(b)
  {
    BigHead(a);
    BigHead(b);
    ZeroPair(a[0]);
    ZeroPair(b[0]);
    assert PairText(a)[..2] == Pair(a[0]) && PairText(b)[..2] == Pair(b[0]);
  }

  lemma {:induction false} PairTextNoLower(b: seq<nat>)
    requires AllOctets(b)
    ensures NoLower(PairText(b))
  {
    if b != [] {
      PairTextNoLower(b[..|b| - 1]);
      DigitRoundTrip(b[|b| - 1] / 16);
      DigitRoundTrip(b[|b| - 1] % 16);
    }
  }

  lemma {:induction false} TextNoLower(n: int)
    ensures NoLower(Text(n))
  {
    if n != 0 { PairTextNoLower(Octets(Abs(n))); }
  }

  lemma {:induction false} KeyNoLower(s: string)
    ensures NoLower(Key(s)) <==> NoLower(s)
  {
    if s != "" && s[0] == '0' {
      KeyNoLower(s[1..]);
      assert s == [s[0]] + s[1..];
    }
  }

  /** A column that agrees with the text of a number stands for that number. */
  lemma {:induction false} KeyDetermines(s: string, n: int)
    requires WellFormed(s) && Key(s) == Key(Text(n))
    ensures Value(s) == n
  {
    TextKey(n);
    if s[0] != '-' {
      KeyKeepsValue(s);
      assert Key(s) != "" ==> Key(s)[0] in Key(s);
    }
  }

  /** A column that passes the load check is found under the number it stands for exactly when it is plain. */
  lemma {:induction false} PlainExactly(s: string)
    requires WellFormed(s)
    ensures Key(s) == Key(Text(Value(s))) <==> Plain(s)
  {
    var n := Value(s);
    TextNoLower(n);
    KeyNoLower(Text(n));
    KeyNoLower(s);
    if NoLower(s) {
      if s[0] == '-' {
        PlainNegative(s);
      } else {
        var b := UpperIsPairs(s);
        BigText(b);
        OctetsKey(b);
      }
    }
  }

  lemma {:induction false} PlainNegative(s: string)
    requires WellFormed(s) && NoLower(s) && s[0] == '-'
    ensures Key(s) == Key(Text(Value(s))) <==> Plain(s)
  {
    var b := UpperIsPairs(s[1..]);
    var v := Big(b);
    BigText(b);
    OctetsMinimal(b);
    FirstIsZero(s, b);
    if v == 0 {
      ZeroKey();
    } else {
      var t := Text(Value(s));
      assert t[1..] == PairText(Octets(v));
      SameTail(s, t);
    }
  }

  lemma {:induction false} FirstIsZero(s: string, b: seq<nat>)
    requires |s| >= 3 && AllOctets(b) && b != [] && s[1..] == PairText(b)
    ensures s[1] == '0' && s[2] == '0' <==> b[0] == 0
  {
    BigHead(b);
    ZeroPair(b[0]);
    var p := s[1..];
    assert s[1] == p[0] == Pair(b[0])[0] && s[2] == p[1] == Pair(b[0])[1];
  }

  // ---- Which serial columns stand for one number ----

  /** The column in upper case, without zeros before the number and without the sign of a zero. */
  function Norm(s: string): string {
    if s != "" && s[0] == '-' then
      var k := Key(Upper(s[1..]));
      if k == "" then "" else "-" + k
    else Key(Upper(s))
  }

  lemma {:induction false} UpperChar(c: char)
    requires IsXDigit(c)
    ensures IsXDigit(ToUpper(c)) && !IsLower(ToUpper(c)) && DigitValue(ToUpper(c)) == DigitValue(c)
  {
  }

  lemma {:induction false} UpperHex(p: string)
    requires AllHex(p)
    ensures AllHex(Upper(p)) && NoLower(Upper(p)) && HexValue(Upper(p)) == HexValue(p) && |Upper(p)| == |p|
  {
    if p != "" {
      var init, c, u := p[..|p| - 1], p[|p| - 1], Upper(p);
      assert c in p;
      UpperChar(c);
      UpperHex(init);
      assert u[..|p| - 1] == Upper(init) && u[|p| - 1] == ToUpper(c);
      assert u == Upper(init) + [ToUpper(c)];
    }
  }

  lemma {:induction false} NormHex(p: string)
    requires AllHex(p) && |p| % 2 == 0
    ensures Key(Upper(p)) == Key(Text(HexValue(p)))
  {
    UpperHex(p);
    var b := UpperIsPairs(Upper(p));
    BigText(b);
    OctetsKey(b);
  }

  /** The same from the number. */
  function NormOf(n: int): string {
    if n < 0 then "-" + Key(Text(0 - n)) else Key(Text(n))
  }

  lemma {:induction false} KeyOfNumber(n: nat)
    ensures Key(Text(n)) == "" <==> n == 0
    ensures Key(Text(n)) != "" ==> Key(Text(n))[0] != '-'
  {
    ZeroKey();
    TextsInjective(n, 0);
    TextRoundTrip(n);
    if n > 0 {
      PairTextValue(n);
      KeyKeepsValue(Text(n));
      assert Key(Text(n)) != "" ==> Key(Text(n))[0] in Key(Text(n));
    }
  }

  lemma {:induction false} NormIs(s: string)
    requires WellFormed(s)
    ensures Norm(s) == NormOf(Value(s))
  {
    hide Text, Key, Upper;
    var p := if s[0] == '-' then s[1..] else s;
    NormHex(p);
    KeyOfNumber(HexValue(p));
  }

  lemma {:induction false} NormOfInjective(m: int, n: int)
    ensures NormOf(m) == NormOf(n) <==> m == n
  {
    hide Text, Key;
    var a, b := Abs(m), Abs(n);
    KeyOfNumber(a);
    KeyOfNumber(b);
    TextsInjective(a, b);
    if m < 0 && n < 0 {
      assert NormOf(m)[1..] == Key(Text(a)) && NormOf(n)[1..] == Key(Text(b));
    }
  }

  /** Two columns that pass the load check stand for one number exactly when they agree in that form. */
  lemma {:induction false} SameNumberExactly(s: string, t: string)
    requires WellFormed(s) && WellFormed(t)
    ensures Value(s) == Value(t) <==> Norm(s) == Norm(t)
  {
    NormIs(s);
    NormIs(t);
    NormOfInjective(Value(s), Value(t));
  }

  const SUFFIX: string := ".pem"

  function Stem(psn: seq<nat>): string
    requires forall i :: 0 <= i < |psn| ==> psn[i] < 256
  {
    if psn == [] then "00" else PairText(psn)
  }

  /** Building the certificate file name in new_cert[PATH_MAX] behind the directory (apps/ca.c:1091-1128):
      it is refused exactly when name and terminator do not fit, and otherwise is
      the directory, the octets in hex and ".pem", inside the buffer. */
  method CertPath(newCert: array<char>, dirLen: nat, psn: seq<nat>) returns (ok: bool)
    requires forall i :: 0 <= i < |psn| ==> psn[i] < 256
    modifies newCert
    ensures ok <==> dirLen + |Stem(psn)| + |SUFFIX| + 1 <= newCert.Length
    ensures ok ==>
              var path := Stem(psn) + SUFFIX;
              newCert[..dirLen] == old(newCert[..dirLen]) &&
              newCert[dirLen..dirLen + |path|] == path && newCert[dirLen + |path|] == '\0'
    ensures !ok ==> newCert[..] == old(newCert[..])
  {
    var filenLen := 2 * (if |psn| > 0 then |psn| else 1) + 5;
    if dirLen + filenLen > newCert.Length {
      return false;
    }
    var n := WriteStem(newCert, dirLen, psn);
    WriteSuffix(newCert, n);
    ghost var dir, path := newCert[..dirLen], Stem(psn) + SUFFIX;
    assert newCert[..n + 4] == old(newCert[..dirLen]) + Stem(psn) + SUFFIX;
    assert newCert[..n + 4] == old(newCert[..dirLen]) + path;
    assert newCert[..n + 4][..dirLen] == dir && newCert[..n + 4][dirLen..] == newCert[dirLen..n + 4];
    return true;
  }

  method WriteSuffix(a: array<char>, n: nat)
    requires n + 5 <= a.Length
    modifies a
    ensures a[..n + 4] == old(a[..n]) + SUFFIX && a[n + 4] == '\0'
  {
    ghost var before := a[..n];
    a[n] := '.';
    a[n + 1] := 'p';
    a[n + 2] := 'e';
    a[n + 3] := 'm';
    a[n + 4] := '\0';
    assert a[..n + 4] == before + [a[n], a[n + 1], a[n + 2], a[n + 3]];
  }

  method WriteStem(newCert: array<char>, dirLen: nat, psn: seq<nat>) returns (n: nat)
    requires AllOctets(psn)
    requires dirLen + |Stem(psn)| <= newCert.Length
    modifies newCert
    ensures n == dirLen + |Stem(psn)| && newCert[..n] == old(newCert[..dirLen]) + Stem(psn)
  {
    n := dirLen;
    ghost var dir := newCert[..dirLen];
    if psn == [] {
      ZeroText();
      WritePair(newCert, n, 0);
      return n + 2;
    }
    var j := 0;
    assert dir + PairText([]) == dir;
    while j < |psn|
      invariant 0 <= j <= |psn| && n == dirLen + 2 * j
      invariant newCert[..n] == dir + PairText(psn[..j])
    {
      WritePair(newCert, n, psn[j]);
      assert psn[..j + 1][..j] == psn[..j];
      assert dir + PairText(psn[..j]) + Pair(psn[j]) == dir + PairText(psn[..j + 1]);
      n := n + 2;
      j := j + 1;
    }
    assert psn[..j] == psn;
  }

  method WritePair(a: array<char>, n: nat, b: nat)
    requires b < 256 && n + 2 <= a.Length
    modifies a
    ensures a[..n + 2] == old(a[..n]) + Pair(b)
  {
    ghost var before := a[..n];
    DigitTable(b / 16);
    DigitTable(b % 16);
    a[n] := HEX_DIGITS[b / 16];
    a[n + 1] := HEX_DIGITS[b % 16];
    assert a[..n + 2] == before + [a[n], a[n + 1]];
  }
}
