/** Decimal numbers as the C library prints and reads them. */
module Decimal {
  import opened TimeText

  const ULONG_MAX: nat := 0xFFFF_FFFF_FFFF_FFFF
  const LONG_MAX: int := 0x7FFF_FFFF_FFFF_FFFF
  const LONG_MIN: int := -0x8000_0000_0000_0000

  /** isspace in the C locale. */
  predicate IsSpace(c: char) { c == ' ' || '\t' <= c <= '\r' }

  /** "%u". */
  function Dec(n: nat): (s: string)
    ensures s != ""
  {
    if n < 10 then [DecDigit(n)] else Dec(n / 10) + [DecDigit(n % 10)]
  }

  /** "%ld". */
  function DecInt(n: int): string { if n < 0 then "-" + Dec(-n) else Dec(n) }

  ghost predicate AllDigits(s: string) { forall i :: 0 <= i < |s| ==> IsDigit(s[i]) }

  function Value(s: string): nat
    requires AllDigits(s)
  {
    if s == "" then 0 else 10 * Value(s[..|s| - 1]) + (s[|s| - 1] as int - '0' as int)
  }

  function SkipSpaces(s: string, i: nat): (r: nat)
    requires i <= |s|
    ensures i <= r <= |s|
    decreases |s| - i
  {
    if i < |s| && IsSpace(s[i]) then SkipSpaces(s, i + 1) else i
  }

  /** A subject of strtol or strtoul in base 10: sign, magnitude, and the position behind it; no digits
      means that nothing is consumed. */
  datatype Number = Number(neg: bool, mag: nat, end: nat)

  function Scan(s: string): (r: Number)
    ensures r.end <= |s|
  {
    var p := SkipSpaces(s, 0);
    var signed := p < |s| && (s[p] == '-' || s[p] == '+');
    var d := if signed then p + 1 else p;
    var e := SkipDigits(s, d);
    DigitRun(s, d);
    if e == d then Number(false, 0, 0) else Number(signed && s[p] == '-', Value(s[d..e]), e)
  }

  lemma {:induction false} DigitRun(s: string, i: nat)
    requires i <= |s|
    ensures AllDigits(s[i..SkipDigits(s, i)])
    decreases |s| - i
  {
    if i < |s| && IsDigit(s[i]) {
      DigitRun(s, i + 1);
      var e := SkipDigits(s, i);
      assert s[i..e] == [s[i]] + s[i + 1..e];
    }
  }

  /** strtoul, 64-bit: overflow saturates and a minus sign negates modulo 2^64. */
  function StrToUl(s: string): (int, nat) {
    var r := Scan(s);
    (if r.mag > ULONG_MAX then ULONG_MAX else if r.neg && r.mag > 0 then ULONG_MAX + 1 - r.mag else r.mag, r.end)
  }

  /** strtol, 64-bit, saturating. */
  function StrToL(s: string): (int, nat) {
    var r := Scan(s);
    var v: int := if r.neg then 0 - r.mag else r.mag;
    (if v > LONG_MAX then LONG_MAX else if v < LONG_MIN then LONG_MIN else v, r.end)
  }

  lemma {:induction false} DecValue(n: nat)
    ensures AllDigits(Dec(n)) && Value(Dec(n)) == n
  {
    if n < 10 {
      assert Dec(n)[..0] == "";
    } else {
      DecValue(n / 10);
      assert Dec(n)[..|Dec(n)| - 1] == Dec(n / 10);
    }
  }

  lemma {:induction false} SkipsDigits(s: string, i: nat, e: nat)
    requires i <= e <= |s| && AllDigits(s[i..e]) && (e < |s| ==> !IsDigit(s[e]))
    ensures SkipDigits(s, i) == e
    decreases e - i
  {
    if i < e {
      assert IsDigit(s[i..e][0]);
      assert s[i + 1..e] == s[i..e][1..];
      SkipsDigits(s, i + 1, e);
    }
  }

  /** A printed number is read back, and reading stops right behind it. */
  lemma {:induction false} ScanPrinted(n: int, rest: string)
    requires rest == "" || !IsDigit(rest[0])
    ensures Scan(DecInt(n) + rest) == Number(n < 0, if n < 0 then -n else n, |DecInt(n)|)
  {
    var m := if n < 0 then -n else n;
    var s := DecInt(n) + rest;
    var d := if n < 0 then 1 else 0;
    var e := |DecInt(n)|;
    DecValue(m);
    assert s[d..e] == Dec(m);
    assert IsDigit(Dec(m)[0]) && s[d] == s[d..e][0];
    SkipsDigits(s, d, e);
  }

  ghost predicate AllSpaces(s: string) { forall i :: 0 <= i < |s| ==> IsSpace(s[i]) }

  /** Blanks, at most one sign, and digits. */
  ghost predicate NumberText(text: string, neg: bool, mag: nat) {
    exists sp, sign, ds :: NumberParts(text, sp, sign, ds) && neg == (sign == "-") && mag == Value(ds)
  }

  ghost predicate NumberParts(text: string, sp: string, sign: string, ds: string) {
    AllSpaces(sp) && sign in {"", "+", "-"} && ds != "" && AllDigits(ds) && text == sp + sign + ds
  }

  lemma {:induction false} SkipsSpaces(s: string, i: nat, e: nat)
    requires i <= e <= |s| && AllSpaces(s[i..e]) && (e < |s| ==> !IsSpace(s[e]))
    ensures SkipSpaces(s, i) == e
    decreases e - i
  {
    if i < e {
      assert IsSpace(s[i..e][0]);
      assert s[i + 1..e] == s[i..e][1..];
      SkipsSpaces(s, i + 1, e);
    }
  }

  lemma {:induction false} SpaceRun(s: string, i: nat)
    requires i <= |s|
    ensures AllSpaces(s[i..SkipSpaces(s, i)]) && (SkipSpaces(s, i) < |s| ==> !IsSpace(s[SkipSpaces(s, i)]))
    decreases |s| - i
  {
    if i < |s| && IsSpace(s[i]) {
      SpaceRun(s, i + 1);
      var e := SkipSpaces(s, i);
      assert s[i..e] == [s[i]] + s[i + 1..e];
    }
  }

  /** A number text is read to its end, whatever but a digit follows it. */
  lemma {:induction false} ScanText(sp: string, sign: string, ds: string, rest: string)
    requires NumberParts(sp + sign + ds, sp, sign, ds) && (rest == "" || !IsDigit(rest[0]))
    ensures Scan(sp + sign + ds + rest) == Number(sign == "-", Value(ds), |sp + sign + ds|)
  {
    hide Value;
    var s, d := sp + sign + ds + rest, |sp| + |sign|;
    var e := d + |ds|;
    assert s[0..|sp|] == sp && s[d..e] == ds;
    assert IsDigit(ds[0]) && s[d] == ds[0];
    SkipsSpaces(s, 0, |sp|);
    SkipsDigits(s, d, e);
  }

  /** What is read is a number text. */
  lemma {:induction false} ScannedText(s: string)
    requires Scan(s).end > 0
    ensures var r := Scan(s);
            NumberText(s[..r.end], r.neg, r.mag) && (r.end < |s| ==> !IsDigit(s[r.end]))
  {
    hide Value;
    var p := SkipSpaces(s, 0);
    SpaceRun(s, 0);
    var signed := p < |s| && (s[p] == '-' || s[p] == '+');
    var d := if signed then p + 1 else p;
    var e := SkipDigits(s, d);
    DigitRun(s, d);
    StopsAt(s, d);
    var sp, sign, ds := s[0..p], s[p..d], s[d..e];
    Cuts(s, p, d, e);
    assert sign == if signed then [s[p]] else "";
    assert NumberParts(s[..e], sp, sign, ds);
  }

  lemma {:induction false} Cuts(s: string, p: nat, d: nat, e: nat)
    requires p <= d <= e <= |s|
    ensures s[..e] == s[0..p] + s[p..d] + s[d..e]
  {
    var t := s[..e];
    assert t == t[..d] + t[d..] && t[..d] == t[..d][..p] + t[..d][p..];
    assert t[..d][..p] == s[0..p] && t[..d][p..] == s[p..d] && t[d..] == s[d..e];
  }

  lemma {:induction false} StopsAt(s: string, i: nat)
    requires i <= |s|
    ensures SkipDigits(s, i) < |s| ==> !IsDigit(s[SkipDigits(s, i)])
    decreases |s| - i
  {
    if i < |s| && IsDigit(s[i]) { StopsAt(s, i + 1); }
  }

  /** A number too large for strtoul gives the largest one, and a negative one counts from 2^64 down. */
  lemma {:induction false} StrToUlExactly(n: int, rest: string)
    requires rest == "" || !IsDigit(rest[0])
    ensures StrToUl(DecInt(n) + rest) ==
            (if n > 0xFFFF_FFFF_FFFF_FFFF || n < -0xFFFF_FFFF_FFFF_FFFF then 0xFFFF_FFFF_FFFF_FFFF
             else if n < 0 then 0x1_0000_0000_0000_0000 + n else n, |DecInt(n)|)
  {
    ScanPrinted(n, rest);
  }

  /** strtol gives the nearest number it has. */
  lemma {:induction false} StrToLExactly(n: int, rest: string)
    requires rest == "" || !IsDigit(rest[0])
    ensures StrToL(DecInt(n) + rest) ==
            (if n > 0x7FFF_FFFF_FFFF_FFFF then 0x7FFF_FFFF_FFFF_FFFF
             else if n < -0x8000_0000_0000_0000 then -0x8000_0000_0000_0000 else n, |DecInt(n)|)
  {
    ScanPrinted(n, rest);
  }

  lemma {:induction false} StrToUlPrinted(n: nat, rest: string)
    requires n <= ULONG_MAX && (rest == "" || !IsDigit(rest[0]))
    ensures StrToUl(Dec(n) + rest) == (n, |Dec(n)|)
  {
    ScanPrinted(n, rest);
    assert DecInt(n) == Dec(n);
  }

  lemma {:induction false} StrToLPrinted(n: int, rest: string)
    requires LONG_MIN <= n <= LONG_MAX && (rest == "" || !IsDigit(rest[0]))
    ensures StrToL(DecInt(n) + rest) == (n, |DecInt(n)|)
  {
    ScanPrinted(n, rest);
  }

  lemma {:induction false} DecLength(n: nat, k: nat)
    requires k >= 1 && n < Pow10(k)
    ensures |Dec(n)| <= k
  {
    if n >= 10 {
      assert k > 1;
      DecLength(n / 10, k - 1);
    }
  }

  function Pow10(k: nat): nat { if k == 0 then 1 else 10 * Pow10(k - 1) }
}
