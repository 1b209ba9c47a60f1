/** ASN.1 time texts as crypto/asn1/a_time.c writes and accepts them. */
module TimeText {

  datatype Tm = Tm(year: nat, mon: nat, day: nat, hour: nat, min: nat, sec: nat)

  predicate Leap(y: int) { y % 400 == 0 || (y % 100 != 0 && y % 4 == 0) }

  function DaysIn(y: int, m: int): nat {
    if m == 2 then (if Leap(y) then 29 else 28)
    else if m == 4 || m == 6 || m == 9 || m == 11 then 30 else 31
  }

  predicate ValidTm(t: Tm) {
    t.year <= 9999 && 1 <= t.mon <= 12 && 1 <= t.day <= DaysIn(t.year, t.mon) &&
    t.hour <= 23 && t.min <= 59 && t.sec <= 59
  }

  predicate IsDigit(c: char) { '0' <= c <= '9' }

  function DecDigit(d: nat): char
    requires d < 10
  {
    ('0' as int + d) as char
  }

  function Num(c: char, d: char): nat
    requires IsDigit(c) && IsDigit(d)
  {
    (c as int - '0' as int) * 10 + (d as int - '0' as int)
  }

  function High(n: nat): char { DecDigit(n / 10 % 10) }
  function Low(n: nat): char { DecDigit(n % 10) }

  /** is_utc: the years a UTCTime can express. */
  predicate IsUtc(year: int) { 1950 <= year < 2050 }

  function UtcText(t: Tm): string {
    [High(t.year % 100), Low(t.year % 100), High(t.mon), Low(t.mon), High(t.day), Low(t.day),
     High(t.hour), Low(t.hour), High(t.min), Low(t.min), High(t.sec), Low(t.sec), 'Z']
  }

  function GenText(t: Tm): string {
    [High(t.year / 100), Low(t.year / 100)] + UtcText(t)
  }

  /** ossl_asn1_time_from_tm with V_ASN1_UNDEF: UTCTime while the year allows it. */
  function Format(t: Tm): string {
    if IsUtc(t.year) then UtcText(t) else GenText(t)
  }

  /** Lower and upper bounds of the two-digit fields: century, year, month, day, hour, minute, second,
      then the hour and minute of a zone offset. */
  predicate InRange(field: nat, n: nat, year: int, mon: int) {
    (field == 2 ==> 1 <= n <= 12) &&
    (field == 3 ==> 1 <= n <= 31 && n <= DaysIn(year, mon)) &&
    (field == 4 ==> n <= 23) && (field == 5 || field == 6 || field == 8 ==> n <= 59) &&
    (field == 7 ==> n <= 12)
  }

  /** The field loop of ossl_asn1_time_to_tm: the offset after the fields, or -1. */
  function Fields(gen: bool, s: string, o: nat, i: nat, year: int, mon: int): (r: int)
    ensures r < |s| || r == o
    decreases 7 - i
  {
    var end := if gen then 7 else 6;
    if i >= end then o
    else if i == end - 1 && o < |s| && (s[o] == 'Z' || s[o] == '+' || s[o] == '-') then o
    else if o + 2 >= |s| || !IsDigit(s[o]) || !IsDigit(s[o + 1]) then -1
    else
      var n := Num(s[o], s[o + 1]);
      var field := if gen then i else i + 1;
      if InRange(field, n, year, mon) then
        Fields(gen, s, o + 2, i + 1, YearAfter(gen, field, year, n), if field == 2 then n else mon)
      else -1
  }

  /** The year known after reading n in a field. */
  function YearAfter(gen: bool, field: nat, year: int, n: nat): int {
    if field == 0 then n * 100
    else if field == 1 then (if gen then year + n else if n < 50 then 2000 + n else 1900 + n)
    else year
  }

  function SkipDigits(s: string, o: nat): (r: nat)
    requires o <= |s|
    ensures o <= r <= |s|
    decreases |s| - o
  {
    if o < |s| && IsDigit(s[o]) then SkipDigits(s, o + 1) else o
  }

  /** The time zone, which must end the text. */
  predicate Zone(s: string, o: nat)
    requires o < |s|
  {
    if s[o] == 'Z' then o + 1 == |s|
    else
      (s[o] == '+' || s[o] == '-') && o + 5 == |s| &&
      (forall k :: o < k < |s| ==> IsDigit(s[k])) &&
      InRange(7, Num(s[o + 1], s[o + 2]), 0, 0) && InRange(8, Num(s[o + 3], s[o + 4]), 0, 0)
  }

  /** ossl_asn1_time_to_tm as a check, without the RFC 5280 restriction. */
  predicate Accepts(gen: bool, s: string) {
    |s| >= (if gen then 15 else 13) &&
    var o := Fields(gen, s, 0, 0, 0, 0);
    o >= 0 &&
    if gen && s[o] == '.' then
      var q := SkipDigits(s, o + 1);
      o + 1 < q < |s| && Zone(s, q)
    else Zone(s, o)
  }

  /** ASN1_UTCTIME_set_string, ASN1_GENERALIZEDTIME_set_string, ASN1_TIME_set_string. */
  predicate UtcOk(s: string) { Accepts(false, s) }
  predicate GenOk(s: string) { Accepts(true, s) }
  predicate TimeOk(s: string) { UtcOk(s) || GenOk(s) }

  lemma {:induction false} FieldsDigits(gen: bool, s: string, o: nat, i: nat, year: int, mon: int)
    requires o <= |s| && forall k :: 0 <= k < o ==> IsDigit(s[k])
    ensures var r := Fields(gen, s, o, i, year, mon); forall k :: 0 <= k < r ==> k < |s| && IsDigit(s[k])
    decreases 7 - i
  {
    var end := if gen then 7 else 6;
    if i < end {
      var o2, i2 := o + 2, i + 1;
      if o2 < |s| && IsDigit(s[o]) && IsDigit(s[o + 1]) {
        var n, field := Num(s[o], s[o + 1]), if gen then i else i + 1;
        FieldsDigits(gen, s, o2, i2, YearAfter(gen, field, year, n), if field == 2 then n else mon);
      }
    }
  }

  lemma {:induction false} UtcNoComma(s: string)
    requires UtcOk(s)
    ensures ',' !in s
  {
    FieldsDigits(false, s, 0, 0, 0, 0);
    var o := Fields(false, s, 0, 0, 0, 0);
    forall k | 0 <= k < |s| ensures s[k] != ',' {
      if k > o && s[o] != 'Z' { assert IsDigit(s[k]); }
    }
  }

  lemma TwoDigits(n: nat)
    requires n < 100
    ensures IsDigit(High(n)) && IsDigit(Low(n)) && Num(High(n), Low(n)) == n
  {
  }

  /** The two digits of n stand at o, and the text goes on. */
  predicate Shows(s: string, o: nat, n: nat) { o + 2 < |s| && s[o] == High(n) && s[o + 1] == Low(n) }

  /** One turn of the field loop on a printed two-digit number. */
  lemma {:induction false} FieldStep(gen: bool, s: string, o: nat, i: nat, year: int, mon: int, n: nat)
    requires i < (if gen then 7 else 6) && n < 100 && Shows(s, o, n)
    requires InRange(if gen then i else i + 1, n, year, mon)
    ensures var field := if gen then i else i + 1;
            Fields(gen, s, o, i, year, mon) ==
            Fields(gen, s, o + 2, i + 1, YearAfter(gen, field, year, n), if field == 2 then n else mon)
  {
    TwoDigits(n);
    var c := s[o];
    assert c != 'Z' && c != '+' && c != '-';
  }

  lemma {:induction false} TailShows(s: string, o: nat, t: Tm)
    requires |s| == o + 11 && s[o..] == UtcText(t)[2..]
    ensures Shows(s, o, t.mon) && Shows(s, o + 2, t.day) && Shows(s, o + 4, t.hour)
    ensures Shows(s, o + 6, t.min) && Shows(s, o + 8, t.sec) && s[o + 10] == 'Z'
  {
    var u := UtcText(t);
    assert forall k :: 0 <= k < 11 ==> s[o + k] == s[o..][k] == u[2 + k];
    assert s[o] == u[2] && s[o + 1] == u[3] && s[o + 2] == u[4] && s[o + 3] == u[5];
    assert s[o + 4] == u[6] && s[o + 5] == u[7] && s[o + 6] == u[8] && s[o + 7] == u[9];
    assert s[o + 8] == u[10] && s[o + 9] == u[11] && s[o + 10] == u[12];
  }

  /** From the month on, both forms read alike. */
  lemma {:induction false} TailAccepted(gen: bool, s: string, o: nat, i: nat, t: Tm)
    requires ValidTm(t) && i == (if gen then 2 else 1) && o == 2 * i && |s| == o + 11
    requires s[o..] == UtcText(t)[2..]
    ensures Fields(gen, s, o, i, t.year, 0) == o + 10 && s[o + 10] == 'Z'
  {
    TailShows(s, o, t);
    var f := i;
    FieldStep(gen, s, o, f, t.year, 0, t.mon);
    FieldStep(gen, s, o + 2, f + 1, t.year, t.mon, t.day);
    FieldStep(gen, s, o + 4, f + 2, t.year, t.mon, t.hour);
    FieldStep(gen, s, o + 6, f + 3, t.year, t.mon, t.min);
    FieldStep(gen, s, o + 8, f + 4, t.year, t.mon, t.sec);
  }

  lemma {:induction false} UtcTextAccepted(t: Tm)
    requires ValidTm(t) && IsUtc(t.year)
    ensures UtcOk(UtcText(t))
  {
    var s := UtcText(t);
    TwoDigitYear(s, t.year);
    TailAccepted(false, s, 2, 1, t);
  }

  lemma {:induction false} TwoDigitYear(s: string, year: nat)
    requires IsUtc(year) && Shows(s, 0, year % 100)
    ensures Fields(false, s, 0, 0, 0, 0) == Fields(false, s, 2, 1, year, 0)
  {
    var n := year % 100;
    assert year == if n < 50 then 2000 + n else 1900 + n;
    FieldStep(false, s, 0, 0, 0, 0, n);
  }

  lemma {:induction false} GenTextAccepted(t: Tm)
    requires ValidTm(t)
    ensures GenOk(GenText(t))
  {
    var s, c, y := GenText(t), t.year / 100, t.year % 100;
    GenTextShows(t);
    FourDigitYear(s, c, y, t.year);
    TailAccepted(true, s, 4, 2, t);
  }

  lemma {:induction false} GenTextShows(t: Tm)
    requires t.year <= 9999
    ensures var s := GenText(t);
            |s| == 15 && s[4..] == UtcText(t)[2..] && Shows(s, 0, t.year / 100) && Shows(s, 2, t.year % 100)
  {
    var s, u := GenText(t), UtcText(t);
    assert s[2..] == u && s[4..] == u[2..];
    assert s[2] == u[0] && s[3] == u[1];
  }

  lemma {:induction false} FourDigitYear(s: string, c: nat, y: nat, year: nat)
    requires c < 100 && y < 100 && Shows(s, 0, c) && Shows(s, 2, y) && year == c * 100 + y
    ensures Fields(true, s, 0, 0, 0, 0) == Fields(true, s, 4, 2, year, 0)
  {
    CenturyStep(s, c);
    YearStep(s, c * 100, y);
  }

  lemma {:induction false} CenturyStep(s: string, c: nat)
    requires c < 100 && Shows(s, 0, c)
    ensures Fields(true, s, 0, 0, 0, 0) == Fields(true, s, 2, 1, c * 100, 0)
  {
    FieldStep(true, s, 0, 0, 0, 0, c);
  }

  lemma {:induction false} YearStep(s: string, h: nat, y: nat)
    requires y < 100 && Shows(s, 2, y)
    ensures Fields(true, s, 2, 1, h, 0) == Fields(true, s, 4, 2, h + y, 0)
  {
    FieldStep(true, s, 2, 1, h, 0, y);
  }

  lemma {:induction false} TooManyDigits(s: string, o: nat, i: nat, year: int, mon: int)
    requires i <= 6 && o == 2 * i && |s| >= 13 && forall k :: 0 <= k < 13 ==> IsDigit(s[k])
    ensures Fields(false, s, o, i, year, mon) == -1 || Fields(false, s, o, i, year, mon) == 12
    decreases 6 - i
  {
    if i < 6 {
      var o2, i2 := o + 2, i + 1;
      var n := Num(s[o], s[o + 1]);
      TooManyDigits(s, o2, i2, YearAfter(false, i2, year, n), if i2 == 2 then n else mon);
    }
  }

  lemma {:induction false} UtcTextDigits(t: Tm)
    ensures var u := UtcText(t); |u| == 13 && u[12] == 'Z' && forall k :: 0 <= k < 12 ==> IsDigit(u[k])
  {
  }

  /** A GeneralizedTime is too long for a UTCTime. */
  lemma {:induction false} GenTextNotUtc(t: Tm)
    ensures !UtcOk(GenText(t)) && ',' !in GenText(t)
  {
    var s := GenText(t);
    UtcTextDigits(t);
    assert s[2..] == UtcText(t);
    assert forall k :: 2 <= k < 15 ==> s[k] == s[2..][k - 2];
    TooManyDigits(s, 0, 0, 0, 0);
  }

  // ---- Which texts are times ----

  /** Month, day, hour and minute stand at o in two digits each, and the seconds behind them, unless they are left out
      and the zone follows. */
  ghost predicate TailShown(s: string, o: nat, t: Tm, secs: bool) {
    Shows(s, o, t.mon) && Shows(s, o + 2, t.day) && Shows(s, o + 4, t.hour) && Shows(s, o + 6, t.min) &&
    if secs then Shows(s, o + 8, t.sec) else o + 8 < |s| && s[o + 8] in {'Z', '+', '-'} && t.sec == 0
  }

  /** A UTCTime begins with the last two digits of a year from 1950 to 2049, a GeneralizedTime with all four of one. */
  ghost predicate YearShown(gen: bool, s: string, year: nat) {
    if gen then Shows(s, 0, year / 100) && Shows(s, 2, year % 100) else 1950 <= year <= 2049 && Shows(s, 0, year % 100)
  }

  /** The text ends with 'Z', or with a sign and an offset of at most 12 hours and 59 minutes. */
  ghost predicate ZoneEnds(s: string, o: nat) {
    (|s| == o + 1 && s[o] == 'Z') ||
    (|s| == o + 5 && (s[o] == '+' || s[o] == '-') && exists hh, mm :: Offset(s, o, hh, mm))
  }

  ghost predicate Offset(s: string, o: nat, hh: nat, mm: nat) {
    |s| == o + 5 && hh <= 12 && mm <= 59 &&
    s[o + 1] == High(hh) && s[o + 2] == Low(hh) && s[o + 3] == High(mm) && s[o + 4] == Low(mm)
  }

  /** A fraction of a second may stand in a GeneralizedTime with seconds. */
  ghost predicate RestShown(gen: bool, s: string, o: nat) {
    ZoneEnds(s, o) ||
    (gen && o < |s| && s[o] == '.' &&
     exists q :: o + 1 < q < |s| && ZoneEnds(s, q) && forall k :: o < k < q ==> IsDigit(s[k]))
  }

  /** The text shows the instant t. */
  ghost predicate Writes(gen: bool, s: string, t: Tm, secs: bool) {
    var o := if gen then 4 else 2;
    ValidTm(t) && YearShown(gen, s, t.year) && TailShown(s, o, t, secs) && |s| >= (if gen then 15 else 13) &&
    RestShown(gen && secs, s, if secs then o + 10 else o + 8)
  }

  lemma {:induction false} TailFields(gen: bool, s: string, o: nat, i: nat, t: Tm, secs: bool)
    requires ValidTm(t) && i == (if gen then 2 else 1) && o == 2 * i && TailShown(s, o, t, secs)
    ensures Fields(gen, s, o, i, t.year, 0) == if secs then o + 10 else o + 8
  {
    hide ValidTm;
    TmInRange(t);
    FieldStep(gen, s, o, i, t.year, 0, t.mon);
    FieldStep(gen, s, o + 2, i + 1, t.year, t.mon, t.day);
    FieldStep(gen, s, o + 4, i + 2, t.year, t.mon, t.hour);
    FieldStep(gen, s, o + 6, i + 3, t.year, t.mon, t.min);
    if secs { FieldStep(gen, s, o + 8, i + 4, t.year, t.mon, t.sec); }
  }

  lemma {:induction false} TmInRange(t: Tm)
    requires ValidTm(t)
    ensures InRange(2, t.mon, t.year, 0) && InRange(3, t.day, t.year, t.mon) && InRange(4, t.hour, t.year, t.mon)
    ensures InRange(5, t.min, t.year, t.mon) && InRange(6, t.sec, t.year, t.mon)
    ensures t.mon < 100 && t.day < 100 && t.hour < 100 && t.min < 100 && t.sec < 100
  {
  }

  /** One turn of the field loop that does not end it. */
  lemma {:induction false} FieldRead(gen: bool, s: string, o: nat, i: nat, year: int, mon: int) returns (n: nat)
    requires i < (if gen then 7 else 6) && Fields(gen, s, o, i, year, mon) >= 0
    requires i == (if gen then 6 else 5) ==> !(o < |s| && s[o] in {'Z', '+', '-'})
    ensures n < 100 && Shows(s, o, n) && InRange(if gen then i else i + 1, n, year, mon)
    ensures var field := if gen then i else i + 1;
            Fields(gen, s, o, i, year, mon) ==
            Fields(gen, s, o + 2, i + 1, YearAfter(gen, field, year, n), if field == 2 then n else mon)
  {
    n := Num(s[o], s[o + 1]);
    DigitsOf(s[o], s[o + 1]);
  }

  lemma {:induction false} DigitsOf(c: char, d: char)
    requires IsDigit(c) && IsDigit(d)
    ensures Num(c, d) < 100 && High(Num(c, d)) == c && Low(Num(c, d)) == d
  {
    var h, l := c as int - '0' as int, d as int - '0' as int;
    assert (h * 10 + l) / 10 == h && (h * 10 + l) % 10 == l;
  }

  lemma {:induction false} TailRead(gen: bool, s: string, o: nat, i: nat, year: nat) returns (t: Tm, secs: bool)
    requires year <= 9999 && i == (if gen then 2 else 1) && o == 2 * i && Fields(gen, s, o, i, year, 0) >= 0
    ensures ValidTm(t) && t.year == year && TailShown(s, o, t, secs)
    ensures Fields(gen, s, o, i, year, 0) == if secs then o + 10 else o + 8
  {
    hide Fields;
    var mon := FieldRead(gen, s, o, i, year, 0);
    var day := FieldRead(gen, s, o + 2, i + 1, year, mon);
    var hour := FieldRead(gen, s, o + 4, i + 2, year, mon);
    var min := FieldRead(gen, s, o + 6, i + 3, year, mon);
    secs := !(o + 8 < |s| && s[o + 8] in {'Z', '+', '-'});
    var sec := 0;
    if secs { sec := FieldRead(gen, s, o + 8, i + 4, year, mon); }
    t := Tm(year, mon, day, hour, min, sec);
    LastField(gen, s, if secs then o + 10 else o + 8, if secs then i + 5 else i + 4, year, mon);
  }

  /** The loop has ended: behind the seconds, or at a zone in their place. */
  lemma {:induction false} LastField(gen: bool, s: string, o: nat, i: nat, year: int, mon: int)
    requires i == (if gen then 7 else 6) || (i == (if gen then 6 else 5) && o < |s| && s[o] in {'Z', '+', '-'})
    ensures Fields(gen, s, o, i, year, mon) == o
  {
  }

  lemma {:induction false} YearRead(gen: bool, s: string) returns (year: nat)
    requires Fields(gen, s, 0, 0, 0, 0) >= 0
    ensures year <= 9999 && YearShown(gen, s, year)
    ensures Fields(gen, s, 0, 0, 0, 0) == if gen then Fields(gen, s, 4, 2, year, 0) else Fields(gen, s, 2, 1, year, 0)
  {
    hide Fields;
    var n := FieldRead(gen, s, 0, 0, 0, 0);
    if gen {
      var y := FieldRead(gen, s, 2, 1, n * 100, 0);
      year := n * 100 + y;
      assert year / 100 == n && year % 100 == y;
    } else {
      year := if n < 50 then 2000 + n else 1900 + n;
      assert year % 100 == n;
    }
  }

  lemma {:induction false} YearFields(gen: bool, s: string, year: nat)
    requires year <= 9999 && YearShown(gen, s, year)
    ensures Fields(gen, s, 0, 0, 0, 0) == if gen then Fields(gen, s, 4, 2, year, 0) else Fields(gen, s, 2, 1, year, 0)
  {
    hide Fields;
    if gen {
      FourDigitYear(s, year / 100, year % 100, year);
    } else {
      TwoDigitYear(s, year);
    }
  }

  lemma {:induction false} ZoneExactly(s: string, o: nat)
    requires o < |s|
    ensures Zone(s, o) <==> ZoneEnds(s, o)
  {
    if |s| == o + 5 && (s[o] == '+' || s[o] == '-') {
      if Zone(s, o) {
        DigitsOf(s[o + 1], s[o + 2]);
        DigitsOf(s[o + 3], s[o + 4]);
        assert Offset(s, o, Num(s[o + 1], s[o + 2]), Num(s[o + 3], s[o + 4]));
      }
      if hh: nat, mm: nat :| Offset(s, o, hh, mm) {
        TwoDigits(hh);
        TwoDigits(mm);
      }
    }
  }

  lemma {:induction false} SkipsTo(s: string, o: nat, q: nat)
    requires o <= q < |s| && !IsDigit(s[q]) && forall k :: o <= k < q ==> IsDigit(s[k])
    ensures SkipDigits(s, o) == q
    decreases q - o
  {
    if o < q { SkipsTo(s, o + 1, q); }
  }

  lemma {:induction false} SkipsDigitsOnly(s: string, o: nat)
    requires o <= |s|
    ensures forall k :: o <= k < SkipDigits(s, o) ==> IsDigit(s[k])
    decreases |s| - o
  {
    if o < |s| && IsDigit(s[o]) { SkipsDigitsOnly(s, o + 1); }
  }

  lemma {:induction false} RestExactly(gen: bool, s: string, o: nat)
    requires o < |s|
    ensures RestShown(gen, s, o) <==>
            if gen && s[o] == '.' then
              var q := SkipDigits(s, o + 1);
              o + 1 < q < |s| && Zone(s, q)
            else Zone(s, o)
  {
    hide Zone, ZoneEnds;
    ZoneExactly(s, o);
    if gen && s[o] == '.' {
      var q := SkipDigits(s, o + 1);
      SkipsDigitsOnly(s, o + 1);
      if q < |s| { ZoneExactly(s, q); }
      assert !ZoneEnds(s, o) by { NoZone(s, o); }
      forall k | o + 1 < k < |s| && ZoneEnds(s, k) && forall j :: o < j < k ==> IsDigit(s[j]) ensures k == q {
        if IsDigit(s[k]) { NoZone(s, k); }
        SkipsTo(s, o + 1, k);
      }
    }
  }

  lemma {:induction false} NoZone(s: string, o: nat)
    requires o < |s| && (s[o] == '.' || IsDigit(s[o]))
    ensures !ZoneEnds(s, o)
  {
  }

  /** A text is accepted exactly when it shows an instant: all digits of the date and the time in range, the day in its
      month, and a zone at the end. */
  lemma {:induction false} AcceptsExactly(gen: bool, s: string)
    ensures Accepts(gen, s) <==> exists t, secs :: Writes(gen, s, t, secs)
  {
    hide Fields, Zone, SkipDigits, RestShown, TailShown, YearShown;
    var base: nat, i: nat := if gen then 4 else 2, if gen then 2 else 1;
    if Accepts(gen, s) {
      var year := YearRead(gen, s);
      var t, secs := TailRead(gen, s, base, i, year);
      TailEnds(s, base, t, secs);
      RestOf(gen, s, base, secs);
      assert Writes(gen, s, t, secs);
    }
    if t, secs :| Writes(gen, s, t, secs) {
      YearFields(gen, s, t.year);
      TailFields(gen, s, base, i, t, secs);
      TailEnds(s, base, t, secs);
      RestOf(gen, s, base, secs);
    }
  }

  lemma {:induction false} TailEnds(s: string, o: nat, t: Tm, secs: bool)
    requires TailShown(s, o, t, secs)
    ensures secs ==> o + 10 < |s|
    ensures !secs ==> o + 8 < |s| && s[o + 8] != '.'
  {
  }

  lemma {:induction false} RestOf(gen: bool, s: string, base: nat, secs: bool)
    ensures var o := if secs then base + 10 else base + 8;
            (RestShown(gen && secs, s, o) ==> o < |s|) &&
            (o < |s| && (secs || s[o] != '.') ==>
               (RestShown(gen && secs, s, o) <==>
                  if gen && s[o] == '.' then
                    var q := SkipDigits(s, o + 1);
                    o + 1 < q < |s| && Zone(s, q)
                  else Zone(s, o)))
  {
    hide Zone, SkipDigits;
    var o := if secs then base + 10 else base + 8;
    if o < |s| { RestExactly(gen && secs, s, o); }
  }

  /** The text of an instant is always a valid time, but it is a UTCTime exactly before 2050. */
  lemma {:induction false} FormatAccepted(t: Tm)
    requires ValidTm(t)
    ensures TimeOk(Format(t))
    ensures UtcOk(Format(t)) <==> 1950 <= t.year <= 2049
    ensures ',' !in Format(t)
  {
    if IsUtc(t.year) {
      UtcTextAccepted(t);
      UtcNoComma(UtcText(t));
    } else {
      GenTextAccepted(t);
      GenTextNotUtc(t);
    }
  }
}
