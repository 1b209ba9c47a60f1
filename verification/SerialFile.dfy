/** The text of the serial file: what save_serial writes and what load_serial reads (apps/lib/apps.c,
    crypto/asn1/f_int.c). */
module SerialFile {
  import opened Base
  import opened Serial

  /** Octets on one line before it is continued. */
  const PER_LINE := 35

  // ---- Writing ----

  /** The lines i2a_ASN1_INTEGER writes, without their line ends. */
  function Lines(b: seq<nat>): seq<string>
    requires AllOctets(b)
  {
    if |b| <= PER_LINE then [PairText(b)] else [PairText(b[..PER_LINE]) + "\\"] + Lines(b[PER_LINE..])
  }

  // ---- Reading ----

  function Trimmed(line: string): string {
    if line != "" && line[|line| - 1] == '\r' then line[..|line| - 1] else line
  }

  /** How many hex digits the line begins with. */
  function HexRun(s: string): (n: nat)
    ensures n <= |s| && AllHex(s[..n])
  {
    if s == "" || !IsXDigit(s[0]) then 0 else
      var n := 1 + HexRun(s[1..]);
      assert s[..n] == [s[0]] + s[1..][..n - 1];
      n
  }

  /** The octets of an even number of hex digits. */
  function Pairs(s: string): (b: seq<nat>)
    requires AllHex(s) && |s| % 2 == 0
  {
    if s == "" then [] else
      var n := |s| - 2;
      assert s[n] in s && s[n + 1] in s;
      Pairs(s[..n]) + [16 * DigitValue(s[n]) + DigitValue(s[n + 1])]
  }

  /** The digits of a trimmed line that count. A line that ends in a backslash has that character taken off twice,
      once by the digit scan and once by count. */
  function Counted(t: string, first: bool, again: bool): (r: Option<string>)
    ensures r.Some? ==> AllHex(r.value) && |r.value| % 2 == 0
  {
    var run := HexRun(t);
    if run < 2 then None
    else
      var skip := if first && t[0] == '0' && t[1] == '0' then 2 else 0;
      var n := run - skip - if again then 1 else 0;
      if n % 2 != 0 then None
      else
        assert forall c :: c in t[skip..skip + n] ==> c in t[..run];
        Some(t[skip..skip + n])
  }

  /** One turn of a2i_ASN1_INTEGER: the octets of a line and whether it is continued. */
  function OneLine(line: string, first: bool): Option<(seq<nat>, bool)> {
    var t := Trimmed(line);
    if t == "" then None
    else
      var again := t[|t| - 1] == '\\';
      var d := Counted(t, first, again);
      if d == None then None else Some((Pairs(d.value), again))
  }

  function OctetsRead(lines: seq<string>, first: bool): Option<seq<nat>> {
    if lines == [] then None
    else
      var one := OneLine(lines[0], first);
      if one == None then None
      else if !one.value.1 then Some(one.value.0)
      else
        var rest := OctetsRead(lines[1..], false);
        if rest == None then None else Some(one.value.0 + rest.value)
  }

  /** load_serial on an existing file; the number is never negative. */
  function Loaded(lines: seq<string>): Option<nat> {
    var b := OctetsRead(lines, true);
    if b == None then None else Some(Big(b.value))
  }

  /** a2i_ASN1_INTEGER (crypto/asn1/f_int.c:52-138). */
  method ReadNumber(lines: seq<string>) returns (r: Option<nat>)
    ensures r == Loaded(lines)
  {
    var s: seq<nat>, k := [], 0;
    ReadStart(lines);
    while true
      invariant Reading(lines, k, s)
      decreases |lines| - k
    {
      ReadStep(lines, k, s);
      if k == |lines| { return None; }
      var one := OneLine(lines[k], k == 0);
      if one == None { return None; }
      s := s + one.value.0;
      if !one.value.1 { return Some(Big(s)); }
      k := k + 1;
    }
  }

  /** The first k lines have been continued and have given s. */
  ghost predicate Reading(lines: seq<string>, k: int, s: seq<nat>) {
    0 <= k <= |lines| && OctetsRead(lines, true) == Joined(s, OctetsRead(lines[k..], k == 0))
  }

  lemma {:induction false} ReadStart(lines: seq<string>)
    ensures Reading(lines, 0, [])
  {
    assert lines[0..] == lines;
    JoinedNone(OctetsRead(lines, true));
  }

  lemma {:induction false} ReadStep(lines: seq<string>, k: int, s: seq<nat>)
    requires Reading(lines, k, s)
    ensures k == |lines| ==> OctetsRead(lines, true) == None
    ensures k < |lines| ==>
              var one := OneLine(lines[k], k == 0);
              if one == None then OctetsRead(lines, true) == None
              else if one.value.1 then Reading(lines, k + 1, s + one.value.0)
              else OctetsRead(lines, true) == Some(s + one.value.0)
  {
    if k < |lines| {
      var one := OneLine(lines[k], k == 0);
      assert lines[k..][0] == lines[k] && lines[k..][1..] == lines[k + 1..];
      if one.Some? { JoinedMore(s, one.value.0, OctetsRead(lines[k + 1..], false)); }
    }
  }

  ghost function Joined(s: seq<nat>, rest: Option<seq<nat>>): Option<seq<nat>> {
    if rest == None then None else Some(s + rest.value)
  }

  lemma {:induction false} JoinedMore(s: seq<nat>, o: seq<nat>, rest: Option<seq<nat>>)
    ensures Joined(s + o, rest) == Joined(s, Joined(o, rest))
    ensures Joined(s, Some(o)) == Some(s + o)
  {
    if rest.Some? { assert s + o + rest.value == s + (o + rest.value); }
  }

  lemma {:induction false} JoinedNone(rest: Option<seq<nat>>)
    ensures Joined([], rest) == rest
  {
    if rest.Some? { assert [] + rest.value == rest.value; }
  }

  // ---- Reading back what was written ----

  lemma {:induction false} HexRunIs(s: string, n: nat)
    requires n <= |s| && AllHex(s[..n]) && (n < |s| ==> !IsXDigit(s[n]))
    ensures HexRun(s) == n
  {
    if n > 0 {
      assert s[0] == s[..n][0] && s[..n][0] in s[..n];
      assert s[1..][..n - 1] == s[..n][1..];
      HexRunIs(s[1..], n - 1);
    }
  }

  lemma {:induction false} PairsOfText(b: seq<nat>)
    requires AllOctets(b)
    ensures AllHex(PairText(b)) && Pairs(PairText(b)) == b
  {
    BigText(b);
    if b != [] {
      var init, last, p := b[..|b| - 1], b[|b| - 1], PairText(b);
      PairsOfText(init);
      PairRead(last);
      assert p[..|p| - 2] == PairText(init);
      assert p[|p| - 2] == Pair(last)[0] && p[|p| - 1] == Pair(last)[1];
      assert b == init + [last];
    }
  }

  lemma {:induction false} PairRead(b: nat)
    requires b < 256
    ensures var h, l := Pair(b)[0], Pair(b)[1];
            IsXDigit(h) && IsXDigit(l) && 16 * DigitValue(h) + DigitValue(l) == b
  {
    DigitRoundTrip(b / 16);
    DigitRoundTrip(b % 16);
  }

  /** A whole line of digits. */
  lemma {:induction false} DigitLine(b: seq<nat>)
    requires AllOctets(b) && b != []
    ensures var t := PairText(b);
            Trimmed(t) == t && HexRun(t) == |t| && t[|t| - 1] != '\\'
  {
    var t := PairText(b);
    PairsOfText(b);
    assert t[|t| - 1] in t;
    assert t[..|t|] == t;
    HexRunIs(t, |t|);
  }

  lemma {:induction false} PlainLine(b: seq<nat>)
    requires AllOctets(b) && b != [] && b[0] != 0
    ensures OneLine(PairText(b), true) == Some((b, false))
  {
    var t := PairText(b);
    DigitLine(b);
    assert Counted(t, true, false) == Some(t) by {
      NotZeroFirst(b);
      assert t[0..|t|] == t;
    }
    PairsOfText(b);
  }

  lemma {:induction false} ZeroLine()
    ensures OneLine(PairText([0]), true) == Some(([], false))
  {
    var t := PairText([0]);
    DigitLine([0]);
    assert [0][..0] == [] && PairText([]) == "";
    ZeroPair(0);
    assert t == "" + Pair(0) == Pair(0);
    assert t[2..2] == "";
  }

  /** A number of at most 35 octets is written on one line and read back. */
  lemma {:induction false} ShortLine(n: nat)
    requires |Content(n)| <= PER_LINE
    ensures Loaded(Lines(Content(n))) == Some(n)
  {
    if n == 0 {
      ZeroLine();
    } else {
      LeadingOctet(n);
      PlainLine(Content(n));
      OctetsOfBig(n);
    }
  }

  lemma {:induction false} OctetsOfBig(n: nat)
    ensures Big(Octets(n)) == n
  {
    if n > 0 {
      OctetsOfBig(n / 256);
      var o := Octets(n);
      assert o[..|o| - 1] == Octets(n / 256);
    }
  }

  lemma {:induction false} NotZeroFirst(b: seq<nat>)
    requires AllOctets(b) && b != [] && b[0] != 0
    ensures !(PairText(b)[0] == '0' && PairText(b)[1] == '0')
  {
    BigHead(b);
    ZeroPair(b[0]);
  }

  /** The first of several lines has an even number of digits and a backslash, which the reader counts as one digit
      less: it refuses the line. */
  lemma {:induction false} ContinuedLine(b: seq<nat>)
    requires AllOctets(b) && |b| == PER_LINE && b[0] != 0
    ensures OneLine(PairText(b) + "\\", true) == None
  {
    var p := PairText(b);
    var t := p + "\\";
    PairsOfText(b);
    NotZeroFirst(b);
    assert t[..|p|] == p;
    HexRunIs(t, |p|);
    assert Trimmed(t) == t && t[0] == p[0] && t[1] == p[1];
  }

  /** What save_serial has written is read back by the next run's load_serial if and only if the number has at most 35
      octets. */
  lemma {:induction false} ReadBackExactly(n: nat)
    ensures Loaded(Lines(Content(n))) == Some(n) <==> |Content(n)| <= 35
    ensures |Content(n)| > 35 ==> Loaded(Lines(Content(n))) == None
  {
    var b := Content(n);
    if |b| <= PER_LINE {
      ShortLine(n);
    } else {
      LeadingOctet(n);
      ContinuedLine(b[..PER_LINE]);
    }
  }

  lemma {:induction false} PairsBig(s: string)
    requires AllHex(s) && |s| % 2 == 0
    ensures Big(Pairs(s)) == HexValue(s)
  {
    if s != "" {
      hide HexValue, DigitValue, IsXDigit;
      var n := |s| - 2;
      assert s[n] in s && s[n + 1] in s;
      PairsBig(s[..n]);
      LastTwoDigits(s);
      var b, last := Pairs(s[..n]), 16 * DigitValue(s[n]) + DigitValue(s[n + 1]);
      assert Pairs(s) == b + [last] && (b + [last])[..|b|] == b;
    } else {
      assert Pairs(s) == [];
    }
  }

  lemma {:induction false} LastTwoDigits(s: string)
    requires AllHex(s) && |s| >= 2
    ensures var n := |s| - 2;
            s[n] in s && s[n + 1] in s &&
            HexValue(s) == 256 * HexValue(s[..n]) + (16 * DigitValue(s[n]) + DigitValue(s[n + 1]))
  {
    hide DigitValue, IsXDigit;
    var n, t := |s| - 2, s[..|s| - 1];
    assert s[n] in s && s[n + 1] in s;
    assert t[..n] == s[..n] && t[n] == s[n];
    assert HexValue(t) == 16 * HexValue(t[..n]) + DigitValue(t[n]);
    assert HexValue(s) == 16 * HexValue(t) + DigitValue(s[n + 1]);
  }

  /** A single line with n hex digits at its front, and whatever else behind them but a backslash at its end, is read as
      their number when n is even and at least two, and refused otherwise. */
  lemma {:induction false} OneLineExactly(s: string, n: nat)
    requires n <= |s| && AllHex(s[..n]) && (n < |s| ==> !IsXDigit(s[n]))
    requires s != "" ==> s[|s| - 1] != '\\' && s[|s| - 1] != '\r'
    ensures Loaded([s]) == if n >= 2 && n % 2 == 0 then Some(HexValue(s[..n])) else None
    ensures s != "" ==> Loaded([s + "\r"]) == Loaded([s])
  {
    hide HexRun, Pairs, Big, HexValue, IsXDigit;
    CountedExactly(s, n);
    LoadedOne(s);
    if s != "" {
      var t := s + "\r";
      assert Trimmed(t) == s by { assert t[..|t| - 1] == s; }
      LoadedOne(t);
    }
  }

  lemma {:induction false} LoadedOne(s: string)
    ensures Loaded([s]) ==
            var t := Trimmed(s);
            if t == "" || t[|t| - 1] == '\\' then None
            else
              var d := Counted(t, true, false);
              if d == None then None else Some(Big(Pairs(d.value)))
  {
    hide Counted, Pairs, Big, Trimmed;
    assert [s][1..] == [] && OctetsRead([], false) == None;
    var one := OneLine(s, true);
    if one.Some? && one.value.1 {
      assert OctetsRead([s], true) == None;
    }
  }

  lemma {:induction false} CountedExactly(s: string, n: nat)
    requires n <= |s| && AllHex(s[..n]) && (n < |s| ==> !IsXDigit(s[n]))
    ensures var d := Counted(s, true, false);
            (d.Some? <==> n >= 2 && n % 2 == 0) && (d.Some? ==> Big(Pairs(d.value)) == HexValue(s[..n]))
  {
    hide Pairs, Big, HexValue;
    HexRunIs(s, n);
    if n >= 2 && n % 2 == 0 {
      var skip := if s[0] == '0' && s[1] == '0' then 2 else 0;
      SkippedZeros(s[..n], skip);
      assert s[..n][skip..] == s[skip..n];
      PairsBig(s[skip..n]);
    }
  }

  lemma {:induction false} SkippedZeros(s: string, skip: nat)
    requires AllHex(s) && (skip == 0 || (skip == 2 && |s| >= 2 && s[0] == '0' && s[1] == '0'))
    ensures AllHex(s[skip..]) && HexValue(s[skip..]) == HexValue(s)
  {
    if skip == 2 {
      assert s[1..][1..] == s[2..];
      DropZero(s);
      DropZero(s[1..]);
    } else {
      assert s[0..] == s;
    }
  }

  /** Such numbers exist, and all numbers of 20 octets, the most section 4.1.2.2 of RFC 5280 allows, are below them. */
  lemma {:induction false} ContentBound(n: nat, k: nat)
    requires k > 0
    ensures |Content(n)| <= k <==> n < Pow256(k)
  {
    if n < 256 {
      assert Pow256(k) == 256 * Pow256(k - 1);
      if n > 0 { assert Octets(n / 256) == []; }
    } else if k == 1 {
      assert Pow256(1) == 256 * Pow256(0);
      assert |Octets(n / 256)| > 0;
    } else {
      ContentBound(n / 256, k - 1);
      assert Pow256(k) == 256 * Pow256(k - 1);
    }
  }

  function Pow256(k: nat): (p: nat)
    ensures p > 0
  {
    if k == 0 then 1 else 256 * Pow256(k - 1)
  }
}
