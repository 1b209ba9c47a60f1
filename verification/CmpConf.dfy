/** Section lists and general-info items of "openssl cmp" (apps/cmp.c). */
module CmpConf {
  import opened Base
  import opened Decimal
  import RevInfo
  import Serial

  const SECTION_NAME_MAX := 40

  predicate Sep(c: char) { c == ',' || IsSpace(c) }

  function Cut40(s: string): string { s[..Min(|s|, SECTION_NAME_MAX)] }

  // ---- Reading the section list from the right ----

  /** Where the item ending at end begins. */
  function ItemStart(s: string, end: nat): (b: nat)
    requires end <= |s|
    ensures b <= end && (b > 0 ==> Sep(s[b - 1])) && forall i :: b <= i < end ==> !Sep(s[i])
  {
    if end == 0 || Sep(s[end - 1]) then end else ItemStart(s, end - 1)
  }

  /** Past the separators to the left of b. */
  function SkipBack(s: string, b: nat): (e: nat)
    requires b <= |s|
    ensures e <= b && (e > 0 ==> !Sep(s[e - 1])) && forall i :: e <= i < b ==> Sep(s[i])
  {
    if b == 0 || !Sep(s[b - 1]) then b else SkipBack(s, b - 1)
  }

  /** prev_item (apps/cmp.c:2648-2679). */
  method PrevItem(opt: string, end: nat) returns (beg: Option<nat>, item: string)
    requires end <= |opt|
    ensures end == 0 ==> beg == None
    ensures end > 0 ==> beg == Some(SkipBack(opt, ItemStart(opt, end))) && beg.value < end
    ensures end > 0 ==> item == Cut40(opt[ItemStart(opt, end)..end])
  {
    item := "";
    if end == 0 { return None, item; }
    var b := end;
    while b > 0
      invariant 0 <= b <= end && ItemStart(opt, end) == ItemStart(opt, b)
    {
      b := b - 1;
      if Sep(opt[b]) {
        b := b + 1;
        break;
      }
    }
    assert b == ItemStart(opt, end);
    var len := end - b;
    if len > SECTION_NAME_MAX { len := SECTION_NAME_MAX; }
    item := opt[b..b + len];
    ghost var start := b;
    while b > 0
      invariant 0 <= b <= start && SkipBack(opt, start) == SkipBack(opt, b)
    {
      b := b - 1;
      if !Sep(opt[b]) {
        b := b + 1;
        break;
      }
    }
    assert b == SkipBack(opt, start);
    assert opt[start..start + len] == Cut40(opt[start..end]);
    assert start == end ==> Sep(opt[end - 1]);
    return Some(b), item;
  }

  /** The items that repeated calls produce. */
  function Items(s: string, end: nat): seq<string>
    requires end <= |s|
  {
    if end == 0 then []
    else
      var b := ItemStart(s, end);
      assert b == end ==> Sep(s[end - 1]);
      [Cut40(s[b..end])] + Items(s, SkipBack(s, b))
  }

  /** The maximal runs of non-separators, left to right. */
  function Tokens(s: string): seq<string> {
    if s == "" then []
    else
      var n := |s| - 1;
      var ts := Tokens(s[..n]);
      if Sep(s[n]) then ts
      else if ts == [] || n == 0 || Sep(s[n - 1]) then ts + [[s[n]]]
      else ts[..|ts| - 1] + [ts[|ts| - 1] + [s[n]]]
  }

  /** The names looked up for a list of tokens: the last first, each cut to the maximum length. */
  function Reversed(ts: seq<string>): seq<string> {
    if ts == [] then [] else [Cut40(ts[|ts| - 1])] + Reversed(ts[..|ts| - 1])
  }

  lemma {:induction false} ReversedSnoc(ts: seq<string>, t: string)
    ensures Reversed(ts + [t]) == [Cut40(t)] + Reversed(ts)
  {
    assert (ts + [t])[..|ts|] == ts;
  }

  lemma {:induction false} TokensSkip(s: string, e: nat, b: nat)
    requires e <= b <= |s| && forall i :: e <= i < b ==> Sep(s[i])
    ensures Tokens(s[..b]) == Tokens(s[..e])
    decreases b
  {
    if e < b {
      TokensSkip(s, e, b - 1);
      assert s[..b][..b - 1] == s[..b - 1];
    }
  }

  predicate NoSep(w: string) { w != "" ==> !Sep(w[|w| - 1]) && NoSep(w[..|w| - 1]) }

  lemma {:induction false} NoSepSlice(s: string, b: nat, e: nat)
    requires b <= e <= |s| && forall i :: b <= i < e ==> !Sep(s[i])
    ensures NoSep(s[b..e])
    decreases e
  {
    if b < e {
      NoSepSlice(s, b, e - 1);
      assert s[b..e][..e - 1 - b] == s[b..e - 1];
    }
  }

  lemma {:induction false} TokensLonger(t: string, before: seq<string>, word: string)
    requires |t| >= 2 && !Sep(t[|t| - 1]) && !Sep(t[|t| - 2]) && Tokens(t[..|t| - 1]) == before + [word]
    ensures Tokens(t) == before + [word + [t[|t| - 1]]]
  {
    assert (before + [word])[..|before|] == before;
  }

  /** A word behind a separator is one more token. */
  lemma {:induction false} TokensGrow(a: string, w: string)
    requires (a != "" ==> Sep(a[|a| - 1])) && w != "" && NoSep(w)
    ensures Tokens(a + w) == Tokens(a) + [w]
    decreases w
  {
    var t, init := a + w, w[..|w| - 1];
    assert t[..|t| - 1] == a + init;
    assert w == init + [t[|t| - 1]];
    if init == "" {
      assert a + init == a;
    } else {
      TokensGrow(a, init);
      assert t[|t| - 2] == init[|init| - 1] && t[|t| - 1] == w[|w| - 1];
      TokensLonger(t, Tokens(a), init);
    }
  }

  /** From a position that is not behind a separator, the items are the tokens in reverse. */
  lemma {:induction false} ItemsAreTokens(s: string, end: nat)
    requires end <= |s| && (end > 0 ==> !Sep(s[end - 1]))
    ensures Items(s, end) == Reversed(Tokens(s[..end]))
  {
    if end > 0 {
      hide Tokens, NoSep, Reversed;
      var b := ItemStart(s, end);
      var e := SkipBack(s, b);
      NoSepSlice(s, b, end);
      TokensGrow(s[..b], s[b..end]);
      assert s[..end] == s[..b] + s[b..end];
      TokensSkip(s, e, b);
      ItemsAreTokens(s, e);
      ReversedSnoc(Tokens(s[..e]), s[b..end]);
      assert Items(s, end) == [Cut40(s[b..end])] + Items(s, e);
    } else {
      assert s[..0] == "";
    }
  }

  /** Iterating prev_item gives exactly the tokens from the right, with one empty name first when the list
      ends in a separator. */
  lemma {:induction false} PrevItemEnumeratesTokens(s: string)
    ensures Items(s, |s|) == (if s != "" && Sep(s[|s| - 1]) then [""] else []) + Reversed(Tokens(s))
  {
    assert s[..|s|] == s;
    if s != "" && Sep(s[|s| - 1]) {
      var e := SkipBack(s, |s|);
      TokensSkip(s, e, |s|);
      ItemsAreTokens(s, e);
    } else {
      ItemsAreTokens(s, |s|);
    }
  }

  /** app_conf_try_string on a loaded configuration. */
  type Conf = (string, string) -> Option<string>

  function FirstFound(conf: Conf, items: seq<string>, name: string): Option<string> {
    if items == [] then None
    else if conf(items[0], name).Some? then conf(items[0], name)
    else FirstFound(conf, items[1..], name)
  }

  /** The value in the last section that defines the name. */
  function Rightmost(conf: Conf, ts: seq<string>, name: string): Option<string> {
    if ts == [] then None
    else
      var v := conf(Cut40(ts[|ts| - 1]), name);
      if v.Some? then v else Rightmost(conf, ts[..|ts| - 1], name)
  }

  /** conf_get_string (apps/cmp.c:2682-2693). */
  method ConfGetString(conf: Conf, groups: string, name: string) returns (res: Option<string>)
    ensures res == FirstFound(conf, Items(groups, |groups|), name)
    ensures res == if groups != "" && Sep(groups[|groups| - 1]) && conf("", name).Some? then conf("", name)
                   else Rightmost(conf, Tokens(groups), name)
  {
    FoundRightmost(conf, groups, name);
    var end := |groups|;
    while true
      invariant 0 <= end <= |groups|
      invariant FirstFound(conf, Items(groups, |groups|), name) == FirstFound(conf, Items(groups, end), name)
      decreases end
    {
      var beg, item := PrevItem(groups, end);
      if beg == None { return None; }
      assert Items(groups, end)[1..] == Items(groups, beg.value);
      res := conf(item, name);
      if res.Some? { return; }
      end := beg.value;
    }
  }

  lemma {:induction false} FoundInReverse(conf: Conf, ts: seq<string>, name: string)
    ensures FirstFound(conf, Reversed(ts), name) == Rightmost(conf, ts, name)
  {
    if ts != [] {
      FoundInReverse(conf, ts[..|ts| - 1], name);
      assert Reversed(ts)[1..] == Reversed(ts[..|ts| - 1]);
    }
  }

  lemma {:induction false} FoundRightmost(conf: Conf, groups: string, name: string)
    ensures FirstFound(conf, Items(groups, |groups|), name) ==
            if groups != "" && Sep(groups[|groups| - 1]) && conf("", name).Some? then conf("", name)
            else Rightmost(conf, Tokens(groups), name)
  {
    PrevItemEnumeratesTokens(groups);
    FoundInReverse(conf, Tokens(groups), name);
    var rev := Reversed(Tokens(groups));
    if groups != "" && Sep(groups[|groups| - 1]) {
      assert ([""] + rev)[1..] == rev;
    } else {
      assert [] + rev == rev;
    }
  }

  // ---- A list written out ----

  /** Neither a comma nor a blank. */
  predicate Plain(c: char) { c != ',' && c != ' ' && !('\t' <= c <= '\r') }

  ghost predicate Word(w: string) { w != "" && forall i :: 0 <= i < |w| ==> Plain(w[i]) }

  ghost predicate Gap(g: string) { forall i :: 0 <= i < |g| ==> !Plain(g[i]) }

  /** The names one behind the other, each with a gap of commas and blanks before it. */
  function Spread(names: seq<string>, gaps: seq<string>): string
    requires |gaps| == |names|
  {
    if names == [] then ""
    else
      var n := |names| - 1;
      Spread(names[..n], gaps[..n]) + gaps[n] + names[n]
  }

  ghost predicate Proper(names: seq<string>, gaps: seq<string>) {
    |gaps| == |names| && (forall i :: 0 <= i < |names| ==> Word(names[i]) && Gap(gaps[i])) &&
    forall i :: 0 < i < |gaps| ==> gaps[i] != ""
  }

  lemma {:induction false} WordNoSep(w: string)
    requires forall i :: 0 <= i < |w| ==> Plain(w[i])
    ensures NoSep(w)
  {
    if w != "" { WordNoSep(w[..|w| - 1]); }
  }

  lemma {:induction false} SpreadTokens(names: seq<string>, gaps: seq<string>)
    requires Proper(names, gaps)
    ensures Tokens(Spread(names, gaps)) == names
    ensures names != [] ==> Spread(names, gaps) != "" && !Sep(Spread(names, gaps)[|Spread(names, gaps)| - 1])
  {
    if names == [] {
      assert Tokens("") == [];
    } else {
      hide Tokens, Gap, Plain;
      var n := |names| - 1;
      var front := Spread(names[..n], gaps[..n]);
      SpreadTokens(names[..n], gaps[..n]);
      OneMoreName(front, gaps[n], names[n]);
      assert names == names[..n] + [names[n]];
      var s, w := Spread(names, gaps), names[n];
      assert s[|s| - 1] == w[|w| - 1] && Plain(w[|w| - 1]);
      PlainIsNoSep(s[|s| - 1]);
    }
  }

  lemma {:induction false} OneMoreName(front: string, gap: string, w: string)
    requires Word(w) && Gap(gap) && (front == "" || gap != "")
    ensures Tokens(front + gap + w) == Tokens(front) + [w]
  {
    hide Tokens, NoSep, Plain, Sep;
    var a := front + gap;
    WordNoSep(w);
    forall i | |front| <= i < |a| ensures Sep(a[i]) {
      assert a[i] == gap[i - |front|];
      PlainIsNoSep(a[i]);
    }
    TokensSkip(a, |front|, |a|);
    assert a[..|a|] == a && a[..|front|] == front;
    TokensGrow(a, w);
  }

  lemma {:induction false} PlainIsNoSep(c: char)
    ensures Plain(c) <==> !Sep(c)
  {
  }

  /** For a list of names without commas and blanks, with any commas and blanks between them, the value is that of the
      rightmost name, cut to 40 characters, that has one. */
  lemma {:induction false} LookedUpFromRight(conf: Conf, names: seq<string>, gaps: seq<string>, name: string, i: nat)
    requires Proper(names, gaps) && i < |names|
    requires conf(if |names[i]| <= 40 then names[i] else names[i][..40], name).Some?
    requires forall j :: i < j < |names| ==> conf(if |names[j]| <= 40 then names[j] else names[j][..40], name) == None
    ensures FirstFound(conf, Items(Spread(names, gaps), |Spread(names, gaps)|), name) ==
            conf(if |names[i]| <= 40 then names[i] else names[i][..40], name)
  {
    hide Tokens, Items;
    SpreadTokens(names, gaps);
    FoundRightmost(conf, Spread(names, gaps), name);
    RightmostIs(conf, names, name, i);
  }

  /** Without such a name there is no value. */
  lemma {:induction false} NotLookedUp(conf: Conf, names: seq<string>, gaps: seq<string>, name: string)
    requires Proper(names, gaps)
    requires forall j :: 0 <= j < |names| ==> conf(if |names[j]| <= 40 then names[j] else names[j][..40], name) == None
    ensures FirstFound(conf, Items(Spread(names, gaps), |Spread(names, gaps)|), name) == None
  {
    hide Tokens, Items;
    SpreadTokens(names, gaps);
    FoundRightmost(conf, Spread(names, gaps), name);
    RightmostNone(conf, names, name);
  }

  lemma {:induction false} RightmostNone(conf: Conf, names: seq<string>, name: string)
    requires forall j :: 0 <= j < |names| ==> conf(if |names[j]| <= 40 then names[j] else names[j][..40], name) == None
    ensures Rightmost(conf, names, name) == None
  {
    if names != [] {
      var last := names[|names| - 1];
      assert last[..|last|] == last;
      RightmostNone(conf, names[..|names| - 1], name);
    }
  }

  lemma {:induction false} RightmostIs(conf: Conf, names: seq<string>, name: string, i: nat)
    requires i < |names| && conf(if |names[i]| <= 40 then names[i] else names[i][..40], name).Some?
    requires forall j :: i < j < |names| ==> conf(if |names[j]| <= 40 then names[j] else names[j][..40], name) == None
    ensures Rightmost(conf, names, name) == conf(if |names[i]| <= 40 then names[i] else names[i][..40], name)
  {
    var n := |names| - 1;
    var last := names[n];
    assert last[..|last|] == last;
    if i < n { RightmostIs(conf, names[..n], name, i); }
  }

  // ---- General-info items ----

  datatype Value = IntValue(n: int) | StrValue(s: string)

  datatype Itav = Itav(oid: string, value: Value)

  /** HAS_CASE_PREFIX for a three-letter word and a colon, the word given in upper case. */
  predicate HasPrefix(s: string, a: char, b: char, c: char) {
    |s| >= 4 && Serial.ToUpper(s[0]) == a && Serial.ToUpper(s[1]) == b && Serial.ToUpper(s[2]) == c && s[3] == ':'
  }

  /** The value behind the OID and what follows it. */
  function ParseValue(s: string): Option<(Value, string)> {
    if HasPrefix(s, 'I', 'N', 'T') then ParseInt(s[4..])
    else if HasPrefix(s, 'S', 'T', 'R') then
      var p := RevInfo.Find(s[4..], ',');
      Some((StrValue(s[4..][..p]), Behind(s[4..], p)))
    else None
  }

  function ParseInt(s: string): Option<(Value, string)> {
    var (n, e) := StrToL(s);
    if e == 0 || (e < |s| && s[e] != ',') then None else Some((IntValue(n), Behind(s, e)))
  }

  /** The text after the comma at p, or nothing when p is the end. */
  function Behind(s: string, p: nat): (r: string)
    requires p <= |s|
    ensures |r| <= |s|
  {
    if p < |s| then s[p + 1..] else ""
  }

  function ParseOne(oids: RevInfo.OidTable, s: string): (r: Option<(Itav, string)>)
    ensures r.Some? ==> |r.value.1| < |s|
  {
    ParseTrimmed(oids, s[SkipSpaces(s, 0)..])
  }

  function ParseTrimmed(oids: RevInfo.OidTable, t: string): (r: Option<(Itav, string)>)
    ensures r.Some? ==> |r.value.1| < |t|
  {
    var c := RevInfo.Find(t, ':');
    if c == |t| || oids(t[..c]) == None then None
    else
      var v := ParseValue(t[c + 1..]);
      if v == None then None else Some((Itav(t[..c], v.value.0), v.value.1))
  }

  function ParseAll(oids: RevInfo.OidTable, s: string): Option<seq<Itav>>
    decreases |s|
  {
    var one := ParseOne(oids, s);
    if one == None then None
    else if one.value.1 == "" then Some([one.value.0])
    else Joined([one.value.0], ParseAll(oids, one.value.1))
  }

  function Joined(pushed: seq<Itav>, rest: Option<seq<Itav>>): Option<seq<Itav>> {
    if rest == None then None else Some(pushed + rest.value)
  }

  lemma {:induction false} JoinedTwice(a: seq<Itav>, b: seq<Itav>, rest: Option<seq<Itav>>)
    ensures Joined([], rest) == rest
    ensures Joined(a, Joined(b, rest)) == Joined(a + b, rest)
  {
    if rest.Some? {
      assert [] + rest.value == rest.value;
      assert a + (b + rest.value) == a + b + rest.value;
    }
  }

  lemma {:induction false} ParseLast(oids: RevInfo.OidTable, s: string, i: Itav)
    requires ParseOne(oids, s) == Some((i, ""))
    ensures ParseAll(oids, s) == Some([i])
  {
  }

  lemma {:induction false} ParseCons(oids: RevInfo.OidTable, s: string, i: Itav, tail: string, rest: seq<Itav>)
    requires ParseOne(oids, s) == Some((i, tail)) && tail != "" && ParseAll(oids, tail) == Some(rest)
    ensures ParseAll(oids, s) == Some([i] + rest)
  {
  }

  lemma {:induction false} ParseStep(oids: RevInfo.OidTable, s: string, one: Option<(Itav, string)>)
    requires one == ParseOne(oids, s)
    ensures ParseAll(oids, s) ==
            if one == None then None
            else if one.value.1 == "" then Some([one.value.0])
            else Joined([one.value.0], ParseAll(oids, one.value.1))
  {
  }

  /** handle_opt_geninfo (apps/cmp.c:2112-2203): the items pushed to the context, or None on an error. */
  method HandleGeninfo(oids: RevInfo.OidTable, geninfo: string) returns (r: Option<seq<Itav>>)
    ensures GeninfoOutcome(oids, geninfo, r)
    ensures r == ParseAll(oids, geninfo)
  {
    hide GeninfoOutcome;
    GeninfoExactly(oids, geninfo);
    var pushed: seq<Itav> := [];
    var ptr := geninfo;
    JoinedTwice([], [], ParseAll(oids, geninfo));
    while true
      invariant ParseAll(oids, geninfo) == Joined(pushed, ParseAll(oids, ptr))
      decreases |ptr|
    {
      var one := ReadItem(oids, ptr);
      ParseStep(oids, ptr, one);
      if one == None { return None; }
      JoinedTwice(pushed, [one.value.0], ParseAll(oids, one.value.1));
      pushed := pushed + [one.value.0];
      ptr := one.value.1;
      if ptr == "" { return Some(pushed); }
    }
  }

  /** One turn of the loop, with the cuts as slices. */
  method ReadItem(oids: RevInfo.OidTable, s: string) returns (r: Option<(Itav, string)>)
    ensures r == ParseOne(oids, s)
    ensures r.Some? ==> |r.value.1| < |s|
  {
    var p := SkipSpaces(s, 0);
    r := ReadTrimmed(oids, s[p..]);
  }

  method ReadTrimmed(oids: RevInfo.OidTable, t: string) returns (r: Option<(Itav, string)>)
    ensures r == ParseTrimmed(oids, t)
  {
    var c := RevInfo.StrChr(t, 0, ':');
    assert t[0..] == t;
    if c == |t| || oids(t[..c]) == None { return None; }
    var v := ReadValue(t[c + 1..]);
    if v == None { return None; }
    return Some((Itav(t[..c], v.value.0), v.value.1));
  }

  method ReadValue(s: string) returns (r: Option<(Value, string)>)
    ensures r == ParseValue(s)
  {
    if HasPrefix(s, 'I', 'N', 'T') {
      var ptr := s[4..];
      var (value, end) := StrToL(ptr);
      if end == 0 { return None; }
      if end < |ptr| {
        if ptr[end] != ',' { return None; }
        return Some((IntValue(value), ptr[end + 1..]));
      }
      return Some((IntValue(value), ""));
    } else if HasPrefix(s, 'S', 'T', 'R') {
      var ptr := s[4..];
      var end := RevInfo.StrChr(ptr, 0, ',');
      assert ptr[0..] == ptr;
      return Some((StrValue(ptr[..end]), if end < |ptr| then ptr[end + 1..] else ""));
    }
    return None;
  }

  // ---- Printing and reading back ----

  function PrintValue(v: Value): string {
    match v
    case IntValue(n) => "int:" + DecInt(n)
    case StrValue(s) => "str:" + s
  }

  function PrintOne(i: Itav): string { i.oid + ":" + PrintValue(i.value) }

  function PrintAll(items: seq<Itav>): string
    decreases |items|, 0
  {
    if items == [] then "" else PrintOne(items[0]) + PrintTail(items[1..])
  }

  function PrintTail(items: seq<Itav>): string
    decreases |items|, 1
  {
    if items == [] then "" else "," + PrintAll(items)
  }

  predicate Printable(oids: RevInfo.OidTable, i: Itav) {
    oids(i.oid).Some? && ':' !in i.oid && (i.oid != "" ==> !IsSpace(i.oid[0])) && PrintableValue(i.value)
  }

  predicate PrintableValue(v: Value) {
    match v
    case IntValue(n) => LONG_MIN <= n <= LONG_MAX
    case StrValue(s) => ',' !in s
  }

  ghost predicate AllPrintable(oids: RevInfo.OidTable, items: seq<Itav>) {
    items == [] || (Printable(oids, items[0]) && AllPrintable(oids, items[1..]))
  }

  /** What may follow an item. */
  predicate Tail(more: string) { more == "" || more[0] == ',' }

  function Untail(more: string): string { if more == "" then "" else more[1..] }

  lemma {:induction false} ReadIntBack(n: int, more: string)
    requires LONG_MIN <= n <= LONG_MAX && Tail(more)
    ensures ParseInt(DecInt(n) + more) == Some((IntValue(n), Untail(more)))
  {
    StrToLPrinted(n, more);
    var s := DecInt(n) + more;
    if more != "" { assert s[|DecInt(n)| + 1..] == more[1..]; }
  }

  lemma {:induction false} ReadStrBack(s: string, more: string)
    requires ',' !in s && Tail(more)
    ensures var p := RevInfo.Find(s + more, ',');
            p == |s| && (s + more)[..p] == s && Behind(s + more, p) == Untail(more)
  {
    RevInfo.FindInConcat(s, more, ',');
    if more != "" { assert (s + more)[|s| + 1..] == more[1..]; }
  }

  lemma {:induction false} ReadValueBack(v: Value, more: string)
    requires Tail(more) && PrintableValue(v)
    ensures ParseValue(PrintValue(v) + more) == Some((v, Untail(more)))
  {
    if v.IntValue? {
      IntPrefix(DecInt(v.n), more);
      ReadIntBack(v.n, more);
    } else {
      StrPrefix(v.s, more);
      ReadStrBack(v.s, more);
    }
  }

  lemma {:induction false} IntPrefix(text: string, more: string)
    ensures ParseValue("int:" + text + more) == ParseInt(text + more)
  {
    var s := "int:" + text + more;
    assert s[4..] == text + more;
    assert s[0] == 'i' && s[1] == 'n' && s[2] == 't' && s[3] == ':';
  }

  lemma {:induction false} StrPrefix(text: string, more: string)
    ensures var s, p := text + more, RevInfo.Find(text + more, ',');
            ParseValue("str:" + text + more) == Some((StrValue(s[..p]), Behind(s, p)))
  {
    var s := "str:" + text + more;
    assert s[4..] == text + more;
    assert s[0] == 's' && s[1] == 't' && s[2] == 'r' && s[3] == ':';
  }

  lemma {:induction false} ReadOneBack(oids: RevInfo.OidTable, i: Itav, more: string)
    requires Printable(oids, i) && Tail(more)
    ensures ParseOne(oids, PrintOne(i) + more) == Some((i, Untail(more)))
  {
    var s := PrintOne(i) + more;
    var v := PrintValue(i.value) + more;
    assert s == i.oid + ":" + v;
    ReadOidBack(oids, i.oid, v);
    ReadValueBack(i.value, more);
  }

  lemma {:induction false} ReadOidBack(oids: RevInfo.OidTable, oid: string, v: string)
    requires oids(oid).Some? && ':' !in oid && (oid != "" ==> !IsSpace(oid[0]))
    ensures ParseOne(oids, oid + ":" + v) ==
            var p := ParseValue(v);
            if p == None then None else Some((Itav(oid, p.value.0), p.value.1))
  {
    var s := oid + ":" + v;
    assert s == oid + (":" + v);
    assert SkipSpaces(s, 0) == 0 && s[0..] == s;
    RevInfo.FindInConcat(oid, ":" + v, ':');
    assert s[..|oid|] == oid && s[|oid| + 1..] == v;
  }

  /** Every printed list of items is recovered. */
  lemma {:induction false} GeninfoRoundTrip(oids: RevInfo.OidTable, items: seq<Itav>)
    requires items != [] && AllPrintable(oids, items)
    ensures ParseAll(oids, PrintAll(items)) == Some(items)
  {
    var i, rest := items[0], items[1..];
    var s, tail := PrintAll(items), PrintTail(rest);
    assert s == PrintOne(i) + tail;
    ReadOneBack(oids, i, tail);
    assert items == [i] + rest;
    if rest == [] {
      ParseLast(oids, s, i);
      assert items == [i];
    } else {
      GeninfoRoundTrip(oids, rest);
      PrintNonempty(rest);
      assert Untail(tail) == PrintAll(rest);
      ParseCons(oids, s, i, PrintAll(rest), rest);
    }
  }

  // ---- Which texts are lists of items ----

  /** An item as it stands in the text: blanks, an object, a colon, "int:" or "str:" in any case, and its text. */
  datatype Piece = Piece(blanks: string, oid: string, tag: string, text: string, value: Value)

  function PieceText(p: Piece): string { p.blanks + (p.oid + ":" + (p.tag + p.text)) }

  /** The object is known and has no colon; an integer is blanks, a sign and digits, and stands for the nearest 64-bit
      number; a string has no comma. */
  ghost predicate PieceOk(oids: RevInfo.OidTable, p: Piece) {
    AllSpaces(p.blanks) && oids(p.oid).Some? && ':' !in p.oid && (p.oid != "" ==> !IsSpace(p.oid[0])) &&
    match p.value
    case IntValue(n) => Serial.Upper(p.tag) == "INT:" && IntText(p.text, n)
    case StrValue(s) => Serial.Upper(p.tag) == "STR:" && p.text == s && ',' !in s
  }

  ghost predicate IntText(text: string, n: int) {
    exists neg, mag :: NumberText(text, neg, mag) && n == Nearest(if neg then -(mag as int) else mag)
  }

  function Nearest(n: int): int {
    if n > 0x7FFF_FFFF_FFFF_FFFF then 0x7FFF_FFFF_FFFF_FFFF
    else if n < -0x8000_0000_0000_0000 then -0x8000_0000_0000_0000 else n
  }

  function PiecesText(ps: seq<Piece>, comma: bool): string
    requires ps != []
  {
    if |ps| == 1 then PieceText(ps[0]) + (if comma then "," else "")
    else PieceText(ps[0]) + ("," + PiecesText(ps[1..], comma))
  }

  function ItemsOf(ps: seq<Piece>): seq<Itav> {
    if ps == [] then [] else [Itav(ps[0].oid, ps[0].value)] + ItemsOf(ps[1..])
  }

  ghost predicate AllPieces(oids: RevInfo.OidTable, ps: seq<Piece>) {
    ps != [] && forall i :: 0 <= i < |ps| ==> PieceOk(oids, ps[i])
  }

  /** The text is that of these pieces, with or without a comma at the end. */
  ghost predicate Lists(oids: RevInfo.OidTable, s: string, ps: seq<Piece>, comma: bool) {
    AllPieces(oids, ps) && s == PiecesText(ps, comma)
  }

  lemma {:induction false} IntRead(text: string, more: string, neg: bool, mag: nat)
    requires NumberText(text, neg, mag) && Tail(more)
    ensures ParseInt(text + more) == Some((IntValue(Nearest(if neg then -(mag as int) else mag)), Untail(more)))
  {
    hide Scan, Decimal.Value;
    var sp, sign, ds :| NumberParts(text, sp, sign, ds) && neg == (sign == "-") && mag == Decimal.Value(ds);
    ScanText(sp, sign, ds, more);
    var s := text + more;
    assert s == sp + sign + ds + more && |text| > 0;
    if more != "" { assert s[|text| + 1..] == more[1..]; }
  }

  lemma {:induction false} TagRead(tag: string, word: string)
    requires Serial.Upper(tag) == word && |word| == 4 && word[3] == ':'
    ensures |tag| == 4 && tag[3] == ':'
    ensures Serial.ToUpper(tag[0]) == word[0] && Serial.ToUpper(tag[1]) == word[1] && Serial.ToUpper(tag[2]) == word[2]
  {
    var u := Serial.Upper(tag);
    assert |u| == |tag|;
    assert u[0] == Serial.ToUpper(tag[0]) && u[1] == Serial.ToUpper(tag[1]) && u[2] == Serial.ToUpper(tag[2]) &&
           u[3] == Serial.ToUpper(tag[3]);
  }

  /** A piece and what follows it. */
  lemma {:induction false} PieceRead(oids: RevInfo.OidTable, p: Piece, more: string)
    requires PieceOk(oids, p) && Tail(more)
    ensures ParseOne(oids, PieceText(p) + more) == Some((Itav(p.oid, p.value), Untail(more)))
  {
    hide ParseValue, ParseOne, IntText, Serial.Upper;
    PieceValue(oids, p, more);
    PieceOid(oids, p.blanks, p.oid, p.tag + p.text + more);
    Regroup(p.blanks, p.oid, p.tag, p.text, more);
  }

  lemma {:induction false} PieceValue(oids: RevInfo.OidTable, p: Piece, more: string)
    requires PieceOk(oids, p) && Tail(more)
    ensures ParseValue(p.tag + p.text + more) == Some((p.value, Untail(more)))
  {
    hide ParseInt, RevInfo.Find, NumberText;
    var s := p.tag + p.text + more;
    match p.value {
      case IntValue(n) =>
        TagRead(p.tag, "INT:");
        assert s[4..] == p.text + more;
        var neg, mag :| NumberText(p.text, neg, mag) && n == Nearest(if neg then -(mag as int) else mag);
        IntRead(p.text, more, neg, mag);
      case StrValue(str) =>
        TagRead(p.tag, "STR:");
        assert s[4..] == p.text + more;
        ReadStrBack(str, more);
    }
  }

  lemma {:induction false} PieceOid(oids: RevInfo.OidTable, blanks: string, oid: string, v: string)
    requires AllSpaces(blanks) && oids(oid).Some? && ':' !in oid && (oid != "" ==> !IsSpace(oid[0]))
    ensures ParseOne(oids, blanks + (oid + ":" + v)) ==
            var p := ParseValue(v);
            if p == None then None else Some((Itav(oid, p.value.0), p.value.1))
  {
    hide ParseValue;
    var t := oid + ":" + v;
    var s := blanks + t;
    assert s[0..|blanks|] == blanks && s[|blanks|..] == t && s[|blanks|] == t[0];
    SkipsSpaces(s, 0, |blanks|);
    assert t == oid + (":" + v);
    RevInfo.FindInConcat(oid, ":" + v, ':');
    assert t[..|oid|] == oid && t[|oid| + 1..] == v;
  }

  /** What is parsed is a piece. */
  lemma {:induction false} PieceThere(oids: RevInfo.OidTable, s: string) returns (p: Piece, more: string)
    requires ParseOne(oids, s).Some?
    ensures PieceOk(oids, p) && Tail(more) && s == PieceText(p) + more
    ensures ParseOne(oids, s) == Some((Itav(p.oid, p.value), Untail(more)))
  {
    hide ParseValue, RevInfo.Find;
    var b := SkipSpaces(s, 0);
    SpaceRun(s, 0);
    var t := s[b..];
    var c := RevInfo.Find(t, ':');
    var v := t[c + 1..];
    var tag, text, value, rest := ValueThere(v);
    more := rest;
    p := Piece(s[0..b], t[..c], tag, text, value);
    assert t[c] == ':' && t == t[..c] + ":" + t[c + 1..];
    assert c > 0 ==> t[..c][0] == t[0] == s[b];
    assert s == s[0..b] + s[b..];
    Regroup(p.blanks, p.oid, tag, text, more);
  }

  lemma {:induction false} Regroup(a: string, b: string, c: string, d: string, e: string)
    ensures a + (b + ":" + (c + d + e)) == a + (b + ":" + (c + d)) + e
  {
  }

  lemma {:induction false} ValueThere(v: string) returns (tag: string, text: string, value: Value, more: string)
    requires ParseValue(v).Some?
    ensures v == tag + text + more && Tail(more) && ParseValue(v) == Some((value, Untail(more)))
    ensures match value
      case IntValue(n) => Serial.Upper(tag) == "INT:" && IntText(text, n)
      case StrValue(s) => Serial.Upper(tag) == "STR:" && text == s && ',' !in s
  {
    hide IntText, ParseInt, RevInfo.Find;
    tag := v[..4];
    var num := v[4..];
    assert Serial.Upper(tag) == [Serial.ToUpper(v[0]), Serial.ToUpper(v[1]), Serial.ToUpper(v[2]), ':'];
    var e;
    if HasPrefix(v, 'I', 'N', 'T') {
      e, value := IntThere(num);
    } else {
      e := RevInfo.Find(num, ',');
      value := StrValue(num[..e]);
    }
    text, more := num[..e], num[e..];
    assert v == tag + num && num == text + more;
    if e < |num| { assert more[0] == ',' && more[1..] == num[e + 1..]; }
  }

  lemma {:induction false} IntThere(num: string) returns (e: nat, value: Value)
    requires ParseInt(num).Some?
    ensures e <= |num| && (e < |num| ==> num[e] == ',') && ParseInt(num) == Some((value, Behind(num, e)))
    ensures value.IntValue? && IntText(num[..e], value.n)
  {
    hide NumberText, Scan;
    var (n, end) := StrToL(num);
    ScannedText(num);
    e, value := end, IntValue(n);
  }

  /** Every list of pieces is read as its items. */
  lemma {:induction false} ListRead(oids: RevInfo.OidTable, ps: seq<Piece>, comma: bool)
    requires AllPieces(oids, ps)
    ensures ParseAll(oids, PiecesText(ps, comma)) == Some(ItemsOf(ps))
  {
    hide PieceOk, ParseOne, PieceText;
    var p, rest, s := ps[0], ps[1..], PiecesText(ps, comma);
    assert PieceOk(oids, p);
    if rest == [] {
      PieceRead(oids, p, if comma then "," else "");
      ParseLast(oids, s, Itav(p.oid, p.value));
      OneItem(p);
      assert ps == [p];
    } else {
      var tail := PiecesText(rest, comma);
      assert AllPieces(oids, rest);
      ListRead(oids, rest, comma);
      PieceRead(oids, p, "," + tail);
      assert ("," + tail)[1..] == tail;
      TextNonempty(rest, comma);
      ParseCons(oids, s, Itav(p.oid, p.value), tail, ItemsOf(rest));
    }
  }

  lemma {:induction false} OneItem(p: Piece)
    ensures ItemsOf([p]) == [Itav(p.oid, p.value)]
  {
    assert [p][1..] == [];
  }

  lemma {:induction false} MoreItems(p: Piece, rest: seq<Piece>)
    ensures ItemsOf([p] + rest) == [Itav(p.oid, p.value)] + ItemsOf(rest)
  {
    assert ([p] + rest)[1..] == rest;
  }

  lemma {:induction false} TextNonempty(ps: seq<Piece>, comma: bool)
    requires ps != []
    ensures PiecesText(ps, comma) != ""
  {
    assert |PieceText(ps[0])| >= 1;
  }

  /** Whatever is read is a list of pieces. */
  lemma {:induction false} ListThere(oids: RevInfo.OidTable, s: string) returns (ps: seq<Piece>, comma: bool)
    requires ParseAll(oids, s).Some?
    ensures Lists(oids, s, ps, comma) && ParseAll(oids, s) == Some(ItemsOf(ps))
    decreases |s|
  {
    hide PieceOk, PieceText, ParseOne, ItemsOf;
    ParseStep(oids, s, ParseOne(oids, s));
    var p, more := PieceThere(oids, s);
    if Untail(more) == "" {
      ps, comma := [p], more != "";
      assert more == if comma then "," else "";
      ParseLast(oids, s, Itav(p.oid, p.value));
      OneItem(p);
    } else {
      var rest;
      rest, comma := ListThere(oids, more[1..]);
      ps := [p] + rest;
      assert ps[1..] == rest && more == "," + more[1..];
      ParseCons(oids, s, Itav(p.oid, p.value), more[1..], ItemsOf(rest));
      MoreItems(p, rest);
    }
  }

  /** A text is accepted exactly when it is a list of pieces, and then it has their items. */
  ghost predicate GeninfoOutcome(oids: RevInfo.OidTable, s: string, r: Option<seq<Itav>>) {
    (r.Some? <==> exists ps, comma :: Lists(oids, s, ps, comma)) &&
    forall ps, comma :: Lists(oids, s, ps, comma) ==> r == Some(ItemsOf(ps))
  }

  lemma {:induction false} GeninfoExactly(oids: RevInfo.OidTable, s: string)
    ensures GeninfoOutcome(oids, s, ParseAll(oids, s))
  {
    hide ParseAll, AllPieces;
    forall ps, comma | Lists(oids, s, ps, comma) ensures ParseAll(oids, s) == Some(ItemsOf(ps)) {
      ListRead(oids, ps, comma);
    }
    if ParseAll(oids, s).Some? { var ps, comma := ListThere(oids, s); }
  }

  lemma {:induction false} PrintNonempty(items: seq<Itav>)
    requires items != []
    ensures PrintAll(items) != ""
  {
    assert |PrintOne(items[0])| >= 1;
  }
}
