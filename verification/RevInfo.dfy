/** The revocation column of the database: printing and parsing (apps/ca.c). */
module RevInfo {
  import opened Base
  import opened CStr
  import opened TimeText
  import Serial

  /** REVINFO_TYPE. */
  datatype RevType = RevValid | RevNone | CrlReason | Hold | KeyCompromise | CaCompromise

  /** OBJ_txt2obj: the object a text names, if any. */
  type OidTable = string -> Option<int>

  const CRL_REASONS: seq<string> :=
    ["unspecified", "keyCompromise", "CACompromise", "affiliationChanged", "superseded",
     "cessationOfOperation", "certificateHold", "removeFromCRL",
     "holdInstruction", "keyTime", "CAkeyTime"]

  const N_REASONS := 11

  /** OPENSSL_strcasecmp(a, b) == 0. */
  predicate SameCase(a: string, b: string) { Serial.Upper(a) == Serial.Upper(b) }

  /** The first of CRL_REASONS[i..n] equal to s up to case, or n. */
  function ReasonIndex(s: string, i: nat, n: nat): (r: nat)
    requires i <= n <= N_REASONS
    ensures i <= r <= n
    ensures r < n ==> SameCase(s, CRL_REASONS[r])
    ensures forall k :: i <= k < r ==> !SameCase(s, CRL_REASONS[k])
    decreases n - i
  {
    if i == n || SameCase(s, CRL_REASONS[i]) then i else ReasonIndex(s, i + 1, n)
  }

  predicate ArgOk(oid: OidTable, t: RevType, arg: string) {
    match t
    case RevValid | RevNone => true
    case CrlReason => ReasonIndex(arg, 0, 8) < 8
    case Hold => oid(arg).Some?
    case KeyCompromise | CaCompromise => GenOk(arg)
  }

  /** The column "time[,reason[,argument]]" and its parts. */
  datatype Parts = Parts(time: string, reason: Option<string>, arg: Option<string>)

  function Suffix(o: Option<string>): string { if o.Some? then "," + o.value else "" }

  function Join(p: Parts): string { p.time + Suffix(p.reason) + Suffix(p.arg) }

  /** The parts stored for a revocation at time text now. */
  function StoredParts(oid: OidTable, t: RevType, arg: string, now: string): Parts
    requires ArgOk(oid, t, arg)
  {
    match t
    case RevValid | RevNone => Parts(now, None, None)
    case CrlReason => Parts(now, Some(CRL_REASONS[ReasonIndex(arg, 0, 8)]), None)
    case Hold => Parts(now, Some(CRL_REASONS[8]), Some(arg))
    case KeyCompromise => Parts(now, Some(CRL_REASONS[9]), Some(arg))
    case CaCompromise => Parts(now, Some(CRL_REASONS[10]), Some(arg))
  }

  function Stored(oid: OidTable, t: RevType, arg: string, now: string): string
    requires ArgOk(oid, t, arg)
  {
    Join(StoredParts(oid, t, arg, now))
  }

  /** make_revocation_str (apps/ca.c:2383-2464): refuses exactly the invalid arguments, and the
      buffer it sizes beforehand is filled to the last byte. */
  method MakeRevocationStr(oid: OidTable, t: RevType, arg: string, now: string)
    returns (ok: bool, str: array<char>)
    requires '\0' !in arg && '\0' !in now
    ensures ok <==> ArgOk(oid, t, arg)
    ensures ok ==> Holds(str, str.Length, Stored(oid, t, arg, now))
    ensures ok ==> str.Length == |Stored(oid, t, arg, now)| + 1
  {
    var reason, other;
    ok, reason, other := ChooseReason(oid, t, arg);
    if ok {
      str := Assemble(now, reason, other);
    } else {
      str := new char[0];
    }
  }

  method ChooseReason(oid: OidTable, t: RevType, arg: string)
    returns (ok: bool, reason: Option<string>, other: Option<string>)
    requires '\0' !in arg
    ensures ok <==> ArgOk(oid, t, arg)
    ensures ok ==> forall now :: StoredParts(oid, t, arg, now) == Parts(now, reason, other)
    ensures reason.Some? ==> '\0' !in reason.value
    ensures other.Some? ==> '\0' !in other.value
  {
    ok, reason, other := true, None, None;
    match t {
      case RevValid =>
      case RevNone =>
      case CrlReason =>
        ok, reason := MatchReason(arg);
      case Hold =>
        ok := oid(arg).Some?;
        reason, other := Some("holdInstruction"), Some(arg);
      case KeyCompromise =>
        ok := GenOk(arg);
        reason, other := Some("keyTime"), Some(arg);
      case CaCompromise =>
        ok := GenOk(arg);
        reason, other := Some("CAkeyTime"), Some(arg);
    }
  }

  method MatchReason(arg: string) returns (ok: bool, reason: Option<string>)
    ensures ok <==> ReasonIndex(arg, 0, 8) < 8
    ensures ok ==> reason == Some(CRL_REASONS[ReasonIndex(arg, 0, 8)])
    ensures reason.Some? ==> '\0' !in reason.value
  {
    var i := 0;
    while i < 8 && !SameCase(arg, CRL_REASONS[i])
      invariant 0 <= i <= 8 && ReasonIndex(arg, 0, 8) == ReasonIndex(arg, i, 8)
    {
      i := i + 1;
    }
    if i == 8 { return false, None; }
    NoNul(i);
    return true, Some(CRL_REASONS[i]);
  }

  lemma {:induction false} NoNul(i: nat)
    requires i < N_REASONS
    ensures '\0' !in CRL_REASONS[i]
  {
  }

  /** The allocation and the copies at the end of make_revocation_str. */
  method Assemble(now: string, reason: Option<string>, other: Option<string>) returns (str: array<char>)
    requires '\0' !in now && (reason.Some? ==> '\0' !in reason.value) && (other.Some? ==> '\0' !in other.value)
    ensures Holds(str, str.Length, Join(Parts(now, reason, other)))
    ensures str.Length == |Join(Parts(now, reason, other))| + 1
  {
    var i := |now| + 1;
    if reason.Some? { i := i + |reason.value| + 1; }
    if other.Some? { i := i + |other.value| + 1; }
    str := new char[i];
    var _ := StrLcpy(str, 0, now, i);
    assert str[..|now|] == str[0..|now|] == now[..|now|] == now;
    AppendPart(str, now, reason);
    AppendPart(str, now + Suffix(reason), other);
  }

  method AppendPart(str: array<char>, ghost s: string, part: Option<string>)
    requires Holds(str, str.Length, s) && (part.Some? ==> '\0' !in part.value)
    requires |s| + |Suffix(part)| < str.Length
    modifies str
    ensures Holds(str, str.Length, s + Suffix(part))
  {
    if part.Some? {
      Append(str, ",", s);
      Append(str, part.value, s + ",");
      assert s + "," + part.value == s + Suffix(part);
    } else {
      assert s + Suffix(part) == s;
    }
  }

  /** The position of the first c in s, or |s|. */
  function Find(s: string, c: char): (r: nat)
    ensures r <= |s| && (r < |s| ==> s[r] == c) && c !in s[..r]
  {
    if s == "" || s[0] == c then 0 else
      var r := 1 + Find(s[1..], c);
      assert s[..r] == [s[0]] + s[1..][..r - 1];
      r
  }

  function Split(str: string): Parts {
    var p := Find(str, ',');
    if p == |str| then Parts(str, None, None) else SplitRest(str[..p], str[p + 1..])
  }

  function SplitRest(time: string, rest: string): Parts {
    var q := Find(rest, ',');
    Parts(time, Some(rest[..q]), if q == |rest| then None else Some(rest[q + 1..]))
  }

  /** What unpack_revinfo leaves in its out-parameters. On failure the revocation time may be set; an ASN1_TIME that was
      created and never filled is the empty text. */
  datatype Unpacked = Unpacked(ok: bool, time: string, reason: int, hold: Option<int>, inv: Option<string>)

  const FAILED := Unpacked(false, "", -1, None, None)

  /** The OCSP/CRL code for entry i of CRL_REASONS. */
  function Code(i: nat): int {
    if i == 7 then 8 else if i == 8 then 6 else if i == 9 then 1 else if i == 10 then 2 else i
  }

  /** The meaning of the reason that stands at place i of CRL_REASONS. */
  function Interpret(oid: OidTable, time: string, i: nat, arg: Option<string>): Unpacked {
    var failed := FAILED.(time := time);
    if i >= N_REASONS then failed
    else if i == 8 then
      if arg.Some? && oid(arg.value).Some? then Unpacked(true, time, Code(i), oid(arg.value), None) else failed
    else if i == 9 || i == 10 then
      if arg.Some? && GenOk(arg.value) then Unpacked(true, time, Code(i), None, arg) else failed
    else Unpacked(true, time, Code(i), None, None)
  }

  function Unpack(oid: OidTable, str: string): Unpacked {
    var parts := Split(str);
    if !UtcOk(parts.time) then FAILED
    else if parts.reason == None then Unpacked(true, parts.time, -1, None, None)
    else Interpret(oid, parts.time, ReasonIndex(parts.reason.value, 0, N_REASONS), parts.arg)
  }

  lemma {:induction false} InterpretShape(oid: OidTable, time: string, i: nat, arg: Option<string>)
    ensures var u := Interpret(oid, time, i, arg); u.time == time && (u.inv == None || u.hold == None)
  {
  }

  /** A time is set exactly when what stands before the first comma is a UTCTime, and a column never carries both an
      invalidity date and a hold instruction. */
  lemma {:induction false} UnpackShape(oid: OidTable, str: string)
    ensures var u := Unpack(oid, str);
            (u.time == "" <==> !UtcOk(str[..Find(str, ',')])) && (u.ok ==> u.time != "") &&
            (u.inv == None || u.hold == None)
  {
    hide Interpret, ReasonIndex, Accepts;
    var parts := Split(str);
    assert str[..|str|] == str;
    assert parts.time == str[..Find(str, ',')];
    if UtcOk(parts.time) { NotEmpty(parts.time); }
    if parts.reason.Some? {
      InterpretShape(oid, parts.time, ReasonIndex(parts.reason.value, 0, N_REASONS), parts.arg);
    }
  }

  lemma {:induction false} NotEmpty(s: string)
    requires UtcOk(s)
    ensures s != ""
  {
  }

  /** strchr. */
  method StrChr(s: string, from: nat, c: char) returns (p: nat)
    requires from <= |s|
    ensures p == from + Find(s[from..], c)
  {
    p := from;
    while p < |s| && s[p] != c
      invariant from <= p <= |s|
      invariant from + Find(s[from..], c) == p + Find(s[p..], c)
    {
      assert s[p..][1..] == s[p + 1..];
      p := p + 1;
    }
  }

  /** The cuts at the first two commas (apps/ca.c:2584-2598). */
  method CutColumn(str: string) returns (rtime: string, reason: Option<string>, arg: Option<string>)
    ensures Parts(rtime, reason, arg) == Split(str)
  {
    reason, arg := None, None;
    var p := StrChr(str, 0, ',');
    assert str[0..] == str;
    rtime := str[..p];
    if p < |str| {
      var q := StrChr(str, p + 1, ',');
      reason := Some(str[p + 1..q]);
      ghost var rest := str[p + 1..];
      assert str[p + 1..q] == rest[..q - p - 1];
      if q < |str| {
        arg := Some(str[q + 1..]);
        assert str[q + 1..] == rest[q - p..];
      }
    }
  }

  /** unpack_revinfo (apps/ca.c:2567-2676). */
  method UnpackRevinfo(oid: OidTable, str: string)
    returns (ret: bool, revtm: string, reason: int, hold: Option<int>, inv: Option<string>)
    ensures Unpacked(ret, revtm, reason, hold, inv) == Unpack(oid, str)
  {
    ret, revtm, reason, hold, inv := false, "", -1, None, None;
    var rtime, reasonStr, arg := CutColumn(str);
    if !UtcOk(rtime) { return; }
    revtm := rtime;
    var code := -1;
    if reasonStr.Some? {
      var i := 0;
      while i < N_REASONS && !SameCase(reasonStr.value, CRL_REASONS[i])
        invariant 0 <= i <= N_REASONS
        invariant ReasonIndex(reasonStr.value, 0, N_REASONS) == ReasonIndex(reasonStr.value, i, N_REASONS)
      {
        i := i + 1;
      }
      if i == N_REASONS { return; }
      code := i;
      if code == 7 {
        code := 8;
      } else if code == 8 {
        if arg == None || oid(arg.value) == None { return; }
        hold := oid(arg.value);
        code := 6;
      } else if code == 9 || code == 10 {
        if arg == None || !GenOk(arg.value) { return; }
        inv := arg;
        code := if code == 9 then 1 else 2;
      }
    }
    ret, reason := true, code;
  }

  /** make_revoked: 0 error, 1 plain entry, 2 entry with extensions (apps/ca.c:2474-2524). */
  function MakeRevoked(u: Unpacked): int {
    if !u.ok then 0 else if u.reason != -1 then 2 else 1
  }

  /** The reason code of section 5.3.1 of RFC 5280 that a revocation asks for; -1 for none. */
  function Rfc5280Reason(oid: OidTable, t: RevType, arg: string): int
    requires ArgOk(oid, t, arg)
  {
    match t
    case RevValid | RevNone => -1
    case CrlReason =>
      if SameCase(arg, "unspecified") then 0
      else if SameCase(arg, "keyCompromise") then 1
      else if SameCase(arg, "cACompromise") then 2
      else if SameCase(arg, "affiliationChanged") then 3
      else if SameCase(arg, "superseded") then 4
      else if SameCase(arg, "cessationOfOperation") then 5
      else if SameCase(arg, "certificateHold") then 6
      else 8
    case Hold => 6
    case KeyCompromise => 1
    case CaCompromise => 2
  }

  lemma {:induction false} ReasonsDistinct(i: nat, j: nat)
    requires i < N_REASONS && j < N_REASONS && i != j
    ensures !SameCase(CRL_REASONS[i], CRL_REASONS[j])
  {
    var a, b := Serial.Upper(CRL_REASONS[i]), Serial.Upper(CRL_REASONS[j]);
    assert |a| == |CRL_REASONS[i]| && |b| == |CRL_REASONS[j]|;
    assert a[0] == Serial.ToUpper(CRL_REASONS[i][0]) && b[0] == Serial.ToUpper(CRL_REASONS[j][0]);
  }

  /** A stored reason name is found again at its own place. */
  lemma {:induction false} ReasonFound(i: nat)
    requires i < N_REASONS
    ensures ReasonIndex(CRL_REASONS[i], 0, N_REASONS) == i
  {
    var r := ReasonIndex(CRL_REASONS[i], 0, N_REASONS);
    if r != i {
      if r < N_REASONS { ReasonsDistinct(i, r); }
    }
  }

  lemma {:induction false} NoComma(i: nat)
    requires i < N_REASONS
    ensures ',' !in CRL_REASONS[i]
  {
  }

  lemma {:induction false} FindInConcat(a: string, b: string, c: char)
    requires c !in a && (b == "" || b[0] == c)
    ensures Find(a + b, c) == |a|
  {
    if a == "" {
      assert a + b == b;
    } else {
      assert (a + b)[1..] == a[1..] + b;
      FindInConcat(a[1..], b, c);
    }
  }

  lemma {:induction false} CutAtComma(a: string, b: string)
    requires ',' !in a
    ensures Find(a + "," + b, ',') == |a|
    ensures (a + "," + b)[..|a|] == a && (a + "," + b)[|a| + 1..] == b
  {
    FindInConcat(a, "," + b, ',');
    assert a + "," + b == a + ("," + b);
  }

  lemma {:induction false} NoCut(a: string)
    requires ',' !in a
    ensures Find(a, ',') == |a|
  {
    FindInConcat(a, "", ',');
    assert a + "" == a;
  }

  lemma {:induction false} SplitRestJoin(time: string, reason: string, arg: Option<string>)
    requires ',' !in reason
    ensures SplitRest(time, reason + Suffix(arg)) == Parts(time, Some(reason), arg)
  {
    var s := reason + Suffix(arg);
    if arg.Some? {
      assert s == reason + "," + arg.value;
      CutAtComma(reason, arg.value);
    } else {
      assert s == reason;
      NoCut(reason);
    }
  }

  /** Cutting at the first two commas recovers the parts, whatever the argument contains. */
  lemma {:induction false} SplitJoin(p: Parts)
    requires ',' !in p.time && (p.reason.Some? ==> ',' !in p.reason.value) && (p.reason == None ==> p.arg == None)
    ensures Split(Join(p)) == p
  {
    if p.reason == None {
      NoCut(p.time);
      assert Join(p) == p.time;
    } else {
      var rest := p.reason.value + Suffix(p.arg);
      assert Join(p) == p.time + "," + rest;
      CutAtComma(p.time, rest);
      SplitRestJoin(p.time, p.reason.value, p.arg);
    }
  }

  lemma {:induction false} ReasonCode(oid: OidTable, arg: string)
    requires ArgOk(oid, CrlReason, arg)
    ensures Code(ReasonIndex(arg, 0, 8)) == Rfc5280Reason(oid, CrlReason, arg)
  {
    assert Serial.Upper("cACompromise") == Serial.Upper("CACompromise");
  }

  /** The place of the reason name that is stored, or N_REASONS when none is. */
  function Place(t: RevType, arg: string): nat {
    match t
    case RevValid | RevNone => N_REASONS
    case CrlReason => ReasonIndex(arg, 0, 8)
    case Hold => 8
    case KeyCompromise => 9
    case CaCompromise => 10
  }

  lemma {:induction false} UnpackStored(oid: OidTable, t: RevType, arg: string, now: string)
    requires ArgOk(oid, t, arg) && ',' !in now
    ensures Unpack(oid, Stored(oid, t, arg, now)) ==
            if !UtcOk(now) then FAILED
            else if Place(t, arg) == N_REASONS then Unpacked(true, now, -1, None, None)
            else Interpret(oid, now, Place(t, arg), StoredParts(oid, t, arg, now).arg)
  {
    var i := Place(t, arg);
    if i < N_REASONS {
      NoComma(i);
      ReasonFound(i);
      assert StoredParts(oid, t, arg, now).reason.value == CRL_REASONS[i];
    }
    SplitJoin(StoredParts(oid, t, arg, now));
  }

  /** unpack_revinfo inverts make_revocation_str, for every type and argument, exactly when the
      revocation time is a UTCTime; otherwise the column cannot be read back at all. */
  lemma {:induction false} RevocationRoundTrip(oid: OidTable, t: RevType, arg: string, now: string)
    requires ArgOk(oid, t, arg) && ',' !in now
    ensures UtcOk(now) ==>
              Unpack(oid, Stored(oid, t, arg, now)) ==
              Unpacked(true, now, Rfc5280Reason(oid, t, arg),
                       if t == Hold then oid(arg) else None,
                       if t == KeyCompromise || t == CaCompromise then Some(arg) else None)
    ensures !UtcOk(now) ==> Unpack(oid, Stored(oid, t, arg, now)) == FAILED
  {
    UnpackStored(oid, t, arg, now);
    if t == CrlReason { ReasonCode(oid, arg); }
  }

  // ---- The column in so many words ----

  /** The eight reason names a revocation may give, in any case. */
  ghost predicate IsReason(w: string, name: string) {
    name in {"unspecified", "keyCompromise", "CACompromise", "affiliationChanged", "superseded",
             "cessationOfOperation", "certificateHold", "removeFromCRL"} && SameCase(w, name)
  }

  lemma {:induction false} ReasonAt(w: string, i: nat)
    requires i < N_REASONS
    ensures ReasonIndex(w, 0, N_REASONS) == i <==> SameCase(w, CRL_REASONS[i])
    ensures i < 8 ==> (ReasonIndex(w, 0, 8) == i <==> SameCase(w, CRL_REASONS[i]))
  {
    var r, q := ReasonIndex(w, 0, N_REASONS), ReasonIndex(w, 0, 8);
    if SameCase(w, CRL_REASONS[i]) {
      if r < N_REASONS && r != i { ReasonsDistinct(i, r); }
      if i < 8 && q < 8 && q != i { ReasonsDistinct(i, q); }
    }
  }

  lemma {:induction false} ReasonNamed(w: string, name: string) returns (i: nat)
    requires IsReason(w, name)
    ensures i < 8 && CRL_REASONS[i] == name && ReasonIndex(w, 0, 8) == i
  {
    i := if name == "unspecified" then 0 else if name == "keyCompromise" then 1 else if name == "CACompromise" then 2
         else if name == "affiliationChanged" then 3 else if name == "superseded" then 4
         else if name == "cessationOfOperation" then 5 else if name == "certificateHold" then 6 else 7;
    ReasonAt(w, i);
  }

  /** An argument is valid exactly when it is one of the eight reason names, a known object for a hold instruction, or a
      GeneralizedTime for a compromise; without a reason any is. */
  lemma {:induction false} ArgExactly(oid: OidTable, t: RevType, arg: string)
    ensures t == RevValid || t == RevNone ==> ArgOk(oid, t, arg)
    ensures t == CrlReason ==> (ArgOk(oid, t, arg) <==> exists name :: IsReason(arg, name))
    ensures t == Hold ==> (ArgOk(oid, t, arg) <==> oid(arg).Some?)
    ensures t == KeyCompromise || t == CaCompromise ==> (ArgOk(oid, t, arg) <==> GenOk(arg))
  {
    hide SameCase, GenOk;
    if t == CrlReason {
      if ArgOk(oid, t, arg) { assert IsReason(arg, CRL_REASONS[ReasonIndex(arg, 0, 8)]); }
      if name :| IsReason(arg, name) { var i := ReasonNamed(arg, name); }
    }
  }

  /** The text in the column, type by type. */
  lemma {:induction false} StoredExactly(oid: OidTable, t: RevType, arg: string, now: string)
    requires ArgOk(oid, t, arg)
    ensures t == RevValid || t == RevNone ==> Stored(oid, t, arg, now) == now
    ensures t == CrlReason ==> forall name :: IsReason(arg, name) ==> Stored(oid, t, arg, now) == now + "," + name
    ensures t == Hold ==> Stored(oid, t, arg, now) == now + ",holdInstruction," + arg
    ensures t == KeyCompromise ==> Stored(oid, t, arg, now) == now + ",keyTime," + arg
    ensures t == CaCompromise ==> Stored(oid, t, arg, now) == now + ",CAkeyTime," + arg
  {
    hide SameCase, IsReason, Join, ReasonIndex;
    Joins(now, "", arg);
    if t == CrlReason {
      forall name | IsReason(arg, name) ensures Stored(oid, t, arg, now) == now + "," + name {
        var i := ReasonNamed(arg, name);
        Joins(now, name, arg);
      }
    } else if t == Hold {
      JoinsOne(now, "holdInstruction", arg, ",holdInstruction,");
    } else if t == KeyCompromise {
      JoinsOne(now, "keyTime", arg, ",keyTime,");
    } else if t == CaCompromise {
      JoinsOne(now, "CAkeyTime", arg, ",CAkeyTime,");
    }
  }

  lemma {:induction false} JoinsOne(a: string, b: string, c: string, mid: string)
    requires mid == "," + b + ","
    ensures Join(Parts(a, Some(b), Some(c))) == a + mid + c
  {
    var comma := ",";
    assert a + (comma + b) + (comma + c) == a + (comma + b + comma) + c;
  }

  /** What a reason name, in any case, and what follows it stand for: the code of section 5.3.1 of RFC 5280, with the
      hold instruction or the invalidity date of the three further names; any other name fails. */
  ghost predicate ReasonReads(oid: OidTable, time: string, w: string, arg: Option<string>, u: Unpacked) {
    var failed := Unpacked(false, time, -1, None, None);
    (SameCase(w, "unspecified") ==> u == Unpacked(true, time, 0, None, None)) &&
    (SameCase(w, "keyCompromise") ==> u == Unpacked(true, time, 1, None, None)) &&
    (SameCase(w, "CACompromise") ==> u == Unpacked(true, time, 2, None, None)) &&
    (SameCase(w, "affiliationChanged") ==> u == Unpacked(true, time, 3, None, None)) &&
    (SameCase(w, "superseded") ==> u == Unpacked(true, time, 4, None, None)) &&
    (SameCase(w, "cessationOfOperation") ==> u == Unpacked(true, time, 5, None, None)) &&
    (SameCase(w, "certificateHold") ==> u == Unpacked(true, time, 6, None, None)) &&
    (SameCase(w, "removeFromCRL") ==> u == Unpacked(true, time, 8, None, None)) &&
    (SameCase(w, "holdInstruction") ==>
       u == if arg.Some? && oid(arg.value).Some? then Unpacked(true, time, 6, oid(arg.value), None) else failed) &&
    (SameCase(w, "keyTime") ==>
       u == if arg.Some? && GenOk(arg.value) then Unpacked(true, time, 1, None, arg) else failed) &&
    (SameCase(w, "CAkeyTime") ==>
       u == if arg.Some? && GenOk(arg.value) then Unpacked(true, time, 2, None, arg) else failed) &&
    (Unnamed(w) ==> u == failed)
  }

  /** None of the eleven names. */
  ghost predicate Unnamed(w: string) {
    (forall name :: !IsReason(w, name)) && !SameCase(w, "holdInstruction") && !SameCase(w, "keyTime") &&
    !SameCase(w, "CAkeyTime")
  }

  lemma {:induction false} InterpretExactly(oid: OidTable, time: string, w: string, arg: Option<string>)
    ensures ReasonReads(oid, time, w, arg, Interpret(oid, time, ReasonIndex(w, 0, N_REASONS), arg))
  {
    hide SameCase, GenOk, ReasonIndex;
    ReasonAt(w, 0);
    ReasonAt(w, 1);
    ReasonAt(w, 2);
    ReasonAt(w, 3);
    ReasonAt(w, 4);
    ReasonAt(w, 5);
    ReasonAt(w, 6);
    ReasonAt(w, 7);
    ReasonAt(w, 8);
    ReasonAt(w, 9);
    ReasonAt(w, 10);
    var r := ReasonIndex(w, 0, N_REASONS);
    if r < 8 { assert IsReason(w, CRL_REASONS[r]); }
  }

  /** Every column is a time, or a time, a comma and a reason, or these, a comma and an argument, the first two without
      commas. It is read as its parts say, and not at all when the time is no UTCTime. */
  lemma {:induction false} UnpackExactly(oid: OidTable, time: string, w: string, arg: string)
    requires ',' !in time && ',' !in w
    ensures Unpack(oid, time) == if UtcOk(time) then Unpacked(true, time, -1, None, None)
                                 else Unpacked(false, "", -1, None, None)
    ensures UtcOk(time) ==> ReasonReads(oid, time, w, None, Unpack(oid, time + "," + w))
    ensures UtcOk(time) ==> ReasonReads(oid, time, w, Some(arg), Unpack(oid, time + "," + w + "," + arg))
    ensures !UtcOk(time) ==> Unpack(oid, time + "," + w) == Unpacked(false, "", -1, None, None)
    ensures !UtcOk(time) ==> Unpack(oid, time + "," + w + "," + arg) == Unpacked(false, "", -1, None, None)
  {
    hide UtcOk, Interpret, ReasonReads, Join, Unpack, ReasonIndex;
    Joins(time, w, arg);
    UnpackJoined(oid, Parts(time, None, None));
    UnpackJoined(oid, Parts(time, Some(w), None));
    UnpackJoined(oid, Parts(time, Some(w), Some(arg)));
    InterpretExactly(oid, time, w, None);
    InterpretExactly(oid, time, w, Some(arg));
  }

  lemma {:induction false} Joins(time: string, w: string, arg: string)
    ensures Join(Parts(time, None, None)) == time
    ensures Join(Parts(time, Some(w), None)) == time + "," + w
    ensures Join(Parts(time, Some(w), Some(arg))) == time + "," + w + "," + arg
  {
    var comma := ",";
    assert time + (comma + w) + "" == time + comma + w;
    assert time + (comma + w) + (comma + arg) == time + comma + w + comma + arg;
  }

  lemma {:induction false} UnpackJoined(oid: OidTable, p: Parts)
    requires ',' !in p.time && (p.reason.Some? ==> ',' !in p.reason.value) && (p.reason == None ==> p.arg == None)
    ensures Unpack(oid, Join(p)) ==
            if !UtcOk(p.time) then Unpacked(false, "", -1, None, None)
            else if p.reason == None then Unpacked(true, p.time, -1, None, None)
            else Interpret(oid, p.time, ReasonIndex(p.reason.value, 0, N_REASONS), p.arg)
  {
    hide UtcOk, Interpret, Join, Split, ReasonIndex;
    SplitJoin(p);
  }

  /** A revocation made at instant tm is readable by the next run exactly in the years of UTCTime, so until 2049. */
  lemma {:induction false} ReadableExactlyBefore2050(oid: OidTable, t: RevType, arg: string, tm: Tm)
    requires ArgOk(oid, t, arg) && ValidTm(tm)
    ensures MakeRevoked(Unpack(oid, Stored(oid, t, arg, Format(tm)))) != 0 <==> 1950 <= tm.year <= 2049
  {
    FormatAccepted(tm);
    RevocationRoundTrip(oid, t, arg, Format(tm));
  }
}
