/** The policy engine of do_body: which request entries make up the issued subject
    (apps/ca.c, crypto/x509/x509name.c). */
module Policy {
  import opened Base

  /** One attribute of a distinguished name; entries with the same set number form one RDN. */
  datatype Entry = Entry(obj: int, styp: int, data: string, rdn: int)

  type Name = seq<Entry>

  datatype Rule = Rule(name: string, value: string)

  const EMAIL := 48

  /** OBJ_txt2nid; 0 stands for NID_undef. */
  type NidTable = string -> int

  /** ASN1_STRING_cmp(...) == 0. */
  predicate SameString(a: Entry, b: Entry) { a.styp == b.styp && a.data == b.data }

  /** The first position at or after from with the given type, or -1. */
  function Next(name: Name, obj: int, from: nat): (j: int)
    requires from <= |name|
    ensures j == -1 || (from <= j < |name| && name[j].obj == obj)
    decreases |name| - from
  {
    if from == |name| then -1 else if name[from].obj == obj then from else Next(name, obj, from + 1)
  }

  lemma {:induction false} NextIsFirst(name: Name, obj: int, from: nat)
    requires from <= |name|
    ensures var j := Next(name, obj, from);
            forall k :: from <= k < (if j == -1 then |name| else j) ==> name[k].obj != obj
    decreases |name| - from
  {
    if from < |name| && name[from].obj != obj { NextIsFirst(name, obj, from + 1); }
  }

  /** X509_NAME_get_index_by_OBJ. */
  method GetIndexByObj(name: Name, obj: int, last: int) returns (j: int)
    requires last < |name|
    ensures j == Next(name, obj, if last < 0 then 0 else last + 1)
  {
    var pos := (if last < 0 then -1 else last) + 1;
    ghost var from := pos;
    while pos < |name|
      invariant from <= pos <= |name| && Next(name, obj, from) == Next(name, obj, pos)
    {
      if name[pos].obj == obj { return pos; }
      pos := pos + 1;
    }
    return -1;
  }

  /** All entries of one type, in order. */
  function Select(name: Name, obj: int): Name {
    if name == [] then []
    else
      Select(name[..|name| - 1], obj) + if name[|name| - 1].obj == obj then [name[|name| - 1]] else []
  }

  /** The entries with set numbers 0, 1, 2, ...: each its own RDN. */
  function Numbered(es: Name): (n: Name)
    ensures |n| == |es|
  {
    if es == [] then [] else Numbered(es[..|es| - 1]) + [es[|es| - 1].(rdn := |es| - 1)]
  }

  /** X509_NAME_add_entry(subject, ne, -1, 0). */
  function AddEntry(subject: Name, ne: Entry): Name {
    subject + [ne.(rdn := if subject == [] then 0 else subject[|subject| - 1].rdn + 1)]
  }

  predicate Matches(ca: Name, obj: int, e: Entry) {
    exists k :: 0 <= k < |ca| && ca[k].obj == obj && SameString(e, ca[k])
  }

  ghost predicate AllMatch(ca: Name, obj: int, es: Name) {
    es != [] ==> Matches(ca, obj, es[|es| - 1]) && AllMatch(ca, obj, es[..|es| - 1])
  }

  datatype Mode = Optional | Supplied | Match | Invalid

  function ModeOf(value: string): Mode {
    if value == "optional" then Optional
    else if value == "supplied" then Supplied
    else if value == "match" then Match
    else Invalid
  }

  /** What a rule demands of the request entries of its type. */
  ghost predicate Satisfied(mode: Mode, ca: Name, obj: int, es: Name) {
    match mode
    case Optional => true
    case Supplied => es != []
    case Match => es != [] && AllMatch(ca, obj, es)
    case Invalid => false
  }

  ghost predicate RuleOk(nid: NidTable, r: Rule, name: Name, ca: Name) {
    nid(r.name) != 0 && Satisfied(ModeOf(r.value), ca, nid(r.name), Select(name, nid(r.name)))
  }

  /** Rule by rule, all request entries of the rule's type. */
  function Chosen(nid: NidTable, policy: seq<Rule>, name: Name): Name {
    if policy == [] then []
    else Chosen(nid, policy[..|policy| - 1], name) + Select(name, nid(policy[|policy| - 1].name))
  }

  lemma {:induction false} SelectGap(name: Name, obj: int, a: nat, b: nat)
    requires a <= b <= |name| && forall k :: a <= k < b ==> name[k].obj != obj
    ensures Select(name[..b], obj) == Select(name[..a], obj)
    decreases b
  {
    if a < b {
      SelectGap(name, obj, a, b - 1);
      assert name[..b][..b - 1] == name[..b - 1];
    }
  }

  /** The next entry of the type extends the selection by exactly that entry. */
  lemma {:induction false} SelectNext(name: Name, obj: int, from: nat)
    requires from <= |name|
    ensures var j := Next(name, obj, from);
            if j == -1 then Select(name, obj) == Select(name[..from], obj)
            else Select(name[..j + 1], obj) == Select(name[..from], obj) + [name[j]]
  {
    var j := Next(name, obj, from);
    NextIsFirst(name, obj, from);
    if j == -1 {
      SelectGap(name, obj, from, |name|);
      assert name[..|name|] == name;
    } else {
      SelectGap(name, obj, from, j);
      assert name[..j + 1][..j] == name[..j];
    }
  }

  lemma {:induction false} SelectPrefix(name: Name, obj: int, a: nat)
    requires a <= |name|
    ensures Select(name[..a], obj) <= Select(name, obj)
    decreases |name| - a
  {
    if a < |name| {
      SelectPrefix(name, obj, a + 1);
      assert name[..a + 1][..a] == name[..a];
    } else {
      assert name[..a] == name;
    }
  }

  lemma {:induction false} AddNumbered(es: Name, e: Entry, push: Entry)
    requires push.obj == e.obj && SameString(push, e)
    ensures AddEntry(Numbered(es), push) == Numbered(es + [e])
  {
    assert (es + [e])[..|es|] == es;
    if es != [] { assert Numbered(es)[|es| - 1].rdn == |es| - 1; }
  }

  /** The inner search of a match rule, from the label again2 on (apps/ca.c:1637-1665). */
  method FindInCa(ca: Name, obj: int, tne: Entry) returns (push: Option<Entry>)
    ensures push.Some? <==> Matches(ca, obj, tne)
    ensures push.Some? ==> push.value.obj == obj && SameString(push.value, tne)
  {
    var last2 := -1;
    while true
      invariant -1 <= last2 < |ca|
      invariant forall k :: 0 <= k <= last2 && ca[k].obj == obj ==> !SameString(tne, ca[k])
      decreases |ca| - last2
    {
      var j := GetIndexByObj(ca, obj, last2);
      NextIsFirst(ca, obj, last2 + 1);
      if j < 0 { return None; }
      if SameString(tne, ca[j]) { return Some(ca[j]); }
      last2 := j;
    }
  }

  lemma {:induction false} AllMatchOne(ca: Name, obj: int, e: Entry)
    ensures AllMatch(ca, obj, [e]) <==> Matches(ca, obj, e)
  {
    assert [e][..0] == [] && AllMatch(ca, obj, []);
  }

  /** What one turn of the rule's loop pushes for the entry found, if any (apps/ca.c:1612-1671). */
  method Decide(mode: Mode, ca: Name, obj: int, tne: Option<Entry>) returns (ok: bool, push: Option<Entry>)
    requires tne.Some? ==> tne.value.obj == obj
    ensures ok <==> Satisfied(mode, ca, obj, if tne.Some? then [tne.value] else [])
    ensures ok ==> push.Some? == tne.Some?
    ensures ok && push.Some? ==> push.value.obj == obj && SameString(push.value, tne.value)
  {
    ok, push := false, None;
    if tne.Some? { AllMatchOne(ca, obj, tne.value); }
    match mode {
      case Optional =>
        if tne.Some? { push := tne; }
      case Supplied =>
        if tne == None { return; }
        push := tne;
      case Match =>
        if tne == None { return; }
        push := FindInCa(ca, obj, tne.value);
        if push == None { return; }
      case Invalid =>
        return;
    }
    ok := true;
  }

  lemma {:induction false} SatisfiedSnoc(mode: Mode, ca: Name, obj: int, es: Name, e: Entry)
    requires es == [] || Satisfied(mode, ca, obj, es)
    ensures Satisfied(mode, ca, obj, es + [e]) <==> Satisfied(mode, ca, obj, [e])
  {
    assert (es + [e])[..|es|] == es;
    AllMatchOne(ca, obj, e);
  }

  lemma {:induction false} SatisfiedPrefix(mode: Mode, ca: Name, obj: int, es: Name, all: Name)
    requires es != [] && es <= all && Satisfied(mode, ca, obj, all)
    ensures Satisfied(mode, ca, obj, es)
  {
    if mode == Match { AllMatchPrefix(ca, obj, es, all); }
  }

  lemma {:induction false} AllMatchPrefix(ca: Name, obj: int, es: Name, all: Name)
    requires es <= all && AllMatch(ca, obj, all)
    ensures AllMatch(ca, obj, es)
  {
    if es != all { AllMatchPrefix(ca, obj, es, all[..|all| - 1]); }
  }

  /** The rule holds for the entries found so far, and they are in the subject behind es. */
  ghost predicate SoFar(mode: Mode, ca: Name, obj: int, es: Name, done: Name, grown: Name) {
    grown == Numbered(es + done) && (done != [] ==> Satisfied(mode, ca, obj, done))
  }

  lemma {:induction false} RuleFails(mode: Mode, ca: Name, obj: int, name: Name, done: Name, j: nat)
    requires j < |name| && Select(name[..j + 1], obj) == done + [name[j]]
    requires (done != [] ==> Satisfied(mode, ca, obj, done)) && !Satisfied(mode, ca, obj, [name[j]])
    ensures !Satisfied(mode, ca, obj, Select(name, obj))
  {
    SatisfiedSnoc(mode, ca, obj, done, name[j]);
    SelectPrefix(name, obj, j + 1);
    if Satisfied(mode, ca, obj, Select(name, obj)) {
      SatisfiedPrefix(mode, ca, obj, done + [name[j]], Select(name, obj));
    }
  }

  lemma {:induction false} OneMore(mode: Mode, ca: Name, obj: int, es: Name, done: Name, e: Entry, push: Entry)
    requires done == [] || Satisfied(mode, ca, obj, done)
    requires Satisfied(mode, ca, obj, [e]) && push.obj == e.obj && SameString(push, e)
    ensures SoFar(mode, ca, obj, es, done + [e], AddEntry(Numbered(es + done), push))
  {
    SatisfiedSnoc(mode, ca, obj, done, e);
    AddBehind(es, done, e, push);
  }

  lemma {:induction false} AddBehind(es: Name, done: Name, e: Entry, push: Entry)
    requires push.obj == e.obj && SameString(push, e)
    ensures AddEntry(Numbered(es + done), push) == Numbered(es + (done + [e]))
  {
    AddNumbered(es + done, e, push);
    assert es + done + [e] == es + (done + [e]);
  }

  /** The for (;;) loop of one rule (apps/ca.c:1600-1680), on a subject that so far holds es. */
  method ApplyRule(mode: Mode, obj: int, name: Name, ca: Name, subject: Name, ghost es: Name)
    returns (ok: bool, grown: Name)
    requires subject == Numbered(es)
    ensures ok <==> Satisfied(mode, ca, obj, Select(name, obj))
    ensures ok ==> grown == Numbered(es + Select(name, obj))
  {
    grown := subject;
    var last := -1;
    ghost var done := [];
    assert name[..0] == [] && es + [] == es;
    while true
      invariant -1 <= last < |name| && (last >= 0 <==> done != [])
      invariant done == Select(name[..last + 1], obj) && SoFar(mode, ca, obj, es, done, grown)
      decreases |name| - last
    {
      var j := GetIndexByObj(name, obj, last);
      SelectNext(name, obj, last + 1);
      if j < 0 && last != -1 { break; }
      var fine, push := Decide(mode, ca, obj, if j < 0 then None else Some(name[j]));
      if !fine {
        if j >= 0 { RuleFails(mode, ca, obj, name, done, j); }
        return false, grown;
      }
      if push == None { break; }
      OneMore(mode, ca, obj, es, done, name[j], push.value);
      grown := AddEntry(grown, push.value);
      last, done := j, done + [name[j]];
    }
    ok := true;
  }

  ghost predicate AllRulesOk(nid: NidTable, policy: seq<Rule>, name: Name, ca: Name) {
    policy == [] ||
    (RuleOk(nid, policy[|policy| - 1], name, ca) && AllRulesOk(nid, policy[..|policy| - 1], name, ca))
  }

  lemma {:induction false} AllRulesAre(nid: NidTable, policy: seq<Rule>, name: Name, ca: Name)
    ensures AllRulesOk(nid, policy, name, ca) <==> forall i :: 0 <= i < |policy| ==> RuleOk(nid, policy[i], name, ca)
  {
    if policy != [] {
      var init := policy[..|policy| - 1];
      AllRulesAre(nid, init, name, ca);
      assert forall i :: 0 <= i < |init| ==> init[i] == policy[i];
    }
  }

  /** One rule of the policy: an unknown type fails. */
  method CheckRule(nid: NidTable, rule: Rule, name: Name, ca: Name, subject: Name, ghost es: Name)
    returns (ok: bool, grown: Name)
    requires subject == Numbered(es)
    ensures ok <==> RuleOk(nid, rule, name, ca)
    ensures ok ==> grown == Numbered(es + Select(name, nid(rule.name)))
  {
    var obj := nid(rule.name);
    if obj == 0 { return false, subject; }
    ok, grown := ApplyRule(ModeOf(rule.value), obj, name, ca, subject, es);
  }

  lemma {:induction false} PolicyStep(nid: NidTable, policy: seq<Rule>, name: Name, ca: Name, i: nat)
    requires i < |policy| && AllRulesOk(nid, policy[..i], name, ca)
    ensures AllRulesOk(nid, policy[..i + 1], name, ca) <==> RuleOk(nid, policy[i], name, ca)
    ensures Chosen(nid, policy[..i + 1], name) == Chosen(nid, policy[..i], name) + Select(name, nid(policy[i].name))
  {
    assert policy[..i + 1][..i] == policy[..i];
  }

  // ---- The policy in its own words ----

  /** The type is known, and the value is one of three words: "supplied" and "match" ask for an entry of the type in the
      request, and "match" for an equal one of the type in the CA name, for every such entry of the request. */
  ghost predicate RuleMet(nid: NidTable, r: Rule, name: Name, ca: Name) {
    nid(r.name) != 0 && (r.value == "optional" || r.value == "supplied" || r.value == "match") &&
    (r.value == "supplied" || r.value == "match" ==> exists k :: 0 <= k < |name| && name[k].obj == nid(r.name)) &&
    (r.value == "match" ==> forall k :: 0 <= k < |name| && name[k].obj == nid(r.name) ==> InCa(ca, name[k]))
  }

  /** The CA name has an entry of the same type, string type and contents. */
  ghost predicate InCa(ca: Name, e: Entry) {
    exists m :: 0 <= m < |ca| && ca[m].obj == e.obj && ca[m].styp == e.styp && ca[m].data == e.data
  }

  lemma {:induction false} SelectAny(name: Name, obj: int)
    ensures Select(name, obj) != [] <==> exists k :: 0 <= k < |name| && name[k].obj == obj
  {
    if name != [] {
      var init := name[..|name| - 1];
      SelectAny(init, obj);
      assert forall k :: 0 <= k < |init| ==> init[k] == name[k];
    }
  }

  lemma {:induction false} MatchesInCa(ca: Name, e: Entry)
    ensures Matches(ca, e.obj, e) <==> InCa(ca, e)
  {
    if Matches(ca, e.obj, e) {
      var k :| 0 <= k < |ca| && ca[k].obj == e.obj && SameString(e, ca[k]);
      assert InCa(ca, e);
    }
    if InCa(ca, e) {
      var m :| 0 <= m < |ca| && ca[m].obj == e.obj && ca[m].styp == e.styp && ca[m].data == e.data;
      assert SameString(e, ca[m]);
    }
  }

  lemma {:induction false} SelectAllMatch(ca: Name, name: Name, obj: int)
    ensures AllMatch(ca, obj, Select(name, obj)) <==>
            forall k :: 0 <= k < |name| && name[k].obj == obj ==> InCa(ca, name[k])
  {
    if name != [] {
      var n := |name| - 1;
      var init, es := name[..n], Select(name[..n], obj);
      SelectAllMatch(ca, init, obj);
      assert forall k :: 0 <= k < n ==> init[k] == name[k];
      if name[n].obj == obj {
        assert (es + [name[n]])[..|es|] == es;
        MatchesInCa(ca, name[n]);
      } else {
        assert es + [] == es;
      }
    }
  }

  lemma {:induction false} RuleExactly(nid: NidTable, r: Rule, name: Name, ca: Name)
    ensures RuleOk(nid, r, name, ca) <==> RuleMet(nid, r, name, ca)
  {
    hide Select, AllMatch;
    SelectAny(name, nid(r.name));
    SelectAllMatch(ca, name, nid(r.name));
  }

  /** An entry of the subject: the rule it is there for and its position in the request. */
  datatype Pick = Pick(rule: nat, pos: nat)

  ghost predicate Before(a: Pick, b: Pick) { a.rule < b.rule || (a.rule == b.rule && a.pos < b.pos) }

  /** Entry k of the subject is the request entry at the k-th pick, as an RDN of its own; the picks are in the order of
      the rules and then of the request, and they are all there are. */
  ghost predicate MadeOf(nid: NidTable, policy: seq<Rule>, name: Name, subject: Name, picks: seq<Pick>) {
    |picks| == |subject| &&
    (forall k :: 0 <= k < |picks| ==>
       Picked(nid, policy, name, picks[k]) && subject[k] == name[picks[k].pos].(rdn := k)) &&
    (forall j, k :: 0 <= j < k < |picks| ==> Before(picks[j], picks[k])) &&
    forall p :: Picked(nid, policy, name, p) ==> p in picks
  }

  ghost predicate Picked(nid: NidTable, policy: seq<Rule>, name: Name, p: Pick) {
    p.rule < |policy| && p.pos < |name| && name[p.pos].obj == nid(policy[p.rule].name)
  }

  /** The picks of one rule: all positions of its type, in order. */
  ghost predicate AllOf(name: Name, obj: int, rule: nat, picks: seq<Pick>) {
    (forall k :: 0 <= k < |picks| ==>
       picks[k].rule == rule && picks[k].pos < |name| && name[picks[k].pos].obj == obj) &&
    (forall j, k :: 0 <= j < k < |picks| ==> picks[j].pos < picks[k].pos) &&
    forall p: nat :: p < |name| && name[p].obj == obj ==> Pick(rule, p) in picks
  }

  lemma {:induction false} RulePicks(name: Name, obj: int, rule: nat) returns (picks: seq<Pick>)
    ensures PicksFor(name, Select(name, obj), picks) && AllOf(name, obj, rule, picks)
  {
    hide PicksFor, AllOf;
    picks := [];
    if name == [] {
      NoPicks(name);
      NoneOf(name, obj, rule);
    } else {
      var n := |name| - 1;
      var init := name[..n];
      picks := RulePicks(init, obj, rule);
      LiftPicks(init, name, Select(init, obj), picks);
      if name[n].obj == obj {
        OnePick(name, n, rule);
        JoinPicks(name, Select(init, obj), picks, [name[n]], [Pick(rule, n)]);
        OneMoreOf(name, obj, rule, picks);
        picks := picks + [Pick(rule, n)];
      } else {
        assert Select(init, obj) + [] == Select(init, obj);
        NoMoreOf(name, obj, rule, picks);
      }
    }
  }

  lemma {:induction false} NoneOf(name: Name, obj: int, rule: nat)
    requires name == []
    ensures AllOf(name, obj, rule, [])
  {
  }

  lemma {:induction false} OneMoreOf(name: Name, obj: int, rule: nat, picks: seq<Pick>)
    requires name != [] && AllOf(name[..|name| - 1], obj, rule, picks) && name[|name| - 1].obj == obj
    ensures AllOf(name, obj, rule, picks + [Pick(rule, |name| - 1)])
  {
    var n := |name| - 1;
    var init, all := name[..n], picks + [Pick(rule, n)];
    assert forall p :: 0 <= p < n ==> init[p] == name[p];
    forall p: nat | p < |name| && name[p].obj == obj ensures Pick(rule, p) in all {
      if p < n { assert init[p].obj == obj; } else { assert all[|picks|] == Pick(rule, p); }
    }
  }

  lemma {:induction false} NoMoreOf(name: Name, obj: int, rule: nat, picks: seq<Pick>)
    requires name != [] && AllOf(name[..|name| - 1], obj, rule, picks) && name[|name| - 1].obj != obj
    ensures AllOf(name, obj, rule, picks)
  {
    var init := name[..|name| - 1];
    assert forall p :: 0 <= p < |init| ==> init[p] == name[p];
  }

  lemma {:induction false} LiftPicks(init: Name, name: Name, es: Name, picks: seq<Pick>)
    requires init <= name && PicksFor(init, es, picks)
    ensures PicksFor(name, es, picks)
  {
  }

  lemma {:induction false} OnePick(name: Name, n: nat, rule: nat)
    requires n < |name|
    ensures PicksFor(name, [name[n]], [Pick(rule, n)])
  {
  }

  lemma {:induction false} ChosenPicks(nid: NidTable, policy: seq<Rule>, name: Name) returns (picks: seq<Pick>)
    ensures PicksFor(name, Chosen(nid, policy, name), picks)
    ensures forall k :: 0 <= k < |picks| ==> Picked(nid, policy, name, picks[k])
    ensures forall j, k :: 0 <= j < k < |picks| ==> Before(picks[j], picks[k])
    ensures forall p :: Picked(nid, policy, name, p) ==> p in picks
  {
    hide Select, PicksFor;
    picks := [];
    if policy == [] {
      assert PicksFor(name, [], []) by { NoPicks(name); }
    } else {
      var n := |policy| - 1;
      var init, es := policy[..n], Select(name, nid(policy[n].name));
      var front := ChosenPicks(nid, init, name);
      var last := RulePicks(name, nid(policy[n].name), n);
      JoinPicks(name, Chosen(nid, init, name), front, es, last);
      picks := front + last;
      forall k | 0 <= k < |front| ensures Picked(nid, policy, name, front[k]) && front[k].rule < n {
        assert Picked(nid, init, name, front[k]);
      }
      forall p | Picked(nid, policy, name, p) ensures p in picks {
        if p.rule < n { assert Picked(nid, init, name, p); } else { assert p == Pick(n, p.pos); }
      }
    }
  }

  /** The picks point at the entries. */
  ghost predicate PicksFor(name: Name, es: Name, picks: seq<Pick>) {
    |picks| == |es| && forall k :: 0 <= k < |picks| ==> picks[k].pos < |name| && name[picks[k].pos] == es[k]
  }

  lemma {:induction false} NoPicks(name: Name)
    ensures PicksFor(name, [], [])
  {
  }

  lemma {:induction false} JoinPicks(name: Name, a: Name, ps: seq<Pick>, b: Name, qs: seq<Pick>)
    requires PicksFor(name, a, ps) && PicksFor(name, b, qs)
    ensures PicksFor(name, a + b, ps + qs)
  {
  }

  lemma {:induction false} ChosenMade(nid: NidTable, policy: seq<Rule>, name: Name)
    ensures exists picks :: MadeOf(nid, policy, name, Numbered(Chosen(nid, policy, name)), picks)
  {
    hide Chosen;
    var picks := ChosenPicks(nid, policy, name);
    NumberedWell(Chosen(nid, policy, name));
    assert MadeOf(nid, policy, name, Numbered(Chosen(nid, policy, name)), picks);
  }

  lemma {:induction false} NumberedWell(es: Name)
    ensures WellNumbered(Numbered(es))
    ensures forall k :: 0 <= k < |es| ==> Numbered(es)[k] == es[k].(rdn := k)
  {
    if es != [] {
      NumberedWell(es[..|es| - 1]);
      var n := Numbered(es);
      assert n[|es| - 1] == es[|es| - 1].(rdn := |es| - 1);
      assert forall k :: 0 <= k < |es| - 1 ==> n[k] == Numbered(es[..|es| - 1])[k];
    }
  }

  /** The policy loops (apps/ca.c:1589-1681): they succeed exactly when every rule is met, and
      the subject is then, rule by rule, all request entries of that type in order. */
  method CheckPolicy(nid: NidTable, policy: seq<Rule>, name: Name, ca: Name) returns (ok: bool, subject: Name)
    ensures ok <==> forall i :: 0 <= i < |policy| ==> RuleMet(nid, policy[i], name, ca)
    ensures ok ==> exists picks :: MadeOf(nid, policy, name, subject, picks)
    ensures ok <==> forall i :: 0 <= i < |policy| ==> RuleOk(nid, policy[i], name, ca)
    ensures ok ==> subject == Numbered(Chosen(nid, policy, name))
  {
    hide RuleMet, MadeOf, RuleOk, Chosen;
    forall i | 0 <= i < |policy|
      ensures RuleOk(nid, policy[i], name, ca) <==> RuleMet(nid, policy[i], name, ca)
    {
      RuleExactly(nid, policy[i], name, ca);
    }
    ChosenMade(nid, policy, name);
    ok, subject := ApplyRules(nid, policy, name, ca);
  }

  method ApplyRules(nid: NidTable, policy: seq<Rule>, name: Name, ca: Name) returns (ok: bool, subject: Name)
    ensures ok <==> forall i :: 0 <= i < |policy| ==> RuleOk(nid, policy[i], name, ca)
    ensures ok ==> subject == Numbered(Chosen(nid, policy, name))
  {
    AllRulesAre(nid, policy, name, ca);
    subject := [];
    var i := 0;
    while i < |policy|
      invariant 0 <= i <= |policy| && AllRulesOk(nid, policy[..i], name, ca)
      invariant subject == Numbered(Chosen(nid, policy[..i], name))
    {
      PolicyStep(nid, policy, name, ca, i);
      ok, subject := CheckRule(nid, policy[i], name, ca, subject, Chosen(nid, policy[..i], name));
      if !ok { return; }
      i := i + 1;
    }
    assert policy[..i] == policy;
    ok := true;
  }

  function Lowered(es: Name): Name {
    if es == [] then [] else Lowered(es[..|es| - 1]) + [es[|es| - 1].(rdn := es[|es| - 1].rdn - 1)]
  }

  /** X509_NAME_delete_entry: a gap of two in the set numbers is closed behind the hole. */
  function Delete(name: Name, loc: nat): (out: Name)
    requires loc < |name|
    ensures |out| == |name| - 1
  {
    var head, tail := name[..loc], name[loc + 1..];
    if tail == [] then head
    else
      var prev := if loc != 0 then name[loc - 1].rdn else name[loc].rdn - 1;
      LoweredLength(tail);
      head + if prev + 1 < tail[0].rdn then Lowered(tail) else tail
  }

  lemma {:induction false} LoweredLength(es: Name)
    ensures |Lowered(es)| == |es|
    ensures forall k :: 0 <= k < |es| ==> Lowered(es)[k] == es[k].(rdn := es[k].rdn - 1)
  {
    if es != [] { LoweredLength(es[..|es| - 1]); }
  }

  /** RDNs are numbered consecutively from zero. */
  ghost predicate WellNumbered(name: Name) {
    (name != [] ==> name[0].rdn == 0) &&
    forall i, j :: 0 <= i && j == i + 1 && j < |name| ==> name[i].rdn <= name[j].rdn <= name[i].rdn + 1
  }

  /** out is name reduced to the positions in orig: same entries, and two of them share an RDN in out
      exactly when they did in name. */
  ghost predicate Reduced(name: Name, out: Name, orig: seq<nat>) {
    |orig| == |out| &&
    (forall i :: 0 <= i < |orig| ==> orig[i] < |name| && out[i] == name[orig[i]].(rdn := out[i].rdn)) &&
    (forall i, j :: 0 <= i < j < |orig| ==>
       orig[i] < orig[j] && (out[i].rdn == out[j].rdn <==> name[orig[i]].rdn == name[orig[j]].rdn))
  }

  lemma {:induction false} SetsGrow(name: Name, i: nat, j: nat)
    requires WellNumbered(name) && i <= j < |name|
    ensures name[i].rdn <= name[j].rdn
    decreases j - i
  {
    if i < j {
      SetsGrow(name, i, j - 1);
      var k := j - 1;
      assert name[k].rdn <= name[j].rdn;
    }
  }

  function Shifted(loc: nat, k: nat): nat { if k < loc then k else k + 1 }

  function Hole(n: nat, loc: nat): (orig: seq<nat>)
    ensures |orig| == n && forall k :: 0 <= k < n ==> orig[k] == Shifted(loc, k)
  {
    seq(n, k requires 0 <= k < n => Shifted(loc, k))
  }

  lemma {:induction false} DeleteAt(name: Name, loc: nat, k: nat)
    requires WellNumbered(name) && loc < |name| && k < |name| - 1
    ensures var out, e := Delete(name, loc)[k], name[Shifted(loc, k)];
            out == e.(rdn := out.rdn) &&
            out.rdn == (if k >= loc && Gap(name, loc) then e.rdn - 1 else e.rdn)
  {
    if k >= loc {
      var tail := name[loc + 1..];
      LoweredLength(tail);
      assert tail[k - loc] == name[k + 1];
    }
  }

  /** The entry is alone in its RDN, and others follow. */
  predicate Gap(name: Name, loc: nat)
    requires loc < |name|
  {
    loc + 1 < |name| && (if loc != 0 then name[loc - 1].rdn else name[loc].rdn - 1) + 1 < name[loc + 1].rdn
  }

  lemma {:induction false} Neighbours(name: Name, loc: nat)
    requires WellNumbered(name) && loc < |name|
    ensures loc > 0 ==> name[loc - 1].rdn <= name[loc].rdn <= name[loc - 1].rdn + 1
    ensures loc + 1 < |name| ==> name[loc].rdn <= name[loc + 1].rdn <= name[loc].rdn + 1
  {
    var p, q := loc - 1, loc + 1;
  }

  lemma {:induction false} DeleteNumbered(name: Name, loc: nat)
    requires WellNumbered(name) && loc < |name|
    ensures WellNumbered(Delete(name, loc))
  {
    var out := Delete(name, loc);
    Neighbours(name, loc);
    forall i, j | 0 <= i && j == i + 1 && j < |out|
      ensures out[i].rdn <= out[j].rdn <= out[i].rdn + 1
    {
      DeleteAt(name, loc, i);
      DeleteAt(name, loc, j);
      Neighbours(name, i);
      Neighbours(name, j);
    }
    if out != [] { DeleteAt(name, loc, 0); }
  }

  /** Deleting one entry keeps the entries and the grouping of the others. */
  lemma {:induction false} DeleteReduces(name: Name, loc: nat)
    requires WellNumbered(name) && loc < |name|
    ensures Reduced(name, Delete(name, loc), Hole(|name| - 1, loc))
  {
    hide Delete;
    var out := Delete(name, loc);
    forall i | 0 <= i < |out|
      ensures out[i] == name[Shifted(loc, i)].(rdn := out[i].rdn)
    {
      DeleteAt(name, loc, i);
    }
    forall i, j | 0 <= i < j < |out|
      ensures out[i].rdn == out[j].rdn <==> name[Shifted(loc, i)].rdn == name[Shifted(loc, j)].rdn
    {
      DeletePair(name, loc, i, j);
    }
  }

  /** Two entries that remain share an RDN exactly when they did. */
  lemma {:induction false} DeletePair(name: Name, loc: nat, i: nat, j: nat)
    requires WellNumbered(name) && loc < |name| && i < j < |name| - 1
    ensures var out := Delete(name, loc);
            out[i].rdn == out[j].rdn <==> name[Shifted(loc, i)].rdn == name[Shifted(loc, j)].rdn
  {
    hide Delete;
    Neighbours(name, loc);
    DeleteAt(name, loc, i);
    DeleteAt(name, loc, j);
    if i < loc <= j {
      SetsGrow(name, i, loc - 1);
      SetsGrow(name, loc + 1, j + 1);
    }
  }

  /** The email removal loop from search position from on. */
  function DropEmail(name: Name, from: nat): Name
    requires from <= |name|
    decreases |name|
  {
    var j := Next(name, EMAIL, from);
    if j == -1 then name else DropEmail(Delete(name, j), j)
  }

  lemma {:induction false} DropStep(name: Name, from: nat, j: int, out: Name)
    requires from <= |name| && j == Next(name, EMAIL, from) && j >= 0 && out == Delete(name, j)
    ensures |out| == |name| - 1 && DropEmail(name, from) == DropEmail(out, j)
  {
  }

  lemma {:induction false} DropDone(name: Name, from: nat)
    requires from <= |name| && Next(name, EMAIL, from) == -1
    ensures DropEmail(name, from) == name
  {
  }

  /** X509_NAME_delete_entry (crypto/x509/x509name.c:101-139). */
  method DeleteEntry(name: Name, loc: nat) returns (out: Name)
    requires loc < |name|
    ensures out == Delete(name, loc)
  {
    out := name[..loc] + name[loc + 1..];
    var n := |out|;
    if loc == n { return; }
    var prev := if loc != 0 then name[loc - 1].rdn else name[loc].rdn - 1;
    var next := out[loc].rdn;
    if prev + 1 < next { out := LowerFrom(out, loc); }
  }

  /** The loop that renumbers the entries from loc on. */
  method LowerFrom(name: Name, loc: nat) returns (out: Name)
    requires loc <= |name|
    ensures out == name[..loc] + Lowered(name[loc..])
  {
    out := name;
    var i := loc;
    hide Lowered;
    ghost var head, tail := name[..loc], name[loc..];
    LoweredLength(tail[..0]);
    assert Lowered(tail[..0]) == [] && head + [] + tail == name && tail[0..] == tail;
    while i < |name|
      invariant loc <= i <= |name| == |out|
      invariant out == head + Lowered(tail[..i - loc]) + tail[i - loc..]
    {
      LoweredLength(tail[..i - loc]);
      LowerStep(head, tail, i - loc, out);
      out := out[i := out[i].(rdn := out[i].rdn - 1)];
      i := i + 1;
    }
    assert tail[..|tail|] == tail;
    LoweredLength(tail);
  }

  lemma {:induction false} LowerStep(head: Name, tail: Name, k: nat, out: Name)
    requires k < |tail| && |Lowered(tail[..k])| == k && out == head + Lowered(tail[..k]) + tail[k..]
    ensures var i := |head| + k;
            out[i] == tail[k] &&
            out[i := out[i].(rdn := out[i].rdn - 1)] == head + Lowered(tail[..k + 1]) + tail[k + 1..]
  {
    assert tail[..k + 1][..k] == tail[..k];
    assert tail[k..] == [tail[k]] + tail[k + 1..];
  }

  /** The while loop that deletes email entries (apps/ca.c:1801-1808). */
  method RemoveEmail(subject: Name) returns (dn: Name)
    ensures dn == DropEmail(subject, 0)
  {
    dn := subject;
    var i := -1;
    ghost var from := 0;
    while true
      invariant -1 <= i < |dn| && from == i + 1 && DropEmail(dn, from) == DropEmail(subject, 0)
      decreases |dn|
    {
      var j := GetIndexByObj(dn, EMAIL, i);
      if j < 0 {
        DropDone(dn, from);
        return;
      }
      var out := DeleteEntry(dn, j);
      DropStep(dn, from, j, out);
      dn, i, from := out, j - 1, j;
    }
  }

  lemma {:induction false} ReducedTwice(a: Name, b: Name, c: Name, f: seq<nat>, g: seq<nat>)
    requires Reduced(a, b, f) && Reduced(b, c, g)
    ensures Reduced(a, c, Through(f, g))
  {
    var h := Through(f, g);
    forall i | 0 <= i < |h|
      ensures h[i] < |a| && c[i] == a[h[i]].(rdn := c[i].rdn)
    {
      assert b[g[i]] == a[f[g[i]]].(rdn := b[g[i]].rdn);
    }
  }

  function Through(f: seq<nat>, g: seq<nat>): (h: seq<nat>)
    requires forall i :: 0 <= i < |g| ==> g[i] < |f|
    ensures |h| == |g| && forall i :: 0 <= i < |g| ==> h[i] == f[g[i]]
  {
    seq(|g|, i requires 0 <= i < |g| => f[g[i]])
  }

  /** Removing the emails leaves exactly the other entries, in order, with their RDN structure:
      the result is the name reduced to the positions that hold no email. */
  lemma {:induction false} EmailsGone(name: Name, from: nat) returns (orig: seq<nat>)
    requires WellNumbered(name) && from <= |name| && forall k :: 0 <= k < from ==> name[k].obj != EMAIL
    ensures WellNumbered(DropEmail(name, from)) && Reduced(name, DropEmail(name, from), orig)
    ensures forall k: nat :: k in orig <==> k < |name| && name[k].obj != EMAIL
    decreases |name|
  {
    var j := Next(name, EMAIL, from);
    NextIsFirst(name, EMAIL, from);
    if j == -1 {
      orig := seq(|name|, k => k);
    } else {
      var cut := Delete(name, j);
      DeleteNumbered(name, j);
      DeleteReduces(name, j);
      var hole := Hole(|name| - 1, j);
      assert forall k :: 0 <= k < j ==> cut[k].obj == name[hole[k]].obj;
      var rest := EmailsGone(cut, j);
      ReducedTwice(name, cut, DropEmail(cut, j), hole, rest);
      orig := Through(hole, rest);
      Covers(name, cut, j, rest);
    }
  }

  lemma {:induction false} Covers(name: Name, cut: Name, j: nat, rest: seq<nat>)
    requires j < |name| && name[j].obj == EMAIL && Reduced(name, cut, Hole(|name| - 1, j))
    requires forall i :: 0 <= i < |rest| ==> rest[i] < |cut|
    requires forall k: nat :: k in rest <==> k < |cut| && cut[k].obj != EMAIL
    ensures forall k: nat :: k in Through(Hole(|name| - 1, j), rest) <==> k < |name| && name[k].obj != EMAIL
  {
    var hole := Hole(|name| - 1, j);
    var orig := Through(hole, rest);
    forall k: nat
      ensures k in orig <==> k < |name| && name[k].obj != EMAIL
    {
      if k in orig {
        var i :| 0 <= i < |orig| && orig[i] == k;
        assert rest[i] in rest && cut[rest[i]].obj == name[hole[rest[i]]].obj;
      }
      if k < |name| && name[k].obj != EMAIL {
        var m := if k < j then k else k - 1;
        assert hole[m] == k && cut[m].obj == name[hole[m]].obj;
        assert m in rest;
        var i :| 0 <= i < |rest| && rest[i] == m;
        assert orig[i] == k;
      }
    }
  }
}
