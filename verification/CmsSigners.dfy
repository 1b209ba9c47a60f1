/** How "openssl cms -sign" pairs -signer, -inkey and -keyopt arguments (apps/cms.c). */
module CmsSigners {
  import opened Base

  datatype Opt = Signer(file: string) | InKey(file: string) | KeyOpt(value: string)

  /** A signer with the key it signs with and the parameters set on its key context. */
  datatype Pair = Pair(signer: string, key: string, opts: seq<string>)

  // ---- What the command line means ----

  /** The -keyopt arguments at the front, and what follows them. */
  function Lead(os: seq<Opt>): seq<string> {
    if os != [] && os[0].KeyOpt? then [os[0].value] + Lead(os[1..]) else []
  }

  function Skip(os: seq<Opt>): (r: seq<Opt>)
    ensures |r| <= |os| && (r != [] ==> !r[0].KeyOpt?)
  {
    if os != [] && os[0].KeyOpt? then Skip(os[1..]) else os
  }

  /** A pair under construction. */
  datatype Pending =
    | Nobody
    | SignerOnly(signer: string, opts: seq<string>)
    | KeyOnly(key: string, opts: seq<string>)
    | Both(signer: string, key: string, opts: seq<string>)

  function Cons(p: Pair, ps: Option<seq<Pair>>): Option<seq<Pair>> {
    if ps == None then None else Some([p] + ps.value)
  }

  /** The command line as a list of groups: "-signer a", "-signer a -inkey k" or "-inkey k -signer a", each with
      -keyopt arguments in between and behind; a signer on its own uses its own file as key. */
  function Groups(os: seq<Opt>): Option<seq<Pair>>
    decreases |os|, 0
  {
    if os == [] then Some([])
    else match os[0]
      case Signer(a) => GroupRest(SignerOnly(a, []), os[1..])
      case InKey(k) => GroupRest(KeyOnly(k, []), os[1..])
      case KeyOpt(_) => None
  }

  function GroupRest(p: Pending, os: seq<Opt>): Option<seq<Pair>>
    decreases |os|, 1
  {
    var r := Skip(os);
    match p
    case Nobody => Groups(os)
    case SignerOnly(a, o) =>
      if r != [] && r[0].InKey? then Cons(Pair(a, r[0].file, o + Lead(os) + Lead(r[1..])), Groups(Skip(r[1..])))
      else Cons(Pair(a, a, o + Lead(os)), Groups(r))
    case KeyOnly(k, o) =>
      if r != [] && r[0].Signer? then Cons(Pair(r[0].file, k, o + Lead(os) + Lead(r[1..])), Groups(Skip(r[1..])))
      else None
    case Both(a, k, o) => Cons(Pair(a, k, o + Lead(os)), Groups(r))
  }

  // ---- The option machine ----

  datatype State = State(done: seq<Pair>, pend: Pending)

  function Closed(st: State): Option<seq<Pair>> {
    match st.pend
    case Nobody => Some(st.done)
    case SignerOnly(a, o) => Some(st.done + [Pair(a, a, o)])
    case KeyOnly(_, _) => None
    case Both(a, k, o) => Some(st.done + [Pair(a, k, o)])
  }

  function Step(st: State, o: Opt): Option<State> {
    match o
    case Signer(b) =>
      if st.pend.KeyOnly? then Some(st.(pend := Both(b, st.pend.key, st.pend.opts)))
      else Some(State(Closed(st).value, SignerOnly(b, [])))
    case InKey(k) =>
      if st.pend.KeyOnly? then None
      else if st.pend.SignerOnly? then Some(st.(pend := Both(st.pend.signer, k, st.pend.opts)))
      else Some(State(Closed(st).value, KeyOnly(k, [])))
    case KeyOpt(v) =>
      if st.pend.Nobody? then None else Some(st.(pend := st.pend.(opts := st.pend.opts + [v])))
  }

  function Run(st: State, os: seq<Opt>): Option<seq<Pair>>
    decreases |os|
  {
    if os == [] then Closed(st)
    else
      var next := Step(st, os[0]);
      if next == None then None else Run(next.value, os[1..])
  }

  function Prefixed(done: seq<Pair>, ps: Option<seq<Pair>>): Option<seq<Pair>> {
    if ps == None then None else Some(done + ps.value)
  }

  lemma {:induction false} PrefixedCons(done: seq<Pair>, p: Pair, ps: Option<seq<Pair>>)
    ensures Prefixed(done + [p], ps) == Prefixed(done, Cons(p, ps))
  {
    if ps.Some? { assert done + [p] + ps.value == done + ([p] + ps.value); }
  }

  /** From any point on, the machine completes the pending pair and reads the rest as groups. */
  lemma {:induction false} MachineReadsGroups(st: State, os: seq<Opt>)
    ensures Run(st, os) == Prefixed(st.done, GroupRest(st.pend, os))
    decreases |os|
  {
    if os == [] {
      assert Groups([]) == Some([]) && st.done + [] == st.done;
      match st.pend {
        case Nobody =>
        case SignerOnly(a, o) => assert o + [] == o && [Pair(a, a, o)] + [] == [Pair(a, a, o)];
        case KeyOnly(_, _) =>
        case Both(a, k, o) => assert o + [] == o && [Pair(a, k, o)] + [] == [Pair(a, k, o)];
      }
    } else {
      var next := Step(st, os[0]);
      if next.Some? { MachineReadsGroups(next.value, os[1..]); }
      match os[0] {
        case KeyOpt(v) => OneMoreOpt(st.pend, v, os);
        case Signer(b) => NextSigner(st, b, os);
        case InKey(k) => NextKey(st, k, os);
      }
    }
  }

  lemma {:induction false} OneMoreOpt(p: Pending, v: string, os: seq<Opt>)
    requires os != [] && os[0] == KeyOpt(v)
    ensures p == Nobody ==> GroupRest(p, os) == None
    ensures p != Nobody ==> GroupRest(p, os) == GroupRest(p.(opts := p.opts + [v]), os[1..])
  {
    if p != Nobody {
      assert p.opts + Lead(os) == p.opts + [v] + Lead(os[1..]);
    }
  }

  lemma {:induction false} NextSigner(st: State, b: string, os: seq<Opt>)
    requires os != [] && os[0] == Signer(b)
    ensures Step(st, os[0]).Some?
    ensures var next := Step(st, os[0]).value;
            Prefixed(next.done, GroupRest(next.pend, os[1..])) == Prefixed(st.done, GroupRest(st.pend, os))
  {
    assert Lead(os) == [] && Skip(os) == os;
    assert Groups(os) == GroupRest(SignerOnly(b, []), os[1..]);
    match st.pend {
      case Nobody =>
      case SignerOnly(a, o) => assert o + [] == o; PrefixedCons(st.done, Pair(a, a, o), Groups(os));
      case KeyOnly(k, o) => assert o + [] == o;
      case Both(a, k, o) => assert o + [] == o; PrefixedCons(st.done, Pair(a, k, o), Groups(os));
    }
  }

  lemma {:induction false} NextKey(st: State, k: string, os: seq<Opt>)
    requires os != [] && os[0] == InKey(k)
    ensures Step(st, os[0]) == None ==> GroupRest(st.pend, os) == None
    ensures Step(st, os[0]).Some? ==>
              var next := Step(st, os[0]).value;
              Prefixed(next.done, GroupRest(next.pend, os[1..])) == Prefixed(st.done, GroupRest(st.pend, os))
  {
    assert Lead(os) == [] && Skip(os) == os;
    assert Groups(os) == GroupRest(KeyOnly(k, []), os[1..]);
    match st.pend {
      case Nobody =>
      case SignerOnly(a, o) => assert o + [] == o;
      case KeyOnly(_, o) => assert o + [] == o;
      case Both(a, key, o) => assert o + [] == o; PrefixedCons(st.done, Pair(a, key, o), Groups(os));
    }
  }

  // ---- What an accepted command line guarantees ----

  function SignerArgs(os: seq<Opt>): seq<string> {
    if os == [] then [] else SignerArgs(os[..|os| - 1]) + if os[|os| - 1].Signer? then [os[|os| - 1].file] else []
  }

  function KeyArgs(os: seq<Opt>): seq<string> {
    if os == [] then [] else KeyArgs(os[..|os| - 1]) + if os[|os| - 1].InKey? then [os[|os| - 1].file] else []
  }

  function OptArgs(os: seq<Opt>): seq<string> {
    if os == [] then [] else OptArgs(os[..|os| - 1]) + if os[|os| - 1].KeyOpt? then [os[|os| - 1].value] else []
  }

  function Signers(ps: seq<Pair>): seq<string> {
    if ps == [] then [] else Signers(ps[..|ps| - 1]) + [ps[|ps| - 1].signer]
  }

  function Opts(ps: seq<Pair>): seq<string> {
    if ps == [] then [] else Opts(ps[..|ps| - 1]) + ps[|ps| - 1].opts
  }

  /** The keys of the pairs marked as having been given one. */
  function GivenKeys(ps: seq<Pair>, given: seq<bool>): seq<string>
    requires |given| == |ps|
  {
    if ps == [] then []
    else
      var n := |ps| - 1;
      GivenKeys(ps[..n], given[..n]) + if given[n] then [ps[n].key] else []
  }

  function PendingSigner(p: Pending): seq<string> { if p.SignerOnly? || p.Both? then [p.signer] else [] }
  function PendingKey(p: Pending): seq<string> { if p.KeyOnly? || p.Both? then [p.key] else [] }
  function PendingOpts(p: Pending): seq<string> { if p.Nobody? then [] else p.opts }

  /** Every argument of os is in exactly one place, in order; pairs without a key use the signer's file. */
  ghost predicate Accounts(ps: seq<Pair>, p: Pending, given: seq<bool>, os: seq<Opt>) {
    |given| == |ps| && (forall i :: 0 <= i < |ps| && !given[i] ==> ps[i].key == ps[i].signer) &&
    SignerArgs(os) == Signers(ps) + PendingSigner(p) &&
    KeyArgs(os) == GivenKeys(ps, given) + PendingKey(p) &&
    OptArgs(os) == Opts(ps) + PendingOpts(p)
  }

  lemma {:induction false} CloseAccounts(st: State, given: seq<bool>, os: seq<Opt>) returns (given': seq<bool>)
    requires Accounts(st.done, st.pend, given, os) && !st.pend.KeyOnly?
    ensures Accounts(Closed(st).value, Nobody, given', os)
  {
    var ps := Closed(st).value;
    given' := if st.pend.Nobody? then given else given + [st.pend.Both?];
    if !st.pend.Nobody? {
      assert ps[..|ps| - 1] == st.done && given'[..|ps| - 1] == given;
    }
  }

  lemma {:induction false} SnocArgs(os: seq<Opt>, o: Opt)
    ensures SignerArgs(os + [o]) == SignerArgs(os) + if o.Signer? then [o.file] else []
    ensures KeyArgs(os + [o]) == KeyArgs(os) + if o.InKey? then [o.file] else []
    ensures OptArgs(os + [o]) == OptArgs(os) + if o.KeyOpt? then [o.value] else []
  {
    assert (os + [o])[..|os|] == os;
  }

  lemma {:induction false} StepAccounts(st: State, given: seq<bool>, os: seq<Opt>, o: Opt) returns (given': seq<bool>)
    requires Accounts(st.done, st.pend, given, os) && Step(st, o).Some?
    ensures Accounts(Step(st, o).value.done, Step(st, o).value.pend, given', os + [o])
  {
    var next := Step(st, o).value;
    var closes := (o.Signer? && !st.pend.KeyOnly?) || (o.InKey? && !st.pend.SignerOnly?);
    if closes {
      given' := CloseAccounts(st, given, os);
      OpenAccounts(next.done, given', os, o);
    } else {
      given' := given;
      ExtendAccounts(st, given, os, o);
    }
  }

  /** An option that starts a new pair. */
  lemma {:induction false} OpenAccounts(ps: seq<Pair>, given: seq<bool>, os: seq<Opt>, o: Opt)
    requires Accounts(ps, Nobody, given, os) && !o.KeyOpt?
    ensures Accounts(ps, if o.Signer? then SignerOnly(o.file, []) else KeyOnly(o.file, []), given, os + [o])
  {
    SnocArgs(os, o);
  }

  /** An option that adds to the pending pair. */
  lemma {:induction false} ExtendAccounts(st: State, given: seq<bool>, os: seq<Opt>, o: Opt)
    requires Accounts(st.done, st.pend, given, os)
    requires (o.Signer? && st.pend.KeyOnly?) || (o.InKey? && st.pend.SignerOnly?) || (o.KeyOpt? && !st.pend.Nobody?)
    ensures Accounts(st.done, Step(st, o).value.pend, given, os + [o])
  {
    SnocArgs(os, o);
    if o.KeyOpt? {
      assert Opts(st.done) + (st.pend.opts + [o.value]) == Opts(st.done) + st.pend.opts + [o.value];
    }
  }

  lemma {:induction false} RunAccounts(st: State, given: seq<bool>, os: seq<Opt>, rest: seq<Opt>)
    returns (given': seq<bool>)
    requires Accounts(st.done, st.pend, given, os) && Run(st, rest).Some?
    ensures Accounts(Run(st, rest).value, Nobody, given', os + rest)
    decreases |rest|
  {
    if rest == [] {
      given' := CloseAccounts(st, given, os);
      assert os + rest == os;
    } else {
      given' := StepAccounts(st, given, os, rest[0]);
      given' := RunAccounts(Step(st, rest[0]).value, given', os + [rest[0]], rest[1..]);
      assert os + [rest[0]] + rest[1..] == os + rest;
    }
  }

  /** The signers are the -signer arguments in order; every -inkey is the key of exactly one pair, in order, and all
      other pairs sign with the signer's own file; the -keyopt arguments are distributed in order, none lost. */
  lemma {:induction false} PairsAccountForArguments(os: seq<Opt>) returns (given: seq<bool>)
    requires Groups(os).Some?
    ensures var ps := Groups(os).value;
            |given| == |ps| && (forall i :: 0 <= i < |ps| && !given[i] ==> ps[i].key == ps[i].signer) &&
            Signers(ps) == SignerArgs(os) && GivenKeys(ps, given) == KeyArgs(os) && Opts(ps) == OptArgs(os)
  {
    MachineReadsGroups(State([], Nobody), os);
    given := RunAccounts(State([], Nobody), [], [], os);
    assert [] + os == os && [] + Groups(os).value == Groups(os).value;
  }

  // ---- The command line written out ----

  /** One group as it stands on the command line. */
  datatype Shape =
    | Alone(a: string, o: seq<string>)
    | Two(a: string, k: string, keyFirst: bool, o: seq<string>, p: seq<string>)

  function KeyOpts(o: seq<string>): seq<Opt> { if o == [] then [] else [KeyOpt(o[0])] + KeyOpts(o[1..]) }

  function Words(s: Shape): seq<Opt> {
    match s
    case Alone(a, o) => [Signer(a)] + KeyOpts(o)
    case Two(a, k, keyFirst, o, p) =>
      if keyFirst then InOrder(InKey(k), o, Signer(a), p) else InOrder(Signer(a), o, InKey(k), p)
  }

  function InOrder(first: Opt, o: seq<string>, second: Opt, p: seq<string>): seq<Opt> {
    [first] + KeyOpts(o) + [second] + KeyOpts(p)
  }

  /** A signer on its own signs with its own file. */
  function PairFor(s: Shape): Pair {
    match s
    case Alone(a, o) => Pair(a, a, o)
    case Two(a, k, _, o, p) => Pair(a, k, o + p)
  }

  function Line(ss: seq<Shape>): seq<Opt> { if ss == [] then [] else Words(ss[0]) + Line(ss[1..]) }

  function PairsFor(ss: seq<Shape>): seq<Pair> { if ss == [] then [] else [PairFor(ss[0])] + PairsFor(ss[1..]) }

  predicate LeadsKey(s: Shape) { s.Two? && s.keyFirst }

  /** The line is that of these groups, and no key that a signer on its own would take stands behind it. */
  ghost predicate Reading(os: seq<Opt>, ss: seq<Shape>) {
    Line(ss) == os && forall i, j :: 0 <= i && j == i + 1 && j < |ss| && ss[i].Alone? ==> !LeadsKey(ss[j])
  }

  lemma {:induction false} LeadOpts(o: seq<string>, rest: seq<Opt>)
    requires rest == [] || !rest[0].KeyOpt?
    ensures Lead(KeyOpts(o) + rest) == o && Skip(KeyOpts(o) + rest) == rest
  {
    if o == [] {
      assert [] + rest == rest;
    } else {
      assert (KeyOpts(o) + rest)[1..] == KeyOpts(o[1..]) + rest;
      LeadOpts(o[1..], rest);
    }
  }

  lemma {:induction false} OptsLead(os: seq<Opt>)
    ensures os == KeyOpts(Lead(os)) + Skip(os)
  {
    if os != [] && os[0].KeyOpt? {
      OptsLead(os[1..]);
      assert os == [os[0]] + os[1..];
      assert Lead(os)[1..] == Lead(os[1..]);
    }
  }

  lemma {:induction false} NoOptFirst(ss: seq<Shape>)
    ensures Line(ss) == [] || !Line(ss)[0].KeyOpt?
    ensures ss != [] ==> Line(ss) != [] && (Line(ss)[0].InKey? <==> LeadsKey(ss[0]))
  {
  }

  /** One group and what follows it. */
  lemma {:induction false} GroupReads(s: Shape, rest: seq<Opt>)
    requires (rest == [] || !rest[0].KeyOpt?) && (s.Alone? && rest != [] ==> !rest[0].InKey?)
    ensures Groups(Words(s) + rest) == Cons(PairFor(s), Groups(rest))
  {
    hide KeyOpts, Lead, Skip, InOrder;
    match s {
      case Alone(a, o) =>
        var os := [Signer(a)] + KeyOpts(o) + rest;
        assert os[0] == Signer(a) && os[1..] == KeyOpts(o) + rest;
        LeadOpts(o, rest);
        assert [] + o == o;
      case Two(a, k, keyFirst, o, p) =>
        var first, second := if keyFirst then InKey(k) else Signer(a), if keyFirst then Signer(a) else InKey(k);
        var os, r := InOrder(first, o, second, p) + rest, [second] + (KeyOpts(p) + rest);
        InOrderTail(first, o, second, p, rest);
        LeadOpts(o, r);
        LeadOpts(p, rest);
        assert r[1..] == KeyOpts(p) + rest;
        assert [] + o + p == o + p;
    }
  }

  lemma {:induction false} InOrderTail(first: Opt, o: seq<string>, second: Opt, p: seq<string>, rest: seq<Opt>)
    ensures var os := InOrder(first, o, second, p) + rest;
            os != [] && os[0] == first && os[1..] == KeyOpts(o) + ([second] + (KeyOpts(p) + rest))
  {
    hide KeyOpts;
  }

  /** A line is read as the groups it consists of. */
  lemma {:induction false} LineReads(ss: seq<Shape>)
    requires Reading(Line(ss), ss)
    ensures Groups(Line(ss)) == Some(PairsFor(ss))
  {
    if ss != [] {
      var rest := ss[1..];
      assert forall i :: 0 <= i < |rest| ==> rest[i] == ss[i + 1];
      assert Reading(Line(rest), rest);
      LineReads(rest);
      NoOptFirst(rest);
      if ss[0].Alone? && rest != [] { assert !LeadsKey(ss[1]); }
      GroupReads(ss[0], Line(rest));
    }
  }

  /** What is read consists of such groups. */
  lemma {:induction false} ReadsLine(os: seq<Opt>) returns (ss: seq<Shape>)
    requires Groups(os).Some?
    ensures Reading(os, ss)
    decreases |os|
  {
    ss := [];
    if os != [] {
      hide Groups, GroupRest, KeyOpts, Lead, Skip, Reading, Words;
      var s, r := FirstShape(os);
      var rest := ReadsLine(r);
      JoinReading(s, rest, r);
      ss := [s] + rest;
    }
  }

  lemma {:induction false} FirstShape(os: seq<Opt>) returns (s: Shape, rest: seq<Opt>)
    requires os != [] && Groups(os).Some?
    ensures os == Words(s) + rest && Groups(rest).Some? && |rest| < |os|
    ensures s.Alone? && rest != [] ==> !rest[0].InKey?
  {
    hide KeyOpts, Lead, Skip;
    var tail := os[1..];
    var o, r := Lead(tail), Skip(tail);
    OptsLead(tail);
    if os[0].Signer? && (r == [] || !r[0].InKey?) {
      s, rest := Alone(os[0].file, o), r;
      assert os == [os[0]] + os[1..];
    } else {
      var p := Lead(r[1..]);
      rest := Skip(r[1..]);
      OptsLead(r[1..]);
      s := if os[0].Signer? then Two(os[0].file, r[0].file, false, o, p) else Two(r[0].file, os[0].file, true, o, p);
      TwoStand(os, o, r, p, rest);
    }
  }

  lemma {:induction false} TwoStand(os: seq<Opt>, o: seq<string>, r: seq<Opt>, p: seq<string>, rest: seq<Opt>)
    requires os != [] && os[1..] == KeyOpts(o) + r && r != [] && r[1..] == KeyOpts(p) + rest
    ensures os == InOrder(os[0], o, r[0], p) + rest
  {
    hide KeyOpts;
    assert os == [os[0]] + os[1..] && r == [r[0]] + r[1..];
  }

  lemma {:induction false} JoinReading(s: Shape, rest: seq<Shape>, r: seq<Opt>)
    requires Reading(r, rest) && (s.Alone? && r != [] ==> !r[0].InKey?)
    ensures Reading(Words(s) + r, [s] + rest)
  {
    var ss := [s] + rest;
    assert ss[1..] == rest;
    NoOptFirst(rest);
    forall i, j | 0 <= i && j == i + 1 && j < |ss| && ss[i].Alone? ensures !LeadsKey(ss[j]) {
      if i > 0 {
        var a, b := i - 1, j - 1;
        assert rest[a].Alone? && b == a + 1;
      }
    }
  }

  /** Accepted are exactly the lines that consist of at least one group; each group is signed with its own pair. */
  ghost predicate SignOutcome(os: seq<Opt>, r: Option<seq<Pair>>) {
    (r.Some? <==> exists ss :: Reading(os, ss) && ss != []) &&
    forall ss :: Reading(os, ss) && ss != [] ==> r == Some(PairsFor(ss))
  }

  lemma {:induction false} GroupsExactly(os: seq<Opt>)
    ensures var g := Groups(os);
            SignOutcome(os, if g == None || g.value == [] then None else g)
  {
    hide Reading;
    var g := Groups(os);
    forall ss | Reading(os, ss) && ss != [] ensures g == Some(PairsFor(ss)) && PairsFor(ss) != [] {
      assert Line(ss) == os by { ReadingLine(os, ss); }
      LineReads(ss);
    }
    if g.Some? && g.value != [] {
      var ss := ReadsLine(os);
      ReadingLine(os, ss);
      assert ss != [] by { if ss == [] { LineReads(ss); } }
    }
  }

  lemma {:induction false} ReadingLine(os: seq<Opt>, ss: seq<Shape>)
    requires Reading(os, ss)
    ensures Line(ss) == os
  {
  }

  // ---- The program ----

  /** cms_key_param: parameters for the pair with number idx. */
  datatype KeyParam = KeyParam(idx: int, param: seq<string>)

  /** The first node with the given number (apps/cms.c:1193-1198). */
  function ParamsFor(list: seq<KeyParam>, i: int): seq<string> {
    if list == [] then [] else if list[0].idx == i then list[0].param else ParamsFor(list[1..], i)
  }

  ghost predicate Ascending(list: seq<KeyParam>, bound: int) {
    (forall i :: 0 <= i < |list| ==> 0 <= list[i].idx <= bound) &&
    forall i, j :: 0 <= i < j < |list| ==> list[i].idx < list[j].idx
  }

  function PairUp(signers: seq<string>, keys: seq<string>, list: seq<KeyParam>): seq<Pair>
    requires |signers| == |keys|
  {
    if signers == [] then []
    else
      var n := |signers| - 1;
      PairUp(signers[..n], keys[..n], list) + [Pair(signers[n], keys[n], ParamsFor(list, n))]
  }

  /** Appending a parameter for pair i, in a new node when the last one belongs to an earlier pair. */
  function AddOpt(list: seq<KeyParam>, i: int, v: string): seq<KeyParam> {
    var grown := if list == [] || list[|list| - 1].idx != i then list + [KeyParam(i, [])] else list;
    var last := |grown| - 1;
    grown[last := grown[last].(param := grown[last].param + [v])]
  }

  lemma {:induction false} AddOptFor(list: seq<KeyParam>, i: int, v: string)
    requires Ascending(list, i) && 0 <= i
    ensures Ascending(AddOpt(list, i, v), i)
    ensures ParamsFor(AddOpt(list, i, v), i) == ParamsFor(list, i) + [v]
    ensures forall j :: j != i ==> ParamsFor(AddOpt(list, i, v), j) == ParamsFor(list, j)
  {
    if |list| > 1 {
      AddOptFor(list[1..], i, v);
      assert AddOpt(list, i, v) == [list[0]] + AddOpt(list[1..], i, v);
      assert list[0].idx < list[|list| - 1].idx;
    } else if |list| == 1 {
      assert list[1..] == [];
      if list[0].idx != i {
        var none: seq<string> := [];
        assert none + [v] == [v];
        assert AddOpt(list, i, v) == [list[0], KeyParam(i, none + [v])];
        assert AddOpt(list, i, v)[1..] == [KeyParam(i, [v])];
        assert [KeyParam(i, [v])][1..] == [];
      }
    }
  }

  lemma {:induction false} PairUpSame(signers: seq<string>, keys: seq<string>, a: seq<KeyParam>, b: seq<KeyParam>)
    requires |signers| == |keys| && forall i :: 0 <= i < |keys| ==> ParamsFor(a, i) == ParamsFor(b, i)
    ensures PairUp(signers, keys, a) == PairUp(signers, keys, b)
  {
    if signers != [] {
      var n := |signers| - 1;
      PairUpSame(signers[..n], keys[..n], a, b);
    }
  }

  class Args {
    var signerfile: Option<string>
    var keyfile: Option<string>
    var sksigners: seq<string>
    var skkeys: seq<string>
    /** The list from key_first to key_param. */
    var keyParams: seq<KeyParam>

    ghost predicate Valid()
      reads this
    {
      |sksigners| == |skkeys| && Ascending(keyParams, |skkeys|) &&
      (signerfile == None && keyfile == None ==> skkeys == [] && keyParams == [])
    }

    ghost function View(): State
      reads this
      requires Valid()
    {
      var o := ParamsFor(keyParams, |skkeys|);
      State(PairUp(sksigners, skkeys, keyParams),
            if signerfile.Some? && keyfile.Some? then Both(signerfile.value, keyfile.value, o)
            else if signerfile.Some? then SignerOnly(signerfile.value, o)
            else if keyfile.Some? then KeyOnly(keyfile.value, o)
            else Nobody)
    }

    constructor ()
      ensures Valid() && View() == State([], Nobody)
    {
      signerfile, keyfile, sksigners, skkeys, keyParams := None, None, [], [], [];
    }

    /** Pushing the pending pair (apps/cms.c:655-668, 682-692, 829-841). */
    method Push()
      requires Valid() && signerfile.Some?
      modifies this
      ensures |sksigners| == |skkeys| == old(|skkeys|) + 1 && keyParams == old(keyParams)
      ensures Ascending(keyParams, |skkeys|) && ParamsFor(keyParams, |skkeys|) == []
      ensures Some(PairUp(sksigners, skkeys, keyParams)) == Closed(old(View()))
      ensures keyfile == old(keyfile) && signerfile == old(signerfile)
    {
      NoLaterParams(keyParams, |skkeys|);
      ghost var n := |skkeys|;
      sksigners := sksigners + [signerfile.value];
      skkeys := skkeys + [if keyfile == None then signerfile.value else keyfile.value];
      assert sksigners[..n] == old(sksigners) && skkeys[..n] == old(skkeys);
    }

    /** case OPT_SIGNER (apps/cms.c:653-671). */
    method OnSigner(file: string)
      requires Valid()
      modifies this
      ensures Valid() && Step(old(View()), Signer(file)) == Some(View())
    {
      if signerfile.Some? {
        Push();
        keyfile := None;
      }
      signerfile := Some(file);
    }

    /** case OPT_INKEY (apps/cms.c:675-695). */
    method OnInKey(file: string) returns (ok: bool)
      requires Valid()
      modifies this
      ensures Valid()
      ensures Step(old(View()), InKey(file)) == if ok then Some(View()) else None
    {
      if keyfile.Some? {
        if signerfile == None { return false; }
        Push();
        signerfile := None;
      }
      keyfile := Some(file);
      return true;
    }

    /** case OPT_KEYOPT (apps/cms.c:716-748). */
    method OnKeyOpt(value: string) returns (ok: bool)
      requires Valid()
      modifies this
      ensures Valid()
      ensures Step(old(View()), KeyOpt(value)) == if ok then Some(View()) else None
    {
      var keyidx := -1;
      if keyfile.Some? || signerfile.Some? { keyidx := keyidx + 1; }
      keyidx := keyidx + |skkeys|;
      if keyidx < 0 { return false; }
      AddOptFor(keyParams, keyidx, value);
      PairUpSame(sksigners, skkeys, keyParams, AddOpt(keyParams, keyidx, value));
      AddParam(keyidx, value);
      return true;
    }

    method AddParam(keyidx: int, value: string)
      modifies this`keyParams
      ensures keyParams == AddOpt(old(keyParams), keyidx, value)
    {
      if keyParams == [] || keyParams[|keyParams| - 1].idx != keyidx {
        keyParams := keyParams + [KeyParam(keyidx, [])];
      }
      var last := |keyParams| - 1;
      keyParams := keyParams[last := keyParams[last].(param := keyParams[last].param + [value])];
    }

    /** The option loop. */
    method ReadOptions(os: seq<Opt>) returns (ok: bool)
      requires Valid()
      modifies this
      ensures Valid()
      ensures Run(old(View()), os) == if ok then Closed(View()) else None
    {
      ghost var start := View();
      var i := 0;
      while i < |os|
        invariant 0 <= i <= |os| && Valid()
        invariant Run(start, os) == Run(View(), os[i..])
      {
        assert os[i..][0] == os[i] && os[i..][1..] == os[i + 1..];
        match os[i] {
          case Signer(file) => OnSigner(file); ok := true;
          case InKey(file) => ok := OnInKey(file);
          case KeyOpt(value) => ok := OnKeyOpt(value);
        }
        if !ok { return; }
        i := i + 1;
      }
      ok := true;
    }

    /** The checks after the options (apps/cms.c:823-847). */
    method Finish() returns (ok: bool)
      requires Valid()
      modifies this
      ensures |sksigners| == |skkeys|
      ensures var ps := Closed(old(View()));
              ok <==> ps.Some? && ps.value != []
      ensures ok ==> Some(PairUp(sksigners, skkeys, keyParams)) == Closed(old(View()))
    {
      if keyfile.Some? && signerfile == None { return false; }
      if signerfile.Some? {
        Push();
      }
      if sksigners == [] { return false; }
      return true;
    }

    /** The signing loop: certificate, key and parameters of each signer (apps/cms.c:1175-1207). */
    method Sign() returns (ps: seq<Pair>)
      requires |sksigners| == |skkeys|
      ensures ps == PairUp(sksigners, skkeys, keyParams)
    {
      ps := [];
      var i := 0;
      while i < |sksigners|
        invariant 0 <= i <= |sksigners|
        invariant ps == PairUp(sksigners[..i], skkeys[..i], keyParams)
      {
        var k := 0;
        while k < |keyParams| && keyParams[k].idx != i
          invariant 0 <= k <= |keyParams| && ParamsFor(keyParams, i) == ParamsFor(keyParams[k..], i)
        {
          assert keyParams[k..][1..] == keyParams[k + 1..];
          k := k + 1;
        }
        var opts := if k < |keyParams| then keyParams[k].param else [];
        assert opts == ParamsFor(keyParams, i);
        assert sksigners[..i + 1][..i] == sksigners[..i] && skkeys[..i + 1][..i] == skkeys[..i];
        ps := ps + [Pair(sksigners[i], skkeys[i], opts)];
        i := i + 1;
      }
      assert sksigners[..i] == sksigners && skkeys[..i] == skkeys;
    }
  }

  lemma {:induction false} NoSuchParam(list: seq<KeyParam>, i: int)
    requires forall k :: 0 <= k < |list| ==> list[k].idx != i
    ensures ParamsFor(list, i) == []
  {
    if list != [] { NoSuchParam(list[1..], i); }
  }

  lemma {:induction false} NoLaterParams(list: seq<KeyParam>, bound: int)
    requires Ascending(list, bound)
    ensures ParamsFor(list, bound + 1) == [] && Ascending(list, bound + 1)
  {
    NoSuchParam(list, bound + 1);
  }

  /** The whole path from the command line to the signatures: a signing run is accepted exactly when the
      arguments form at least one group and nothing else, and it signs with exactly those groups. */
  method CmsSign(os: seq<Opt>) returns (r: Option<seq<Pair>>)
    ensures SignOutcome(os, r)
    ensures var g := Groups(os);
            r == if g == None || g.value == [] then None else g
  {
    hide SignOutcome;
    GroupsExactly(os);
    var args := new Args();
    MachineReadsGroups(args.View(), os);
    assert Prefixed([], Groups(os)) == Groups(os) by {
      if Groups(os).Some? { assert [] + Groups(os).value == Groups(os).value; }
    }
    var ok := args.ReadOptions(os);
    if !ok { return None; }
    ok := args.Finish();
    if !ok { return None; }
    var ps := args.Sign();
    return Some(ps);
  }
}
