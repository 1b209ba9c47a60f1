/** A certification authority over its whole life: any number of invocations, each stopped anywhere, and repairs. */
module Lifetime {
  import opened Base
  import opened RevInfo
  import opened CaTable
  import opened Issue
  import opened Views
  import opened Agreement
  import opened Runs
  import opened Commit
  import opened Ledger
  import opened Session
  import Serial
  import TimeText
  import SerialText = SerialFile

  /** The program is started, or the operator puts missing files back from their .old copies. */
  datatype Event = Invoke(inv: Invocation) | Repair

  ghost predicate EventStep(env: Env, s: State, e: Event, t: State) {
    match e
    case Invoke(inv) => Stops(s, Plan(env, s.files, inv), t)
    case Repair => Step(s, Restore, t)
  }

  ghost predicate Life(env: Env, h: seq<State>, events: seq<Event>) {
    |h| == |events| + 1 && forall i :: 0 <= i < |events| ==> EventStep(env, h[i], events[i], h[i + 1])
  }

  /** The invocation adds no certificate with an unreadable expiry and no revocation outside the years of UTCTime. */
  ghost predicate ReadableEvent(env: Env, f: Files, e: Event) {
    e.Invoke? && Loads(env, f) ==>
      var v, here := SerialIn(f), InForce(env, f);
      if v.Some? then KeepsReadable(here, f[Index].rows, RunOf(e.inv, v.value))
      else e.inv.apps == [] ==> KeepsReadable(here, f[Index].rows, RunOf(e.inv, 0))
  }

  ghost predicate ReadableLife(env: Env, h: seq<State>, events: seq<Event>) {
    |h| == |events| + 1 && forall i :: 0 <= i < |events| ==> ReadableEvent(env, h[i].files, events[i])
  }

  lemma {:induction false} TimelyIsReadable(env: Env, f: Files, e: Event)
    requires e.Invoke? ==> Timely(RunOf(e.inv, 0))
    ensures ReadableEvent(env, f, e)
  {
    hide KeepsReadable, SerialIn, Loadable;
    if e.Invoke? && Loads(env, f) {
      var v := if SerialIn(f).Some? then SerialIn(f).value else 0;
      TimelyKeeps(InForce(env, f), f[Index].rows, RunOf(e.inv, v));
    }
  }

  /** The table in the index file or, while that is missing, in its set-aside copy. */
  function TableAt(f: Files): Option<seq<Row>> {
    var c := Current(f, Index, IndexOld);
    if c.Some? && c.value.Table? then Some(c.value.rows) else None
  }

  /** What the attribute file says, or its set-aside copy while that is missing. */
  function AttrNow(f: Files): Option<Content> { Current(f, Attr, AttrOld) }

  /** The disk holds a table that passes every check on loading but perhaps the one for names, with a row for every
      number certify has put there, and a serial above them all. */
  ghost predicate Fit(env: Env, s: State) {
    TableAt(s.files).Some? && SerialAt(s.files).Some? && Loadable(env.oid, TableAt(s.files).value, false) &&
    Covered(s.issued, SerialAt(s.files).value, TableAt(s.files).value)
  }

  /** At most one Valid row per name. */
  ghost predicate NamesUnique(f: Files) { TableAt(f).Some? && OneValidPerName(TableAt(f).value) }

  ghost predicate Later(s: State, t: State)
    requires TableAt(s.files).Some? && TableAt(t.files).Some? && SerialAt(s.files).Some? && SerialAt(t.files).Some?
  {
    Follows(TableAt(s.files).value, TableAt(t.files).value) && SerialAt(s.files).value <= SerialAt(t.files).value
  }

  lemma {:induction false} LaterTransitive(s: State, m: State, t: State)
    requires TableAt(s.files).Some? && TableAt(m.files).Some? && TableAt(t.files).Some?
    requires SerialAt(s.files).Some? && SerialAt(m.files).Some? && SerialAt(t.files).Some?
    requires Later(s, m) && Later(m, t)
    ensures Later(s, t)
  {
    FollowsTransitive(TableAt(s.files).value, TableAt(m.files).value, TableAt(t.files).value);
  }

  // ---- What one step, one invocation and one event do ----

  lemma {:induction false} StepAttr(s: State, a: Action, t: State)
    requires Step(s, a, t)
    ensures AttrNow(t.files) == AttrNow(s.files) || (!a.Restore? && AttrNow(t.files) == Some(Flag(a.unique)))
  {
  }

  lemma {:induction false} StepFit(env: Env, s: State, a: Action, t: State)
    requires Fit(env, s) && Step(s, a, t) && (!a.Restore? ==> Loadable(env.oid, Target(a), false))
    ensures Fit(env, t) && Later(s, t)
    ensures TableAt(t.files) == TableAt(s.files) || (!a.Restore? && TableAt(t.files) == Some(Target(a)))
  {
    hide Loadable, Step;
    var v, rows := SerialAt(s.files).value, TableAt(s.files).value;
    assert AheadAt(s, v, rows);
    v, rows := StepStaysAhead(s, a, t, v, rows);
  }

  ghost predicate AllLoadable(oid: OidTable, unique: bool, plan: seq<Action>)
    requires NoRestore(plan)
  {
    plan == [] || (Loadable(oid, Target(plan[0]), unique) && AllLoadable(oid, unique, plan[1..]))
  }

  /** What running a plan may do to names and attributes. */
  ghost predicate Effect(s: State, t: State, unique: bool) {
    (unique && NamesUnique(s.files) ==> NamesUnique(t.files)) &&
    (AttrNow(t.files) == AttrNow(s.files) || AttrNow(t.files) == Some(Flag(unique)))
  }

  lemma {:induction false} ActionFit(env: Env, s: State, a: Action, t: State)
    requires Fit(env, s) && !a.Restore? && Step(s, a, t) && Loadable(env.oid, Target(a), a.unique)
    ensures Fit(env, t) && Later(s, t) && Effect(s, t, a.unique)
  {
    hide Step, RowsOk, Fit, Follows;
    StepAttr(s, a, t);
    StepFit(env, s, a, t);
  }

  lemma {:induction false} StopsFit(env: Env, s: State, plan: seq<Action>, t: State, unique: bool)
    requires Fit(env, s) && NoRestore(plan) && Uniform(plan, unique) && AllLoadable(env.oid, unique, plan)
    requires Stops(s, plan, t)
    ensures Fit(env, t) && Later(s, t) && Effect(s, t, unique)
    decreases |plan|
  {
    hide Step, Loadable, OneValidPerName, Covered, Follows, SerialAt;
    if t == s {
      LaterSelf(env, s);
    } else if Step(s, plan[0], t) {
      ActionFit(env, s, plan[0], t);
    } else {
      var m :| Passes(s, plan, m) && Stops(m, plan[1..], t);
      ActionFit(env, s, plan[0], m);
      StopsFit(env, m, plan[1..], t, unique);
      LaterTransitive(s, m, t);
    }
  }

  lemma {:induction false} LaterSelf(env: Env, s: State)
    requires Fit(env, s)
    ensures Later(s, s)
  {
    FollowsSelf(TableAt(s.files).value);
  }

  lemma {:induction false} SoundTargets(env: Env, rows: seq<Row>, plan: seq<Action>)
    requires NoRestore(plan) && AllSound(env, rows, Targets(plan))
    ensures AllLoadable(env.oid, env.unique, plan)
  {
    hide Loadable, Follows, Canonical;
    if plan != [] {
      assert Targets(plan)[1..] == Targets(plan[1..]);
      SoundTargets(env, rows, plan[1..]);
    }
  }

  /** Every table an invocation sets out to save can be loaded under the unique_subject it works with. */
  lemma {:induction false} PlanLoadable(env: Env, f: Files, inv: Invocation)
    requires ReadableEvent(env, f, Invoke(inv))
    ensures AllLoadable(env.oid, UniqueAt(f, env.unique), Plan(env, f, inv))
  {
    hide SerialIn, PlanUpdate, Loadable, KeepsReadable, Saves;
    if Loads(env, f) {
      var rows, here := f[Index].rows, InForce(env, f);
      if SerialIn(f).Some? {
        var v := SerialIn(f).value;
        PlanSaves(env, f, rows, v, inv);
        RunSound(here, rows, RunOf(inv, v));
        SoundTargets(here, rows, Plan(env, f, inv));
      } else {
        NoSerialLoadable(env, f, inv);
      }
    }
  }

  /** Without a readable serial file an invocation with requests ends after the update, and one without goes on as with
      any. */
  lemma {:induction false} NoSerialLoadable(env: Env, f: Files, inv: Invocation)
    requires Loads(env, f) && ReadableEvent(env, f, Invoke(inv)) && SerialIn(f) == None
    ensures AllLoadable(env.oid, UniqueAt(f, env.unique), Plan(env, f, inv))
  {
    hide SerialIn, PlanRevoke, RowsOk, KeepsReadable, Saves, Inv, KeptDb;
    var rows, here := f[Index].rows, InForce(env, f);
    if inv.apps == [] {
      var g := f[SerialFile := Number(0)];
      SerialZero(g);
      PlanSaves(env, g, rows, 0, inv);
      RunSound(here, rows, RunOf(inv, 0));
      SoundTargets(here, rows, Plan(env, g, inv));
      assert Plan(env, g, inv) == Plan(env, f, inv);
    } else {
      UpdateLoads(here, rows, RunOf(inv, 0));
      var plan := Plan(env, f, inv);
      if plan != [] { assert plan[1..] == []; }
    }
  }

  lemma {:induction false} SerialZero(g: Files)
    requires Get(g, SerialFile) == Some(Number(0))
    ensures SerialIn(g) == Some(0)
  {
    SerialText.ReadBackExactly(0);
  }

  lemma {:induction false} UpdateLoads(env: Env, rows: seq<Row>, run: Run)
    requires Loadable(env.oid, rows, env.unique)
    ensures Loadable(env.oid, Updated(env, rows, run).rows, env.unique)
  {
    UpdateKept(env, rows, run);
  }

  /** Where an event leaves the disk. */
  lemma {:induction false} EventFit(env: Env, s: State, e: Event, t: State)
    requires Fit(env, s) && ReadableEvent(env, s.files, e) && EventStep(env, s, e, t)
    ensures Fit(env, t) && Later(s, t)
    ensures e.Repair? || !Loads(env, s.files) ==>
              TableAt(t.files) == TableAt(s.files) && AttrNow(t.files) == AttrNow(s.files)
    ensures e.Invoke? && Loads(env, s.files) ==> Effect(s, t, UniqueAt(s.files, env.unique))
  {
    hide Step, Loadable, ReadableEvent, Later, Fit;
    match e {
      case Invoke(inv) =>
        if Loads(env, s.files) {
          PlanLoadable(env, s.files, inv);
          StopsFit(env, s, Plan(env, s.files, inv), t, UniqueAt(s.files, env.unique));
        } else {
          LaterSelf(env, s);
        }
      case Repair =>
        StepFit(env, s, Restore, t);
        StepAttr(s, Restore, t);
    }
  }

  lemma {:induction false} LifeStep(env: Env, h: seq<State>, events: seq<Event>, k: nat)
    requires Life(env, h, events) && ReadableLife(env, h, events) && k + 1 < |h|
    ensures k < |events| && ReadableEvent(env, h[k].files, events[k]) && EventStep(env, h[k], events[k], h[k + 1])
  {
    hide ReadableEvent, EventStep;
  }

  lemma {:induction false} EveryDiskFit(env: Env, h: seq<State>, events: seq<Event>, j: nat)
    requires Life(env, h, events) && ReadableLife(env, h, events) && Fit(env, h[0]) && j < |h|
    ensures Fit(env, h[j])
    ensures j > 0 ==> Fit(env, h[j - 1]) && Later(h[j - 1], h[j])
  {
    hide Fit, Life, ReadableLife, Loads, Effect;
    if j > 0 {
      EveryDiskFit(env, h, events, j - 1);
      LifeStep(env, h, events, j - 1);
      EventFit(env, h[j - 1], events[j - 1], h[j]);
    }
  }

  /** At every disk state of any number of invocations, each stopped anywhere, and repairs: the current table passes
      every check on loading but perhaps the one for names and continues every earlier one, and the serial is above
      every number in it that certify has issued. */
  lemma {:induction false} EveryLifeSound(env: Env, h: seq<State>, events: seq<Event>, i: nat, j: nat)
    requires Life(env, h, events) && ReadableLife(env, h, events) && Fit(env, h[0]) && i <= j < |h|
    ensures Fit(env, h[i]) && Fit(env, h[j]) && Later(h[i], h[j])
    decreases j
  {
    hide Life, ReadableLife, Follows, Loadable, Covered;
    EveryDiskFit(env, h, events, j);
    if i == j {
      LaterSelf(env, h[j]);
    } else {
      EveryLifeSound(env, h, events, i, j - 1);
      LaterTransitive(h[i], h[j - 1], h[j]);
    }
  }

  // ---- When the program, the next batch and the responder can load ----

  /** The responder (apps/ocsp.c:658-666): it makes no field checks, and its configured value is yes. */
  ghost predicate OcspLoads(f: Files) {
    Index in f && f[Index].Table? && Indexable(f[Index].rows, UniqueAt(f, true))
  }

  /** A run that has requests gets to the first of them. */
  ghost predicate CanCertify(env: Env, f: Files) { Loads(env, f) && SerialIn(f).Some? }

  /** On a fit disk ca and ocsp load the table exactly when the index file is there and, if unique_subject is in force
      as each of them reads it, no name has two Valid rows; certifying can begin exactly when besides the serial file is
      there and its number has at most 35 octets. */
  lemma {:induction false} LoadsExactly(env: Env, s: State)
    requires Fit(env, s)
    ensures Loads(env, s.files) <==> Index in s.files && (UniqueAt(s.files, env.unique) ==> NamesUnique(s.files))
    ensures OcspLoads(s.files) <==> Index in s.files && (UniqueAt(s.files, true) ==> NamesUnique(s.files))
    ensures CanCertify(env, s.files) <==>
            Index in s.files && (UniqueAt(s.files, env.unique) ==> NamesUnique(s.files)) &&
            SerialFile in s.files && 0 <= SerialAt(s.files).value < SerialText.Pow256(35)
  {
    hide RowsOk, OneValidPerName, DistinctSerials, Covered, SerialText.Pow256, SerialIn;
    SerialInExactly(s.files);
  }

  /** Without a readable serial file no batch is committed. */
  lemma {:induction false} NoSerialNoBatch(env: Env, f: Files, inv: Invocation)
    requires SerialIn(f) == None
    ensures forall i :: 0 <= i < |Plan(env, f, inv)| ==> !Plan(env, f, inv)[i].CertifyBatch?
  {
    hide SerialIn, Loads, Revoke, BatchOf;
  }

  /** The attribute file, or its copy, agrees with the configuration. */
  predicate Matched(env: Env, f: Files) { SaysUnique(AttrNow(f), env.unique) == env.unique }

  /** When the attribute file agrees with the configuration at first, it does so on every disk, every invocation works
      with the configured value, names stay unique if that is yes, and the program loads every table that is not
      missing. */
  lemma {:induction false} MatchedLifeLoads(env: Env, h: seq<State>, events: seq<Event>, j: nat)
    requires Life(env, h, events) && ReadableLife(env, h, events) && Fit(env, h[0]) && j < |h|
    requires Matched(env, h[0].files) && (env.unique ==> NamesUnique(h[0].files))
    ensures Fit(env, h[j]) && Matched(env, h[j].files) && UniqueAt(h[j].files, env.unique) == env.unique
    ensures env.unique ==> NamesUnique(h[j].files)
    ensures Loads(env, h[j].files) <==> Index in h[j].files
  {
    hide Fit, Life, ReadableLife, Loads, Later;
    if j > 0 {
      var k := j - 1;
      MatchedLifeLoads(env, h, events, k);
      LifeStep(env, h, events, k);
      EventFit(env, h[k], events[k], h[j]);
    }
    LoadsExactly(env, h[j]);
  }

  /** With unique_subject configured and whatever the attribute file says, on every disk of a life that begins with a
      table that loads: the next run loads the table exactly when the index file is there and the attribute file is
      there or no name has two Valid rows. */
  lemma {:induction false} ConfiguredYesLoads(env: Env, h: seq<State>, events: seq<Event>, j: nat)
    requires Life(env, h, events) && ReadableLife(env, h, events) && Fit(env, h[0]) && j < |h|
    requires env.unique && Loads(env, h[0].files)
    ensures Fit(env, h[j])
    ensures SaysUnique(AttrNow(h[j].files), true) ==> NamesUnique(h[j].files)
    ensures Loads(env, h[j].files) <==> Index in h[j].files && (Attr in h[j].files || NamesUnique(h[j].files))
  {
    hide Fit, Life, ReadableLife, Later, RowsOk, DistinctSerials, OneValidPerName;
    if j > 0 {
      var k := j - 1;
      ConfiguredYesLoads(env, h, events, k);
      LifeStep(env, h, events, k);
      EventFit(env, h[k], events[k], h[j]);
      LoadsExactly(env, h[k]);
    }
    LoadsExactly(env, h[j]);
  }

  /** Names stay unique for as long as every invocation finds unique_subject in force. */
  lemma {:induction false} NamesStayUnique(env: Env, h: seq<State>, events: seq<Event>, j: nat)
    requires Life(env, h, events) && ReadableLife(env, h, events) && Fit(env, h[0]) && j < |h|
    requires NamesUnique(h[0].files)
    requires forall k :: 0 <= k < j && events[k].Invoke? ==> UniqueAt(h[k].files, env.unique)
    ensures Fit(env, h[j]) && NamesUnique(h[j].files)
  {
    hide Fit, Life, ReadableLife, Loads, Later, OneValidPerName;
    if j > 0 {
      var k := j - 1;
      NamesStayUnique(env, h, events, k);
      LifeStep(env, h, events, k);
      EventFit(env, h[k], events[k], h[j]);
    }
  }

  // ---- What a stop without attribute file does ----

  /** -valid of one certificate. */
  function AddValid(ca: Ca, c: Cert, now: string): Invocation {
    Invocation(None, ca, [], true, Some(Revocation(c, RevValid, "", now)))
  }

  lemma {:induction false} AddValidPlan(env: Env, f: Files, ca: Ca, c: Cert, now: string)
    requires Loads(env, f) && !Clashes(Loaded(InForce(env, f), f[Index].rows), NewRow(c))
    ensures var rows := f[Index].rows;
            Plan(env, f, AddValid(ca, c, now)) ==
            [Rewrite(rows, rows + [NewRow(c)], UniqueAt(f, env.unique))] && Follows(rows, rows + [NewRow(c)])
  {
    hide Loadable, Serial.Text, SerialIn;
    var rows := f[Index].rows;
    var all := rows + [NewRow(c)];
    assert forall i :: 0 <= i < |rows| ==> all[i] == rows[i];
  }

  /** The files x are where -valid may stop: the new table is in place, and the attribute file is set aside, put in
      place, or put back. */
  lemma {:induction false} AddValidStops(env: Env, s: State, ca: Ca, c: Cert, now: string, x: Files)
    requires Loads(env, s.files) && !Clashes(Loaded(InForce(env, s.files), s.files[Index].rows), NewRow(c))
    requires Get(x, Index) == Some(Table(s.files[Index].rows + [NewRow(c)]))
    requires AttrState(s.files, x, Flag(UniqueAt(s.files, env.unique)))
    requires forall id :: id !in {Index, IndexOld, Attr, AttrOld} ==> Get(x, id) == Get(s.files, id)
    ensures EventStep(env, s, Invoke(AddValid(ca, c, now)), State(x, s.issued))
  {
    hide Loadable, Serial.Text, SerialIn, Clashes, Follows;
    var rows := s.files[Index].rows;
    AddValidPlan(env, s.files, ca, c, now);
    var a := Rewrite(rows, rows + [NewRow(c)], UniqueAt(s.files, env.unique));
    assert forall k :: Get(x, CertFile(k)) == Get(s.files, CertFile(k));
    assert Get(x, SerialFile) == Get(s.files, SerialFile) && Get(x, SerialOld) == Get(s.files, SerialOld);
    assert Step(s, a, State(x, s.issued));
  }

  /** Two rows of one name, one of them in each table. */
  lemma {:induction false} TwiceStays(rows: seq<Row>, r: Row)
    requires !OneValidPerName(rows)
    ensures !OneValidPerName(rows + [r])
  {
    var all := rows + [r];
    assert forall i :: 0 <= i < |rows| ==> all[i] == rows[i];
  }

  lemma {:induction false} TwiceMade(rows: seq<Row>, i: nat, r: Row)
    requires i < |rows| && rows[i].typ == 'V' && r.typ == 'V' && rows[i].name == r.name
    ensures !OneValidPerName(rows + [r])
  {
    var all := rows + [r];
    assert all[i] == rows[i] && all[|rows|] == r;
  }

  /** The disk on which the attribute file has just been set aside. */
  function AttrAside(f: Files, rows: seq<Row>): Files
    requires Index in f && Attr in f
  {
    (f - {Attr})[AttrOld := f[Attr]][IndexOld := f[Index]][Index := Table(rows)]
  }

  /** Configured yes, attribute file no, two Valid rows of one name: a -valid stopped between the two attribute renames
      leaves a table that the next run refuses. */
  lemma {:induction false} StopLocksTable(env: Env, s: State, ca: Ca, c: Cert, now: string)
    requires env.unique && Get(s.files, Attr) == Some(Flag(false)) && Loads(env, s.files)
    requires !OneValidPerName(s.files[Index].rows) && Lookup(s.files[Index].rows, CertKey(c)) == |s.files[Index].rows|
    ensures var x := AttrAside(s.files, s.files[Index].rows + [NewRow(c)]);
            EventStep(env, s, Invoke(AddValid(ca, c, now)), State(x, s.issued)) && !Loads(env, x)
  {
    hide RowsOk, Serial.Text, Serial.Key, SerialIn, EventStep;
    var rows := s.files[Index].rows;
    var x := AttrAside(s.files, rows + [NewRow(c)]);
    AddValidStops(env, s, ca, c, now, x);
    TwiceStays(rows, NewRow(c));
  }

  /** Configured no, attribute file missing: a run works without unique_subject, puts a second Valid row of a name in
      the table and writes no to the attribute file. */
  lemma {:induction false} MissingAttrLosesNames(env: Env, s: State, ca: Ca, c: Cert, now: string, i: nat)
    requires !env.unique && Attr !in s.files && Loads(env, s.files)
    requires i < |s.files[Index].rows| && s.files[Index].rows[i].typ == 'V'
    requires s.files[Index].rows[i].name == CertName(c)
    requires Lookup(s.files[Index].rows, CertKey(c)) == |s.files[Index].rows|
    ensures var rows := s.files[Index].rows + [NewRow(c)];
            var x := s.files[IndexOld := s.files[Index]][Index := Table(rows)][Attr := Flag(false)];
            EventStep(env, s, Invoke(AddValid(ca, c, now)), State(x, s.issued)) &&
            !OneValidPerName(rows) && !UniqueAt(x, env.unique)
  {
    hide RowsOk, Serial.Text, Serial.Key, SerialIn, EventStep;
    var rows := s.files[Index].rows;
    var x := s.files[IndexOld := s.files[Index]][Index := Table(rows + [NewRow(c)])][Attr := Flag(false)];
    AddValidStops(env, s, ca, c, now, x);
    TwiceMade(rows, i, NewRow(c));
  }

  /** Configured no, attribute file yes: a -valid may stop between the attribute renames, and the table then loads. */
  lemma {:induction false} StopSetsAttrAside(env: Env, s: State, ca: Ca, c: Cert, now: string) returns (m: State)
    requires !env.unique && Get(s.files, Attr) == Some(Flag(true)) && Fit(env, s) && Loads(env, s.files)
    requires TimeText.TimeOk(c.notAfter)
    requires !Clashes(Loaded(InForce(env, s.files), s.files[Index].rows), NewRow(c))
    ensures EventStep(env, s, Invoke(AddValid(ca, c, now)), m) && Fit(env, m) && Loads(env, m.files)
    ensures Attr !in m.files && m.files[Index].rows == s.files[Index].rows + [NewRow(c)]
  {
    hide Loadable, Serial.Text, Serial.Key, SerialIn, EventStep, Clashes, Lookup, Fit, ReadableEvent;
    m := State(AttrAside(s.files, s.files[Index].rows + [NewRow(c)]), s.issued);
    AddValidStops(env, s, ca, c, now, m.files);
    TimelyIsReadable(env, s.files, Invoke(AddValid(ca, c, now)));
    EventFit(env, s, Invoke(AddValid(ca, c, now)), m);
    LoadsExactly(env, m);
  }

  /** The next -valid then gives a name two Valid rows, and the attribute file says no from then on. */
  lemma {:induction false} StopLosesNames(env: Env, s: State, ca: Ca, c: Cert, d: Cert, now: string)
    returns (m: State, t: State)
    requires !env.unique && Get(s.files, Attr) == Some(Flag(true)) && Fit(env, s) && Loads(env, s.files)
    requires TimeText.TimeOk(c.notAfter) && CertName(c) == CertName(d)
    requires var rows := s.files[Index].rows;
             !Clashes(Loaded(InForce(env, s.files), rows), NewRow(c)) &&
             Lookup(rows + [NewRow(c)], CertKey(d)) == |rows| + 1
    ensures Life(env, [s, m, t], [Invoke(AddValid(ca, c, now)), Invoke(AddValid(ca, d, now))])
    ensures NamesUnique(s.files) && !NamesUnique(t.files) && Get(t.files, Attr) == Some(Flag(false))
  {
    hide RowsOk, Serial.Text, Serial.Key, SerialIn, EventStep, Clashes, Lookup, Fit, OneValidPerName;
    LoadsExactly(env, s);
    m := StopSetsAttrAside(env, s, ca, c, now);
    var rows := m.files[Index].rows;
    assert rows[|rows| - 1] == NewRow(c);
    MissingAttrLosesNames(env, m, ca, d, now, |rows| - 1);
    t := State(m.files[IndexOld := m.files[Index]][Index := Table(rows + [NewRow(d)])][Attr := Flag(false)], m.issued);
  }

  /** And when that run fails at the attribute file and stops there, the old yes is put back over the new table: it is
      refused from then on. */
  lemma {:induction false} OldAttrLocksTable(env: Env, s: State, ca: Ca, c: Cert, now: string, i: nat)
    requires !env.unique && Attr !in s.files && Get(s.files, AttrOld) == Some(Flag(true)) && Loads(env, s.files)
    requires i < |s.files[Index].rows| && s.files[Index].rows[i].typ == 'V'
    requires s.files[Index].rows[i].name == CertName(c)
    requires Lookup(s.files[Index].rows, CertKey(c)) == |s.files[Index].rows|
    ensures var rows := s.files[Index].rows + [NewRow(c)];
            var x := (s.files - {AttrOld})[IndexOld := s.files[Index]][Index := Table(rows)][Attr := Flag(true)];
            EventStep(env, s, Invoke(AddValid(ca, c, now)), State(x, s.issued)) && !Loads(env, x)
  {
    hide RowsOk, Serial.Text, Serial.Key, SerialIn, EventStep;
    var rows := s.files[Index].rows;
    var all := rows + [NewRow(c)];
    var x := (s.files - {AttrOld})[IndexOld := s.files[Index]][Index := Table(all)][Attr := Flag(true)];
    AddValidStops(env, s, ca, c, now, x);
    TwiceMade(rows, i, NewRow(c));
  }

  /** A disk as the first of them asks for: two Valid certificates of one name, allowed by the attribute file. */
  lemma {:induction false} TwoOfOneName(env: Env, exp: string) returns (s: State)
    requires env.unique && TimeText.TimeOk(exp)
    ensures Fit(env, s) && Loads(env, s.files) && Get(s.files, Attr) == Some(Flag(false))
    ensures !OneValidPerName(s.files[Index].rows)
    ensures Lookup(s.files[Index].rows, CertKey(Cert(3, "/CN=b", exp))) == |s.files[Index].rows|
  {
    hide Serial.Text, Serial.Key, TimeText.TimeOk;
    var a, b := NewRow(Cert(1, "/CN=a", exp)), NewRow(Cert(2, "/CN=a", exp));
    var rows := [a, b];
    s := State(map[Index := Table(rows), SerialFile := Number(3), Attr := Flag(false)], {});
    NewRowOk(env.oid, Cert(1, "/CN=a", exp));
    NewRowOk(env.oid, Cert(2, "/CN=a", exp));
    Serial.TextsInjective(1, 2);
    Serial.TextsInjective(1, 3);
    Serial.TextsInjective(2, 3);
    assert forall i :: 0 <= i < 2 ==> rows[i] == a || rows[i] == b;
    assert rows[0].name == rows[1].name;
  }

  // ---- Revoked for life ----

  /** What OCSP has once called Revoked on the table of any of these disks, OCSP and the CRL say on the table of every
      later one; while the index file is missing that table is the set-aside copy, which neither program loads. */
  lemma {:induction false} RevokedForLife(env: Env, h: seq<State>, events: seq<Event>, i: nat, j: nat,
                                          n: int, info: Info)
    requires Life(env, h, events) && ReadableLife(env, h, events) && Fit(env, h[0]) && i <= j < |h|
    requires TableAt(h[i].files).Some?
    requires AnswerFor(env.oid, TableAt(h[i].files).value, true, n) == Give(Revoked(info))
    ensures TableAt(h[j].files).Some?
    ensures var rows := TableAt(h[j].files).value;
            AnswerFor(env.oid, rows, true, n) == Give(Revoked(info)) &&
            CrlOf(env.oid, rows).Some? && CrlEntry(n, info) in CrlOf(env.oid, rows).value
  {
    hide AnswerFor, CrlOf, Life, ReadableLife, Covered;
    EveryLifeSound(env, h, events, i, j);
    var was, rows := TableAt(h[i].files).value, TableAt(h[j].files).value;
    RevokedAnswerStays(env.oid, was, rows, n, info);
    OcspThenCrl(env.oid, rows, n, info);
  }

  /** After a successful -revoke, with or without -updatedb, in which the system has refused nothing, OCSP answers from
      the index file that the certificate is Revoked, with the time, reason and extension that were asked for. */
  lemma {:induction false} RevokeReaches(env: Env, f: Files, inv: Invocation, x: Files)
    requires Loads(env, f) && inv.apps == [] && inv.revoke.Some? && inv.revoke.value.t != RevValid
    requires TimeText.UtcOk(inv.revoke.value.now) && RunOutcome(env, f, inv, true, x)
    ensures var r := inv.revoke.value;
            ArgOk(env.oid, r.t, r.arg) && Index in x && x[Index].Table? &&
            AnswerFor(env.oid, x[Index].rows, true, r.cert.serial) ==
            Give(Revoked(Requested(env.oid, r.t, r.arg, r.now)))
  {
    hide RevokeOutcome, AnswerFor, ArgOk, RowsOk, TimeText.UtcOk;
    var r, db := inv.revoke.value, Loaded(InForce(env, f), f[Index].rows);
    var mid: seq<Row> :| (if inv.update == None then mid == db.rows
                          else UpdateOutcome(env.when, inv.update.value, db.rows, mid)) &&
                         BatchPart(InForce(env, f), db.(rows := mid), f, inv, true, x);
    assert DistinctSerials(mid) by {
      assert forall i :: 0 <= i < |mid| ==> mid[i].serial == db.rows[i].serial;
      assert forall i :: 0 <= i < |mid| ==> KeyOf(mid[i]) == KeyOf(db.rows[i]);
    }
    var after :| RevokeOutcome(env.oid, db.(rows := mid), r.cert, r.t, r.arg, r.now, true, after) &&
                 Get(x, Index) == Some(Table(after.rows));
    OutcomePublished(env.oid, db.(rows := mid), r.cert, r.t, r.arg, r.now, after);
  }

  // ---- The disk states form a behaviour of the ledger ----

  lemma {:induction false} BehaviourJoin(g: seq<State>, a: seq<Action>, h: seq<State>, b: seq<Action>)
    requires Behaviour(g, a) && Behaviour(h, b) && g[|g| - 1] == h[0]
    ensures Behaviour(g + h[1..], a + b)
  {
    hide Step;
    var all, acts := g + h[1..], a + b;
    forall i | 0 <= i < |acts| ensures Step(all[i], acts[i], all[i + 1]) {
      if i < |a| {
        assert Step(g[i], a[i], g[i + 1]);
      } else {
        var k := i - |a|;
        assert Step(h[k], b[k], h[k + 1]);
        assert all[i] == h[k] && all[i + 1] == h[k + 1];
      }
    }
  }

  lemma {:induction false} BehaviourCons(s: State, a: Action, g: seq<State>, acts: seq<Action>)
    requires Behaviour(g, acts) && Step(s, a, g[0])
    ensures Behaviour([s] + g, [a] + acts)
  {
    hide Step;
    var all, more := [s] + g, [a] + acts;
    forall i | 0 <= i < |more| ensures Step(all[i], more[i], all[i + 1]) {
      if i > 0 {
        var k := i - 1;
        assert Step(g[k], acts[k], g[k + 1]);
      }
    }
  }

  lemma {:induction false} StopsBehave(s: State, plan: seq<Action>, t: State) returns (g: seq<State>, acts: seq<Action>)
    requires NoRestore(plan) && Stops(s, plan, t)
    ensures Behaviour(g, acts) && g[0] == s && g[|g| - 1] == t
    decreases |plan|
  {
    hide Step;
    if t == s {
      g, acts := [s], [];
    } else if Step(s, plan[0], t) {
      g, acts := [s, t], [plan[0]];
    } else {
      var m :| Passes(s, plan, m) && Stops(m, plan[1..], t);
      g, acts := StopsBehave(m, plan[1..], t);
      BehaviourCons(s, plan[0], g, acts);
      g, acts := [s] + g, [plan[0]] + acts;
    }
  }

  /** So everything proved of ledgers holds of whole lives: fresh numbers, and which certificates are exposed. */
  lemma {:induction false} LifeBehaves(env: Env, h: seq<State>, events: seq<Event>, j: nat)
    returns (g: seq<State>, acts: seq<Action>)
    requires Life(env, h, events) && j < |h|
    ensures Behaviour(g, acts) && g[0] == h[0] && g[|g| - 1] == h[j]
  {
    hide Plan, Stops;
    if j == 0 {
      g, acts := [h[0]], [];
    } else {
      g, acts := LifeBehaves(env, h, events, j - 1);
      var e := events[j - 1];
      assert EventStep(env, h[j - 1], e, h[j - 1 + 1]);
      var g2, acts2 := [h[j - 1], h[j]], [Restore];
      if e.Invoke? { g2, acts2 := StopsBehave(h[j - 1], Plan(env, h[j - 1].files, e.inv), h[j]); }
      BehaviourJoin(g, acts, g2, acts2);
      g, acts := g + g2[1..], acts + acts2;
    }
  }

  // ---- The program, run after run ----

  function Invoked(invs: seq<Invocation>): seq<Event> {
    if invs == [] then [] else Invoked(invs[..|invs| - 1]) + [Invoke(invs[|invs| - 1])]
  }

  /** Where an invocation has left the disk is an event's next state. */
  lemma {:induction false} InvocationIsEvent(env: Env, s: State, inv: Invocation, steps: seq<Files>, x: Files)
    returns (t: State)
    requires AllStop(s, Plan(env, s.files, inv), steps + [x])
    ensures t.files == x && EventStep(env, s, Invoke(inv), t)
  {
    hide Plan, Stops;
    assert x in steps + [x];
    var issued :| Stops(s, Plan(env, s.files, inv), State(x, issued));
    t := State(x, issued);
  }

  lemma {:induction false} LifeSnoc(env: Env, h: seq<State>, events: seq<Event>, e: Event, t: State)
    requires Life(env, h, events) && EventStep(env, h[|h| - 1], e, t)
    ensures Life(env, h + [t], events + [e])
  {
    hide EventStep;
    var g, es := h + [t], events + [e];
    forall i | 0 <= i < |es| ensures EventStep(env, g[i], es[i], g[i + 1]) {
      if i < |events| { assert EventStep(env, h[i], events[i], h[i + 1]); }
    }
  }

  /** Invocations one after the other on one disk, each ending in success or failure, lead a life. */
  method Operate(d: Disk, env: Env, invs: seq<Invocation>, ghost issued: set<int>) returns (ghost h: seq<State>)
    requires forall i :: 0 <= i < |invs| ==> NoNuls(invs[i])
    modifies d
    ensures Life(env, h, Invoked(invs)) && h[0] == State(old(d.files), issued) && h[|h| - 1].files == d.files
  {
    hide Stops, Plan, AllStop;
    h := [State(d.files, issued)];
    var i := 0;
    while i < |invs|
      invariant 0 <= i <= |invs| && Life(env, h, Invoked(invs[..i]))
      invariant h[0] == State(old(d.files), issued) && h[|h| - 1].files == d.files
    {
      ghost var s := h[|h| - 1];
      var ok;
      ghost var steps;
      ok, steps := RunCa(d, env, invs[i], s.issued);
      ghost var t := InvocationIsEvent(env, s, invs[i], steps, d.files);
      LifeSnoc(env, h, Invoked(invs[..i]), Invoke(invs[i]), t);
      assert invs[..i + 1][..i] == invs[..i];
      h := h + [t];
      i := i + 1;
    }
    assert invs[..i] == invs;
  }
}
