/** Whole invocations of "openssl ca" on a disk, any number of them, each stopped anywhere: the program, the tables it
    saves and the files it leaves, put together. */
module Session {
  import opened Base
  import opened RevInfo
  import opened CaTable
  import opened Database
  import opened Issue
  import opened Runs
  import opened Commit
  import opened Ledger
  import Serial
  import SerialText = SerialFile

  /** One invocation: -updatedb with the time, the request files with what they are certified with and the answer at the
      commit prompt, then -revoke or -valid. */
  datatype Invocation =
    Invocation(update: Option<int>, ca: Ca, apps: seq<Application>, commit: bool, revoke: Option<Revocation>)

  /** The tables it saves are those of this run, on the serial it loads. */
  ghost function RunOf(inv: Invocation, v: int): Run {
    Run(inv.update, v, RequestsOf(inv.ca, inv.apps), inv.commit, inv.revoke)
  }

  // ---- The commits an invocation sets out to make ----

  ghost predicate NoRestore(plan: seq<Action>) { forall i :: 0 <= i < |plan| ==> !plan[i].Restore? }

  /** All of them write the same unique_subject. */
  ghost predicate Uniform(plan: seq<Action>, unique: bool) {
    forall i :: 0 <= i < |plan| ==> !plan[i].Restore? && plan[i].unique == unique
  }

  ghost function First(a: Action, rest: seq<Action>, unique: bool): (plan: seq<Action>)
    requires !a.Restore? && a.unique == unique && Uniform(rest, unique)
    ensures NoRestore(plan) && Uniform(plan, unique)
  {
    [a] + rest
  }

  ghost function PlanRevoke(env: Env, db: Db, inv: Invocation): (plan: seq<Action>)
    ensures NoRestore(plan) && Uniform(plan, env.unique)
  {
    if inv.revoke == None then []
    else
      var r := inv.revoke.value;
      var (ok, after) := Revoke(env.oid, db, r.cert, r.t, r.arg, r.now);
      if ok then [Rewrite(db.rows, after.rows, env.unique)] else []
  }

  ghost function PlanCommit(env: Env, db: Db, b: Option<Batch>, serial: int, inv: Invocation): (plan: seq<Action>)
    ensures NoRestore(plan) && Uniform(plan, env.unique)
  {
    if b == None then []
    else if b.value.db.rows == db.rows then PlanRevoke(env, b.value.db, inv)
    else if !inv.commit || |b.value.db.rows| <= |db.rows| then []
    else
      First(CertifyBatch(db.rows, b.value.db.rows[|db.rows|..], serial, env.unique), PlanRevoke(env, b.value.db, inv),
            env.unique)
  }

  /** The serial file is loaded only when there are requests. */
  ghost function PlanBatch(env: Env, db: Db, serial: Option<int>, inv: Invocation): (plan: seq<Action>)
    ensures NoRestore(plan) && Uniform(plan, env.unique)
  {
    if inv.apps == [] then PlanRevoke(env, db, inv)
    else if serial == None then []
    else PlanCommit(env, db, BatchOf(db, serial.value, RequestsOf(inv.ca, inv.apps)), serial.value, inv)
  }

  ghost function PlanUpdate(env: Env, db: Db, serial: Option<int>, inv: Invocation): (plan: seq<Action>)
    ensures NoRestore(plan) && Uniform(plan, env.unique)
  {
    if inv.update == None || Expired(env.when, inv.update.value, db.rows) == 0 then PlanBatch(env, db, serial, inv)
    else
      var after := db.(rows := Expire(env.when, inv.update.value, db.rows));
      First(Rewrite(db.rows, after.rows, env.unique), PlanBatch(env, after, serial, inv), env.unique)
  }

  /** load_serial: what the next run reads from the text in the serial file. */
  function SerialIn(f: Files): (r: Option<int>)
    ensures r.Some? ==> Get(f, SerialFile) == Some(Number(r.value))
  {
    if SerialFile in f && f[SerialFile].Number? && f[SerialFile].n >= 0 then
      var n: nat := f[SerialFile].n;
      SerialText.ReadBackExactly(n);
      var r := SerialText.Loaded(SerialText.Lines(Serial.Content(n)));
      if r == None then None else Some(r.value)
    else None
  }

  /** A serial file can be read exactly when it is there and its number has at most 35 octets. */
  lemma {:induction false} SerialInExactly(f: Files)
    ensures SerialIn(f).Some? <==>
            SerialFile in f && f[SerialFile].Number? && 0 <= f[SerialFile].n < SerialText.Pow256(35)
  {
    hide SerialText.Loaded, SerialText.Lines, Serial.Content, SerialText.Pow256;
    if SerialFile in f && f[SerialFile].Number? && f[SerialFile].n >= 0 {
      SerialText.ReadBackExactly(f[SerialFile].n);
      SerialText.ContentBound(f[SerialFile].n, 35);
    }
  }

  // ---- unique_subject ----

  /** What an attribute file says, or else the configured value. */
  function SaysUnique(c: Option<Content>, configured: bool): bool {
    if c.Some? && c.value.Flag? then c.value.b else configured
  }

  /** load_index (apps/lib/apps.c:1712-1722): the attribute file overrides the configured value. */
  function UniqueAt(f: Files, configured: bool): bool { SaysUnique(Get(f, Attr), configured) }

  /** A run on these files; env.unique is the configured value. */
  function InForce(env: Env, f: Files): Env { env.(unique := UniqueAt(f, env.unique)) }

  /** The program gets past loading the table. */
  ghost predicate Loads(env: Env, f: Files) {
    Index in f && f[Index].Table? && Loadable(env.oid, f[Index].rows, UniqueAt(f, env.unique))
  }

  ghost function Plan(env: Env, f: Files, inv: Invocation): (plan: seq<Action>)
    ensures NoRestore(plan) && Uniform(plan, UniqueAt(f, env.unique))
  {
    if !Loads(env, f) then []
    else PlanUpdate(InForce(env, f), Loaded(InForce(env, f), f[Index].rows), SerialIn(f), inv)
  }

  ghost function Targets(plan: seq<Action>): seq<seq<Row>>
    requires NoRestore(plan)
  {
    if plan == [] then [] else [Target(plan[0])] + Targets(plan[1..])
  }

  lemma {:induction false} TargetsCons(a: Action, plan: seq<Action>)
    requires !a.Restore? && NoRestore(plan)
    ensures NoRestore([a] + plan) && Targets([a] + plan) == [Target(a)] + Targets(plan)
  {
    assert ([a] + plan)[1..] == plan;
  }

  lemma {:induction false} RevokePlanSaves(env: Env, db: Db, inv: Invocation, v: int)
    ensures Targets(PlanRevoke(env, db, inv)) == AfterBatch(env, db, RunOf(inv, v))
  {
    var plan := PlanRevoke(env, db, inv);
    if plan != [] {
      TargetsCons(plan[0], []);
      assert plan == [plan[0]] + [];
    }
  }

  lemma {:induction false} BatchPlanSaves(env: Env, db: Db, v: int, inv: Invocation)
    ensures Targets(PlanBatch(env, db, Some(v), inv)) == AfterUpdate(env, db, RunOf(inv, v))
  {
    hide Revoke, Serial.Text, BatchStep;
    var rs := RequestsOf(inv.ca, inv.apps);
    var b := BatchOf(db, v, rs);
    if inv.apps == [] {
      RevokePlanSaves(env, db, inv, v);
    } else if b.Some? {
      BatchNumbered(db, v, rs);
      RevokePlanSaves(env, b.value.db, inv, v);
      CommitTargets(env, db, b.value.db, v, inv);
    }
  }

  lemma {:induction false} CommitTargets(env: Env, was: Db, db: Db, v: int, inv: Invocation)
    requires was.rows <= db.rows
    ensures var a, rest := CertifyBatch(was.rows, db.rows[|was.rows|..], v, env.unique), PlanRevoke(env, db, inv);
            NoRestore([a] + rest) && Targets([a] + rest) == [db.rows] + Targets(rest)
  {
    var a := CertifyBatch(was.rows, db.rows[|was.rows|..], v, env.unique);
    assert Target(a) == db.rows;
    TargetsCons(a, PlanRevoke(env, db, inv));
  }

  /** The tables the planned commits set out to save are those the run saves, in order. */
  lemma {:induction false} PlanSaves(env: Env, f: Files, rows: seq<Row>, v: int, inv: Invocation)
    requires Get(f, Index) == Some(Table(rows)) && SerialIn(f) == Some(v)
    ensures Targets(Plan(env, f, inv)) == Saves(InForce(env, f), rows, RunOf(inv, v))
  {
    hide SerialIn, PlanBatch, AfterUpdate, Loadable;
    if Loads(env, f) {
      var here := InForce(env, f);
      var db := Loaded(here, rows);
      BatchPlanSaves(here, db, v, inv);
      if inv.update.Some? && Expired(env.when, inv.update.value, rows) != 0 {
        var after := db.(rows := Expire(env.when, inv.update.value, rows));
        BatchPlanSaves(here, after, v, inv);
        TargetsCons(Rewrite(rows, after.rows, here.unique), PlanBatch(here, after, Some(v), inv));
      }
    }
  }

  // ---- Where an invocation can stop ----

  /** The action has gone through. */
  ghost predicate Done(a: Action, m: State)
    requires !a.Restore?
  {
    Get(m.files, Index) == Some(Table(Target(a))) && Get(m.files, Attr) == Some(Flag(a.unique))
  }

  /** The state t in which a run with the given plan, begun in s, may leave the disk: before the first action, somewhere
      in it, or later. */
  ghost predicate Stops(s: State, plan: seq<Action>, t: State)
    requires NoRestore(plan)
    decreases |plan|
  {
    t == s || (plan != [] && (Step(s, plan[0], t) || exists m :: Passes(s, plan, m) && Stops(m, plan[1..], t)))
  }

  ghost predicate Passes(s: State, plan: seq<Action>, m: State)
    requires NoRestore(plan)
  {
    plan != [] && Step(s, plan[0], m) && Done(plan[0], m)
  }

  /** Every one of the disk contents is a place to stop. */
  ghost predicate AllStop(s: State, plan: seq<Action>, steps: seq<Files>)
    requires NoRestore(plan)
  {
    forall x :: x in steps ==> exists issued :: Stops(s, plan, State(x, issued))
  }

  lemma {:induction false} StopInFirst(s: State, a: Action, plan: seq<Action>, steps: seq<Files>,
                                       issued: Files -> set<int>)
    requires !a.Restore? && NoRestore(plan)
    requires forall x :: x in steps ==> Step(s, a, State(x, issued(x)))
    ensures NoRestore([a] + plan) && AllStop(s, [a] + plan, steps)
  {
    TargetsCons(a, plan);
    forall x | x in steps ensures exists iss :: Stops(s, [a] + plan, State(x, iss)) {
      assert Step(s, ([a] + plan)[0], State(x, issued(x)));
      assert Stops(s, [a] + plan, State(x, issued(x)));
    }
  }

  lemma {:induction false} StopLater(s: State, a: Action, plan: seq<Action>, m: State, steps: seq<Files>)
    requires !a.Restore? && NoRestore(plan) && Step(s, a, m) && Done(a, m) && AllStop(m, plan, steps)
    ensures NoRestore([a] + plan) && AllStop(s, [a] + plan, steps)
  {
    TargetsCons(a, plan);
    var all := [a] + plan;
    assert all[1..] == plan && Passes(s, all, m);
    forall x | x in steps ensures exists iss :: Stops(s, all, State(x, iss)) {
      var iss :| Stops(m, plan, State(x, iss));
      assert Stops(s, all, State(x, iss));
    }
  }

  lemma {:induction false} AllStopHere(s: State, plan: seq<Action>)
    requires NoRestore(plan)
    ensures AllStop(s, plan, [] + [s.files])
  {
    assert Stops(s, plan, State(s.files, s.issued));
  }

  lemma {:induction false} AllStopConcat(s: State, plan: seq<Action>, a: seq<Files>, b: seq<Files>)
    requires NoRestore(plan) && AllStop(s, plan, a) && AllStop(s, plan, b)
    ensures AllStop(s, plan, a + b)
  {
  }

  /** The table a run leaves when nothing stops it. */
  ghost function Final(rows: seq<Row>, plan: seq<Action>): seq<Row>
    requires NoRestore(plan)
    decreases |plan|
  {
    if plan == [] then rows else Final(Target(plan[0]), plan[1..])
  }

  lemma {:induction false} FinalCons(rows: seq<Row>, a: Action, plan: seq<Action>)
    requires !a.Restore? && NoRestore(plan)
    ensures NoRestore([a] + plan) && Final(rows, [a] + plan) == Final(Target(a), plan)
  {
    assert ([a] + plan)[1..] == plan;
  }

  // ---- What an invocation does when the system refuses nothing ----

  /** -revoke or -valid on the database db, which is the one on disk: what is on disk afterwards. */
  ghost predicate RevokePart(env: Env, db: Db, inv: Invocation, ok: bool, rows: seq<Row>) {
    if inv.revoke == None then ok && rows == db.rows
    else
      var r := inv.revoke.value;
      exists after ::
        RevokeOutcome(env.oid, db, r.cert, r.t, r.arg, r.now, ok, after) && rows == if ok then after.rows else db.rows
  }

  /** A batch that has come to b: all is lost when it has failed; when the commit is declined, the run ends in success
      with nothing saved; otherwise table, serial and certificates are saved, and the revocation follows. */
  ghost predicate CommitPart(env: Env, db: Db, f: Files, inv: Invocation, v: int, b: Option<Batch>, ok: bool,
                             rows: seq<Row>, x: Files) {
    if b == None then !ok && rows == db.rows && Get(x, SerialFile) == Get(f, SerialFile)
    else if |b.value.db.rows| == |db.rows| then
      RevokePart(env, b.value.db, inv, ok, rows) && Get(x, SerialFile) == Get(f, SerialFile)
    else if !inv.commit then ok && rows == db.rows && Get(x, SerialFile) == Get(f, SerialFile)
    else
      RevokePart(env, b.value.db, inv, ok, rows) && Get(x, SerialFile) == Some(Number(b.value.serial)) &&
      forall c :: v <= c < b.value.serial ==> CertFile(c) in x
  }

  /** The requests, if there are any, and the revocation. */
  ghost predicate BatchPart(env: Env, db: Db, f: Files, inv: Invocation, ok: bool, x: Files) {
    exists rows ::
      Get(x, Index) == Some(Table(rows)) &&
      if inv.apps == [] then RevokePart(env, db, inv, ok, rows) && Get(x, SerialFile) == Get(f, SerialFile)
      else if SerialIn(f) == None then !ok && rows == db.rows && Get(x, SerialFile) == Get(f, SerialFile)
      else
        exists b ::
          BatchOutcome(db, SerialIn(f).value, RequestsOf(inv.ca, inv.apps), b) &&
          CommitPart(env, db, f, inv, SerialIn(f).value, b, ok, rows, x)
  }

  ghost predicate UpdatePart(env: Env, db: Db, f: Files, inv: Invocation, ok: bool, x: Files) {
    exists mid ::
      (if inv.update == None then mid == db.rows else UpdateOutcome(env.when, inv.update.value, db.rows, mid)) &&
      BatchPart(env, db.(rows := mid), f, inv, ok, x)
  }

  /** One invocation on the files f leaves x: nothing happens to a table that does not load; otherwise -updatedb marks
      the expired rows, the requests are certified and committed, and the revocation is made. */
  ghost predicate RunOutcome(env: Env, f: Files, inv: Invocation, ok: bool, x: Files) {
    if !Loads(env, f) then !ok && x == f
    else UpdatePart(InForce(env, f), Loaded(InForce(env, f), f[Index].rows), f, inv, ok, x)
  }

  lemma {:induction false} SameSerialFile(env: Env, db: Db, f: Files, g: Files, inv: Invocation, ok: bool, x: Files)
    requires BatchPart(env, db, g, inv, ok, x) && Get(g, SerialFile) == Get(f, SerialFile)
    ensures BatchPart(env, db, f, inv, ok, x)
  {
    hide RevokePart, BatchOutcome;
    assert SerialIn(g) == SerialIn(f);
    var rows :| Get(x, Index) == Some(Table(rows)) &&
      if inv.apps == [] then RevokePart(env, db, inv, ok, rows) && Get(x, SerialFile) == Get(g, SerialFile)
      else if SerialIn(g) == None then !ok && rows == db.rows && Get(x, SerialFile) == Get(g, SerialFile)
      else
        exists b ::
          BatchOutcome(db, SerialIn(g).value, RequestsOf(inv.ca, inv.apps), b) &&
          CommitPart(env, db, g, inv, SerialIn(g).value, b, ok, rows, x);
    if inv.apps != [] && SerialIn(g).Some? {
      var b :| BatchOutcome(db, SerialIn(g).value, RequestsOf(inv.ca, inv.apps), b) &&
               CommitPart(env, db, g, inv, SerialIn(g).value, b, ok, rows, x);
      assert CommitPart(env, db, f, inv, SerialIn(f).value, b, ok, rows, x);
    }
  }

  // ---- The program ----

  /** What do_revoke takes from its caller. */
  ghost predicate NoNuls(inv: Invocation) {
    inv.revoke.Some? ==> '\0' !in inv.revoke.value.arg && '\0' !in inv.revoke.value.now
  }

  /** -revoke and -valid (apps/ca.c:1311-1334). */
  method RunRevoke(d: Disk, db: CaDb, env: Env, inv: Invocation, ghost issued: set<int>)
    returns (ok: bool, ghost steps: seq<Files>)
    requires db.Valid() && db.unique == env.unique && NoNuls(inv) && Get(d.files, Index) == Some(Table(db.rows))
    modifies d, db
    ensures d.trace == old(d.trace) + steps && d.faults >= old(d.faults)
    ensures var plan := PlanRevoke(env, old(db.View()), inv);
            AllStop(State(old(d.files), issued), plan, steps + [d.files]) &&
            (ok ==> Get(d.files, Index) == Some(Table(Final(old(db.rows), plan))))
    ensures Get(d.files, SerialFile) == Get(old(d.files), SerialFile) && CertsKept(old(d.files), d.files)
    ensures d.faults == old(d.faults) ==>
              exists rows :: Get(d.files, Index) == Some(Table(rows)) && RevokePart(env, old(db.View()), inv, ok, rows)
  {
    hide AllStop, Serial.Text, RevokeOutcome;
    steps := [];
    AllStopHere(State(d.files, issued), PlanRevoke(env, db.View(), inv));
    if inv.revoke == None { return true, steps; }
    var r := inv.revoke.value;
    ghost var was, s := db.View(), State(d.files, issued);
    db.ValidIsInv();
    ok := db.DoRevoke(env.oid, r.cert, r.t, r.arg, r.now);
    if !ok { return; }
    RevokeKeeps(env.oid, was, r.cert, r.t, r.arg, r.now);
    ghost var f, a := d.files, Rewrite(was.rows, db.rows, env.unique);
    ok, steps := d.SaveTable(was.rows, db.rows, env.unique);
    SaveStops(f, steps + [d.files], issued, was.rows, db.rows, env.unique, []);
    FinalCons(was.rows, a, []);
    assert [a] + [] == [a];
  }

  /** Any moment of saving a table is a step of the ledger. */
  lemma {:induction false} SaveStops(f: Files, steps: seq<Files>, issued: set<int>, was: seq<Row>, rows: seq<Row>,
                                     unique: bool, rest: seq<Action>)
    requires NoRestore(rest) && Get(f, Index) == Some(Table(was)) && Follows(was, rows)
    requires forall x :: x in steps ==> TableSaveMoment(f, x, was, rows, unique)
    ensures var plan := [Rewrite(was, rows, unique)] + rest;
            NoRestore(plan) && AllStop(State(f, issued), plan, steps)
  {
    StopInFirst(State(f, issued), Rewrite(was, rows, unique), rest, steps, (x: Files) => issued);
  }

  /** How far the numbers of a batch have entered the index file. */
  ghost function IssuedAt(x: Files, issued: set<int>, a: Action): set<int>
    requires a.CertifyBatch?
  {
    issued + if Get(x, Index) == Some(Table(Target(a))) then Numbers(a.v, |a.batch|) else {}
  }

  /** Any moment of committing a certified batch is a step of the ledger. */
  lemma {:induction false} CommitIsStep(f: Files, x: Files, issued: set<int>, was: seq<Row>, rows: seq<Row>, v: int,
                                        unique: bool)
    requires was <= rows && |was| < |rows| && NumberedFrom(rows[|was|..], v)
    requires Get(f, Index) == Some(Table(was)) && Get(f, SerialFile) == Some(Number(v))
    requires BatchMoment(f, x, was, rows, v, v + |rows| - |was|, unique)
    ensures var a := CertifyBatch(was, rows[|was|..], v, unique);
            Target(a) == rows && Step(State(f, issued), a, State(x, IssuedAt(x, issued, a)))
  {
    hide Serial.Text;
    assert was + rows[|was|..] == rows;
  }

  /** The requests and the commit of what they came to (apps/ca.c:971-1159). */
  method RunBatch(d: Disk, db: CaDb, env: Env, inv: Invocation, ghost issued: set<int>)
    returns (ok: bool, ghost steps: seq<Files>)
    requires db.Valid() && db.unique == env.unique && NoNuls(inv) && Get(d.files, Index) == Some(Table(db.rows))
    modifies d, db
    ensures d.trace == old(d.trace) + steps && d.faults >= old(d.faults)
    ensures var plan := PlanBatch(env, old(db.View()), SerialIn(old(d.files)), inv);
            AllStop(State(old(d.files), issued), plan, steps + [d.files]) &&
            (ok ==> Get(d.files, Index) == Some(Table(Final(old(db.rows), plan))))
    ensures d.faults == old(d.faults) ==> BatchPart(env, old(db.View()), old(d.files), inv, ok, d.files)
  {
    hide AllStop, BatchOf, Revoke, Serial.Text, RevokePart, BatchOutcome, SerialIn;
    steps := [];
    AllStopHere(State(d.files, issued), PlanBatch(env, db.View(), SerialIn(d.files), inv));
    if inv.apps == [] {
      ok, steps := RunRevoke(d, db, env, inv, issued);
      return;
    }
    var serial := SerialIn(d.files);
    if serial == None { return false, steps; }
    var v := serial.value;
    ghost var was := db.View();
    var count := |db.rows|;
    var next;
    ok, next := CertifyAll(db, inv.ca, v, inv.apps);
    ghost var b := if ok then Some(Batch(db.View(), next)) else None;
    assert BatchOutcome(was, v, RequestsOf(inv.ca, inv.apps), b);
    if !ok { return; }
    BatchNumbered(was, v, RequestsOf(inv.ca, inv.apps));
    if |db.rows| == count {
      assert db.rows == was.rows;
      ok, steps := RunRevoke(d, db, env, inv, issued);
    } else if !inv.commit {
      return true, steps;
    } else {
      ok, steps := CommitThenRevoke(d, db, env, inv, issued, was.rows, v, next);
    }
  }

  method CommitThenRevoke(d: Disk, db: CaDb, env: Env, inv: Invocation, ghost issued: set<int>, ghost was: seq<Row>,
                          v: int, next: int) returns (ok: bool, ghost steps: seq<Files>)
    requires db.Valid() && db.unique == env.unique && NoNuls(inv)
    requires was <= db.rows && |was| < |db.rows| && NumberedFrom(db.rows[|was|..], v) && next == v + |db.rows| - |was|
    requires Get(d.files, Index) == Some(Table(was)) && Get(d.files, SerialFile) == Some(Number(v))
    modifies d, db
    ensures d.trace == old(d.trace) + steps && d.faults >= old(d.faults)
    ensures var rest := PlanRevoke(env, old(db.View()), inv);
            var plan := [CertifyBatch(was, old(db.rows)[|was|..], v, env.unique)] + rest;
            NoRestore(plan) && AllStop(State(old(d.files), issued), plan, steps + [d.files]) &&
            (ok ==> Get(d.files, Index) == Some(Table(Final(was, plan))))
    ensures d.faults == old(d.faults) ==>
              Get(d.files, SerialFile) == Some(Number(next)) &&
              (forall c :: v <= c < next ==> CertFile(c) in d.files) &&
              exists rows :: Get(d.files, Index) == Some(Table(rows)) && RevokePart(env, old(db.View()), inv, ok, rows)
  {
    hide Serial.Text, AllStop, Step, BatchMoment, Revoke, NumberedFrom, RevokePart;
    ghost var f, a := d.files, CertifyBatch(was, db.rows[|was|..], v, env.unique);
    ghost var s, rest := State(f, issued), PlanRevoke(env, db.View(), inv);
    ok, steps := d.CommitBatch(was, db.rows, v, next, env.unique);
    CommitStops(f, steps, issued, was, db.rows, v, env.unique, rest);
    CommitStops(f, steps + [d.files], issued, was, db.rows, v, env.unique, rest);
    FinalCons(was, a, rest);
    if !ok { return; }
    ghost var m := CommitPasses(f, d.files, issued, was, db.rows, v, env.unique);
    ghost var more;
    ok, more := RunRevoke(d, db, env, inv, m.issued);
    StopLater(s, a, rest, m, more + [d.files]);
    AllStopConcat(s, [a] + rest, steps, more + [d.files]);
    assert steps + more + [d.files] == steps + (more + [d.files]);
    steps := steps + more;
  }

  lemma {:induction false} CommitPasses(f: Files, x: Files, issued: set<int>, was: seq<Row>, rows: seq<Row>, v: int,
                                        unique: bool) returns (m: State)
    requires was <= rows && |was| < |rows| && NumberedFrom(rows[|was|..], v)
    requires Get(f, Index) == Some(Table(was)) && Get(f, SerialFile) == Some(Number(v))
    requires BatchMoment(f, x, was, rows, v, v + |rows| - |was|, unique)
    requires Get(x, Index) == Some(Table(rows)) && Get(x, Attr) == Some(Flag(unique))
    ensures var a := CertifyBatch(was, rows[|was|..], v, unique);
            m.files == x && Step(State(f, issued), a, m) && Done(a, m) && Target(a) == rows
  {
    CommitIsStep(f, x, issued, was, rows, v, unique);
    m := State(x, IssuedAt(x, issued, CertifyBatch(was, rows[|was|..], v, unique)));
  }

  lemma {:induction false} CommitStops(f: Files, steps: seq<Files>, issued: set<int>, was: seq<Row>, rows: seq<Row>,
                                       v: int, unique: bool, rest: seq<Action>)
    requires was <= rows && |was| < |rows| && NumberedFrom(rows[|was|..], v) && NoRestore(rest)
    requires Get(f, Index) == Some(Table(was)) && Get(f, SerialFile) == Some(Number(v))
    requires forall x :: x in steps ==> BatchMoment(f, x, was, rows, v, v + |rows| - |was|, unique)
    ensures var plan := [CertifyBatch(was, rows[|was|..], v, unique)] + rest;
            NoRestore(plan) && AllStop(State(f, issued), plan, steps)
  {
    var a := CertifyBatch(was, rows[|was|..], v, unique);
    forall x | x in steps ensures Step(State(f, issued), a, State(x, IssuedAt(x, issued, a))) {
      CommitIsStep(f, x, issued, was, rows, v, unique);
    }
    StopInFirst(State(f, issued), a, rest, steps, (x: Files) => IssuedAt(x, issued, a));
  }

  /** -updatedb and what follows it (apps/ca.c:784-1334). */
  method RunUpdate(d: Disk, db: CaDb, env: Env, inv: Invocation, ghost issued: set<int>)
    returns (ok: bool, ghost steps: seq<Files>)
    requires db.Valid() && db.unique == env.unique && NoNuls(inv) && Get(d.files, Index) == Some(Table(db.rows))
    requires RowsOk(env.oid, db.rows)
    modifies d, db
    ensures d.trace == old(d.trace) + steps && d.faults >= old(d.faults)
    ensures var plan := PlanUpdate(env, old(db.View()), SerialIn(old(d.files)), inv);
            AllStop(State(old(d.files), issued), plan, steps + [d.files]) &&
            (ok ==> Get(d.files, Index) == Some(Table(Final(old(db.rows), plan))))
    ensures d.faults == old(d.faults) ==> UpdatePart(env, old(db.View()), old(d.files), inv, ok, d.files)
  {
    hide AllStop, BatchOf, Revoke, RowOk, BatchPart, UpdateOutcome;
    if inv.update == None {
      ok, steps := RunBatch(d, db, env, inv, issued);
      return;
    }
    var now := inv.update.value;
    ghost var was := db.View();
    db.ValidIsInv();
    UpdateKeeps(env.oid, env.when, now, was);
    LoadedReadable(env.oid, db.rows);
    var cnt := db.DoUpdateDb(env.when, now);
    if cnt == 0 {
      NoneExpired(env.when, now, was.rows);
      ok, steps := RunBatch(d, db, env, inv, issued);
    } else {
      ok, steps := SaveThenBatch(d, db, env, inv, issued, was.rows);
    }
  }

  lemma {:induction false} LoadedReadable(oid: OidTable, rows: seq<Row>)
    requires RowsOk(oid, rows)
    ensures Readable(rows)
  {
    forall i | 0 <= i < |rows| ensures ReadableRow(rows[i]) { assert RowOk(oid, rows[i]); }
    ReadableAll(rows);
  }

  lemma {:induction false} SavePasses(f: Files, x: Files, issued: set<int>, was: seq<Row>, rows: seq<Row>, unique: bool)
    requires Get(f, Index) == Some(Table(was)) && Follows(was, rows) && TableSaveMoment(f, x, was, rows, unique)
    ensures Step(State(f, issued), Rewrite(was, rows, unique), State(x, issued)) && SerialIn(x) == SerialIn(f)
    ensures Get(x, SerialFile) == Get(f, SerialFile)
  {
    assert Get(x, SerialFile) == Get(f, SerialFile);
  }

  method SaveThenBatch(d: Disk, db: CaDb, env: Env, inv: Invocation, ghost issued: set<int>, ghost was: seq<Row>)
    returns (ok: bool, ghost steps: seq<Files>)
    requires db.Valid() && db.unique == env.unique && NoNuls(inv)
    requires Get(d.files, Index) == Some(Table(was)) && Follows(was, db.rows)
    modifies d, db
    ensures d.trace == old(d.trace) + steps && d.faults >= old(d.faults)
    ensures var rest := PlanBatch(env, old(db.View()), SerialIn(old(d.files)), inv);
            var plan := [Rewrite(was, old(db.rows), env.unique)] + rest;
            NoRestore(plan) && AllStop(State(old(d.files), issued), plan, steps + [d.files]) &&
            (ok ==> Get(d.files, Index) == Some(Table(Final(was, plan))))
    ensures d.faults == old(d.faults) ==> BatchPart(env, old(db.View()), old(d.files), inv, ok, d.files)
  {
    hide AllStop, BatchOf, Revoke, SerialIn, Step, PlanBatch, TableSaveMoment, BatchPart;
    ghost var f, a := d.files, Rewrite(was, db.rows, env.unique);
    ghost var s, rest := State(f, issued), PlanBatch(env, db.View(), SerialIn(f), inv);
    ok, steps := d.SaveTable(was, db.rows, env.unique);
    SaveStops(f, steps, issued, was, db.rows, env.unique, rest);
    SaveStops(f, steps + [d.files], issued, was, db.rows, env.unique, rest);
    FinalCons(was, a, rest);
    if !ok { return; }
    ghost var m := State(d.files, issued);
    SavePasses(f, d.files, issued, was, db.rows, env.unique);
    ghost var more;
    ghost var mid, held := d.files, db.View();
    ok, more := RunBatch(d, db, env, inv, issued);
    if d.faults == old(d.faults) { SameSerialFile(env, held, f, mid, inv, ok, d.files); }
    StopLater(s, a, rest, m, more + [d.files]);
    AllStopConcat(s, [a] + rest, steps, more + [d.files]);
    assert steps + more + [d.files] == steps + (more + [d.files]);
    steps := steps + more;
  }

  /** One invocation from loading the table to the end: every disk content it goes through is a place where a run with
      its plan may stop, and when it succeeds the index file holds the table of the last planned commit. */
  method RunCa(d: Disk, env: Env, inv: Invocation, ghost issued: set<int>) returns (ok: bool, ghost steps: seq<Files>)
    requires NoNuls(inv)
    modifies d
    ensures d.trace == old(d.trace) + steps && d.faults >= old(d.faults)
    ensures var plan := Plan(env, old(d.files), inv);
            AllStop(State(old(d.files), issued), plan, steps + [d.files]) &&
            (ok ==> Get(old(d.files), Index).Some? && old(d.files)[Index].Table? &&
                    Get(d.files, Index) == Some(Table(Final(old(d.files)[Index].rows, plan))))
    ensures d.faults == old(d.faults) ==> RunOutcome(env, old(d.files), inv, ok, d.files)
  {
    hide UpdatePart, AllStop;
    steps := [];
    AllStopHere(State(d.files, issued), Plan(env, d.files, inv));
    if Index !in d.files || !d.files[Index].Table? { return false, steps; }
    var here := InForce(env, d.files);
    var db := new CaDb(d.files[Index].rows, here.unique);
    var good := db.CheckRows(env.oid);
    if !good { return false, steps; }
    good := db.IndexIndex();
    if !good { return false, steps; }
    ok, steps := RunUpdate(d, db, here, inv, issued);
  }
}
