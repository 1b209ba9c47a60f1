/** Whole runs of "openssl ca" and any number of them: what the index file can ever hold. */
module Runs {
  import opened Base
  import opened TimeText
  import opened RevInfo
  import opened CaTable
  import opened Database
  import opened Views
  import opened Agreement
  import opened Issue
  import Serial
  import Ledger

  /** What a request in the batch comes to: refused outright, skipped, or a certificate asked for. */
  datatype Request = Refused | Skipped | Asked(subject: string, notAfter: string, consent: Consent)

  ghost function RequestOf(ca: Ca, a: Application): Request {
    if a.readable && !a.verified then Skipped
    else if !a.readable || !Acceptable(ca, a) then Refused
    else Asked(CertOf(ca, a, 0).subject, a.notAfter, a.consent)
  }

  ghost function RequestsOf(ca: Ca, apps: seq<Application>): (rs: seq<Request>)
    ensures |rs| == |apps|
  {
    if apps == [] then [] else RequestsOf(ca, apps[..|apps| - 1]) + [RequestOf(ca, apps[|apps| - 1])]
  }

  lemma {:induction false} RequestAt(ca: Ca, apps: seq<Application>, i: nat)
    requires i < |apps|
    ensures RequestsOf(ca, apps)[i] == RequestOf(ca, apps[i])
  {
    if i < |apps| - 1 { RequestAt(ca, apps[..|apps| - 1], i); }
  }

  datatype Revocation = Revocation(cert: Cert, t: RevType, arg: string, now: string)

  /** One invocation: -updatedb, the batch numbered from the loaded serial and the commit prompt,
      then -revoke or -valid. */
  datatype Run = Run(update: Option<int>, serial: int, batch: seq<Request>, commit: bool, revoke: Option<Revocation>)

  datatype Env = Env(oid: OidTable, when: Clock, unique: bool)

  ghost function Loaded(env: Env, rows: seq<Row>): Db {
    Db(rows, env.unique, if env.unique then ValidNames(rows) else {})
  }

  datatype Batch = Batch(db: Db, serial: int)

  /** The batch loop (apps/ca.c:971-1054): None as soon as one request fails hard; the serial moves on
      only past issued certificates. */
  function BatchOf(db: Db, serial: int, batch: seq<Request>): Option<Batch> {
    if batch == [] then Some(Batch(db, serial))
    else
      var front, r := BatchOf(db, serial, batch[..|batch| - 1]), batch[|batch| - 1];
      if front == None then None else BatchStep(front.value, r)
  }

  function BatchStep(b: Batch, r: Request): Option<Batch> {
    match r
    case Refused => None
    case Skipped => Some(b)
    case Asked(subject, notAfter, consent) =>
      var (j, after) := Certify(b.db, Cert(b.serial, subject, notAfter), consent);
      if j < 0 then None else Some(Batch(after, if j > 0 then b.serial + 1 else b.serial))
  }

  /** The loop itself, on the database object. */
  method CertifyAll(db: CaDb, ca: Ca, serial: int, apps: seq<Application>) returns (ok: bool, next: int)
    requires db.Valid()
    modifies db
    ensures db.Valid()
    ensures var b := BatchOf(old(db.View()), serial, RequestsOf(ca, apps));
            (ok <==> b.Some?) && (ok ==> b.value == Batch(db.View(), next))
    ensures BatchOutcome(old(db.View()), serial, RequestsOf(ca, apps),
                         if ok then Some(Batch(db.View(), next)) else None)
  {
    hide BatchOutcome;
    ok, next := true, serial;
    ghost var was, batch := db.View(), RequestsOf(ca, apps);
    BatchExactly(was, serial, batch);
    var i := 0;
    while i < |apps|
      invariant 0 <= i <= |apps| && db.Valid()
      invariant BatchOf(was, serial, batch[..i]) == Some(Batch(db.View(), next))
    {
      BatchExtends(was, serial, batch, i);
      RequestAt(ca, apps, i);
      ok, next := CertifyOne(db, ca, next, apps[i]);
      if !ok { return; }
      i := i + 1;
    }
    assert batch[..i] == batch;
  }

  lemma {:induction false} BatchExtends(db: Db, serial: int, batch: seq<Request>, i: nat)
    requires i < |batch| && BatchOf(db, serial, batch[..i]).Some?
    ensures BatchOf(db, serial, batch[..i + 1]) == BatchStep(BatchOf(db, serial, batch[..i]).value, batch[i])
    ensures BatchOf(db, serial, batch[..i + 1]) == None ==> BatchOf(db, serial, batch) == None
  {
    assert batch[..i + 1][..i] == batch[..i];
    if BatchOf(db, serial, batch[..i + 1]) == None { BatchFails(db, serial, batch, i + 1); }
  }

  /** One turn: certify and, when it has issued, BN_add_word(serial, 1). */
  method CertifyOne(db: CaDb, ca: Ca, serial: int, a: Application) returns (ok: bool, next: int)
    requires db.Valid()
    modifies db
    ensures db.Valid()
    ensures var b := BatchStep(Batch(old(db.View()), serial), RequestOf(ca, a));
            (ok <==> b.Some?) && (ok ==> b.value == Batch(db.View(), next))
  {
    next := serial;
    var j := CertifyRequest(db, ca, a, serial);
    if j < 0 { return false, next; }
    if j > 0 { next := next + 1; }
    return true, next;
  }

  lemma {:induction false} BatchFails(db: Db, serial: int, batch: seq<Request>, i: nat)
    requires i <= |batch| && BatchOf(db, serial, batch[..i]) == None
    ensures BatchOf(db, serial, batch) == None
    decreases |batch| - i
  {
    if i < |batch| {
      assert batch[..i + 1][..i] == batch[..i];
      BatchFails(db, serial, batch, i + 1);
    } else {
      assert batch[..i] == batch;
    }
  }

  ghost predicate ConsecutiveFrom(was: seq<Row>, rows: seq<Row>, serial: int) {
    was <= rows && Ledger.NumberedFrom(rows[|was|..], serial)
  }

  lemma {:induction false} ConsecutiveSnoc(was: seq<Row>, rows: seq<Row>, more: seq<Row>, serial: int)
    requires ConsecutiveFrom(was, rows, serial) && rows <= more && |more| == |rows| + 1
    requires more[|rows|].serial == Serial.Text(serial + |rows| - |was|)
    ensures ConsecutiveFrom(was, more, serial)
  {
    hide Serial.Text;
    var tail, r := rows[|was|..], more[|rows|];
    assert more[|was|..] == tail + [r];
    NumberedSnoc(tail, r, serial);
  }

  lemma {:induction false} NumberedSnoc(tail: seq<Row>, r: Row, serial: int)
    requires Ledger.NumberedFrom(tail, serial) && r.serial == Serial.Text(serial + |tail|)
    ensures Ledger.NumberedFrom(tail + [r], serial)
  {
    hide Serial.Text;
    assert (tail + [r])[..|tail|] == tail;
  }

  /** b continues the table was with rows numbered consecutively from serial on, and its serial is right behind them. */
  ghost predicate NumberedBatch(was: seq<Row>, serial: int, b: Batch) {
    ConsecutiveFrom(was, b.db.rows, serial) && b.serial == serial + |b.db.rows| - |was|
  }

  lemma {:induction false} StepNumbered(was: seq<Row>, serial: int, b: Batch, r: Request)
    requires NumberedBatch(was, serial, b) && BatchStep(b, r).Some?
    ensures NumberedBatch(was, serial, BatchStep(b, r).value)
  {
    hide Serial.Text, Clashes;
    var b' := BatchStep(b, r).value;
    if b' != b { ConsecutiveSnoc(was, b.db.rows, b'.db.rows, serial); }
  }

  /** The batch appends rows that are numbered consecutively, and the serial ends right behind them. */
  lemma {:induction false} BatchNumbered(db: Db, serial: int, batch: seq<Request>)
    requires BatchOf(db, serial, batch).Some?
    ensures NumberedBatch(db.rows, serial, BatchOf(db, serial, batch).value)
  {
    if batch != [] {
      var init := batch[..|batch| - 1];
      BatchNumbered(db, serial, init);
      StepNumbered(db.rows, serial, BatchOf(db, serial, init).value, batch[|batch| - 1]);
    }
  }

  // ---- What a batch comes to, request by request ----

  predicate Issues(r: Request) { r.Asked? && r.consent == Signed }

  /** How many of the first n requests are asked for and signed. */
  function SignedBefore(batch: seq<Request>, n: nat): nat
    requires n <= |batch|
  {
    if n == 0 then 0 else SignedBefore(batch, n - 1) + if Issues(batch[n - 1]) then 1 else 0
  }

  /** The certificate that request i asks for: its number is the serial and one for each that is signed before it. */
  function CertAt(batch: seq<Request>, serial: int, i: nat): Cert
    requires i < |batch| && batch[i].Asked?
  {
    Cert(serial + SignedBefore(batch, i), batch[i].subject, batch[i].notAfter)
  }

  /** Request i is not refused and, if asked for, not unsigned and unclaimed, by the table and by earlier requests. */
  ghost predicate Admitted(db: Db, serial: int, batch: seq<Request>, i: nat)
    requires i < |batch|
  {
    batch[i] != Refused &&
    (batch[i].Asked? ==>
       batch[i].consent != Unsigned && Unclaimed(db, CertAt(batch, serial, i)) &&
       (db.unique ==>
          forall k :: 0 <= k < i && Issues(batch[k]) ==>
            CertName(CertAt(batch, serial, k)) != CertName(CertAt(batch, serial, i))))
  }

  /** b has the rows of db and behind them one Valid row for each of the first n requests that is signed. */
  ghost predicate Grown(db: Db, serial: int, batch: seq<Request>, n: nat, b: Batch)
    requires n <= |batch|
  {
    b.serial == serial + SignedBefore(batch, n) && |b.db.rows| == |db.rows| + SignedBefore(batch, n) &&
    db.rows <= b.db.rows &&
    forall i :: 0 <= i < n && Issues(batch[i]) ==> RowFor(batch, serial, i, b.db.rows, |db.rows|)
  }

  ghost predicate RowFor(batch: seq<Request>, serial: int, i: nat, rows: seq<Row>, base: nat)
    requires i < |batch| && batch[i].Asked?
  {
    var k, text := base + SignedBefore(batch, i), Serial.Text(serial + SignedBefore(batch, i));
    k < |rows| &&
    rows[k] == Row('V', batch[i].notAfter, "", text, "unknown",
                   if batch[i].subject == "" then text else batch[i].subject)
  }

  /** The batch goes through exactly when every request is admitted, and then has one new row for each signed one. */
  ghost predicate BatchOutcome(db: Db, serial: int, batch: seq<Request>, b: Option<Batch>) {
    (b.Some? <==> forall i :: 0 <= i < |batch| ==> Admitted(db, serial, batch, i)) &&
    (b.Some? ==>
       Grown(db, serial, batch, |batch|, b.value) && b.value.db.unique == db.unique &&
       if db.unique then NamesGrown(db, serial, batch, |batch|, b.value.db.names) else b.value.db.names == db.names)
  }

  /** The name index has gained exactly the names of the new rows. */
  ghost predicate NamesGrown(db: Db, serial: int, batch: seq<Request>, n: nat, names: set<string>)
    requires n <= |batch|
  {
    forall x :: x in names <==>
      x in db.names || exists i :: 0 <= i < n && Issues(batch[i]) && CertName(CertAt(batch, serial, i)) == x
  }

  ghost predicate GrownDb(db: Db, serial: int, batch: seq<Request>, n: nat, b: Batch)
    requires n <= |batch|
  {
    Grown(db, serial, batch, n, b) && NumberedBatch(db.rows, serial, b) && b.db.unique == db.unique &&
    if db.unique then NamesGrown(db, serial, batch, n, b.db.names) else b.db.names == db.names
  }

  lemma {:induction false} NewSerialFree(was: seq<Row>, serial: int, b: Batch)
    requires NumberedBatch(was, serial, b)
    ensures forall i :: |was| <= i < |b.db.rows| ==>
              Serial.Key(b.db.rows[i].serial) != Serial.Key(Serial.Text(b.serial))
  {
    hide Serial.Text, Serial.Key;
    forall i | |was| <= i < |b.db.rows|
      ensures Serial.Key(b.db.rows[i].serial) != Serial.Key(Serial.Text(b.serial))
    {
      var tail, m := b.db.rows[|was|..], i - |was|;
      Ledger.NumberedAt(tail, serial, m);
      assert tail[m] == b.db.rows[i];
      Serial.TextsInjective(serial + m, b.serial);
    }
  }

  /** Claimed by the table as it has grown means claimed by the table or by an earlier request. */
  lemma {:induction false} StillUnclaimed(db: Db, serial: int, batch: seq<Request>, n: nat, b: Batch)
    requires n < |batch| && batch[n].Asked? && GrownDb(db, serial, batch, n, b)
    ensures var c := CertAt(batch, serial, n);
            Unclaimed(b.db, c) <==>
            Unclaimed(db, c) &&
            (db.unique ==>
               forall k :: 0 <= k < n && Issues(batch[k]) ==> CertName(CertAt(batch, serial, k)) != CertName(c))
  {
    hide Serial.Text, Serial.Key, NumberedBatch, RowFor, SignedBefore;
    var c := CertAt(batch, serial, n);
    NewSerialFree(db.rows, serial, b);
    assert forall i :: 0 <= i < |db.rows| ==> b.db.rows[i] == db.rows[i];
    assert CertName(c) == if c.subject == "" then Serial.Text(c.serial) else c.subject;
  }

  /** One more request that is admitted. */
  lemma {:induction false} GrownStep(db: Db, serial: int, batch: seq<Request>, n: nat, b: Batch)
    requires n < |batch| && GrownDb(db, serial, batch, n, b) && BatchStep(b, batch[n]).Some?
    ensures GrownDb(db, serial, batch, n + 1, BatchStep(b, batch[n]).value)
  {
    hide Serial.Text, Serial.Key, NumberedBatch, NamesGrown, Clashes;
    var next := BatchStep(b, batch[n]).value;
    StepNumbered(db.rows, serial, b, batch[n]);
    if Issues(batch[n]) {
      var c := CertAt(batch, serial, n);
      assert next.db == Insert(b.db, NewRow(c));
      forall i | 0 <= i < n + 1 && Issues(batch[i]) ensures RowFor(batch, serial, i, next.db.rows, |db.rows|) {
        if i < n { assert RowFor(batch, serial, i, b.db.rows, |db.rows|); }
      }
      if db.unique { NamesStep(db, serial, batch, n, b.db.names); }
    } else {
      assert next == b;
      if db.unique { NamesSame(db, serial, batch, n, b.db.names); }
    }
  }

  lemma {:induction false} NamesStep(db: Db, serial: int, batch: seq<Request>, n: nat, names: set<string>)
    requires n < |batch| && Issues(batch[n]) && NamesGrown(db, serial, batch, n, names)
    ensures NamesGrown(db, serial, batch, n + 1, names + {CertName(CertAt(batch, serial, n))})
  {
    hide Serial.Text, SignedBefore;
  }

  lemma {:induction false} NamesSame(db: Db, serial: int, batch: seq<Request>, n: nat, names: set<string>)
    requires n < |batch| && !Issues(batch[n]) && NamesGrown(db, serial, batch, n, names)
    ensures NamesGrown(db, serial, batch, n + 1, names)
  {
    hide Serial.Text, SignedBefore;
  }

  lemma {:induction false} StepAdmits(db: Db, serial: int, batch: seq<Request>, n: nat, b: Batch)
    requires n < |batch| && GrownDb(db, serial, batch, n, b)
    ensures BatchStep(b, batch[n]).Some? <==> Admitted(db, serial, batch, n)
  {
    hide Serial.Text, Serial.Key, NumberedBatch, NamesGrown, Clashes, Unclaimed, RowFor;
    if batch[n].Asked? {
      StillUnclaimed(db, serial, batch, n, b);
      CertifyExactly(b.db, CertAt(batch, serial, n), batch[n].consent);
    }
  }

  /** The first n requests. */
  lemma {:induction false} BatchSoFar(db: Db, serial: int, batch: seq<Request>, n: nat)
    requires n <= |batch|
    ensures var b := BatchOf(db, serial, batch[..n]);
            (b.Some? <==> forall i :: 0 <= i < n ==> Admitted(db, serial, batch, i)) &&
            (b.Some? ==> GrownDb(db, serial, batch, n, b.value))
  {
    hide Serial.Text, Admitted, BatchStep, GrownDb;
    if n == 0 {
      assert batch[..0] == [];
      NothingGrown(db, serial, batch);
    } else {
      BatchSoFar(db, serial, batch, n - 1);
      assert batch[..n][..n - 1] == batch[..n - 1];
      var front := BatchOf(db, serial, batch[..n - 1]);
      if front.Some? {
        StepAdmits(db, serial, batch, n - 1, front.value);
        if BatchStep(front.value, batch[n - 1]).Some? { GrownStep(db, serial, batch, n - 1, front.value); }
      }
    }
  }

  lemma {:induction false} NothingGrown(db: Db, serial: int, batch: seq<Request>)
    ensures GrownDb(db, serial, batch, 0, Batch(db, serial))
  {
    assert db.rows[|db.rows|..] == [];
  }

  /** A batch goes through exactly when none of its requests is refused, unsigned or claimed, and it then adds exactly
      one row for each signed request, numbered from the loaded serial; one request that is not admitted loses all. */
  lemma {:induction false} BatchExactly(db: Db, serial: int, batch: seq<Request>)
    ensures BatchOutcome(db, serial, batch, BatchOf(db, serial, batch))
  {
    hide Admitted, Grown, NamesGrown;
    BatchSoFar(db, serial, batch, |batch|);
    assert batch[..|batch|] == batch;
  }

  /** The contents the run gives the index file, one after the other (apps/ca.c:784-1333). */
  ghost function Saves(env: Env, rows: seq<Row>, run: Run): seq<seq<Row>> {
    if !Loadable(env.oid, rows, env.unique) then []
    else
      var db := Loaded(env, rows);
      if run.update == None || Expired(env.when, run.update.value, rows) == 0 then AfterUpdate(env, db, run)
      else
        var after := db.(rows := Expire(env.when, run.update.value, rows));
        [after.rows] + AfterUpdate(env, after, run)
  }

  ghost function AfterUpdate(env: Env, db: Db, run: Run): seq<seq<Row>> {
    var b := BatchOf(db, run.serial, run.batch);
    if b == None then []
    else if b.value.db.rows == db.rows then AfterBatch(env, b.value.db, run)
    else if !run.commit then []
    else [b.value.db.rows] + AfterBatch(env, b.value.db, run)
  }

  ghost function AfterBatch(env: Env, db: Db, run: Run): seq<seq<Row>> {
    if run.revoke == None then []
    else
      var r := run.revoke.value;
      var (ok, after) := Revoke(env.oid, db, r.cert, r.t, r.arg, r.now);
      if ok then [after.rows] else []
  }

  // ---- When the next run can read what a run saves ----

  /** Every certificate the batch issues has a readable expiry. */
  predicate IssuesReadable(db: Db, serial: int, batch: seq<Request>) {
    if batch == [] then true
    else
      var init, r := batch[..|batch| - 1], batch[|batch| - 1];
      var front := BatchOf(db, serial, init);
      IssuesReadable(db, serial, init) && (front.Some? ==> StepReadable(front.value, r))
  }

  predicate StepReadable(b: Batch, r: Request) {
    r.Asked? && Certify(b.db, Cert(b.serial, r.subject, r.notAfter), r.consent).0 == 1 ==> TimeOk(r.notAfter)
  }

  /** An accepted revocation has a UTCTime, and a certificate that -revoke or -valid adds has a readable expiry. */
  predicate RevokesReadable(env: Env, db: Db, run: Run) {
    run.revoke.Some? ==>
      var r := run.revoke.value;
      Revoke(env.oid, db, r.cert, r.t, r.arg, r.now).0 ==>
        (r.t == RevValid || UtcOk(r.now)) &&
        (Lookup(db.rows, CertKey(r.cert)) == |db.rows| ==> TimeOk(r.cert.notAfter))
  }

  predicate ReadableAfter(env: Env, db: Db, run: Run) {
    var b := BatchOf(db, run.serial, run.batch);
    b.Some? && (b.value.db.rows == db.rows || run.commit) ==>
      IssuesReadable(db, run.serial, run.batch) && RevokesReadable(env, b.value.db, run)
  }

  /** The table after -updatedb. */
  ghost function Updated(env: Env, rows: seq<Row>, run: Run): Db {
    var db := Loaded(env, rows);
    if run.update == None then db else db.(rows := Expire(env.when, run.update.value, rows))
  }

  ghost predicate KeepsReadable(env: Env, rows: seq<Row>, run: Run) {
    Loadable(env.oid, rows, env.unique) ==> ReadableAfter(env, Updated(env, rows, run), run)
  }

  /** Enough for that: every certificate has a readable expiry and the revocation happens in a year of UTCTime. */
  ghost predicate Timely(run: Run) {
    (forall i :: 0 <= i < |run.batch| ==> TimelyRequest(run.batch[i])) &&
    (run.revoke.Some? ==>
       TimeOk(run.revoke.value.cert.notAfter) && (run.revoke.value.t == RevValid || UtcOk(run.revoke.value.now)))
  }

  predicate TimelyRequest(r: Request) { r.Asked? ==> TimeOk(r.notAfter) }

  lemma {:induction false} TimelyIssues(db: Db, serial: int, batch: seq<Request>)
    requires forall i :: 0 <= i < |batch| ==> TimelyRequest(batch[i])
    ensures IssuesReadable(db, serial, batch)
  {
    hide Certify, TimeOk, BatchStep;
    if batch != [] {
      assert TimelyRequest(batch[|batch| - 1]);
      TimelyIssues(db, serial, batch[..|batch| - 1]);
    }
  }

  lemma {:induction false} TimelyKeeps(env: Env, rows: seq<Row>, run: Run)
    requires Timely(run)
    ensures KeepsReadable(env, rows, run)
  {
    hide TimeOk, UtcOk, Revoke, BatchOf, Loadable;
    TimelyIssues(Updated(env, rows, run), run.serial, run.batch);
  }

  /** What the index file holds is fit for the next run and a continuation of what it held, and its serial columns stay
      plain when they were. */
  ghost predicate Sound(env: Env, was: seq<Row>, rows: seq<Row>) {
    Loadable(env.oid, rows, env.unique) && Follows(was, rows) && (Canonical(was) ==> Canonical(rows))
  }

  /** The part of it that does not depend on any date. */
  ghost predicate KeptDb(env: Env, was: seq<Row>, db: Db) {
    Inv(db) && db.unique == env.unique && Follows(was, db.rows) && (Canonical(was) ==> Canonical(db.rows))
  }

  lemma {:induction false} KeptIsSound(env: Env, was: seq<Row>, db: Db)
    requires KeptDb(env, was, db)
    ensures Sound(env, was, db.rows) <==> RowsOk(env.oid, db.rows)
  {
    hide RowsOk, Follows, Canonical;
  }

  lemma {:induction false} PlainNew(c: Cert)
    ensures Serial.Plain(NewRow(c).serial)
  {
    Serial.TextRoundTrip(c.serial);
    Serial.PlainExactly(Serial.Text(c.serial));
  }

  /** A continuation that only adds new rows stays canonical. */
  lemma {:induction false} StaysCanonical(rows: seq<Row>, later: seq<Row>)
    requires Canonical(rows) && Follows(rows, later)
    requires forall i :: |rows| <= i < |later| ==> Serial.Plain(later[i].serial)
    ensures Canonical(later)
  {
    forall i | 0 <= i < |later| ensures Serial.Plain(later[i].serial) {
      if i < |rows| { assert RowFollows(rows[i], later[i]) && Serial.Plain(rows[i].serial); }
    }
  }

  /** Whatever the dates, a batch keeps the indexes and the history; it keeps the table readable exactly when every
      certificate it issues has a readable expiry. */
  lemma {:induction false} BatchKept(env: Env, was: seq<Row>, db: Db, serial: int, batch: seq<Request>)
    requires KeptDb(env, was, db)
    ensures var b := BatchOf(db, serial, batch);
            b.Some? ==>
              KeptDb(env, was, b.value.db) &&
              (RowsOk(env.oid, b.value.db.rows) <==> RowsOk(env.oid, db.rows) && IssuesReadable(db, serial, batch))
  {
    hide KeptDb, RowsOk, TimeOk, Certify;
    if batch != [] && BatchOf(db, serial, batch).Some? {
      var r := batch[|batch| - 1];
      BatchKept(env, was, db, serial, batch[..|batch| - 1]);
      var front := BatchOf(db, serial, batch[..|batch| - 1]).value;
      if r.Asked? { CertifyKept(env, was, front.db, Cert(front.serial, r.subject, r.notAfter), r.consent); }
    }
  }

  lemma {:induction false} CertifyKept(env: Env, was: seq<Row>, db: Db, c: Cert, consent: Consent)
    requires KeptDb(env, was, db)
    ensures var (j, after) := Certify(db, c, consent);
            KeptDb(env, was, after) &&
            (RowsOk(env.oid, after.rows) <==> RowsOk(env.oid, db.rows) && (j == 1 ==> TimeOk(c.notAfter)))
  {
    hide RowsOk, TimeOk, Inv;
    CertifyKeeps(env.oid, db, c, consent);
    var after := Certify(db, c, consent).1;
    FollowsTransitive(was, db.rows, after.rows);
    PlainNew(c);
    if Canonical(was) { StaysCanonical(db.rows, after.rows); }
  }

  lemma {:induction false} RevokeKept(env: Env, was: seq<Row>, db: Db, r: Revocation)
    requires KeptDb(env, was, db)
    ensures var (ok, after) := Revoke(env.oid, db, r.cert, r.t, r.arg, r.now);
            ok ==> KeptDb(env, was, after)
  {
    hide Inv;
    var (ok, after) := Revoke(env.oid, db, r.cert, r.t, r.arg, r.now);
    if ok {
      RevokeKeeps(env.oid, db, r.cert, r.t, r.arg, r.now);
      FollowsTransitive(was, db.rows, after.rows);
      if Canonical(was) { RevokeCanonical(env.oid, db, r.cert, r.t, r.arg, r.now); }
    }
  }

  lemma {:induction false} RevokeCanonical(oid: OidTable, db: Db, c: Cert, t: RevType, arg: string, now: string)
    requires Inv(db) && Canonical(db.rows) && Revoke(oid, db, c, t, arg, now).0
    ensures Canonical(Revoke(oid, db, c, t, arg, now).1.rows)
  {
    RevokeKeeps(oid, db, c, t, arg, now);
    PlainNew(c);
    var after := Revoke(oid, db, c, t, arg, now).1.rows;
    forall i | |db.rows| <= i < |after|
      ensures after[i].serial == NewRow(c).serial
    {
      if t != RevValid { RevokeExactlyOne(oid, db, c, t, arg, now); }
    }
    StaysCanonical(db.rows, after);
  }

  ghost predicate AllSound(env: Env, was: seq<Row>, tables: seq<seq<Row>>) {
    tables == [] || (Sound(env, was, tables[0]) && AllSound(env, was, tables[1..]))
  }

  lemma {:induction false} AllSoundCons(env: Env, was: seq<Row>, rows: seq<Row>, tables: seq<seq<Row>>)
    ensures AllSound(env, was, [rows] + tables) <==> Sound(env, was, rows) && AllSound(env, was, tables)
  {
    hide Sound;
    assert ([rows] + tables)[1..] == tables;
  }

  lemma {:induction false} AllSoundIn(env: Env, was: seq<Row>, tables: seq<seq<Row>>, rows: seq<Row>)
    requires AllSound(env, was, tables) && rows in tables
    ensures Sound(env, was, rows)
  {
    if rows != tables[0] { AllSoundIn(env, was, tables[1..], rows); }
  }

  /** The texts of instants have no comma. */
  predicate PlainInstant(run: Run) {
    run.revoke.Some? && run.revoke.value.t != RevValid ==> ',' !in run.revoke.value.now
  }

  lemma {:induction false} AfterBatchSound(env: Env, was: seq<Row>, db: Db, run: Run)
    requires KeptDb(env, was, db) && RowsOk(env.oid, db.rows)
    ensures RevokesReadable(env, db, run) ==> AllSound(env, was, AfterBatch(env, db, run))
    ensures PlainInstant(run) && AllSound(env, was, AfterBatch(env, db, run)) ==> RevokesReadable(env, db, run)
  {
    hide Revoke, Sound, RowsOk, TimeOk, UtcOk;
    if run.revoke.Some? {
      var r := run.revoke.value;
      var (ok, after) := Revoke(env.oid, db, r.cert, r.t, r.arg, r.now);
      if ok {
        RevokeKept(env, was, db, r);
        KeptIsSound(env, was, after);
        AllSoundCons(env, was, after.rows, []);
        assert [after.rows] + [] == [after.rows];
        if r.t != RevValid && UtcOk(r.now) { UtcNoComma(r.now); }
        if r.t == RevValid || ',' !in r.now { RevokeReadable(env.oid, db, r.cert, r.t, r.arg, r.now); }
      }
    }
  }

  lemma {:induction false} AfterUpdateSound(env: Env, was: seq<Row>, db: Db, run: Run)
    requires KeptDb(env, was, db) && RowsOk(env.oid, db.rows)
    ensures ReadableAfter(env, db, run) ==> AllSound(env, was, AfterUpdate(env, db, run))
    ensures PlainInstant(run) && AllSound(env, was, AfterUpdate(env, db, run)) ==> ReadableAfter(env, db, run)
  {
    hide KeptDb, Sound, RowsOk, AfterBatch, RevokesReadable, PlainInstant;
    BatchKept(env, was, db, run.serial, run.batch);
    var b := BatchOf(db, run.serial, run.batch);
    if b.Some? {
      KeptIsSound(env, was, b.value.db);
      AllSoundCons(env, was, b.value.db.rows, AfterBatch(env, b.value.db, run));
      if RowsOk(env.oid, b.value.db.rows) { AfterBatchSound(env, was, b.value.db, run); }
    }
  }

  lemma {:induction false} UpdateKept(env: Env, rows: seq<Row>, run: Run)
    requires Loadable(env.oid, rows, env.unique)
    ensures var db := Updated(env, rows, run);
            KeptDb(env, rows, db) && RowsOk(env.oid, db.rows)
  {
    var db := Loaded(env, rows);
    FollowsSelf(rows);
    if run.update.Some? {
      UpdateKeeps(env.oid, env.when, run.update.value, db);
      var after := db.(rows := Expire(env.when, run.update.value, rows));
      if Canonical(rows) { StaysCanonical(rows, after.rows); }
    }
  }

  /** Saves in terms of the table after -updatedb. */
  lemma {:induction false} SavesUpdated(env: Env, rows: seq<Row>, run: Run)
    requires Loadable(env.oid, rows, env.unique)
    ensures var db := Updated(env, rows, run);
            Saves(env, rows, run) == AfterUpdate(env, db, run) ||
            Saves(env, rows, run) == [db.rows] + AfterUpdate(env, db, run)
  {
    hide Loadable, AfterUpdate;
    if run.update.Some? && Expired(env.when, run.update.value, rows) == 0 {
      NoneExpired(env.when, run.update.value, rows);
    }
  }

  /** Every table a run saves is accepted by the next run's load check and index construction and keeps every earlier
      row, and a table with plain serials only is followed by such tables, exactly when every certificate it adds has a
      readable expiry and its revocation, if accepted, has a UTCTime. */
  lemma {:induction false} RunSoundExactly(env: Env, rows: seq<Row>, run: Run)
    requires PlainInstant(run)
    ensures AllSound(env, rows, Saves(env, rows, run)) <==> KeepsReadable(env, rows, run)
  {
    RunSound(env, rows, run);
    if Loadable(env.oid, rows, env.unique) { RunSoundParts(env, rows, run); }
  }

  lemma {:induction false} RunSoundParts(env: Env, rows: seq<Row>, run: Run)
    requires Loadable(env.oid, rows, env.unique)
    ensures KeepsReadable(env, rows, run) ==> AllSound(env, rows, Saves(env, rows, run))
    ensures PlainInstant(run) && AllSound(env, rows, Saves(env, rows, run)) ==> KeepsReadable(env, rows, run)
  {
    hide KeptDb, Sound, RowsOk, AfterUpdate, ReadableAfter, AllSound, PlainInstant, Loadable;
    var db := Updated(env, rows, run);
    UpdateKept(env, rows, run);
    SavesUpdated(env, rows, run);
    KeptIsSound(env, rows, db);
    AfterUpdateSound(env, rows, db, run);
    AllSoundCons(env, rows, db.rows, AfterUpdate(env, db, run));
  }

  lemma {:induction false} RunSound(env: Env, rows: seq<Row>, run: Run)
    ensures KeepsReadable(env, rows, run) ==> AllSound(env, rows, Saves(env, rows, run))
  {
    if Loadable(env.oid, rows, env.unique) { RunSoundParts(env, rows, run); }
  }

  /** A table that does not load stays as it is, whatever is run. */
  lemma {:induction false} LockedStays(env: Env, h: seq<seq<Row>>, runs: seq<Run>, i: nat, j: nat)
    requires |h| == |runs| + 1 && i <= j < |h| && !Loadable(env.oid, h[i], env.unique)
    requires forall k :: 0 <= k < |runs| ==> Leaves(env, h[k], runs[k], h[k + 1])
    ensures h[j] == h[i]
    decreases j
  {
    if i < j {
      var k := j - 1;
      LockedStays(env, h, runs, i, k);
      assert Leaves(env, h[k], runs[k], h[k + 1]);
    }
  }

  /** h lists the index file before each run and after the last: a run may be cut short, so it
      leaves the old contents or any of the contents it saves. No run adds a certificate with an unreadable expiry or
      makes a revocation outside the years of UTCTime. */
  ghost predicate History(env: Env, h: seq<seq<Row>>, runs: seq<Run>) {
    |h| == |runs| + 1 &&
    (forall i :: 0 <= i < |runs| ==> KeepsReadable(env, h[i], runs[i])) &&
    forall i :: 0 <= i < |runs| ==> Leaves(env, h[i], runs[i], h[i + 1])
  }

  ghost predicate Leaves(env: Env, rows: seq<Row>, run: Run, after: seq<Row>) {
    after == rows || after in Saves(env, rows, run)
  }

  lemma {:induction false} LeavesSound(env: Env, rows: seq<Row>, run: Run, after: seq<Row>)
    requires Loadable(env.oid, rows, env.unique) && KeepsReadable(env, rows, run) && Leaves(env, rows, run, after)
    ensures Sound(env, rows, after)
  {
    FollowsSelf(rows);
    RunSound(env, rows, run);
    if after != rows { AllSoundIn(env, rows, Saves(env, rows, run), after); }
  }

  lemma {:induction false} HistoryStep(env: Env, h: seq<seq<Row>>, runs: seq<Run>, k: nat)
    requires History(env, h, runs) && k < |runs|
    ensures KeepsReadable(env, h[k], runs[k]) && Leaves(env, h[k], runs[k], h[k + 1])
  {
  }

  lemma {:induction false} EveryTableGood(env: Env, h: seq<seq<Row>>, runs: seq<Run>, j: nat)
    requires History(env, h, runs) && j < |h|
    requires Loadable(env.oid, h[0], env.unique)
    ensures Loadable(env.oid, h[j], env.unique)
    ensures j > 0 ==> Sound(env, h[j - 1], h[j])
  {
    hide Loadable, Follows, Canonical, Saves, KeepsReadable, Leaves;
    if j > 0 {
      EveryTableGood(env, h, runs, j - 1);
      HistoryStep(env, h, runs, j - 1);
      LeavesSound(env, h[j - 1], runs[j - 1], h[j]);
    }
  }

  /** Over any number of runs, from any table that loads, every table that is ever on disk loads,
      has distinct serials, under unique_subject at most one Valid row per name, and continues
      every table before it; plain serial columns stay plain. */
  lemma {:induction false} EveryHistorySound(env: Env, h: seq<seq<Row>>, runs: seq<Run>, i: nat, j: nat)
    requires History(env, h, runs) && i <= j < |h|
    requires Loadable(env.oid, h[0], env.unique)
    ensures Sound(env, h[i], h[j])
    decreases j
  {
    hide Loadable, Follows, Canonical, Saves, KeepsReadable, Leaves;
    EveryTableGood(env, h, runs, j);
    if i == j {
      FollowsSelf(h[j]);
    } else {
      EveryHistorySound(env, h, runs, i, j - 1);
      FollowsTransitive(h[i], h[j - 1], h[j]);
    }
  }

  /** A frozen row is found again, so its answer cannot change. */
  lemma {:induction false} RevokedAnswerStays(oid: OidTable, rows: seq<Row>, later: seq<Row>, n: int, info: Info)
    requires DistinctSerials(later) && Follows(rows, later)
    requires AnswerFor(oid, rows, true, n) == Give(Revoked(info))
    ensures AnswerFor(oid, later, true, n) == Give(Revoked(info))
  {
    var i := Lookup(rows, Serial.Key(Serial.Text(n)));
    assert RowFollows(rows[i], later[i]);
    LookupIs(later, i);
  }

  /** Once OCSP has answered Revoked for a serial, after every later run it gives the same answer,
      and every CRL generated from then on lists the serial with the same information. */
  lemma {:induction false} RevokedForever(env: Env, h: seq<seq<Row>>, runs: seq<Run>, i: nat, j: nat,
                                          n: int, info: Info)
    requires History(env, h, runs) && i <= j < |h|
    requires Loadable(env.oid, h[0], env.unique)
    requires AnswerFor(env.oid, h[i], true, n) == Give(Revoked(info))
    ensures AnswerFor(env.oid, h[j], true, n) == Give(Revoked(info))
    ensures CrlOf(env.oid, h[j]).Some? && CrlEntry(n, info) in CrlOf(env.oid, h[j]).value
  {
    EveryHistorySound(env, h, runs, i, j);
    RevokedAnswerStays(env.oid, h[i], h[j], n, info);
    OcspThenCrl(env.oid, h[j], n, info);
  }

  /** do_revoke looks at no date: on the empty table it accepts -valid for every certificate, and -revoke for every
      certificate with a valid argument. */
  lemma {:induction false} LateRevocationAccepted(env: Env, r: Revocation)
    requires r.t == RevValid || ArgOk(env.oid, r.t, r.arg)
    ensures Loadable(env.oid, [], env.unique) && Revoke(env.oid, Loaded(env, []), r.cert, r.t, r.arg, r.now).0
  {
    var db := Loaded(env, []);
    assert ValidNames([]) == {};
    assert CaTable.Insert(db, NewRow(r.cert)).rows == [NewRow(r.cert)];
  }

  /** The run that only revokes, or adds with -valid. */
  function Only(r: Revocation): Run { Run(None, 0, [], true, Some(r)) }

  lemma {:induction false} OnlySaves(env: Env, rows: seq<Row>, r: Revocation)
    requires Loadable(env.oid, rows, env.unique) && Revoke(env.oid, Loaded(env, rows), r.cert, r.t, r.arg, r.now).0
    ensures Saves(env, rows, Only(r)) == [Revoke(env.oid, Loaded(env, rows), r.cert, r.t, r.arg, r.now).1.rows]
  {
    hide Loadable, Revoke;
  }

  /** The guarantee is lost, and an accepted -revoke or -valid saves a table that the next run refuses, when the time of
      a revocation lies outside the years of UTCTime, and when the certificate is new to the table and has an
      unreadable expiry. */
  lemma {:induction false} UnreadableLocksTable(env: Env, rows: seq<Row>, r: Revocation)
    requires Loadable(env.oid, rows, env.unique) && Revoke(env.oid, Loaded(env, rows), r.cert, r.t, r.arg, r.now).0
    requires r.t == RevValid || ',' !in r.now
    ensures |Saves(env, rows, Only(r))| == 1
    ensures !Loadable(env.oid, Saves(env, rows, Only(r))[0], env.unique) <==>
            (r.t != RevValid && !UtcOk(r.now)) ||
            (Lookup(rows, CertKey(r.cert)) == |rows| && !TimeOk(r.cert.notAfter))
  {
    hide RowsOk, TimeOk, UtcOk;
    var db := Loaded(env, rows);
    OnlySaves(env, rows, r);
    RevokeKeeps(env.oid, db, r.cert, r.t, r.arg, r.now);
    RevokeReadable(env.oid, db, r.cert, r.t, r.arg, r.now);
  }

  lemma {:induction false} LateRevocationLocksTable(env: Env, rows: seq<Row>, r: Revocation, tm: Tm)
    requires Loadable(env.oid, rows, env.unique) && ValidTm(tm) && tm.year >= 2050 && r.now == Format(tm)
    requires r.t != RevValid && Revoke(env.oid, Loaded(env, rows), r.cert, r.t, r.arg, r.now).0
    ensures |Saves(env, rows, Only(r))| == 1 && !Loadable(env.oid, Saves(env, rows, Only(r))[0], env.unique)
  {
    hide Revoke, Saves, Loadable;
    FormatAccepted(tm);
    UnreadableLocksTable(env, rows, r);
  }

  /** For one: -valid, at any time, of a certificate whose expiry is the empty text, on the empty table. */
  lemma {:induction false} UnreadableExpiryLocksTable(env: Env, now: string)
    ensures var r := Revocation(Cert(1, "/CN=a", ""), RevValid, "", now);
            Loadable(env.oid, [], env.unique) && |Saves(env, [], Only(r))| == 1 &&
            !Loadable(env.oid, Saves(env, [], Only(r))[0], env.unique)
  {
    hide Revoke, Saves, Loadable;
    var r := Revocation(Cert(1, "/CN=a", ""), RevValid, "", now);
    LateRevocationAccepted(env, r);
    UnreadableLocksTable(env, [], r);
    assert !TimeOk("");
  }
}
