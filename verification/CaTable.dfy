/** The certificate table of "openssl ca": rows, steps, and what every step keeps
    (apps/ca.c, apps/lib/apps.c, crypto/txt_db/txt_db.c). */
module CaTable {
  import opened TimeText
  import opened RevInfo
  import Serial

  /** A database row; typ is the first character of its type column. */
  datatype Row = Row(typ: char, exp: string, rev: string, serial: string, file: string, name: string)

  /** What the table needs to know of a certificate: serial, one-line subject, notAfter text. */
  datatype Cert = Cert(serial: int, subject: string, notAfter: string)

  /** The instant a time text denotes. */
  type Clock = string -> int

  /** An indexed table. The name index is filled when a row is Valid and never emptied, so within
      a run it may hold more names than there are Valid rows. */
  datatype Db = Db(rows: seq<Row>, unique: bool, names: set<string>)

  function KeyOf(r: Row): string { Serial.Key(r.serial) }

  function CertKey(c: Cert): string { Serial.Key(Serial.Text(c.serial)) }

  /** An empty subject is replaced by the serial. */
  function CertName(c: Cert): string { if c.subject == "" then Serial.Text(c.serial) else c.subject }

  function NewRow(c: Cert): Row {
    Row('V', c.notAfter, "", Serial.Text(c.serial), "unknown", CertName(c))
  }

  /** The load check on one row (apps/ca.c:737-772). */
  predicate RowOk(oid: OidTable, r: Row) {
    (r.typ != 'R' ==> r.rev == "") &&
    (r.typ == 'R' ==> MakeRevoked(Unpack(oid, r.rev)) != 0) &&
    TimeOk(r.exp) && Serial.WellFormed(r.serial)
  }

  ghost predicate RowsOk(oid: OidTable, rows: seq<Row>) {
    forall i :: 0 <= i < |rows| ==> RowOk(oid, rows[i])
  }

  ghost predicate DistinctSerials(rows: seq<Row>) {
    forall i, j :: 0 <= i < j < |rows| ==> KeyOf(rows[i]) != KeyOf(rows[j])
  }

  ghost predicate OneValidPerName(rows: seq<Row>) {
    forall i, j :: 0 <= i < j < |rows| && rows[i].typ == 'V' && rows[j].typ == 'V' ==> rows[i].name != rows[j].name
  }

  /** index_index succeeds (apps/lib/apps.c:1743). */
  ghost predicate Indexable(rows: seq<Row>, unique: bool) {
    DistinctSerials(rows) && (unique ==> OneValidPerName(rows))
  }

  /** A run gets past loading the table. */
  ghost predicate Loadable(oid: OidTable, rows: seq<Row>, unique: bool) {
    RowsOk(oid, rows) && Indexable(rows, unique)
  }

  ghost predicate Inv(db: Db) {
    Indexable(db.rows, db.unique) &&
    (db.unique ==> forall i :: 0 <= i < |db.rows| && db.rows[i].typ == 'V' ==> db.rows[i].name in db.names) &&
    (!db.unique ==> db.names == {})
  }

  /** The position of the row with the given index key, or |rows|. */
  function Lookup(rows: seq<Row>, key: string): (r: nat)
    ensures r <= |rows| && (r < |rows| ==> KeyOf(rows[r]) == key)
    ensures forall i :: 0 <= i < r ==> KeyOf(rows[i]) != key
  {
    if rows == [] || KeyOf(rows[0]) == key then 0 else
      var r := 1 + Lookup(rows[1..], key);
      assert forall i :: 0 < i < r ==> rows[i] == rows[1..][i - 1];
      r
  }

  predicate Clashes(db: Db, r: Row) {
    Lookup(db.rows, KeyOf(r)) < |db.rows| || (db.unique && r.typ == 'V' && r.name in db.names)
  }

  /** TXT_DB_insert of a row that does not clash. */
  function Insert(db: Db, r: Row): Db {
    Db(db.rows + [r], db.unique, if db.unique && r.typ == 'V' then db.names + {r.name} else db.names)
  }

  /** The revocation of the row at position i (apps/ca.c:2211-2232). */
  predicate Revocable(oid: OidTable, db: Db, i: nat, c: Cert, t: RevType, arg: string)
    requires i < |db.rows|
  {
    db.rows[i].name == CertName(c) && t != RevValid && db.rows[i].typ != 'R' && ArgOk(oid, t, arg)
  }

  function RevokeAt(oid: OidTable, db: Db, i: nat, t: RevType, arg: string, now: string): Db
    requires i < |db.rows| && ArgOk(oid, t, arg)
  {
    db.(rows := db.rows[i := db.rows[i].(typ := 'R', rev := Stored(oid, t, arg, now))])
  }

  /** do_revoke (apps/ca.c:2134-2238): the verdict and the table it leaves in memory. */
  function Revoke(oid: OidTable, db: Db, c: Cert, t: RevType, arg: string, now: string): (bool, Db) {
    var i := Lookup(db.rows, CertKey(c));
    if i < |db.rows| then RevokeFound(oid, db, i, c, t, arg, now)
    else if Clashes(db, NewRow(c)) then (false, db)
    else if t == RevValid then (true, Insert(db, NewRow(c)))
    else RevokeFound(oid, Insert(db, NewRow(c)), i, c, t, arg, now)
  }

  function RevokeFound(oid: OidTable, db: Db, i: nat, c: Cert, t: RevType, arg: string, now: string): (bool, Db)
    requires i < |db.rows|
  {
    if Revocable(oid, db, i, c, t, arg) then (true, RevokeAt(oid, db, i, t, arg, now)) else (false, db)
  }

  /** What comes of the prompt: the operator declines, signing fails, or the certificate is signed. */
  datatype Consent = Declined | Unsigned | Signed

  /** The end of do_body (apps/ca.c:1846-1969): -1 on a clash or when signing fails, 0 when the operator declines, 1
      when issued. */
  function Certify(db: Db, c: Cert, consent: Consent): (int, Db) {
    if Clashes(db, NewRow(c)) then (-1, db)
    else match consent
      case Declined => (0, db)
      case Unsigned => (-1, db)
      case Signed => (1, Insert(db, NewRow(c)))
  }

  /** do_updatedb (apps/ca.c:2307-2355). */
  predicate Expires(when: Clock, now: int, r: Row) { r.typ == 'V' && when(r.exp) <= now }

  function ExpireRow(when: Clock, now: int, r: Row): Row {
    if Expires(when, now, r) then r.(typ := 'E') else r
  }

  function Expire(when: Clock, now: int, rows: seq<Row>): (out: seq<Row>)
    ensures |out| == |rows|
  {
    if rows == [] then []
    else Expire(when, now, rows[..|rows| - 1]) + [ExpireRow(when, now, rows[|rows| - 1])]
  }

  function Expired(when: Clock, now: int, rows: seq<Row>): nat {
    if rows == [] then 0
    else Expired(when, now, rows[..|rows| - 1]) + if Expires(when, now, rows[|rows| - 1]) then 1 else 0
  }

  /** The same certificate, no younger: serial, name and expiry stay, a revoked row is frozen, and
      a type only moves from Valid to Expired or to Revoked. */
  ghost predicate RowFollows(a: Row, b: Row) {
    a.serial == b.serial && a.name == b.name && a.exp == b.exp && a.file == b.file &&
    (a.typ == 'R' ==> b == a) &&
    (a.typ != b.typ ==> b.typ == 'R' || (a.typ == 'V' && b.typ == 'E')) &&
    (b.typ != 'R' ==> a.rev == b.rev)
  }

  ghost predicate Follows(rows: seq<Row>, later: seq<Row>) {
    |rows| <= |later| && forall i :: 0 <= i < |rows| ==> RowFollows(rows[i], later[i])
  }

  lemma {:induction false} FollowsSelf(rows: seq<Row>)
    ensures Follows(rows, rows)
  {
  }

  lemma {:induction false} FollowsTransitive(a: seq<Row>, b: seq<Row>, c: seq<Row>)
    requires Follows(a, b) && Follows(b, c)
    ensures Follows(a, c)
  {
    forall i | 0 <= i < |a|
      ensures RowFollows(a[i], c[i])
    {
      assert RowFollows(a[i], b[i]) && RowFollows(b[i], c[i]);
    }
  }

  lemma {:induction false} LookupIs(rows: seq<Row>, i: nat)
    requires DistinctSerials(rows) && i < |rows|
    ensures Lookup(rows, KeyOf(rows[i])) == i
  {
  }

  lemma {:induction false} InsertKeeps(db: Db, r: Row)
    requires Inv(db) && !Clashes(db, r)
    ensures Inv(Insert(db, r)) && Follows(db.rows, Insert(db, r).rows)
  {
    assert forall i :: 0 <= i < |db.rows| ==> Insert(db, r).rows[i] == db.rows[i];
  }

  lemma {:induction false} NewRowOk(oid: OidTable, c: Cert)
    ensures RowOk(oid, NewRow(c)) <==> TimeOk(c.notAfter)
  {
    Serial.TextRoundTrip(c.serial);
  }

  lemma {:induction false} RevokeAtKeeps(oid: OidTable, db: Db, i: nat, t: RevType, arg: string, now: string)
    requires Inv(db) && i < |db.rows| && db.rows[i].typ != 'R' && ArgOk(oid, t, arg)
    ensures Inv(RevokeAt(oid, db, i, t, arg, now))
    ensures Follows(db.rows, RevokeAt(oid, db, i, t, arg, now).rows)
  {
    var rows := RevokeAt(oid, db, i, t, arg, now).rows;
    assert forall j :: 0 <= j < |rows| && j != i ==> rows[j] == db.rows[j];
  }

  /** The table do_revoke searches for the row: the given one, or the one it has just appended to. */
  function Present(db: Db, c: Cert): Db {
    if Lookup(db.rows, CertKey(c)) < |db.rows| || Clashes(db, NewRow(c)) then db else Insert(db, NewRow(c))
  }

  lemma {:induction false} PresentKeeps(db: Db, c: Cert)
    requires Inv(db)
    ensures Inv(Present(db, c)) && db.rows <= Present(db, c).rows && Follows(db.rows, Present(db, c).rows)
    ensures Present(db, c).rows == db.rows || Present(db, c).rows == db.rows + [NewRow(c)]
  {
    if Present(db, c) != db { InsertKeeps(db, NewRow(c)); }
  }

  /** do_revoke keeps the invariant and the history of every row; a refusal changes no row that was there. */
  lemma {:induction false} RevokeKeeps(oid: OidTable, db: Db, c: Cert, t: RevType, arg: string, now: string)
    requires Inv(db)
    ensures var (ok, after) := Revoke(oid, db, c, t, arg, now);
            Inv(after) && Follows(db.rows, after.rows) && after.unique == db.unique &&
            (!ok ==> db.rows <= after.rows) &&
            (ok && t == RevValid ==> after.rows == db.rows + [NewRow(c)])
  {
    hide Serial.Text, Stored, ArgOk;
    var (ok, after) := Revoke(oid, db, c, t, arg, now);
    var i := Lookup(db.rows, CertKey(c));
    var mid := Present(db, c);
    PresentKeeps(db, c);
    if ok && t != RevValid {
      RevokeAtKeeps(oid, mid, i, t, arg, now);
      FollowsTransitive(db.rows, mid.rows, after.rows);
    }
  }

  /** An accepted revocation leaves exactly one row with that serial, Revoked with the requested
      reason, and no other row changed. */
  lemma {:induction false} RevokeExactlyOne(oid: OidTable, db: Db, c: Cert, t: RevType, arg: string, now: string)
    requires Inv(db) && t != RevValid && Revoke(oid, db, c, t, arg, now).0
    ensures var after := Revoke(oid, db, c, t, arg, now).1.rows;
            var i := Lookup(db.rows, CertKey(c));
            ArgOk(oid, t, arg) && i < |after| && after[i].typ == 'R' && after[i].rev == Stored(oid, t, arg, now) &&
            (forall j :: 0 <= j < |after| ==> (KeyOf(after[j]) == CertKey(c) <==> j == i)) &&
            |after| == (if i < |db.rows| then |db.rows| else |db.rows| + 1) &&
            (forall j :: 0 <= j < |after| && j != i ==> after[j] == db.rows[j]) &&
            (i == |db.rows| ==> after[i] == NewRow(c).(typ := 'R', rev := after[i].rev))
  {
    hide Serial.Text, Stored, ArgOk;
    PresentKeeps(db, c);
    RevokedAt(oid, Present(db, c), Lookup(db.rows, CertKey(c)), t, arg, now);
  }

  /** After do_revoke has accepted, the next run can load the table exactly when a revocation time is a UTCTime and a
      newly added certificate, by -revoke or by -valid, has a readable expiry. */
  lemma {:induction false} RevokeReadable(oid: OidTable, db: Db, c: Cert, t: RevType, arg: string, now: string)
    requires Inv(db) && RowsOk(oid, db.rows) && (t == RevValid || ',' !in now) && Revoke(oid, db, c, t, arg, now).0
    ensures RowsOk(oid, Revoke(oid, db, c, t, arg, now).1.rows) <==>
            (t == RevValid || UtcOk(now)) && (Lookup(db.rows, CertKey(c)) == |db.rows| ==> TimeOk(c.notAfter))
  {
    hide Serial.Text, Stored, Unpack;
    var after := Revoke(oid, db, c, t, arg, now).1.rows;
    var i := Lookup(db.rows, CertKey(c));
    if t == RevValid {
      RevokeKeeps(oid, db, c, t, arg, now);
      NewRowOk(oid, c);
      RowsOkSnoc(oid, db.rows, NewRow(c));
    } else {
      RevokeExactlyOne(oid, db, c, t, arg, now);
      if i < |db.rows| {
        RevokeKeeps(oid, db, c, t, arg, now);
        assert RowFollows(db.rows[i], after[i]) && RowOk(oid, db.rows[i]);
      } else {
        Serial.TextRoundTrip(c.serial);
      }
      RevokedRowOk(oid, after[i], t, arg, now);
      assert forall j :: 0 <= j < |after| && j != i ==> RowOk(oid, after[j]) == RowOk(oid, db.rows[j]);
    }
  }

  lemma {:induction false} RowsOkSnoc(oid: OidTable, rows: seq<Row>, r: Row)
    ensures RowsOk(oid, rows + [r]) <==> RowsOk(oid, rows) && RowOk(oid, r)
  {
    hide RowOk;
    var all := rows + [r];
    assert all[|rows|] == r && forall i :: 0 <= i < |rows| ==> all[i] == rows[i];
  }

  lemma {:induction false} RevokedRowOk(oid: OidTable, r: Row, t: RevType, arg: string, now: string)
    requires ArgOk(oid, t, arg) && ',' !in now && r.typ == 'R' && r.rev == Stored(oid, t, arg, now)
    ensures RowOk(oid, r) <==> UtcOk(now) && TimeOk(r.exp) && Serial.WellFormed(r.serial)
  {
    RevocationRoundTrip(oid, t, arg, now);
  }

  lemma {:induction false} RevokedAt(oid: OidTable, db: Db, i: nat, t: RevType, arg: string, now: string)
    requires Inv(db) && i < |db.rows| && ArgOk(oid, t, arg)
    ensures var after := RevokeAt(oid, db, i, t, arg, now).rows;
            |after| == |db.rows| && after[i].typ == 'R' && after[i].rev == Stored(oid, t, arg, now) &&
            KeyOf(after[i]) == KeyOf(db.rows[i]) &&
            forall j :: 0 <= j < |after| && j != i ==> KeyOf(after[j]) != KeyOf(db.rows[i]) && after[j] == db.rows[j]
  {
  }

  lemma {:induction false} CertifyKeeps(oid: OidTable, db: Db, c: Cert, consent: Consent)
    requires Inv(db)
    ensures var (j, after) := Certify(db, c, consent);
            Inv(after) && Follows(db.rows, after.rows) && after.unique == db.unique &&
            after.rows == (if j == 1 then db.rows + [NewRow(c)] else db.rows) &&
            (RowsOk(oid, after.rows) <==> RowsOk(oid, db.rows) && (j == 1 ==> TimeOk(c.notAfter)))
  {
    hide Serial.Text, TimeOk, RowOk;
    NewRowOk(oid, c);
    RowsOkSnoc(oid, db.rows, NewRow(c));
    FollowsSelf(db.rows);
    if !Clashes(db, NewRow(c)) { InsertKeeps(db, NewRow(c)); }
  }

  // ---- What the steps come to, said of the rows alone ----

  /** No row has the certificate's serial and, under unique_subject, its name, which is the serial when the subject is
      empty, is not in the name index. */
  ghost predicate Unclaimed(db: Db, c: Cert) {
    (forall i :: 0 <= i < |db.rows| ==> Serial.Key(db.rows[i].serial) != Serial.Key(Serial.Text(c.serial))) &&
    (db.unique ==> (if c.subject == "" then Serial.Text(c.serial) else c.subject) !in db.names)
  }

  /** The row at i is the certificate's, under its name, and not revoked. */
  ghost predicate Unrevoked(db: Db, c: Cert, i: int) {
    0 <= i < |db.rows| && Serial.Key(db.rows[i].serial) == Serial.Key(Serial.Text(c.serial)) &&
    db.rows[i].name == (if c.subject == "" then Serial.Text(c.serial) else c.subject) && db.rows[i].typ != 'R'
  }

  /** The rows of after are those of db and one more, with the given type and revocation column, for the certificate. */
  ghost predicate Gains(db: Db, after: Db, c: Cert, typ: char, rev: string) {
    after.rows == db.rows + [Row(typ, c.notAfter, rev, Serial.Text(c.serial), "unknown",
                                 if c.subject == "" then Serial.Text(c.serial) else c.subject)]
  }

  /** Issuing: 1 and one new Valid row exactly when signed and unclaimed, 0 exactly when declined and unclaimed, -1 and
      no change otherwise. */
  ghost predicate IssueOutcome(db: Db, c: Cert, consent: Consent, j: int, after: Db) {
    (j == 1 <==> consent == Signed && Unclaimed(db, c)) &&
    (j == 0 <==> consent == Declined && Unclaimed(db, c)) &&
    (j == -1 <==> consent == Unsigned || !Unclaimed(db, c)) &&
    (if j == 1 then Gains(db, after, c, 'V', "") else after == db)
  }

  lemma {:induction false} CertifyExactly(db: Db, c: Cert, consent: Consent)
    ensures IssueOutcome(db, c, consent, Certify(db, c, consent).0, Certify(db, c, consent).1)
  {
    hide Serial.Text, Serial.Key;
    assert KeyOf(NewRow(c)) == Serial.Key(Serial.Text(c.serial));
    assert forall i :: 0 <= i < |db.rows| ==> KeyOf(db.rows[i]) == Serial.Key(db.rows[i].serial);
  }

  /** do_revoke accepts exactly a revocation, with a valid argument, of the certificate's row under its name that is not
      revoked, and an unclaimed certificate, to be added or, with a valid argument, to be added and revoked. What is
      refused leaves the table alone, except that an unclaimed certificate is added before its argument is looked at. */
  ghost predicate RevokeOutcome(oid: OidTable, db: Db, c: Cert, t: RevType, arg: string, now: string, ok: bool,
                                after: Db) {
    (ok <==> ((exists i :: Unrevoked(db, c, i)) && t != RevValid && ArgOk(oid, t, arg)) ||
             (Unclaimed(db, c) && (t == RevValid || ArgOk(oid, t, arg)))) &&
    (Unclaimed(db, c) ==>
       if ok && t != RevValid then Gains(db, after, c, 'R', Stored(oid, t, arg, now))
       else Gains(db, after, c, 'V', "")) &&
    (!Unclaimed(db, c) && !ok ==> after == db) &&
    forall i :: Unrevoked(db, c, i) && ok ==>
      after.rows == db.rows[i := db.rows[i].(typ := 'R', rev := Stored(oid, t, arg, now))]
  }

  lemma {:induction false} RevokeExactly(oid: OidTable, db: Db, c: Cert, t: RevType, arg: string, now: string)
    requires DistinctSerials(db.rows)
    ensures RevokeOutcome(oid, db, c, t, arg, now, Revoke(oid, db, c, t, arg, now).0,
                          Revoke(oid, db, c, t, arg, now).1)
  {
    hide Serial.Text, Serial.Key, Stored, ArgOk, RevokeOutcome;
    if Lookup(db.rows, CertKey(c)) < |db.rows| {
      RevokeThere(oid, db, c, t, arg, now);
    } else {
      RevokeNew(oid, db, c, t, arg, now);
    }
  }

  lemma {:induction false} RevokeThere(oid: OidTable, db: Db, c: Cert, t: RevType, arg: string, now: string)
    requires DistinctSerials(db.rows) && Lookup(db.rows, CertKey(c)) < |db.rows|
    ensures RevokeOutcome(oid, db, c, t, arg, now, Revoke(oid, db, c, t, arg, now).0,
                          Revoke(oid, db, c, t, arg, now).1)
  {
    hide Serial.Text, Serial.Key, Stored, ArgOk;
    var i := Lookup(db.rows, CertKey(c));
    assert KeyOf(db.rows[i]) == CertKey(c) && !Unclaimed(db, c);
    forall k | Unrevoked(db, c, k) ensures k == i {
      assert KeyOf(db.rows[k]) == CertKey(c);
    }
    assert Unrevoked(db, c, i) <==> db.rows[i].name == CertName(c) && db.rows[i].typ != 'R';
  }

  lemma {:induction false} RevokeNew(oid: OidTable, db: Db, c: Cert, t: RevType, arg: string, now: string)
    requires Lookup(db.rows, CertKey(c)) == |db.rows|
    ensures RevokeOutcome(oid, db, c, t, arg, now, Revoke(oid, db, c, t, arg, now).0,
                          Revoke(oid, db, c, t, arg, now).1)
  {
    hide Serial.Text, Serial.Key, Stored, ArgOk;
    forall k ensures !Unrevoked(db, c, k) {
      if 0 <= k < |db.rows| { assert KeyOf(db.rows[k]) != CertKey(c); }
    }
    assert Unclaimed(db, c) <==> !Clashes(db, NewRow(c));
  }

  /** -updatedb, row by row: a Valid row whose expiry is not after now becomes Expired, and nothing else changes. */
  ghost predicate UpdateOutcome(when: Clock, now: int, rows: seq<Row>, after: seq<Row>) {
    |after| == |rows| &&
    forall i :: 0 <= i < |rows| ==>
      after[i] == (if rows[i].typ == 'V' && when(rows[i].exp) <= now then rows[i].(typ := 'E') else rows[i])
  }

  /** The positions of the rows that expire. */
  ghost function Expiring(when: Clock, now: int, rows: seq<Row>): set<int> {
    set i | 0 <= i < |rows| && Due(when, now, rows, i)
  }

  ghost predicate Due(when: Clock, now: int, rows: seq<Row>, i: int) {
    0 <= i < |rows| && rows[i].typ == 'V' && when(rows[i].exp) <= now
  }

  lemma {:induction false} ExpireExactly(when: Clock, now: int, rows: seq<Row>)
    ensures UpdateOutcome(when, now, rows, Expire(when, now, rows))
    ensures Expired(when, now, rows) == |Expiring(when, now, rows)|
  {
    hide Expire, Expired, Expiring;
    forall i | 0 <= i < |rows| ensures Expire(when, now, rows)[i] == ExpireRow(when, now, rows[i]) {
      ExpireAt(when, now, rows, i);
    }
    ExpiredCounts(when, now, rows);
  }

  lemma {:induction false} ExpiredCounts(when: Clock, now: int, rows: seq<Row>)
    ensures Expired(when, now, rows) == |Expiring(when, now, rows)|
  {
    if rows != [] {
      hide Expiring;
      ExpiredCounts(when, now, rows[..|rows| - 1]);
      ExpiringSnoc(when, now, rows[..|rows| - 1], rows[|rows| - 1]);
      assert rows[..|rows| - 1] + [rows[|rows| - 1]] == rows;
    }
  }

  lemma {:induction false} ExpiringSnoc(when: Clock, now: int, rows: seq<Row>, r: Row)
    ensures |Expiring(when, now, rows + [r])| ==
            |Expiring(when, now, rows)| + if r.typ == 'V' && when(r.exp) <= now then 1 else 0
  {
    var all, was, n := Expiring(when, now, rows + [r]), Expiring(when, now, rows), |rows|;
    var one := if r.typ == 'V' && when(r.exp) <= now then {n} else {};
    forall i ensures i in all <==> i in was + one {
      assert Due(when, now, rows + [r], i) <==> Due(when, now, rows, i) || i in one;
    }
    assert all == was + one && n !in was;
  }

  lemma {:induction false} ExpireAt(when: Clock, now: int, rows: seq<Row>, i: nat)
    requires i < |rows|
    ensures Expire(when, now, rows)[i] == ExpireRow(when, now, rows[i])
  {
    if i < |rows| - 1 { ExpireAt(when, now, rows[..|rows| - 1], i); }
  }

  lemma {:induction false} UpdateKeeps(oid: OidTable, when: Clock, now: int, db: Db)
    requires Inv(db) && RowsOk(oid, db.rows)
    ensures Inv(db.(rows := Expire(when, now, db.rows)))
    ensures RowsOk(oid, Expire(when, now, db.rows)) && Follows(db.rows, Expire(when, now, db.rows))
  {
    var rows := Expire(when, now, db.rows);
    forall i | 0 <= i < |rows|
      ensures rows[i] == ExpireRow(when, now, db.rows[i])
      ensures RowOk(oid, rows[i]) && RowFollows(db.rows[i], rows[i]) && KeyOf(rows[i]) == KeyOf(db.rows[i])
    {
      ExpireAt(when, now, db.rows, i);
      assert RowOk(oid, db.rows[i]);
    }
  }

  lemma {:induction false} NoneExpired(when: Clock, now: int, rows: seq<Row>)
    requires Expired(when, now, rows) == 0
    ensures Expire(when, now, rows) == rows
  {
    if rows != [] {
      NoneExpired(when, now, rows[..|rows| - 1]);
      assert rows == rows[..|rows| - 1] + [rows[|rows| - 1]];
    }
  }

  /** Updating at t1 and again at a later t2 is updating once at t2, and the counts add up. */
  lemma {:induction false} UpdateTwice(when: Clock, t1: int, t2: int, rows: seq<Row>)
    requires t1 <= t2
    ensures Expire(when, t2, Expire(when, t1, rows)) == Expire(when, t2, rows)
    ensures Expired(when, t1, rows) + Expired(when, t2, Expire(when, t1, rows)) == Expired(when, t2, rows)
  {
    if rows != [] {
      var init := rows[..|rows| - 1];
      UpdateTwice(when, t1, t2, init);
      var once := Expire(when, t1, rows);
      assert once[..|rows| - 1] == Expire(when, t1, init) && once[|rows| - 1] == ExpireRow(when, t1, rows[|rows| - 1]);
    }
  }
}
