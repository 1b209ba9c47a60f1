/** The two public views of the table: the CRL (apps/ca.c) and OCSP answers (apps/ocsp.c). */
module Views {
  import opened Base
  import opened TimeText
  import opened RevInfo
  import opened CaTable
  import opened Database
  import Serial

  /** What a relying party learns of a revocation: time, reason code (-1 for none), invalidity
      date and hold instruction. */
  datatype Info = Info(time: string, reason: int, inv: Option<string>, hold: Option<int>)

  datatype CrlEntry = CrlEntry(serial: int, info: Info)

  /** What the CRL says of one Revoked row, if the row can be read. */
  function CrlEntryOf(oid: OidTable, row: Row): Option<CrlEntry> {
    var u := Unpack(oid, row.rev);
    if Serial.WellFormed(row.serial) && u.ok then
      Some(CrlEntry(Serial.Value(row.serial), Info(u.time, u.reason, u.inv, u.hold)))
    else None
  }

  type Reader = Row -> Option<CrlEntry>

  /** The entries of the Revoked rows in table order, if all of them can be read. */
  function Listing(rows: seq<Row>, read: Reader): Option<seq<CrlEntry>> {
    if rows == [] then Some([])
    else
      var head, last := Listing(rows[..|rows| - 1], read), rows[|rows| - 1];
      if head == None || last.typ != 'R' then head
      else
        var e := read(last);
        if e == None then None else Some(head.value + [e.value])
  }

  function CrlReader(oid: OidTable): Reader { (row: Row) => CrlEntryOf(oid, row) }

  function CrlOf(oid: OidTable, rows: seq<Row>): Option<seq<CrlEntry>> { Listing(rows, CrlReader(oid)) }

  ghost predicate AnyReason(crl: seq<CrlEntry>) {
    crl != [] && (crl[|crl| - 1].info.reason != -1 || AnyReason(crl[..|crl| - 1]))
  }

  lemma {:induction false} AnyReasonSnoc(crl: seq<CrlEntry>, e: CrlEntry)
    ensures AnyReason(crl + [e]) <==> AnyReason(crl) || e.info.reason != -1
  {
    assert (crl + [e])[..|crl|] == crl;
  }

  /** One unreadable Revoked row is enough for there to be no CRL. */
  lemma {:induction false} UnreadableStops(rows: seq<Row>, read: Reader, i: nat)
    requires i < |rows| && rows[i].typ == 'R' && read(rows[i]) == None
    ensures Listing(rows, read) == None
  {
    if i < |rows| - 1 { UnreadableStops(rows[..|rows| - 1], read, i); }
  }

  /** Without a CRL there is an unreadable Revoked row. */
  lemma {:induction false} StoppedByUnreadable(rows: seq<Row>, read: Reader) returns (i: nat)
    requires Listing(rows, read) == None
    ensures i < |rows| && rows[i].typ == 'R' && read(rows[i]) == None
  {
    i := |rows| - 1;
    if Listing(rows[..i], read) == None { i := StoppedByUnreadable(rows[..i], read); }
  }

  ghost predicate Listed(rows: seq<Row>, read: Reader, i: int, crl: seq<CrlEntry>, v2: bool) {
    0 <= i <= |rows| && Listing(rows[..i], read) == Some(crl) && (v2 <==> AnyReason(crl))
  }

  lemma {:induction false} ListSkip(rows: seq<Row>, read: Reader, i: int, crl: seq<CrlEntry>, v2: bool)
    requires Listed(rows, read, i, crl, v2) && i < |rows| && rows[i].typ != 'R'
    ensures Listed(rows, read, i + 1, crl, v2)
  {
    assert rows[..i + 1][..i] == rows[..i];
  }

  lemma {:induction false} ListNext(rows: seq<Row>, read: Reader, i: int, crl: seq<CrlEntry>, v2: bool, e: CrlEntry)
    requires Listed(rows, read, i, crl, v2) && i < |rows| && rows[i].typ == 'R' && read(rows[i]) == Some(e)
    ensures Listed(rows, read, i + 1, crl + [e], v2 || e.info.reason != -1)
  {
    assert rows[..i + 1][..i] == rows[..i];
    AnyReasonSnoc(crl, e);
  }

  /** The CRL loop (apps/ca.c:1225-1246); it asks for a version 2 CRL (section 5.1.2.1 of RFC 5280)
      exactly when some entry carries a reason. */
  method GenCrl(oid: OidTable, rows: seq<Row>) returns (ok: bool, crl: seq<CrlEntry>, v2: bool)
    ensures CrlRight(oid, rows, ok, crl)
    ensures v2 <==> exists i :: 0 <= i < |crl| && crl[i].info.reason != -1
    ensures CrlOf(oid, rows) == if ok then Some(crl) else None
  {
    hide CrlRight;
    ok, crl, v2 := ListRevoked(oid, rows);
    AnyReasonIs(crl);
    CrlExactly(oid, rows);
  }

  /** The entry of a Revoked row: the number in its serial column and what its revocation column says. */
  ghost predicate EntryOf(oid: OidTable, row: Row, e: CrlEntry) {
    row.typ == 'R' && Serial.WellFormed(row.serial) && Unpack(oid, row.rev).ok &&
    e == CrlEntry(Serial.Value(row.serial), Info(Unpack(oid, row.rev).time, Unpack(oid, row.rev).reason,
                                                 Unpack(oid, row.rev).inv, Unpack(oid, row.rev).hold))
  }

  /** The entries are those of the Revoked rows, all of them, in table order. */
  ghost predicate CrlLists(oid: OidTable, rows: seq<Row>, crl: seq<CrlEntry>, at: seq<nat>) {
    |at| == |crl| && (forall k :: 0 <= k < |at| ==> at[k] < |rows| && EntryOf(oid, rows[at[k]], crl[k])) &&
    (forall j, k :: 0 <= j < k < |at| ==> at[j] < at[k]) &&
    forall i: nat :: i < |rows| && rows[i].typ == 'R' ==> i in at
  }

  /** There is a CRL exactly when every Revoked row can be read, and it lists them. */
  ghost predicate CrlRight(oid: OidTable, rows: seq<Row>, ok: bool, crl: seq<CrlEntry>) {
    (ok <==> forall i :: 0 <= i < |rows| && rows[i].typ == 'R' ==>
               Serial.WellFormed(rows[i].serial) && Unpack(oid, rows[i].rev).ok) &&
    (ok ==> exists at :: CrlLists(oid, rows, crl, at))
  }

  lemma {:induction false} AnyReasonIs(crl: seq<CrlEntry>)
    ensures AnyReason(crl) <==> exists i :: 0 <= i < |crl| && crl[i].info.reason != -1
  {
    if crl != [] {
      var init := crl[..|crl| - 1];
      AnyReasonIs(init);
      assert forall i :: 0 <= i < |init| ==> init[i] == crl[i];
    }
  }

  lemma {:induction false} CrlExactly(oid: OidTable, rows: seq<Row>)
    ensures var c := CrlOf(oid, rows);
            forall crl :: c == Some(crl) ==> CrlRight(oid, rows, true, crl)
    ensures CrlOf(oid, rows) == None ==> forall crl :: CrlRight(oid, rows, false, crl)
  {
    hide Serial.WellFormed, Serial.Value, Unpack;
    var c, read := CrlOf(oid, rows), CrlReader(oid);
    if c == None {
      var i := StoppedByUnreadable(rows, read);
    } else {
      var at := ListingRows(rows, read, c.value);
      forall k | 0 <= k < |at| ensures at[k] < |rows| && EntryOf(oid, rows[at[k]], c.value[k]) {
        assert EntryAt(rows, read, c.value[k], at[k]);
      }
      assert CrlLists(oid, rows, c.value, at);
      forall i | 0 <= i < |rows| && rows[i].typ == 'R'
        ensures Serial.WellFormed(rows[i].serial) && Unpack(oid, rows[i].rev).ok
      {
        ListingHolds(rows, read, i);
      }
    }
  }

  /** The loop over the rows. */
  method ListRevoked(oid: OidTable, rows: seq<Row>) returns (ok: bool, crl: seq<CrlEntry>, v2: bool)
    ensures CrlOf(oid, rows) == if ok then Some(crl) else None
    ensures v2 <==> AnyReason(crl)
  {
    ok, crl, v2 := true, [], false;
    hide CrlEntryOf;
    ghost var read := CrlReader(oid);
    var i := 0;
    while i < |rows|
      invariant Listed(rows, read, i, crl, v2)
    {
      if rows[i].typ == 'R' {
        var r := ReadRevoked(oid, rows[i]);
        if r == None {
          UnreadableStops(rows, read, i);
          return false, crl, v2;
        }
        ListNext(rows, read, i, crl, v2, r.value);
        if r.value.info.reason != -1 { v2 := true; }
        crl := crl + [r.value];
      } else {
        ListSkip(rows, read, i, crl, v2);
      }
      i := i + 1;
    }
    assert rows[..i] == rows;
  }

  /** make_revoked and the serial of one row. */
  method ReadRevoked(oid: OidTable, row: Row) returns (r: Option<CrlEntry>)
    ensures r == CrlReader(oid)(row)
  {
    var ret, revtm, reason, hold, inv := UnpackRevinfo(oid, row.rev);
    if !ret || !Serial.WellFormed(row.serial) { return None; }
    return Some(CrlEntry(Serial.Value(row.serial), Info(revtm, reason, inv, hold)));
  }

  /** A certificate id of a request: digest, issuer hashes and serial. */
  datatype Id = Id(md: int, issuer: int, serial: int)

  datatype Status = Good | Unknown | Revoked(info: Info)

  datatype Response = Malformed | InternalError | Successful(answers: seq<(Id, Status)>)

  /** The responder's foreign parts: known digests, and whether a CA certificate issued an id. */
  datatype Responder = Responder(ca: seq<int>, digest: int -> bool, issued: (int, Id) -> bool)

  predicate KnownIssuer(r: Responder, id: Id) {
    exists k :: 0 <= k < |r.ca| && r.issued(r.ca[k], id)
  }

  /** What is added to the response for one id: nothing, a status, or a failure of the whole response. */
  datatype Answer = Nothing | Give(status: Status) | Broken

  function RowAnswer(oid: OidTable, row: Row): Answer {
    if row.typ == 'V' then Give(Good)
    else if row.typ == 'R' then
      var u := Unpack(oid, row.rev);
      if u.time == "" then Broken
      else Give(Revoked(Info(u.time, u.reason, u.inv, if u.inv == None then u.hold else None)))
    else Nothing
  }

  function AnswerFor(oid: OidTable, rows: seq<Row>, known: bool, serial: int): Answer {
    var i := Lookup(rows, Serial.Key(Serial.Text(serial)));
    if !known || i == |rows| then Give(Unknown) else RowAnswer(oid, rows[i])
  }

  function IdAnswer(oid: OidTable, rows: seq<Row>, r: Responder, id: Id): Answer {
    if !r.digest(id.md) then Broken else AnswerFor(oid, rows, KnownIssuer(r, id), id.serial)
  }

  /** The statuses of the ids, in request order, or None when one of them breaks the response. */
  function Collect(ids: seq<Id>, answer: Id -> Answer): Option<seq<(Id, Status)>> {
    if ids == [] then Some([])
    else
      var front, id := Collect(ids[..|ids| - 1], answer), ids[|ids| - 1];
      if front == None then None
      else match answer(id)
        case Broken => None
        case Nothing => front
        case Give(s) => Some(front.value + [(id, s)])
  }

  function Answerer(oid: OidTable, rows: seq<Row>, r: Responder): Id -> Answer {
    (id: Id) => IdAnswer(oid, rows, r, id)
  }

  function Answers(oid: OidTable, rows: seq<Row>, r: Responder, ids: seq<Id>): Option<seq<(Id, Status)>> {
    Collect(ids, Answerer(oid, rows, r))
  }

  lemma {:induction false} CollectBroken(ids: seq<Id>, answer: Id -> Answer, i: nat)
    requires i <= |ids| && Collect(ids[..i], answer) == None
    ensures Collect(ids, answer) == None
    decreases |ids| - i
  {
    if i < |ids| {
      assert ids[..i + 1][..i] == ids[..i];
      CollectBroken(ids, answer, i + 1);
    } else {
      assert ids[..i] == ids;
    }
  }

  ghost predicate Collected(ids: seq<Id>, answer: Id -> Answer, i: int, bs: seq<(Id, Status)>) {
    0 <= i <= |ids| && Collect(ids[..i], answer) == Some(bs)
  }

  lemma {:induction false} CollectStep(ids: seq<Id>, answer: Id -> Answer, i: int, bs: seq<(Id, Status)>)
    requires Collected(ids, answer, i, bs) && i < |ids|
    ensures match answer(ids[i])
      case Broken => Collect(ids, answer) == None
      case Nothing => Collected(ids, answer, i + 1, bs)
      case Give(s) => Collected(ids, answer, i + 1, bs + [(ids[i], s)])
  {
    assert ids[..i + 1][..i] == ids[..i];
    if answer(ids[i]) == Broken { CollectBroken(ids, answer, i + 1); }
  }

  /** What is collected is, in order, one status for each id, except those that get none. */
  lemma {:induction false} CollectLists(ids: seq<Id>, answer: Id -> Answer, bs: seq<(Id, Status)>)
    returns (at: seq<nat>)
    requires Collect(ids, answer) == Some(bs)
    ensures |at| == |bs| && forall k :: 0 <= k < |at| ==> at[k] < |ids| && ListedAt(ids, answer, bs[k], at[k])
    ensures forall j, k :: 0 <= j < k < |at| ==> at[j] < at[k]
    ensures forall i: nat :: i < |ids| && i !in at ==> answer(ids[i]) == Nothing
  {
    at := [];
    if ids != [] {
      var n := |ids| - 1;
      var front := Collect(ids[..n], answer).value;
      at := CollectLists(ids[..n], answer, front);
      assert forall k :: 0 <= k < |at| ==> ListedAt(ids[..n], answer, front[k], at[k]);
      assert forall k :: 0 <= k < |at| ==> ListedAt(ids, answer, front[k], at[k]);
      if answer(ids[n]).Give? { at := at + [n]; }
      forall i: nat | i < |ids| && i !in at ensures answer(ids[i]) == Nothing {
        if i < n { assert ids[..n][i] == ids[i]; }
      }
    }
  }

  ghost predicate ListedAt(ids: seq<Id>, answer: Id -> Answer, b: (Id, Status), i: nat) {
    i < |ids| && b.0 == ids[i] && answer(ids[i]) == Give(b.1)
  }

  // ---- What a response says, from rows, issuers and ids ----

  /** Row i has the serial n. */
  ghost predicate Carries(rows: seq<Row>, n: int, i: int) {
    0 <= i < |rows| && Serial.Key(rows[i].serial) == Serial.Key(Serial.Text(n))
  }

  /** What the revocation column says. */
  ghost predicate Tells(oid: OidTable, rev: string, info: Info) {
    var u := Unpack(oid, rev);
    u.time != "" && info == Info(u.time, u.reason, u.inv, u.hold)
  }

  /** GOOD exactly when a Valid row of a known issuer has the serial, UNKNOWN exactly when the issuer is unknown or no
      row has it, Revoked with given information exactly when a Revoked row of a known issuer has it and tells that. */
  ghost predicate Deserves(oid: OidTable, rows: seq<Row>, known: bool, n: int, s: Status) {
    (s == Good <==> known && exists i :: Carries(rows, n, i) && rows[i].typ == 'V') &&
    (s == Unknown <==> !known || forall i :: !Carries(rows, n, i)) &&
    forall info :: s == Revoked(info) <==>
                   known && exists i :: Carries(rows, n, i) && rows[i].typ == 'R' && Tells(oid, rows[i].rev, info)
  }

  /** A known issuer's id whose row is neither Valid nor Revoked. */
  ghost predicate Unanswered(rows: seq<Row>, known: bool, n: int) {
    known && exists i :: Carries(rows, n, i) && rows[i].typ !in {'V', 'R'}
  }

  /** A known issuer's id whose row is Revoked at a time that cannot be read. */
  ghost predicate Unreadable(rows: seq<Row>, known: bool, n: int) {
    known && exists i :: Carries(rows, n, i) && rows[i].typ == 'R' && !UtcOk(rows[i].rev[..Find(rows[i].rev, ',')])
  }

  lemma {:induction false} RowAnswers(oid: OidTable, row: Row)
    ensures RowAnswer(oid, row) == Give(Good) <==> row.typ == 'V'
    ensures RowAnswer(oid, row) != Give(Unknown)
    ensures forall info :: RowAnswer(oid, row) == Give(Revoked(info)) <==> row.typ == 'R' && Tells(oid, row.rev, info)
    ensures RowAnswer(oid, row) == Nothing <==> row.typ !in {'V', 'R'}
    ensures RowAnswer(oid, row) == Broken <==> row.typ == 'R' && !UtcOk(row.rev[..Find(row.rev, ',')])
  {
    hide Unpack, UtcOk, Find;
    UnpackShape(oid, row.rev);
  }

  /** The answer for a serial, from the rows. */
  lemma {:induction false} AnswersByRow(oid: OidTable, rows: seq<Row>, known: bool, n: int)
    requires DistinctSerials(rows)
    ensures var a := AnswerFor(oid, rows, known, n);
            (a.Give? ==> Deserves(oid, rows, known, n, a.status)) &&
            (a == Nothing <==> Unanswered(rows, known, n)) && (a == Broken <==> Unreadable(rows, known, n))
  {
    hide Serial.Key, Serial.Text, RowAnswer, Tells, UtcOk, Find;
    var i := Lookup(rows, Serial.Key(Serial.Text(n)));
    if i < |rows| {
      assert KeyOf(rows[i]) == Serial.Key(rows[i].serial) && Carries(rows, n, i);
      forall k | Carries(rows, n, k) ensures k == i {
        assert KeyOf(rows[k]) == Serial.Key(rows[k].serial);
        LookupIs(rows, k);
      }
      RowAnswers(oid, rows[i]);
    } else {
      forall k ensures !Carries(rows, n, k) {
        if 0 <= k < |rows| { assert KeyOf(rows[k]) == Serial.Key(rows[k].serial); }
      }
    }
  }

  /** The answers are, in request order, those of all ids but the unanswered ones, each with the status it deserves. */
  ghost predicate Lists(oid: OidTable, rows: seq<Row>, r: Responder, ids: seq<Id>, bs: seq<(Id, Status)>,
                        at: seq<nat>) {
    |at| == |bs| &&
    (forall k :: 0 <= k < |at| ==>
       at[k] < |ids| && bs[k].0 == ids[at[k]] &&
       Deserves(oid, rows, KnownIssuer(r, bs[k].0), bs[k].0.serial, bs[k].1)) &&
    (forall j, k :: 0 <= j < k < |at| ==> at[j] < at[k]) &&
    forall i: nat :: i < |ids| ==> (i !in at <==> Unanswered(rows, KnownIssuer(r, ids[i]), ids[i].serial))
  }

  lemma {:induction false} CollectSome(ids: seq<Id>, answer: Id -> Answer)
    ensures Collect(ids, answer).Some? <==> forall i :: 0 <= i < |ids| ==> answer(ids[i]) != Broken
  {
    if ids != [] {
      var init := ids[..|ids| - 1];
      CollectSome(init, answer);
      assert forall i :: 0 <= i < |init| ==> init[i] == ids[i];
    }
  }

  /** Every successful response lists, in request order, one status for each id, and the ids it leaves out are exactly
      those of a known issuer whose row is neither Valid nor Revoked. */
  lemma {:induction false} ResponseLists(oid: OidTable, rows: seq<Row>, r: Responder, ids: seq<Id>,
                                         bs: seq<(Id, Status)>)
    returns (at: seq<nat>)
    requires DistinctSerials(rows) && Answers(oid, rows, r, ids) == Some(bs)
    ensures Lists(oid, rows, r, ids, bs, at)
  {
    hide Deserves, Unanswered, AnswerFor, KnownIssuer, Collect;
    var answer := Answerer(oid, rows, r);
    CollectSome(ids, answer);
    at := CollectLists(ids, answer, bs);
    forall i: nat | i < |ids| ensures i !in at <==> Unanswered(rows, KnownIssuer(r, ids[i]), ids[i].serial) {
      assert answer(ids[i]) != Broken;
      AnswersByRow(oid, rows, KnownIssuer(r, ids[i]), ids[i].serial);
      if i in at {
        var k :| 0 <= k < |at| && at[k] == i;
        assert ListedAt(ids, answer, bs[k], at[k]);
      }
    }
    forall k | 0 <= k < |at|
      ensures bs[k].0 == ids[at[k]] && Deserves(oid, rows, KnownIssuer(r, bs[k].0), bs[k].0.serial, bs[k].1)
    {
      assert ListedAt(ids, answer, bs[k], at[k]);
      assert answer(ids[at[k]]) != Broken;
      AnswersByRow(oid, rows, KnownIssuer(r, bs[k].0), bs[k].0.serial);
    }
  }

  /** MALFORMED exactly without ids; successful exactly when every id's digest is known and none falls on a Revoked row
      whose time cannot be read; and then every id gets the status it deserves. */
  ghost predicate Responds(oid: OidTable, rows: seq<Row>, r: Responder, ids: seq<Id>, resp: Response) {
    (resp == Malformed <==> ids == []) &&
    (resp.Successful? <==>
       ids != [] &&
       forall i :: 0 <= i < |ids| ==>
         r.digest(ids[i].md) && !Unreadable(rows, KnownIssuer(r, ids[i]), ids[i].serial)) &&
    (resp.Successful? ==> exists at :: Lists(oid, rows, r, ids, resp.answers, at))
  }

  lemma {:induction false} ResponseExactly(oid: OidTable, rows: seq<Row>, r: Responder, ids: seq<Id>)
    requires DistinctSerials(rows) && ids != []
    ensures var a := Answers(oid, rows, r, ids);
            Responds(oid, rows, r, ids, if a == None then InternalError else Successful(a.value))
  {
    hide Unreadable, AnswerFor, KnownIssuer, Collect, Lists;
    var answer := Answerer(oid, rows, r);
    CollectSome(ids, answer);
    forall i | 0 <= i < |ids|
      ensures answer(ids[i]) != Broken <==>
              r.digest(ids[i].md) && !Unreadable(rows, KnownIssuer(r, ids[i]), ids[i].serial)
    {
      AnswersByRow(oid, rows, KnownIssuer(r, ids[i]), ids[i].serial);
    }
    if Answers(oid, rows, r, ids).Some? {
      var at := ResponseLists(oid, rows, r, ids, Answers(oid, rows, r, ids).value);
    }
  }

  /** lookup_serial and the status decision (apps/ocsp.c:1144-1191, 1231-1252). */
  method DecideStatus(oid: OidTable, db: CaDb, found: bool, serial: int) returns (a: Answer)
    requires db.Valid()
    ensures a.Give? ==> Deserves(oid, db.rows, found, serial, a.status)
    ensures a == Nothing <==> Unanswered(db.rows, found, serial)
    ensures a == Broken <==> Unreadable(db.rows, found, serial)
    ensures a == AnswerFor(oid, db.rows, found, serial)
  {
    hide Deserves, Unanswered, Unreadable;
    db.ValidIsInv();
    AnswersByRow(oid, db.rows, found, serial);
    var i := db.GetBySerial(Serial.Text(serial));
    if !found || i == |db.rows| { return Give(Unknown); }
    var inf := db.rows[i];
    if inf.typ == 'V' { return Give(Good); }
    if inf.typ != 'R' { return Nothing; }
    var _, revtm, reason, inst, inv := UnpackRevinfo(oid, inf.rev);
    if revtm == "" { return Broken; }
    if inv.Some? { return Give(Revoked(Info(revtm, reason, inv, None))); }
    return Give(Revoked(Info(revtm, reason, None, inst)));
  }

  /** make_ocsp_response with a request already parsed (apps/ocsp.c:1074-1192). */
  method MakeOcspResponse(oid: OidTable, db: CaDb, r: Responder, ids: seq<Id>) returns (resp: Response)
    requires db.Valid()
    ensures Responds(oid, db.rows, r, ids, resp)
    ensures ids == [] ==> resp == Malformed
    ensures ids != [] ==>
              var a := Answers(oid, db.rows, r, ids);
              resp == if a == None then InternalError else Successful(a.value)
  {
    if |ids| <= 0 { return Malformed; }
    hide Responds;
    db.ValidIsInv();
    ResponseExactly(oid, db.rows, r, ids);
    var bs := AnswerAll(oid, db, r, ids);
    return if bs == None then InternalError else Successful(bs.value);
  }

  method AnswerAll(oid: OidTable, db: CaDb, r: Responder, ids: seq<Id>) returns (all: Option<seq<(Id, Status)>>)
    requires db.Valid()
    ensures all == Collect(ids, Answerer(oid, db.rows, r))
  {
    hide IdAnswer;
    ghost var answer := Answerer(oid, db.rows, r);
    var bs: seq<(Id, Status)> := [];
    var i := 0;
    while i < |ids|
      invariant Collected(ids, answer, i, bs)
    {
      var a := AnswerOne(oid, db, r, ids[i]);
      CollectStep(ids, answer, i, bs);
      match a {
        case Nothing =>
        case Give(s) => bs := bs + [(ids[i], s)];
        case Broken => return None;
      }
      i := i + 1;
    }
    assert ids[..i] == ids;
    return Some(bs);
  }

  /** One turn of the loop over the ids (apps/ocsp.c:1106-1192). */
  method AnswerOne(oid: OidTable, db: CaDb, r: Responder, cid: Id) returns (a: Answer)
    requires db.Valid()
    ensures a == Answerer(oid, db.rows, r)(cid)
  {
    if !r.digest(cid.md) { return Broken; }
    var found := FindIssuer(r, cid);
    a := DecideStatus(oid, db, found, cid.serial);
  }

  /** The issuer loop (apps/ocsp.c:1127-1143). */
  method FindIssuer(r: Responder, cid: Id) returns (found: bool)
    ensures found <==> KnownIssuer(r, cid)
  {
    found := false;
    var jj := 0;
    while jj < |r.ca| && !found
      invariant 0 <= jj <= |r.ca|
      invariant found <==> exists k :: 0 <= k < jj && r.issued(r.ca[k], cid)
    {
      found := r.issued(r.ca[jj], cid);
      jj := jj + 1;
    }
  }

  // ---- Agreement of the two views ----

  /** A table that has passed the load check has a CRL. */
  lemma {:induction false} LoadedListable(oid: OidTable, rows: seq<Row>)
    requires RowsOk(oid, rows)
    ensures CrlOf(oid, rows).Some?
  {
    if rows != [] {
      assert RowOk(oid, rows[|rows| - 1]);
      LoadedListable(oid, rows[..|rows| - 1]);
    }
  }

  /** Every entry of the CRL is that of a Revoked row. */
  lemma {:induction false} ListingSource(rows: seq<Row>, read: Reader, e: CrlEntry) returns (i: nat)
    requires Listing(rows, read).Some? && e in Listing(rows, read).value
    ensures i < |rows| && rows[i].typ == 'R' && read(rows[i]) == Some(e)
  {
    i := |rows| - 1;
    if rows[i].typ != 'R' || read(rows[i]) != Some(e) { i := ListingSource(rows[..i], read, e); }
  }

  /** The entries are those of the Revoked rows, in order, each once. */
  lemma {:induction false} ListingRows(rows: seq<Row>, read: Reader, crl: seq<CrlEntry>) returns (at: seq<nat>)
    requires Listing(rows, read) == Some(crl)
    ensures |at| == |crl| && (forall k :: 0 <= k < |at| ==> EntryAt(rows, read, crl[k], at[k]))
    ensures forall j, k :: 0 <= j < k < |at| ==> at[j] < at[k]
    ensures forall i: nat :: i < |rows| && rows[i].typ == 'R' ==> i in at
  {
    at := [];
    if rows != [] {
      var n := |rows| - 1;
      var head := Listing(rows[..n], read).value;
      at := ListingRows(rows[..n], read, head);
      assert forall k :: 0 <= k < |at| ==> EntryAt(rows[..n], read, head[k], at[k]);
      assert forall k :: 0 <= k < |at| ==> EntryAt(rows, read, head[k], at[k]);
      if rows[n].typ == 'R' { at := at + [n]; }
      forall i: nat | i < |rows| && rows[i].typ == 'R' ensures i in at {
        if i < n { assert rows[..n][i] == rows[i]; }
      }
    }
  }

  ghost predicate EntryAt(rows: seq<Row>, read: Reader, e: CrlEntry, i: nat) {
    i < |rows| && rows[i].typ == 'R' && read(rows[i]) == Some(e)
  }

  /** Every Revoked row is in the CRL. */
  lemma {:induction false} ListingHolds(rows: seq<Row>, read: Reader, i: nat)
    requires Listing(rows, read).Some? && i < |rows| && rows[i].typ == 'R'
    ensures read(rows[i]).Some? && read(rows[i]).value in Listing(rows, read).value
  {
    if i < |rows| - 1 { ListingHolds(rows[..|rows| - 1], read, i); }
  }
}
