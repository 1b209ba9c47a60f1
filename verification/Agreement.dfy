/** Where the two public views of the table, the CRL and OCSP, say the same. */
module Agreement {
  import opened Base
  import opened RevInfo
  import opened CaTable
  import opened Views
  import Serial
  import TimeText

  lemma {:induction false} SameInfo(oid: OidTable, r: Row)
    requires r.typ == 'R' && CrlEntryOf(oid, r).Some?
    ensures RowAnswer(oid, r) == Give(Revoked(CrlEntryOf(oid, r).value.info))
    ensures Serial.WellFormed(r.serial) && CrlEntryOf(oid, r).value.serial == Serial.Value(r.serial)
  {
    hide Unpack;
    UnpackShape(oid, r.rev);
  }

  /** A Revoked row that OCSP can reach and that says e. */
  ghost predicate Says(oid: OidTable, rows: seq<Row>, e: CrlEntry, j: nat) {
    j < |rows| && rows[j].typ == 'R' && Serial.Plain(rows[j].serial) && CrlEntryOf(oid, rows[j]) == Some(e)
  }

  /** The row OCSP finds for a number stands for that number and has a plain serial. */
  lemma {:induction false} FoundIsPlain(rows: seq<Row>, n: int, i: nat)
    requires i < |rows| && i == Lookup(rows, Serial.Key(Serial.Text(n))) && Serial.WellFormed(rows[i].serial)
    ensures Serial.Value(rows[i].serial) == n && Serial.Plain(rows[i].serial)
  {
    Serial.KeyDetermines(rows[i].serial, n);
    Serial.PlainExactly(rows[i].serial);
  }

  /** OCSP reaches a row under the number the CRL lists for it exactly when its serial column is plain: no lower-case
      digit, and no zero octet behind a sign. */
  lemma {:induction false} FoundExactlyWhenPlain(rows: seq<Row>, i: nat)
    requires DistinctSerials(rows) && i < |rows| && Serial.WellFormed(rows[i].serial)
    ensures Lookup(rows, Serial.Key(Serial.Text(Serial.Value(rows[i].serial)))) == i <==> Serial.Plain(rows[i].serial)
  {
    LookupIs(rows, i);
    Serial.PlainExactly(rows[i].serial);
  }

  /** OCSP answers Revoked for a number with given information exactly when a Revoked row with plain serial says so. */
  lemma {:induction false} OcspSays(oid: OidTable, rows: seq<Row>, n: int, info: Info)
    requires RowsOk(oid, rows) && DistinctSerials(rows)
    ensures AnswerFor(oid, rows, true, n) == Give(Revoked(info)) <==> exists j :: Says(oid, rows, CrlEntry(n, info), j)
  {
    if AnswerFor(oid, rows, true, n) == Give(Revoked(info)) {
      AnswerHasRow(oid, rows, n, info);
    }
    if j: nat :| Says(oid, rows, CrlEntry(n, info), j) {
      FoundExactlyWhenPlain(rows, j);
      SameInfo(oid, rows[j]);
    }
  }

  lemma {:induction false} AnswerHasRow(oid: OidTable, rows: seq<Row>, n: int, info: Info)
    requires RowsOk(oid, rows) && AnswerFor(oid, rows, true, n) == Give(Revoked(info))
    ensures Says(oid, rows, CrlEntry(n, info), Lookup(rows, Serial.Key(Serial.Text(n))))
  {
    var i := Lookup(rows, Serial.Key(Serial.Text(n)));
    assert RowOk(oid, rows[i]);
    FoundIsPlain(rows, n, i);
    SameInfo(oid, rows[i]);
  }

  /** On every table that loads: what OCSP calls Revoked, the CRL lists with the same information. */
  lemma {:induction false} OcspThenCrl(oid: OidTable, rows: seq<Row>, n: int, info: Info)
    requires RowsOk(oid, rows) && AnswerFor(oid, rows, true, n) == Give(Revoked(info))
    ensures CrlOf(oid, rows).Some? && CrlEntry(n, info) in CrlOf(oid, rows).value
  {
    LoadedListable(oid, rows);
    AnswerHasRow(oid, rows, n, info);
    ListingHolds(rows, CrlReader(oid), Lookup(rows, Serial.Key(Serial.Text(n))));
  }

  /** For an id of a known issuer, the two views say the same of a number and its information. */
  ghost predicate Agree(oid: OidTable, rows: seq<Row>, n: int, info: Info)
    requires CrlOf(oid, rows).Some?
  {
    AnswerFor(oid, rows, true, n) == Give(Revoked(info)) <==> CrlEntry(n, info) in CrlOf(oid, rows).value
  }

  /** Row i, if Revoked, is plain or has a plain Revoked row beside it with the same number and information. */
  ghost predicate Reached(oid: OidTable, rows: seq<Row>, i: nat)
    requires i < |rows|
  {
    rows[i].typ == 'R' && CrlEntryOf(oid, rows[i]).Some? ==>
      exists j :: Says(oid, rows, CrlEntryOf(oid, rows[i]).value, j)
  }

  /** On a table that loads, OCSP answers Revoked with some time, reason and extension exactly where the CRL lists the
      serial with the same time, reason and extension, for all numbers, if and only if every Revoked row is reached. */
  lemma {:induction false} CrlOcspAgreeExactly(oid: OidTable, rows: seq<Row>)
    requires RowsOk(oid, rows) && DistinctSerials(rows)
    ensures CrlOf(oid, rows).Some?
    ensures (forall n, info :: Agree(oid, rows, n, info)) <==> forall i: nat :: i < |rows| ==> Reached(oid, rows, i)
  {
    LoadedListable(oid, rows);
    if forall n, info :: Agree(oid, rows, n, info) {
      forall i: nat | i < |rows| ensures Reached(oid, rows, i) {
        if rows[i].typ == 'R' { AgreeReaches(oid, rows, i); }
      }
    }
    if forall i: nat :: i < |rows| ==> Reached(oid, rows, i) {
      forall n, info ensures Agree(oid, rows, n, info) { ReachedAgrees(oid, rows, n, info); }
    }
  }

  lemma {:induction false} AgreeReaches(oid: OidTable, rows: seq<Row>, i: nat)
    requires RowsOk(oid, rows) && DistinctSerials(rows) && CrlOf(oid, rows).Some? && i < |rows| && rows[i].typ == 'R'
    requires forall n, info :: Agree(oid, rows, n, info)
    ensures Reached(oid, rows, i)
  {
    ListingHolds(rows, CrlReader(oid), i);
    var e := CrlEntryOf(oid, rows[i]).value;
    assert Agree(oid, rows, e.serial, e.info);
    OcspSays(oid, rows, e.serial, e.info);
  }

  lemma {:induction false} ReachedAgrees(oid: OidTable, rows: seq<Row>, n: int, info: Info)
    requires RowsOk(oid, rows) && DistinctSerials(rows) && CrlOf(oid, rows).Some?
    requires forall i: nat :: i < |rows| ==> Reached(oid, rows, i)
    ensures Agree(oid, rows, n, info)
  {
    var e := CrlEntry(n, info);
    OcspSays(oid, rows, n, info);
    if AnswerFor(oid, rows, true, n) == Give(Revoked(info)) {
      OcspThenCrl(oid, rows, n, info);
    }
    if e in CrlOf(oid, rows).value {
      var i := ListingSource(rows, CrlReader(oid), e);
      assert Reached(oid, rows, i);
    }
  }

  /** Every serial column is plain; everything the program itself writes is. */
  ghost predicate Canonical(rows: seq<Row>) {
    forall i :: 0 <= i < |rows| ==> Serial.Plain(rows[i].serial)
  }

  /** With plain serials the two views agree. */
  lemma {:induction false} CrlOcspAgree(oid: OidTable, rows: seq<Row>, n: int, info: Info)
    requires RowsOk(oid, rows) && DistinctSerials(rows) && Canonical(rows)
    ensures CrlOf(oid, rows).Some? && Agree(oid, rows, n, info)
  {
    LoadedListable(oid, rows);
    forall i: nat | i < |rows| ensures Reached(oid, rows, i) {
      if rows[i].typ == 'R' && CrlEntryOf(oid, rows[i]).Some? {
        assert Says(oid, rows, CrlEntryOf(oid, rows[i]).value, i);
      }
    }
    ReachedAgrees(oid, rows, n, info);
  }

  /** What a revocation asks the world to be told. */
  function Requested(oid: OidTable, t: RevType, arg: string, now: string): Info
    requires ArgOk(oid, t, arg)
  {
    Info(now, Rfc5280Reason(oid, t, arg), if t == KeyCompromise || t == CaCompromise then Some(arg) else None,
         if t == Hold then oid(arg) else None)
  }

  /** From request to relying party: after an accepted revocation, OCSP answers Revoked for the certificate's
      serial with exactly the time, reason code and extension that were requested. */
  lemma {:induction false} RevocationIsPublished(oid: OidTable, db: Db, c: Cert, t: RevType, arg: string, now: string)
    requires Inv(db) && t != RevValid && Revoke(oid, db, c, t, arg, now).0
    requires TimeText.UtcOk(now)
    ensures ArgOk(oid, t, arg)
    ensures AnswerFor(oid, Revoke(oid, db, c, t, arg, now).1.rows, true, c.serial) ==
            Give(Revoked(Requested(oid, t, arg, now)))
  {
    TimeText.UtcNoComma(now);
    RevokeExactlyOne(oid, db, c, t, arg, now);
    var after, i := Revoke(oid, db, c, t, arg, now).1.rows, Lookup(db.rows, CertKey(c));
    assert KeyOf(after[i]) == CertKey(c);
    RowPublished(oid, after[i], t, arg, now);
    assert Lookup(after, CertKey(c)) == i;
  }

  /** The same from the outcome alone. */
  lemma {:induction false} OutcomePublished(oid: OidTable, db: Db, c: Cert, t: RevType, arg: string, now: string,
                                            after: Db)
    requires DistinctSerials(db.rows) && t != RevValid && TimeText.UtcOk(now)
    requires RevokeOutcome(oid, db, c, t, arg, now, true, after)
    ensures ArgOk(oid, t, arg)
    ensures AnswerFor(oid, after.rows, true, c.serial) == Give(Revoked(Requested(oid, t, arg, now)))
  {
    hide Serial.Key, Serial.Text, Stored, ArgOk, RowAnswer;
    TimeText.UtcNoComma(now);
    var rows, key := after.rows, Serial.Key(Serial.Text(c.serial));
    var i: nat := if Unclaimed(db, c) then |db.rows| else (var k :| Unrevoked(db, c, k); k);
    assert i < |rows| && rows[i].typ == 'R' && rows[i].rev == Stored(oid, t, arg, now) && KeyOf(rows[i]) == key;
    forall k | 0 <= k < i ensures KeyOf(rows[k]) != key {
      assert rows[k] == db.rows[k] && KeyOf(db.rows[k]) == Serial.Key(db.rows[k].serial);
      if i < |db.rows| { assert KeyOf(db.rows[i]) == key; }
    }
    assert Lookup(rows, key) == i;
    RowPublished(oid, rows[i], t, arg, now);
  }

  lemma {:induction false} RowPublished(oid: OidTable, row: Row, t: RevType, arg: string, now: string)
    requires ArgOk(oid, t, arg) && TimeText.UtcOk(now) && ',' !in now
    requires row.typ == 'R' && row.rev == Stored(oid, t, arg, now)
    ensures RowAnswer(oid, row) == Give(Revoked(Requested(oid, t, arg, now)))
  {
    RevocationRoundTrip(oid, t, arg, now);
  }

  ghost predicate NoneTwice(crl: seq<CrlEntry>) {
    forall a, b :: 0 <= a < b < |crl| ==> crl[a].serial != crl[b].serial
  }

  /** Two Revoked rows never agree in upper case, without leading zeros and without the sign of a zero. */
  ghost predicate RevokedApart(rows: seq<Row>) {
    forall i, j :: 0 <= i < j < |rows| && rows[i].typ == 'R' && rows[j].typ == 'R' ==>
      Serial.Norm(rows[i].serial) != Serial.Norm(rows[j].serial)
  }

  /** On any table with a CRL, and so on every table that loads, no serial is listed twice exactly when no two Revoked
      rows have columns for one number. */
  lemma {:induction false} CrlOnePerSerialExactly(oid: OidTable, rows: seq<Row>, crl: seq<CrlEntry>)
    requires CrlOf(oid, rows) == Some(crl)
    ensures NoneTwice(crl) <==> RevokedApart(rows)
  {
    hide CrlEntryOf;
    var read := CrlReader(oid);
    var at := ListingRows(rows, read, crl);
    forall a, b | 0 <= a < b < |crl|
      ensures crl[a].serial == crl[b].serial <==> Serial.Norm(rows[at[a]].serial) == Serial.Norm(rows[at[b]].serial)
    {
      assert EntryAt(rows, read, crl[a], at[a]) && EntryAt(rows, read, crl[b], at[b]);
      EntriesSame(oid, rows[at[a]], rows[at[b]], crl[a], crl[b]);
    }
    if NoneTwice(crl) {
      forall i, j | 0 <= i < j < |rows| && rows[i].typ == 'R' && rows[j].typ == 'R'
        ensures Serial.Norm(rows[i].serial) != Serial.Norm(rows[j].serial)
      {
        var a :| 0 <= a < |at| && at[a] == i;
        var b :| 0 <= b < |at| && at[b] == j;
        assert a < b;
      }
    }
    if RevokedApart(rows) {
      forall a, b | 0 <= a < b < |crl| ensures crl[a].serial != crl[b].serial {
        assert EntryAt(rows, read, crl[a], at[a]) && EntryAt(rows, read, crl[b], at[b]);
      }
    }
  }

  lemma {:induction false} EntriesSame(oid: OidTable, r: Row, q: Row, a: CrlEntry, b: CrlEntry)
    requires CrlEntryOf(oid, r) == Some(a) && CrlEntryOf(oid, q) == Some(b)
    ensures a.serial == b.serial <==> Serial.Norm(r.serial) == Serial.Norm(q.serial)
  {
    Serial.SameNumberExactly(r.serial, q.serial);
  }

  /** With plain and distinct serials that is so. */
  lemma {:induction false} CrlOnePerSerial(oid: OidTable, rows: seq<Row>, crl: seq<CrlEntry>)
    requires DistinctSerials(rows) && Canonical(rows) && CrlOf(oid, rows) == Some(crl)
    ensures NoneTwice(crl)
  {
    hide CrlEntryOf;
    forall i, j | 0 <= i < j < |rows| && rows[i].typ == 'R' && rows[j].typ == 'R'
      ensures Serial.Norm(rows[i].serial) != Serial.Norm(rows[j].serial)
    {
      ListedWellFormed(oid, rows, crl, i);
      ListedWellFormed(oid, rows, crl, j);
      assert KeyOf(rows[i]) != KeyOf(rows[j]);
      PlainDiffer(rows[i].serial, rows[j].serial);
      Serial.SameNumberExactly(rows[i].serial, rows[j].serial);
    }
    CrlOnePerSerialExactly(oid, rows, crl);
  }

  lemma {:induction false} ListedWellFormed(oid: OidTable, rows: seq<Row>, crl: seq<CrlEntry>, i: nat)
    requires CrlOf(oid, rows) == Some(crl) && i < |rows| && rows[i].typ == 'R'
    ensures Serial.WellFormed(rows[i].serial)
  {
    ListingHolds(rows, CrlReader(oid), i);
  }

  lemma {:induction false} PlainDiffer(s: string, t: string)
    requires Serial.WellFormed(s) && Serial.WellFormed(t) && Serial.Plain(s) && Serial.Plain(t)
    requires Serial.Key(s) != Serial.Key(t)
    ensures Serial.Value(s) != Serial.Value(t)
  {
    Serial.PlainExactly(s);
    Serial.PlainExactly(t);
  }

  // ---- Columns that are not plain ----

  /** The row of a certificate revoked at tm without a reason, under a given serial column. */
  function RevokedRow(serial: string, tm: TimeText.Tm): Row {
    var t := TimeText.Format(tm);
    Row('R', t, t, serial, "unknown", "/CN=a")
  }

  lemma {:induction false} RevokedRowReads(oid: OidTable, serial: string, tm: TimeText.Tm)
    requires TimeText.ValidTm(tm) && TimeText.IsUtc(tm.year) && Serial.WellFormed(serial)
    ensures var row, t := RevokedRow(serial, tm), TimeText.Format(tm);
            RowOk(oid, row) && CrlEntryOf(oid, row) == Some(CrlEntry(Serial.Value(serial), Info(t, -1, None, None)))
  {
    var t := TimeText.Format(tm);
    TimeText.FormatAccepted(tm);
    RevocationRoundTrip(oid, RevNone, "", t);
    assert Stored(oid, RevNone, "", t) == t;
  }

  /** A lower-case serial passes the load check and is not plain: the CRL lists the certificate, and OCSP calls it
      unknown. */
  lemma {:induction false} LowerCaseSerialDisagrees(oid: OidTable, tm: TimeText.Tm)
    requires TimeText.ValidTm(tm) && TimeText.IsUtc(tm.year)
    ensures var row := RevokedRow("0a", tm);
            Loadable(oid, [row], true) && CrlEntryOf(oid, row).Some? && CrlEntryOf(oid, row).value.serial == 10 &&
            AnswerFor(oid, [row], true, 10) == Give(Unknown)
  {
    LowerCase();
    RevokedRowReads(oid, "0a", tm);
  }

  /** So does a negative zero. */
  lemma {:induction false} NegativeZeroDisagrees(oid: OidTable, tm: TimeText.Tm)
    requires TimeText.ValidTm(tm) && TimeText.IsUtc(tm.year)
    ensures var row := RevokedRow("-00", tm);
            Loadable(oid, [row], true) && CrlEntryOf(oid, row).Some? && CrlEntryOf(oid, row).value.serial == 0 &&
            AnswerFor(oid, [row], true, 0) == Give(Unknown)
  {
    NegativeZero();
    RevokedRowReads(oid, "-00", tm);
  }

  /** Beside a Valid row with the upper-case serial, the CRL lists number 10 and OCSP answers GOOD for it. */
  lemma {:induction false} RevokedAnsweredGood(oid: OidTable, tm: TimeText.Tm)
    requires TimeText.ValidTm(tm) && TimeText.IsUtc(tm.year)
    ensures var revoked, valid := RevokedRow("0a", tm), Row('V', TimeText.Format(tm), "", "0A", "unknown", "/CN=a");
            Loadable(oid, [revoked, valid], true) &&
            CrlEntryOf(oid, revoked).Some? && CrlEntryOf(oid, revoked).value.serial == 10 &&
            AnswerFor(oid, [revoked, valid], true, 10) == Give(Good)
  {
    LowerCase();
    RevokedRowReads(oid, "0a", tm);
    TimeText.FormatAccepted(tm);
    var rows := [RevokedRow("0a", tm), Row('V', TimeText.Format(tm), "", "0A", "unknown", "/CN=a")];
    assert Serial.Text(10) == "0A" by { Serial.OneOctet(10); }
    assert rows[1..][0] == rows[1];
    assert Lookup(rows[1..], "A") == 0;
    assert RowOk(oid, rows[1]) by { Serial.TextRoundTrip(10); }
  }

  /** Beside a Revoked row with the upper-case serial, the CRL lists number 10 twice. */
  lemma {:induction false} ListedTwice(oid: OidTable, tm: TimeText.Tm)
    requires TimeText.ValidTm(tm) && TimeText.IsUtc(tm.year)
    ensures var rows := [RevokedRow("0a", tm), RevokedRow("0A", tm)];
            var e := CrlEntry(10, Info(TimeText.Format(tm), -1, None, None));
            Loadable(oid, rows, true) && CrlOf(oid, rows) == Some([e, e])
  {
    hide Serial.WellFormed, Serial.Value, Serial.Key, RowOk, CrlEntryOf;
    LowerCase();
    UpperCase();
    var lower, upper := RevokedRow("0a", tm), RevokedRow("0A", tm);
    RevokedRowReads(oid, "0a", tm);
    RevokedRowReads(oid, "0A", tm);
    TwoListed(lower, upper, CrlReader(oid));
    TwoLoad(oid, lower, upper);
  }

  lemma {:induction false} TwoLoad(oid: OidTable, a: Row, b: Row)
    requires RowOk(oid, a) && RowOk(oid, b) && a.typ == 'R' && KeyOf(a) != KeyOf(b)
    ensures Loadable(oid, [a, b], true)
  {
    hide RowOk;
    var rows := [a, b];
    assert forall i :: 0 <= i < 2 ==> rows[i] == a || rows[i] == b;
  }

  lemma {:induction false} UpperCase()
    ensures Serial.WellFormed("0A") && Serial.Value("0A") == 10
  {
    hide Serial.WellFormed, Serial.Value;
    Serial.OneOctet(10);
    assert Serial.Text(10) == ['0', 'A'] == "0A";
    Serial.TextRoundTrip(10);
  }

  lemma {:induction false} TwoListed(a: Row, b: Row, read: Reader)
    requires a.typ == 'R' && b.typ == 'R' && read(a).Some? && read(b).Some?
    ensures Listing([a, b], read) == Some([read(a).value, read(b).value])
  {
    assert [a, b][..1] == [a] && [a][..0] == [];
    assert Listing([], read) == Some([]);
    assert Listing([a], read) == Some([] + [read(a).value]);
    assert [] + [read(a).value] == [read(a).value];
    assert [read(a).value] + [read(b).value] == [read(a).value, read(b).value];
  }

  lemma {:induction false} LowerCase()
    ensures Serial.WellFormed("0a") && Serial.Value("0a") == 10
    ensures Serial.Key("0a") == "a" && Serial.Key(Serial.Text(10)) == "A" && Serial.Key("0A") == "A"
  {
    Serial.OneOctet(10);
    assert Serial.Text(10) == ['0', 'A'];
    assert ['0', 'a'][1..] == ['a'] && ['0', 'A'][1..] == ['A'];
    assert Serial.HexValue("0") == 0 by { assert "0"[..0] == ""; }
    assert Serial.HexValue("0a") == 10 by { assert "0a"[..1] == "0"; }
  }

  lemma {:induction false} NegativeZero()
    ensures Serial.WellFormed("-00") && Serial.Value("-00") == 0
    ensures Serial.Key("-00") == "-00" && Serial.Key(Serial.Text(0)) == ""
  {
    Serial.ZeroText();
    Serial.ZeroKey();
    assert "-00"[1..] == "00" == Serial.Pair(0);
  }
}
