/** The in-memory database object and its operations, changed in place. */
module Database {
  import opened Base
  import opened TimeText
  import opened RevInfo
  import opened CaTable
  import Serial

  ghost function ValidNames(rows: seq<Row>): set<string> {
    set i | 0 <= i < |rows| && rows[i].typ == 'V' :: rows[i].name
  }

  /** Every Valid row has a readable expiry. */
  ghost predicate Readable(rows: seq<Row>) {
    rows == [] || (Readable(rows[..|rows| - 1]) && ReadableRow(rows[|rows| - 1]))
  }

  predicate ReadableRow(r: Row) { r.typ == 'V' ==> TimeOk(r.exp) }

  lemma {:induction false} ReadableAll(rows: seq<Row>)
    ensures Readable(rows) <==> forall i :: 0 <= i < |rows| ==> ReadableRow(rows[i])
  {
    if rows != [] {
      ReadableAll(rows[..|rows| - 1]);
      assert forall i :: 0 <= i < |rows| - 1 ==> rows[..|rows| - 1][i] == rows[i];
    }
  }

  /** The table after the update loop has passed i rows. */
  ghost function Midway(when: Clock, now: int, was: seq<Row>, i: nat): (rows: seq<Row>)
    requires i <= |was|
    ensures |rows| == |was|
  {
    if i == 0 then was
    else Midway(when, now, was, i - 1)[i - 1 := CaTable.ExpireRow(when, now, was[i - 1])]
  }

  lemma {:induction false} MidwayIs(when: Clock, now: int, was: seq<Row>, i: nat)
    requires i <= |was|
    ensures Midway(when, now, was, i) == Expire(when, now, was[..i]) + was[i..]
  {
    if i > 0 {
      MidwayIs(when, now, was, i - 1);
      assert was[..i][..i - 1] == was[..i - 1];
    }
  }

  lemma {:induction false} UpdateStep(when: Clock, now: int, was: seq<Row>, i: nat)
    requires i < |was|
    ensures Midway(when, now, was, i)[i] == was[i]
    ensures Expired(when, now, was[..i + 1]) ==
            Expired(when, now, was[..i]) + if Expires(when, now, was[i]) then 1 else 0
    ensures Readable(was[..i + 1]) <==> Readable(was[..i]) && ReadableRow(was[i])
    ensures Readable(was) ==> ReadableRow(was[i])
  {
    MidwayIs(when, now, was, i);
    assert was[..i + 1][..i] == was[..i];
    ReadableAll(was);
  }

  lemma {:induction false} UpdateDone(when: Clock, now: int, was: seq<Row>)
    ensures Midway(when, now, was, |was|) == Expire(when, now, was) && was[..|was|] == was
  {
    MidwayIs(when, now, was, |was|);
    assert was[..|was|] == was;
  }

  /** The serial index knows the first n rows, each at its place, and nothing else. */
  ghost predicate SerialIndexed(rows: seq<Row>, n: nat, idx: map<string, nat>) {
    n <= |rows| &&
    (forall i :: 0 <= i < n ==> KeyOf(rows[i]) in idx && idx[KeyOf(rows[i])] == i) &&
    (forall k :: k in idx ==> idx[k] < n && KeyOf(rows[idx[k]]) == k)
  }

  /** The name index knows every Valid row among the first n at its place; it may know further ones. */
  ghost predicate NameIndexed(rows: seq<Row>, n: nat, unique: bool, idx: map<string, nat>) {
    n <= |rows| &&
    (unique ==> forall i :: 0 <= i < n && rows[i].typ == 'V' ==> rows[i].name in idx && idx[rows[i].name] == i) &&
    (forall k :: k in idx ==> unique && idx[k] < n && rows[idx[k]].name == k)
  }

  lemma {:induction false} SerialAppend(rows: seq<Row>, idx: map<string, nat>, r: Row)
    requires SerialIndexed(rows, |rows|, idx) && KeyOf(r) !in idx
    ensures SerialIndexed(rows + [r], |rows| + 1, idx[KeyOf(r) := |rows|])
  {
  }

  lemma {:induction false} NotIndexed(rows: seq<Row>, idx: map<string, nat>, r: Row)
    requires SerialIndexed(rows, |rows|, idx) && Lookup(rows, KeyOf(r)) == |rows|
    ensures KeyOf(r) !in idx
  {
  }

  lemma {:induction false} NameAppend(rows: seq<Row>, unique: bool, idx: map<string, nat>, r: Row)
    requires NameIndexed(rows, |rows|, unique, idx) && (unique && r.typ == 'V' ==> r.name !in idx)
    ensures NameIndexed(rows + [r], |rows| + 1, unique,
                        if unique && r.typ == 'V' then idx[r.name := |rows|] else idx)
  {
  }

  /** A row that is refused on loading: a revocation column where there must be none, one that cannot be read, an
      unreadable expiry, or a serial that is not, after at most one minus, an even number of hex digits, two or more. */
  ghost predicate BadRow(oid: OidTable, r: Row) {
    (r.typ != 'R' && r.rev != "") || (r.typ == 'R' && !Unpack(oid, r.rev).ok) || !TimeOk(r.exp) || BadSerial(r.serial)
  }

  ghost predicate BadSerial(s: string) { BadDigits(if s != "" && s[0] == '-' then s[1..] else s) }

  ghost predicate BadDigits(p: string) { |p| < 2 || |p| % 2 != 0 || exists i :: 0 <= i < |p| && NoHex(p[i]) }

  predicate NoHex(c: char) { !('0' <= c <= '9') && !('A' <= c <= 'F') && !('a' <= c <= 'f') }

  lemma {:induction false} BadRowExactly(oid: OidTable, r: Row)
    ensures RowOk(oid, r) <==> !BadRow(oid, r)
  {
    hide Unpack, TimeOk, Serial.WellFormed, BadSerial;
    BadSerialExactly(r.serial);
  }

  lemma {:induction false} BadSerialExactly(s: string)
    ensures Serial.WellFormed(s) <==> !BadSerial(s)
  {
    hide BadDigits;
    BadDigitsExactly(if s != "" && s[0] == '-' then s[1..] else s);
  }

  lemma {:induction false} BadDigitsExactly(p: string)
    ensures |p| % 2 == 0 && |p| >= 2 && Serial.AllHex(p) <==> !BadDigits(p)
  {
    if Serial.AllHex(p) {
      forall i | 0 <= i < |p| ensures !NoHex(p[i]) { assert p[i] in p; }
    } else {
      var c :| c in p && !Serial.IsXDigit(c);
      var i :| 0 <= i < |p| && p[i] == c;
      assert NoHex(p[i]);
    }
  }

  class CaDb {
    var rows: seq<Row>
    const unique: bool
    var serialIdx: map<string, nat>
    var nameIdx: map<string, nat>

    ghost predicate Valid()
      reads this
    {
      SerialIndexed(rows, |rows|, serialIdx) && NameIndexed(rows, |rows|, unique, nameIdx)
    }

    ghost function View(): Db
      reads this
    {
      Db(rows, unique, nameIdx.Keys)
    }

    lemma {:induction false} ValidIsInv()
      requires Valid()
      ensures Inv(View())
    {
    }

    constructor (rows: seq<Row>, unique: bool)
      ensures this.rows == rows && this.unique == unique && serialIdx == map[] && nameIdx == map[]
    {
      this.rows, this.unique, serialIdx, nameIdx := rows, unique, map[], map[];
    }

    /** The field checks after loading (apps/ca.c:737-772). */
    method CheckRows(oid: OidTable) returns (ok: bool)
      ensures ok <==> forall i :: 0 <= i < |rows| ==> !BadRow(oid, rows[i])
      ensures ok <==> RowsOk(oid, rows)
    {
      hide RowOk, BadRow;
      forall i | 0 <= i < |rows| ensures RowOk(oid, rows[i]) <==> !BadRow(oid, rows[i]) {
        BadRowExactly(oid, rows[i]);
      }
      var i := 0;
      while i < |rows|
        invariant 0 <= i <= |rows| && forall k :: 0 <= k < i ==> RowOk(oid, rows[k])
      {
        ok := CheckRow(oid, rows[i]);
        if !ok { return; }
        i := i + 1;
      }
      return true;
    }

    static method CheckRow(oid: OidTable, pp: Row) returns (ok: bool)
      ensures ok <==> RowOk(oid, pp)
    {
      if pp.typ != 'R' && pp.rev != "" { return false; }
      if pp.typ == 'R' && MakeRevoked(Unpack(oid, pp.rev)) == 0 { return false; }
      if !TimeOk(pp.exp) { return false; }
      return Serial.WellFormed(pp.serial);
    }

    /** index_index (apps/lib/apps.c:1743): both TXT_DB_create_index loops. */
    method IndexIndex() returns (ok: bool)
      requires serialIdx == map[] && nameIdx == map[]
      modifies this`serialIdx, this`nameIdx
      ensures ok <==> Indexable(rows, unique)
      ensures ok ==> Valid() && View() == Db(rows, unique, if unique then ValidNames(rows) else {})
    {
      ok := IndexSerials();
      if ok && unique {
        ok := IndexNames();
      }
    }

    method IndexSerials() returns (ok: bool)
      requires serialIdx == map[]
      modifies this`serialIdx
      ensures ok <==> DistinctSerials(rows)
      ensures ok ==> SerialIndexed(rows, |rows|, serialIdx)
    {
      var i := 0;
      while i < |rows|
        invariant 0 <= i <= |rows| && SerialIndexed(rows, i, serialIdx)
      {
        var k := KeyOf(rows[i]);
        if k in serialIdx {
          assert KeyOf(rows[serialIdx[k]]) == KeyOf(rows[i]);
          return false;
        }
        serialIdx := serialIdx[k := i];
        i := i + 1;
      }
      return true;
    }

    method IndexNames() returns (ok: bool)
      requires unique && nameIdx == map[]
      modifies this`nameIdx
      ensures ok <==> OneValidPerName(rows)
      ensures ok ==> NameIndexed(rows, |rows|, unique, nameIdx) && nameIdx.Keys == ValidNames(rows)
    {
      var i := 0;
      while i < |rows|
        invariant 0 <= i <= |rows| && NameIndexed(rows, i, unique, nameIdx)
        invariant forall k :: k in nameIdx ==> rows[nameIdx[k]].typ == 'V'
      {
        if rows[i].typ == 'V' {
          var k := rows[i].name;
          if k in nameIdx {
            assert rows[nameIdx[k]].name == rows[i].name;
            return false;
          }
          nameIdx := nameIdx[k := i];
        }
        i := i + 1;
      }
      return true;
    }

    /** TXT_DB_get_by_index on the serial column; |rows| stands for no row. */
    method GetBySerial(serial: string) returns (i: nat)
      requires Valid()
      ensures i == Lookup(rows, Serial.Key(serial))
    {
      var k := Serial.Key(serial);
      if k in serialIdx {
        i := serialIdx[k];
        assert Lookup(rows, k) == i by { assert KeyOf(rows[i]) == k; ValidIsInv(); LookupIs(rows, i); }
      } else {
        i := |rows|;
      }
    }

    /** TXT_DB_insert (crypto/txt_db/txt_db.c). */
    method Insert(r: Row) returns (ok: bool)
      requires Valid()
      modifies this
      ensures Valid()
      ensures ok <==> !old(Clashes(View(), r))
      ensures View() == if ok then CaTable.Insert(old(View()), r) else old(View())
    {
      var i := GetBySerial(r.serial);
      if i < |rows| { return false; }
      if unique && r.typ == 'V' && r.name in nameIdx { return false; }
      NotIndexed(rows, serialIdx, r);
      Append(r);
      return true;
    }

    /** Entering the row in both indexes and appending it. */
    method Append(r: Row)
      requires Valid() && KeyOf(r) !in serialIdx && (unique && r.typ == 'V' ==> r.name !in nameIdx)
      modifies this
      ensures Valid() && View() == CaTable.Insert(old(View()), r)
    {
      SerialAppend(rows, serialIdx, r);
      NameAppend(rows, unique, nameIdx, r);
      serialIdx := serialIdx[KeyOf(r) := |rows|];
      if unique && r.typ == 'V' {
        nameIdx := nameIdx[r.name := |rows|];
      }
      rows := rows + [r];
    }

    /** do_revoke (apps/ca.c:2134-2238). The measure shows that it calls itself at most once. */
    method DoRevoke(oid: OidTable, c: Cert, t: RevType, arg: string, now: string) returns (ok: bool)
      requires Valid() && '\0' !in arg && '\0' !in now
      modifies this
      ensures Valid()
      ensures (ok, View()) == old(Revoke(oid, View(), c, t, arg, now))
      ensures RevokeOutcome(oid, old(View()), c, t, arg, now, ok, View())
      decreases if Lookup(rows, CertKey(c)) < |rows| then 0 else 1
    {
      hide RevokeOutcome;
      ValidIsInv();
      RevokeExactly(oid, View(), c, t, arg, now);
      var i := GetBySerial(Serial.Text(c.serial));
      if i == |rows| {
        var ins := Insert(NewRow(c));
        if !ins { return false; }
        if t == RevValid { return true; }
        assert Lookup(rows, CertKey(c)) == i by { ValidIsInv(); LookupIs(rows, i); }
        ok := DoRevoke(oid, c, t, arg, now);
      } else {
        ok := RevokeRow(oid, i, c, t, arg, now);
      }
    }

    /** The string that make_revocation_str leaves in its buffer. */
    static method RevocationColumn(oid: OidTable, t: RevType, arg: string, now: string) returns (ok: bool, rev: string)
      requires '\0' !in arg && '\0' !in now
      ensures ok <==> ArgOk(oid, t, arg)
      ensures ok ==> rev == Stored(oid, t, arg, now)
    {
      var str;
      ok, str := MakeRevocationStr(oid, t, arg, now);
      rev := if ok then str[..str.Length - 1] else "";
    }

    /** The row is there (apps/ca.c:2211-2233). */
    method RevokeRow(oid: OidTable, i: nat, c: Cert, t: RevType, arg: string, now: string) returns (ok: bool)
      requires Valid() && i < |rows| && '\0' !in arg && '\0' !in now
      modifies this`rows
      ensures Valid()
      ensures (ok, View()) == old(RevokeFound(oid, View(), i, c, t, arg, now))
    {
      if rows[i].name != CertName(c) || t == RevValid || rows[i].typ == 'R' { return false; }
      var made, rev := RevocationColumn(oid, t, arg, now);
      if !made { return false; }
      SetRow(i, rows[i].(typ := 'R', rev := rev));
      return true;
    }

    /** Writing the type and revocation columns of a row in place. */
    method SetRow(i: nat, r: Row)
      requires Valid() && i < |rows|
      requires r.serial == rows[i].serial && r.name == rows[i].name && r.typ != 'V'
      modifies this`rows
      ensures Valid() && rows == old(rows)[i := r]
    {
      rows := rows[i := r];
    }

    /** The clash checks, the prompt, the signature and the insertion at the end of do_body (apps/ca.c:1846-1969). */
    method Issue(c: Cert, consent: Consent) returns (j: int)
      requires Valid()
      modifies this
      ensures Valid()
      ensures (j, View()) == old(Certify(View(), c, consent))
      ensures IssueOutcome(old(View()), c, consent, j, View())
    {
      hide IssueOutcome;
      CertifyExactly(View(), c, consent);
      if unique && CertName(c) in nameIdx { return -1; }
      var i := GetBySerial(Serial.Text(c.serial));
      if i < |rows| { return -1; }
      if consent == Declined { return 0; }
      if consent == Unsigned { return -1; }
      var ok := Insert(NewRow(c));
      assert ok;
      return 1;
    }

    /** do_updatedb (apps/ca.c:2307-2355): -1 when a Valid row has an unreadable expiry. */
    method DoUpdateDb(when: Clock, now: int) returns (cnt: int)
      requires Valid()
      modifies this`rows
      ensures Valid()
      ensures cnt >= 0 <==>
              forall i :: 0 <= i < |old(rows)| && old(rows)[i].typ == 'V' ==> TimeOk(old(rows)[i].exp)
      ensures cnt >= 0 ==>
                UpdateOutcome(when, now, old(rows), rows) && cnt == |Expiring(when, now, old(rows))|
      ensures cnt >= 0 <==> Readable(old(rows))
      ensures cnt >= 0 ==> rows == Expire(when, now, old(rows)) && cnt == Expired(when, now, old(rows))
    {
      hide UpdateOutcome, Expiring, Expired, Expire, TimeOk;
      ReadableAll(rows);
      ExpireExactly(when, now, rows);
      cnt := UpdateRows(when, now);
    }

    /** The loop over the rows. */
    method UpdateRows(when: Clock, now: int) returns (cnt: int)
      requires Valid()
      modifies this`rows
      ensures Valid()
      ensures cnt >= 0 <==> Readable(old(rows))
      ensures cnt >= 0 ==> rows == Expire(when, now, old(rows)) && cnt == Expired(when, now, old(rows))
    {
      ghost var was := rows;
      cnt := 0;
      var i := 0;
      while i < |rows|
        invariant 0 <= i <= |rows| == |was| && Valid()
        invariant rows == Midway(when, now, was, i)
        invariant cnt == Expired(when, now, was[..i])
        invariant Readable(was[..i])
      {
        UpdateStep(when, now, was, i);
        var st := ExpireRow(i, when, now);
        if st < 0 {
          return -1;
        }
        cnt := cnt + st;
        i := i + 1;
      }
      UpdateDone(when, now, was);
    }

    /** The loop body on one row. */
    method ExpireRow(i: nat, when: Clock, now: int) returns (st: int)
      requires Valid() && i < |rows|
      modifies this`rows
      ensures Valid()
      ensures st >= 0 <==> ReadableRow(old(rows)[i])
      ensures st >= 0 ==> rows == old(rows)[i := CaTable.ExpireRow(when, now, old(rows)[i])]
      ensures st >= 0 ==> st == if Expires(when, now, old(rows)[i]) then 1 else 0
      ensures st < 0 ==> rows == old(rows)
    {
      st := 0;
      if rows[i].typ == 'V' {
        if !TimeOk(rows[i].exp) { return -1; }
        if when(rows[i].exp) <= now {
          SetRow(i, rows[i].(typ := 'E'));
          st := 1;
        }
      }
    }

    /** get_certificate_status (apps/ca.c:2240-2305). */
    method GetCertificateStatus(typed: string) returns (ok: int, shown: Option<char>)
      requires Valid()
      ensures var i := Lookup(rows, Serial.Key(Serial.StatusKey(typed)));
              shown == (if i < |rows| then Some(rows[i].typ) else None) &&
              ok == (if shown.Some? && shown.value in {'V', 'R', 'E', 'S'} then 1 else -1)
    {
      var i := GetBySerial(Serial.StatusKey(typed));
      if i == |rows| { return -1, None; }
      var t := rows[i].typ;
      if t == 'V' || t == 'R' || t == 'E' || t == 'S' { return 1, Some(t); }
      return -1, Some(t);
    }
  }
}
