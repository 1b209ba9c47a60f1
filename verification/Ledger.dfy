/** Serial numbers across any number of runs, each of which may stop at any moment of its commits. */
module Ledger {
  import opened Base
  import opened CaTable
  import opened Commit
  import Serial

  /** What one commit sets out to do, given the table and the serial it has loaded; Restore is the
      operator renaming a missing file back from its .old copy. */
  datatype Action =
    | CertifyBatch(was: seq<Row>, batch: seq<Row>, v: int, unique: bool)
    | Rewrite(was: seq<Row>, rows: seq<Row>, unique: bool)
    | Restore

  /** The files together with the set of numbers that certify has put in the index file. */
  datatype State = State(files: Files, issued: set<int>)

  /** The batch is numbered consecutively from v on (apps/ca.c:971-1054). */
  ghost predicate NumberedFrom(batch: seq<Row>, v: int) {
    batch == [] ||
    (NumberedFrom(batch[..|batch| - 1], v) && batch[|batch| - 1].serial == Serial.Text(v + |batch| - 1))
  }

  lemma {:induction false} NumberedAt(batch: seq<Row>, v: int, i: nat)
    requires NumberedFrom(batch, v) && i < |batch|
    ensures batch[i].serial == Serial.Text(v + i)
  {
    hide Serial.Text;
    if i < |batch| - 1 { NumberedAt(batch[..|batch| - 1], v, i); }
  }

  /** v, v + 1, ..., v + k - 1. */
  function Numbers(v: int, k: nat): (s: set<int>)
    ensures forall n :: n in s <==> v <= n < v + k
  {
    if k == 0 then {} else Numbers(v, k - 1) + {v + k - 1}
  }

  /** A missing attribute file is put back, by renaming or copying, or it is left alone: the program does not complain
      of it. */
  ghost predicate AttrRepaired(f: Files, s: Files) {
    (Get(s, Attr) == Get(f, Attr) && Get(s, AttrOld) == Get(f, AttrOld)) ||
    (Get(f, Attr) == None && Get(s, Attr) == Get(f, AttrOld) &&
     (Get(s, AttrOld) == None || Get(s, AttrOld) == Get(f, AttrOld)))
  }

  /** The state t in which an action begun in s may leave the disk. */
  ghost predicate Step(s: State, a: Action, t: State) {
    match a
    case CertifyBatch(was, batch, v, unique) =>
      Get(s.files, Index) == Some(Table(was)) && Get(s.files, SerialFile) == Some(Number(v)) &&
      batch != [] && NumberedFrom(batch, v) &&
      BatchMoment(s.files, t.files, was, was + batch, v, v + |batch|, unique) &&
      t.issued == s.issued + if Get(t.files, Index) == Some(Table(was + batch)) then Numbers(v, |batch|) else {}
    case Rewrite(was, rows, unique) =>
      Get(s.files, Index) == Some(Table(was)) && Follows(was, rows) &&
      TableSaveMoment(s.files, t.files, was, rows, unique) && t.issued == s.issued
    case Restore =>
      Get(t.files, Index) == Current(s.files, Index, IndexOld) &&
      Get(t.files, SerialFile) == Current(s.files, SerialFile, SerialOld) && t.issued == s.issued &&
      AttrRepaired(s.files, t.files) && CertsKept(s.files, t.files) && CertsKept(t.files, s.files)
  }

  ghost predicate InTable(rows: seq<Row>, n: int) {
    exists i :: 0 <= i < |rows| && rows[i].serial == Serial.Text(n)
  }

  /** Every issued number is below the bound and has a row. */
  ghost predicate Covered(issued: set<int>, bound: int, rows: seq<Row>) {
    forall n :: n in issued ==> n < bound && InTable(rows, n)
  }

  /** The serial file is above every number that certify has put in the index file. */
  ghost predicate Ahead(s: State) {
    exists v, rows :: AheadAt(s, v, rows)
  }

  ghost predicate AheadAt(s: State, v: int, rows: seq<Row>) {
    Current(s.files, SerialFile, SerialOld) == Some(Number(v)) &&
    Current(s.files, Index, IndexOld) == Some(Table(rows)) && Covered(s.issued, v, rows)
  }

  lemma {:induction false} CoveredLater(issued: set<int>, v: int, rows: seq<Row>, later: seq<Row>)
    requires Covered(issued, v, rows) && Follows(rows, later)
    ensures Covered(issued, v, later)
  {
    hide Serial.Text;
    forall n | n in issued
      ensures InTable(later, n)
    {
      var i :| 0 <= i < |rows| && rows[i].serial == Serial.Text(n);
      assert RowFollows(rows[i], later[i]);
    }
  }

  lemma {:induction false} CoveredBatch(issued: set<int>, v: int, was: seq<Row>, batch: seq<Row>)
    requires Covered(issued, v, was) && NumberedFrom(batch, v)
    ensures Covered(issued + Numbers(v, |batch|), v + |batch|, was + batch)
  {
    hide Serial.Text;
    assert Follows(was, was + batch);
    CoveredLater(issued, v, was, was + batch);
    forall n | n in Numbers(v, |batch|)
      ensures InTable(was + batch, n)
    {
      NumberedAt(batch, v, n - v);
      assert (was + batch)[|was| + (n - v)] == batch[n - v];
    }
  }

  /** The table an action sets out to leave. */
  function Target(a: Action): seq<Row>
    requires !a.Restore?
  {
    if a.CertifyBatch? then a.was + a.batch else a.rows
  }

  /** Where an action leaves the serial and the table: the table is the old one or the target, and it follows the old
      one. */
  lemma {:induction false} StepStaysAhead(s: State, a: Action, t: State, v: int, rows: seq<Row>)
    returns (v': int, rows': seq<Row>)
    requires AheadAt(s, v, rows) && Step(s, a, t)
    ensures AheadAt(t, v', rows') && v <= v' && Follows(rows, rows')
    ensures rows' == rows || (!a.Restore? && rows' == Target(a))
  {
    FollowsSelf(rows);
    match a {
      case CertifyBatch(was, batch, _, _) =>
        v', rows' := CertifyStaysAhead(s, a, t);
        assert Follows(was, was + batch);
      case Rewrite(was, next, _) =>
        v' := v;
        rows' := if Get(t.files, Index) == Some(Table(next)) then next else was;
        CoveredLater(s.issued, v, was, next);
        assert Get(t.files, SerialFile) == Get(s.files, SerialFile);
      case Restore =>
        v', rows' := v, rows;
    }
  }

  lemma {:induction false} CertifyStaysAhead(s: State, a: Action, t: State) returns (v': int, rows': seq<Row>)
    requires a.CertifyBatch? && AheadAt(s, a.v, a.was) && Step(s, a, t)
    ensures AheadAt(t, v', rows') && a.v <= v' && (rows' == a.was || rows' == Target(a))
  {
    hide Serial.Text, NumberedFrom;
    var next, w := a.was + a.batch, a.v + |a.batch|;
    CoveredBatch(s.issued, a.v, a.was, a.batch);
    assert |next| > |a.was|;
    if Get(t.files, Index) == Some(Table(next)) {
      v', rows' := w, next;
    } else {
      rows' := a.was;
      v' := if Get(t.files, SerialFile) == Some(Number(w)) then w else a.v;
    }
  }

  ghost predicate Behaviour(h: seq<State>, acts: seq<Action>) {
    |h| == |acts| + 1 && forall i :: 0 <= i < |acts| ==> Step(h[i], acts[i], h[i + 1])
  }

  /** However many commits are made and wherever each one stops, the serial file (or its set-aside copy)
      stays above every number that certify has put in the index file. */
  lemma {:induction false} SerialAlwaysAhead(h: seq<State>, acts: seq<Action>, j: nat)
    requires Behaviour(h, acts) && Ahead(h[0]) && j < |h|
    ensures Ahead(h[j])
  {
    if j > 0 {
      var k := j - 1;
      SerialAlwaysAhead(h, acts, k);
      var v, rows :| AheadAt(h[k], v, rows);
      assert Step(h[k], acts[k], h[k + 1]);
      v, rows := StepStaysAhead(h[k], acts[k], h[j], v, rows);
    }
  }

  /** So certify never puts a number in the index file twice: a batch is numbered with fresh numbers. */
  lemma {:induction false} NumbersAlwaysFresh(h: seq<State>, acts: seq<Action>, j: nat)
    requires Behaviour(h, acts) && Ahead(h[0]) && j < |acts| && acts[j].CertifyBatch?
    ensures Numbers(acts[j].v, |acts[j].batch|) !! h[j].issued
    ensures h[j].issued <= h[j + 1].issued
  {
    SerialAlwaysAhead(h, acts, j);
    assert Step(h[j], acts[j], h[j + 1]);
  }

  // ---- Certificates and the serial file ----

  /** The number the next run starts from. */
  function SerialAt(f: Files): Option<int> {
    var c := Current(f, SerialFile, SerialOld);
    if c.Some? && c.value.Number? then Some(c.value.n) else None
  }

  /** A certificate has been written under a number that will be used again. */
  predicate Exposed(f: Files, c: int) {
    CertFile(c) in f && SerialAt(f).Some? && SerialAt(f).value <= c
  }

  /** Certificates are written out before the serial file moves. At any moment of a commit, no certificate on disk is
      exposed exactly when those that were there are below the serial and either the serial file has moved or
      none of the batch's certificates is on disk. */
  lemma {:induction false} ExposedExactlyBeforeRotation(f: Files, s: Files, was: seq<Row>, next: seq<Row>,
                                                        v: int, w: int, unique: bool)
    requires BatchMoment(f, s, was, next, v, w, unique) && v < w
    ensures SerialAt(s).Some?
    ensures var x := SerialAt(s).value;
            (forall c :: !Exposed(s, c)) <==>
            (forall c :: CertFile(c) in f ==> c < x) && (x == w || forall c :: v <= c < w ==> CertFile(c) !in s)
  {
    var x := SerialAt(s).value;
    assert x == v || x == w;
    if forall c :: !Exposed(s, c) {
      forall c | CertFile(c) in s ensures c < x { assert !Exposed(s, c); }
    }
  }

  lemma {:induction false} StepCerts(s: State, a: Action, t: State, c: int)
    requires Ahead(s) && Step(s, a, t)
    ensures SerialAt(s.files).Some? && SerialAt(t.files).Some? && SerialAt(s.files).value <= SerialAt(t.files).value
    ensures CertFile(c) in s.files ==> CertFile(c) in t.files
    ensures CertFile(c) in t.files && CertFile(c) !in s.files ==> a.CertifyBatch? && a.v <= c < a.v + |a.batch|
    ensures a.CertifyBatch? ==> SerialAt(t.files).value in {a.v, a.v + |a.batch|}
  {
    var v, rows :| AheadAt(s, v, rows);
    v, rows := StepStaysAhead(s, a, t, v, rows);
  }

  /** Commit k wrote certificate c and stopped before the serial file moved. */
  ghost predicate StoppedAfterWriting(h: seq<State>, acts: seq<Action>, k: nat, c: int)
    requires |h| == |acts| + 1
  {
    k < |acts| && acts[k].CertifyBatch? && acts[k].v <= c < acts[k].v + |acts[k].batch| &&
    CertFile(c) in h[k + 1].files && SerialAt(h[k + 1].files) == Some(acts[k].v)
  }

  /** The serial file has not moved past c since commit k. */
  ghost predicate NotPassed(h: seq<State>, k: nat, j: nat, c: int)
    requires j < |h|
  {
    forall m :: k < m <= j ==> SerialAt(h[m].files).Some? && SerialAt(h[m].files).value <= c
  }

  /** An exposed certificate goes back to a commit that stopped too early. */
  lemma {:induction false} ExposedByStop(h: seq<State>, acts: seq<Action>, j: nat, c: int) returns (k: nat)
    requires Behaviour(h, acts) && Ahead(h[0]) && !Exposed(h[0].files, c) && j < |h| && Exposed(h[j].files, c)
    ensures k < j && StoppedAfterWriting(h, acts, k, c) && NotPassed(h, k, j, c)
  {
    hide Step, Ahead;
    k := j - 1;
    SerialAlwaysAhead(h, acts, k);
    assert Step(h[k], acts[k], h[k + 1]);
    StepCerts(h[k], acts[k], h[j], c);
    if CertFile(c) in h[k].files { k := ExposedByStop(h, acts, k, c); }
  }

  /** A certificate written by a commit that stopped too early is exposed until the serial file has moved past it. */
  lemma {:induction false} StopExposes(h: seq<State>, acts: seq<Action>, k: nat, j: nat, c: int)
    requires Behaviour(h, acts) && Ahead(h[0]) && k < j < |h|
    requires StoppedAfterWriting(h, acts, k, c) && NotPassed(h, k, j, c)
    ensures Exposed(h[j].files, c)
  {
    hide Step, Ahead;
    assert SerialAt(h[j].files).value <= c;
    if k < j - 1 {
      StopExposes(h, acts, k, j - 1, c);
      SerialAlwaysAhead(h, acts, j - 1);
      assert Step(h[j - 1], acts[j - 1], h[j - 1 + 1]);
      StepCerts(h[j - 1], acts[j - 1], h[j], c);
    }
  }

  /** Over any number of commits, from a disk without exposed certificates: a certificate is exposed exactly when some
      commit stopped between writing it and moving the serial file, and the serial file has not moved past it since. */
  lemma {:induction false} ExposedExactlyByStop(h: seq<State>, acts: seq<Action>, j: nat, c: int)
    requires Behaviour(h, acts) && Ahead(h[0]) && !Exposed(h[0].files, c) && j < |h|
    ensures Exposed(h[j].files, c) <==>
            exists k: nat :: k < j && StoppedAfterWriting(h, acts, k, c) && NotPassed(h, k, j, c)
  {
    if Exposed(h[j].files, c) {
      var k := ExposedByStop(h, acts, j, c);
    }
    if k: nat :| k < j && StoppedAfterWriting(h, acts, k, c) && NotPassed(h, k, j, c) {
      StopExposes(h, acts, k, j, c);
    }
  }

  /** Such a moment exists, and the next run writes the certificate with the same number again. */
  lemma {:induction false} StoppedRunReissues(row: Row, v: int, unique: bool)
    returns (f: Files, s: Files)
    requires row.serial == Serial.Text(v)
    ensures forall c :: !Exposed(f, c)
    ensures Step(State(f, {}), CertifyBatch([], [row], v, unique), State(s, {}))
    ensures Exposed(s, v)
    ensures Step(State(s, {}), CertifyBatch([], [row], v, unique), State(s[CertFile(v) := Partial], {}))
    ensures Exposed(s[CertFile(v) := Partial], v)
  {
    f := map[Index := Table([]), SerialFile := Number(v)];
    s := f[CertFile(v) := Number(v)];
    WrittenOver(f, row, v, unique, Number(v));
    WrittenOver(s, row, v, unique, Partial);
  }

  lemma {:induction false} WrittenOver(f: Files, row: Row, v: int, unique: bool, c: Content)
    requires row.serial == Serial.Text(v) && Get(f, Index) == Some(Table([])) && Get(f, SerialFile) == Some(Number(v))
    ensures Step(State(f, {}), CertifyBatch([], [row], v, unique), State(f[CertFile(v) := c], {}))
    ensures Exposed(f[CertFile(v) := c], v)
  {
    hide Serial.Text, BatchMoment;
    var s, none: seq<Row> := f[CertFile(v) := c], [];
    assert none + [row] == [row] && [row][..0] == none && |none| != |[row]|;
    assert NumberedFrom([row], v) by { assert NumberedFrom(none, v); }
    assert Get(s, Index) != Some(Table(none + [row]));
    WriteIsMoment(f, row, v, unique, c);
  }

  lemma {:induction false} WriteIsMoment(f: Files, row: Row, v: int, unique: bool, c: Content)
    requires Get(f, Index) == Some(Table([])) && Get(f, SerialFile) == Some(Number(v))
    ensures BatchMoment(f, f[CertFile(v) := c], [], [row], v, v + 1, unique)
  {
    var s := f[CertFile(v) := c];
    assert forall id :: id != CertFile(v) ==> Get(s, id) == Get(f, id);
    assert Get(s, Index) == Get(f, Index) && Get(s, SerialFile) == Get(f, SerialFile) && Get(s, Attr) == Get(f, Attr);
    assert Get(s, AttrOld) == Get(f, AttrOld);
  }
}
