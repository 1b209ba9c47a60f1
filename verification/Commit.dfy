/** Committing to disk: the order of saves and renames, with every rename and write allowed to fail
    and the process allowed to stop anywhere (apps/ca.c:1061-1159, apps/lib/apps.c:1555-1880). */
module Commit {
  import opened Base
  import opened CaTable

  datatype FileId =
    | Index | IndexNew | IndexOld
    | Attr | AttrNew | AttrOld
    | SerialFile | SerialNew | SerialOld
    | CertFile(n: int)

  /** Partial is a file whose writing has begun and not been completed. */
  datatype Content = Table(rows: seq<Row>) | Number(n: int) | Flag(b: bool) | Partial

  type Files = map<FileId, Content>

  function Get(f: Files, id: FileId): Option<Content> { if id in f then Some(f[id]) else None }

  function Moved(f: Files, a: FileId, b: FileId): Files
    requires a in f
  {
    (f - {a})[b := f[a]]
  }

  ghost predicate SameOutside(f: Files, s: Files, ids: set<FileId>) {
    forall id :: id !in ids ==> Get(f, id) == Get(s, id)
  }

  datatype Outcome = Done | Missing | Failed

  /** The file a rotation replaces: it still has its old contents, or is gone with the old contents kept
      aside, or has the new contents. */
  ghost predicate Rotating(s: Files, file: FileId, aside: FileId, was: Content, next: Content) {
    Unrotated(s, file, aside, was) || Get(s, file) == Some(next)
  }

  ghost predicate Unrotated(s: Files, file: FileId, aside: FileId, was: Content) {
    Get(s, file) == Some(was) || (Get(s, file) == None && Get(s, aside) == Some(was))
  }

  ghost const SERIAL_FILES: set<FileId> := {SerialFile, SerialNew, SerialOld}
  ghost const TABLE_FILES: set<FileId> := {Index, IndexNew, IndexOld}
  ghost const ATTR_FILES: set<FileId> := {Attr, AttrNew, AttrOld}

  /** Any moment of rotate_serial started in f. */
  ghost predicate SerialMoment(f: Files, s: Files, was: Content, next: Content) {
    SameOutside(f, s, SERIAL_FILES) && Rotating(s, SerialFile, SerialOld, was, next)
  }

  ghost predicate TableMoment(f: Files, s: Files, was: Content, next: Content) {
    SameOutside(f, s, TABLE_FILES) && Rotating(s, Index, IndexOld, was, next)
  }

  /** The contents of a file, or of its set-aside copy while it is missing. */
  function Current(f: Files, file: FileId, aside: FileId): Option<Content> {
    if file in f then Some(f[file]) else Get(f, aside)
  }

  ghost predicate AttrMoment(f: Files, s: Files, next: Content) {
    SameOutside(f, s, ATTR_FILES) && AttrState(f, s, next)
  }

  /** The attribute file and its copy: as they were; or the current contents set aside and the file missing or new; or
      the current contents put back, which brings an older file back when there was none. */
  ghost predicate AttrState(f: Files, s: Files, next: Content) {
    var now := Current(f, Attr, AttrOld);
    (Get(s, Attr) == Get(f, Attr) && Get(s, AttrOld) == Get(f, AttrOld)) ||
    ((Get(s, Attr) == None || Get(s, Attr) == Some(next)) && Get(s, AttrOld) == now) ||
    (Get(s, Attr) == now && Get(s, AttrOld) == None)
  }

  /** Any moment of rotate_index started in f. */
  ghost predicate IndexMoment(f: Files, s: Files, was: Content, next: Content, attr: Content) {
    SameOutside(f, s, TABLE_FILES + ATTR_FILES) && Rotating(s, Index, IndexOld, was, next) && AttrState(f, s, attr)
  }

  /** Only the new-suffix files and certificate files numbered v .. w-1 may differ, and no certificate disappears. */
  ghost predicate Quiet(f: Files, s: Files, v: int, w: int) {
    (forall id :: Get(f, id) == Get(s, id) || Writable(id, v, w)) &&
    CertsKept(f, s)
  }

  ghost predicate CertsKept(f: Files, s: Files) { forall c :: CertFile(c) in f ==> CertFile(c) in s }

  /** Any moment of committing a batch numbered v .. w-1 that turns the table was into next. */
  ghost predicate BatchMoment(f: Files, s: Files, was: seq<Row>, next: seq<Row>, v: int, w: int, unique: bool) {
    Rotating(s, Index, IndexOld, Table(was), Table(next)) &&
    Rotating(s, SerialFile, SerialOld, Number(v), Number(w)) &&
    (Get(s, Index) != Some(Table(was)) ==> Get(s, SerialFile) == Some(Number(w))) &&
    AttrState(f, s, Flag(unique)) && CertsKept(f, s) &&
    forall c :: CertFile(c) in s ==> CertFile(c) in f || v <= c < w
  }

  /** Any moment of saving a table without touching the serial, as -updatedb, -revoke and -valid do. */
  ghost predicate TableSaveMoment(f: Files, s: Files, was: seq<Row>, next: seq<Row>, unique: bool) {
    Rotating(s, Index, IndexOld, Table(was), Table(next)) && AttrState(f, s, Flag(unique)) &&
    Get(s, SerialFile) == Get(f, SerialFile) && Get(s, SerialOld) == Get(f, SerialOld) &&
    CertsKept(f, s) && CertsKept(s, f)
  }

  lemma {:induction false} IsTableSaveMoment(f: Files, m: Files, s: Files, was: seq<Row>, next: seq<Row>, unique: bool)
    requires Quiet(f, m, 0, 0) && Get(f, Index) == Some(Table(was))
    requires s == m || IndexMoment(m, s, Table(was), Table(next), Flag(unique))
    ensures TableSaveMoment(f, s, was, next, unique)
  {
    assert Get(m, Index) == Get(f, Index) && Get(m, Attr) == Get(f, Attr) && Get(m, AttrOld) == Get(f, AttrOld);
    assert Get(m, SerialFile) == Get(f, SerialFile) && Get(m, SerialOld) == Get(f, SerialOld);
    assert Get(s, SerialFile) == Get(m, SerialFile) && Get(s, SerialOld) == Get(m, SerialOld);
    assert forall c :: Get(s, CertFile(c)) == Get(m, CertFile(c)) == Get(f, CertFile(c));
  }

  lemma {:induction false} QuietIsBatchMoment(f: Files, s: Files, was: seq<Row>, next: seq<Row>, v: int, w: int,
                                              unique: bool)
    requires Quiet(f, s, v, w) && Get(f, Index) == Some(Table(was)) && Get(f, SerialFile) == Some(Number(v))
    ensures BatchMoment(f, s, was, next, v, w, unique)
  {
    assert Get(s, Index) == Get(f, Index) && Get(s, SerialFile) == Get(f, SerialFile) && Get(s, Attr) == Get(f, Attr);
    assert Get(s, AttrOld) == Get(f, AttrOld);
    forall c | CertFile(c) in s
      ensures CertFile(c) in f || v <= c < w
    {
      assert Get(s, CertFile(c)).Some?;
      if !(v <= c < w) { assert Get(f, CertFile(c)) == Get(s, CertFile(c)); }
    }
  }

  lemma {:induction false} SerialIsBatchMoment(f: Files, m: Files, s: Files, was: seq<Row>, next: seq<Row>,
                                               v: int, w: int, unique: bool)
    requires Quiet(f, m, v, w) && Get(f, Index) == Some(Table(was)) && Get(f, SerialFile) == Some(Number(v))
    requires SerialMoment(m, s, Number(v), Number(w))
    ensures BatchMoment(f, s, was, next, v, w, unique)
  {
    QuietIsBatchMoment(f, m, was, next, v, w, unique);
    assert Get(s, Index) == Get(m, Index) && Get(s, Attr) == Get(m, Attr) && Get(m, Attr) == Get(f, Attr);
    assert Get(s, AttrOld) == Get(m, AttrOld) == Get(f, AttrOld);
    assert Get(m, Index) == Get(f, Index);
    assert forall c :: Get(s, CertFile(c)) == Get(m, CertFile(c));
  }

  lemma {:induction false} IndexIsBatchMoment(f: Files, m: Files, m2: Files, s: Files, was: seq<Row>, next: seq<Row>,
                                              v: int, w: int, unique: bool)
    requires Quiet(f, m, v, w) && Get(f, Index) == Some(Table(was)) && Get(f, SerialFile) == Some(Number(v))
    requires SerialMoment(m, m2, Number(v), Number(w)) && Get(m2, SerialFile) == Some(Number(w))
    requires IndexMoment(m2, s, Table(was), Table(next), Flag(unique))
    ensures BatchMoment(f, s, was, next, v, w, unique)
  {
    QuietIsBatchMoment(f, m, was, next, v, w, unique);
    assert Get(s, SerialFile) == Get(m2, SerialFile);
    assert Get(m2, Attr) == Get(m, Attr) == Get(f, Attr) && Get(m2, AttrOld) == Get(m, AttrOld) == Get(f, AttrOld);
    assert forall c :: Get(s, CertFile(c)) == Get(m2, CertFile(c)) == Get(m, CertFile(c));
  }

  ghost predicate AllQuiet(f: Files, steps: seq<Files>, v: int, w: int) {
    forall s :: s in steps ==> Quiet(f, s, v, w)
  }

  predicate Writable(id: FileId, v: int, w: int) {
    id == SerialNew || id == IndexNew || id == AttrNew || (id.CertFile? && v <= id.n < w)
  }

  ghost predicate SameNews(f: Files, s: Files) {
    Get(f, SerialNew) == Get(s, SerialNew) && Get(f, IndexNew) == Get(s, IndexNew) && Get(f, AttrNew) == Get(s, AttrNew)
  }

  lemma {:induction false} QuietUpdate(f: Files, s: Files, id: FileId, c: Content, v: int, w: int)
    requires Quiet(f, s, v, w) && Writable(id, v, w)
    ensures Quiet(f, s[id := c], v, w)
  {
    assert forall other :: other != id ==> Get(s[id := c], other) == Get(s, other);
  }

  class Disk {
    var files: Files
    /** Every state the files have been in. */
    ghost var trace: seq<Files>
    /** How many operations the system has refused. */
    ghost var faults: nat

    constructor (files: Files)
      ensures this.files == files && trace == [files] && faults == 0
    {
      this.files, trace, faults := files, [files], 0;
    }

    /** rename(a, b), which the system may refuse. */
    method Rename(a: FileId, b: FileId) returns (res: Outcome)
      requires a != b
      modifies this
      ensures trace == old(trace) + [files]
      ensures res == Done ==> a in old(files) && files == Moved(old(files), a, b)
      ensures res != Done ==> files == old(files)
      ensures res == Missing <==> a !in old(files)
      ensures faults == old(faults) + if res == Failed then 1 else 0
    {
      var refused: bool := *;
      if a !in files {
        res := Missing;
      } else if refused {
        res, faults := Failed, faults + 1;
      } else {
        files := Moved(files, a, b);
        res := Done;
      }
      trace := trace + [files];
    }

    /** Writing a file from scratch, which may fail half way. */
    method Write(id: FileId, c: Content) returns (ok: bool)
      modifies this
      ensures trace == old(trace) + [old(files)[id := Partial], files]
      ensures files == old(files)[id := if ok then c else Partial]
      ensures faults == old(faults) + if ok then 0 else 1
    {
      files := files[id := Partial];
      trace := trace + [files];
      ok := *;
      if ok { files := files[id := c]; } else { faults := faults + 1; }
      trace := trace + [files];
    }

    /** rotate_serial (apps/lib/apps.c:1606-1648). */
    method RotateSerial(ghost was: Content, ghost next: Content) returns (ok: bool, ghost steps: seq<Files>)
      requires Get(files, SerialFile) == Some(was) && Get(files, SerialNew) == Some(next)
      modifies this
      ensures trace == old(trace) + steps
      ensures faults >= old(faults) && (!ok ==> faults > old(faults))
      ensures forall s :: s in steps ==> SerialMoment(old(files), s, was, next)
      ensures SerialMoment(old(files), files, was, next)
      ensures ok ==> Get(files, SerialFile) == Some(next)
      ensures !ok ==> Unrotated(files, SerialFile, SerialOld, was)
    {
      var res := Rename(SerialFile, SerialOld);
      steps := [files];
      if res == Failed { return false, steps; }
      res := Rename(SerialNew, SerialFile);
      steps := steps + [files];
      if res != Done {
        var _ := Rename(SerialOld, SerialFile);
        return false, steps + [files];
      }
      return true, steps;
    }

    /** The table half of rotate_index (apps/lib/apps.c:1842-1856). */
    method RotateTable(ghost was: Content, ghost next: Content) returns (ok: bool, ghost steps: seq<Files>)
      requires Get(files, Index) == Some(was) && Get(files, IndexNew) == Some(next)
      modifies this
      ensures trace == old(trace) + steps
      ensures faults >= old(faults) && (!ok ==> faults > old(faults))
      ensures forall s :: s in steps ==> TableMoment(old(files), s, was, next)
      ensures TableMoment(old(files), files, was, next)
      ensures ok ==> Get(files, Index) == Some(next) && Get(files, IndexOld) == Some(was)
      ensures !ok ==> Unrotated(files, Index, IndexOld, was)
    {
      var res := Rename(Index, IndexOld);
      steps := [files];
      if res == Failed { return false, steps; }
      res := Rename(IndexNew, Index);
      steps := steps + [files];
      if res != Done {
        var _ := Rename(IndexOld, Index);
        return false, steps + [files];
      }
      return true, steps;
    }

    /** The attribute half, with its own roll-back (apps/lib/apps.c:1857-1875). */
    method RotateAttr(ghost next: Content) returns (ok: bool, ghost steps: seq<Files>)
      requires Get(files, AttrNew) == Some(next)
      modifies this
      ensures trace == old(trace) + steps
      ensures faults >= old(faults) && (!ok ==> faults > old(faults))
      ensures forall s :: s in steps ==> AttrMoment(old(files), s, next)
      ensures AttrMoment(old(files), files, next)
      ensures ok ==> Get(files, Attr) == Some(next)
    {
      var res := Rename(Attr, AttrOld);
      steps := [files];
      if res == Failed { return false, steps; }
      res := Rename(AttrNew, Attr);
      steps := steps + [files];
      if res != Done {
        var _ := Rename(AttrOld, Attr);
        return false, steps + [files];
      }
      return true, steps;
    }

    /** Undoing the table half after the attribute half failed. */
    method RestoreTable(ghost was: Content, ghost next: Content) returns (ghost steps: seq<Files>)
      requires Get(files, Index) == Some(next) && Get(files, IndexOld) == Some(was)
      modifies this
      ensures trace == old(trace) + steps
      ensures faults >= old(faults)
      ensures forall s :: s in steps ==> TableMoment(old(files), s, was, next)
      ensures TableMoment(old(files), files, was, next)
    {
      var _ := Rename(Index, IndexNew);
      steps := [files];
      var _ := Rename(IndexOld, Index);
      steps := steps + [files];
    }

    /** rotate_index (apps/lib/apps.c:1815-1880): the table first, then its attribute file. */
    method RotateIndex(ghost was: Content, ghost next: Content, ghost attr: Content)
      returns (ok: bool, ghost steps: seq<Files>)
      requires Get(files, Index) == Some(was) && Get(files, IndexNew) == Some(next) && Get(files, AttrNew) == Some(attr)
      modifies this
      ensures trace == old(trace) + steps
      ensures faults >= old(faults) && (!ok ==> faults > old(faults))
      ensures forall s :: s in steps ==> IndexMoment(old(files), s, was, next, attr)
      ensures IndexMoment(old(files), files, was, next, attr)
      ensures ok ==> Get(files, Index) == Some(next) && Get(files, Attr) == Some(attr)
    {
      ok, steps := RotateTable(was, next);
      if !ok { return; }
      var attrOk, more := RotateAttr(attr);
      steps := steps + more;
      if !attrOk {
        ghost var undo := RestoreTable(was, next);
        return false, steps + undo;
      }
    }

    /** Writing a file that no reader looks at before it is renamed, or a certificate of the batch. */
    method WriteQuietly(id: FileId, c: Content, ghost f: Files, ghost v: int, ghost w: int)
      returns (ok: bool, ghost steps: seq<Files>)
      requires Quiet(f, files, v, w) && Writable(id, v, w)
      modifies this
      ensures trace == old(trace) + steps
      ensures faults >= old(faults) && (!ok ==> faults > old(faults))
      ensures AllQuiet(f, steps, v, w) && Quiet(f, files, v, w)
      ensures files == old(files)[id := if ok then c else Partial]
    {
      QuietUpdate(f, files, id, Partial, v, w);
      QuietUpdate(f, files, id, c, v, w);
      steps := [files[id := Partial]];
      ok := Write(id, c);
      steps := steps + [files];
    }

    /** The loop that writes the certificates (apps/ca.c:1097-1147). */
    method WriteCerts(ghost f: Files, v: int, w: int) returns (ok: bool, ghost steps: seq<Files>)
      requires v <= w && Quiet(f, files, v, w)
      modifies this
      ensures trace == old(trace) + steps
      ensures faults >= old(faults) && (!ok ==> faults > old(faults))
      ensures AllQuiet(f, steps, v, w) && Quiet(f, files, v, w)
      ensures SameNews(old(files), files)
      ensures ok ==> forall c :: v <= c < w ==> CertFile(c) in files
    {
      steps := [];
      ok := true;
      var n := v;
      while n < w
        invariant v <= n <= w && ok
        invariant trace == old(trace) + steps && faults >= old(faults)
        invariant AllQuiet(f, steps, v, w) && Quiet(f, files, v, w) && SameNews(old(files), files)
        invariant forall c :: v <= c < n ==> CertFile(c) in files
      {
        ghost var two;
        ok, two := WriteQuietly(CertFile(n), Number(n), f, v, w);
        steps := steps + two;
        if !ok { return; }
        n := n + 1;
      }
    }

    /** save_index (apps/lib/apps.c:1768-1813): the table and its attribute file, both under their new names. */
    method SaveIndex(rows: seq<Row>, unique: bool, ghost f: Files, ghost v: int, ghost w: int)
      returns (ok: bool, ghost steps: seq<Files>)
      requires Quiet(f, files, v, w)
      modifies this
      ensures trace == old(trace) + steps
      ensures faults >= old(faults) && (!ok ==> faults > old(faults))
      ensures AllQuiet(f, steps, v, w) && Quiet(f, files, v, w)
      ensures Get(files, SerialNew) == Get(old(files), SerialNew)
      ensures ok ==> Get(files, IndexNew) == Some(Table(rows)) && Get(files, AttrNew) == Some(Flag(unique))
    {
      ok, steps := WriteQuietly(IndexNew, Table(rows), f, v, w);
      if !ok { return; }
      ghost var two;
      ok, two := WriteQuietly(AttrNew, Flag(unique), f, v, w);
      steps := steps + two;
    }

    /** save_serial, save_index and the certificates (apps/ca.c:1083-1147). */
    method WriteBatch(rows: seq<Row>, v: int, w: int, unique: bool) returns (ok: bool, ghost steps: seq<Files>)
      requires v <= w
      modifies this
      ensures trace == old(trace) + steps
      ensures faults >= old(faults) && (!ok ==> faults > old(faults))
      ensures AllQuiet(old(files), steps, v, w) && Quiet(old(files), files, v, w)
      ensures ok ==> Get(files, SerialNew) == Some(Number(w)) && Get(files, IndexNew) == Some(Table(rows)) &&
                     Get(files, AttrNew) == Some(Flag(unique)) &&
                     forall c :: v <= c < w ==> CertFile(c) in files
    {
      ghost var f := files;
      ok, steps := WriteQuietly(SerialNew, Number(w), f, v, w);
      if !ok { return; }
      ghost var more;
      ok, more := SaveIndex(rows, unique, f, v, w);
      steps := steps + more;
      if !ok { return; }
      ok, more := WriteCerts(f, v, w);
      steps := steps + more;
    }

    /** save_index and rotate_index after -updatedb, -revoke or -valid (apps/ca.c:797-801, 1329-1333). */
    method SaveTable(ghost was: seq<Row>, rows: seq<Row>, unique: bool) returns (ok: bool, ghost steps: seq<Files>)
      requires Get(files, Index) == Some(Table(was))
      modifies this
      ensures trace == old(trace) + steps
      ensures faults >= old(faults) && (!ok ==> faults > old(faults))
      ensures forall s :: s in steps ==> TableSaveMoment(old(files), s, was, rows, unique)
      ensures TableSaveMoment(old(files), files, was, rows, unique)
      ensures ok ==> Get(files, Index) == Some(Table(rows)) && Get(files, Attr) == Some(Flag(unique))
    {
      ghost var f := files;
      ok, steps := SaveIndex(rows, unique, f, 0, 0);
      ghost var m := files;
      forall s | s in steps + [m] ensures TableSaveMoment(f, s, was, rows, unique) {
        IsTableSaveMoment(f, s, s, was, rows, unique);
      }
      if !ok { return; }
      assert Get(m, Index) == Get(f, Index);
      ghost var more;
      ok, more := RotateIndex(Table(was), Table(rows), Flag(unique));
      forall s | s in more + [files] ensures TableSaveMoment(f, s, was, rows, unique) {
        IsTableSaveMoment(f, m, s, was, rows, unique);
      }
      steps := steps + more;
    }

    /** The commit of a certified batch (apps/ca.c:1083-1159): whatever fails and wherever it stops, the
        index file holds all of the batch or none of it, and it never holds the batch before the
        serial file has moved past it. */
    method CommitBatch(ghost was: seq<Row>, rows: seq<Row>, v: int, w: int, unique: bool)
      returns (ok: bool, ghost steps: seq<Files>)
      requires v <= w && Get(files, Index) == Some(Table(was)) && Get(files, SerialFile) == Some(Number(v))
      modifies this
      ensures trace == old(trace) + steps
      ensures faults >= old(faults) && (!ok ==> faults > old(faults))
      ensures forall s :: s in steps ==> BatchMoment(old(files), s, was, rows, v, w, unique)
      ensures BatchMoment(old(files), files, was, rows, v, w, unique)
      ensures ok ==> Get(files, Index) == Some(Table(rows)) && Get(files, SerialFile) == Some(Number(w))
      ensures ok ==> Get(files, Attr) == Some(Flag(unique)) && forall c :: v <= c < w ==> CertFile(c) in files
    {
      ghost var f := files;
      ok, steps := WriteBatch(rows, v, w, unique);
      ghost var m := files;
      forall s | s in steps + [m] ensures BatchMoment(f, s, was, rows, v, w, unique) {
        QuietIsBatchMoment(f, s, was, rows, v, w, unique);
      }
      if !ok { return; }
      ghost var more;
      ok, more := RotateBatch(f, was, rows, v, w, unique);
      steps := steps + more;
    }

    /** The two rotations at the end of the commit (apps/ca.c:1149-1156). */
    method RotateBatch(ghost f: Files, ghost was: seq<Row>, ghost rows: seq<Row>, ghost v: int, ghost w: int,
                       ghost unique: bool) returns (ok: bool, ghost steps: seq<Files>)
      requires Quiet(f, files, v, w) && Get(f, Index) == Some(Table(was)) && Get(f, SerialFile) == Some(Number(v))
      requires Get(files, SerialNew) == Some(Number(w)) && Get(files, IndexNew) == Some(Table(rows)) &&
               Get(files, AttrNew) == Some(Flag(unique))
      modifies this
      ensures trace == old(trace) + steps
      ensures faults >= old(faults) && (!ok ==> faults > old(faults))
      ensures forall s :: s in steps ==> BatchMoment(f, s, was, rows, v, w, unique)
      ensures BatchMoment(f, files, was, rows, v, w, unique)
      ensures ok ==> Get(files, Index) == Some(Table(rows)) && Get(files, SerialFile) == Some(Number(w))
      ensures ok ==> Get(files, Attr) == Some(Flag(unique)) && CertsKept(old(files), files)
    {
      ghost var m := files;
      assert Get(m, Index) == Get(f, Index) && Get(m, SerialFile) == Get(f, SerialFile);
      ok, steps := RotateSerial(Number(v), Number(w));
      ghost var m2 := files;
      forall s | s in steps + [m2] ensures BatchMoment(f, s, was, rows, v, w, unique) {
        SerialIsBatchMoment(f, m, s, was, rows, v, w, unique);
      }
      if !ok { return; }
      assert Get(m2, Index) == Get(m, Index) && Get(m2, IndexNew) == Get(m, IndexNew);
      assert Get(m2, AttrNew) == Get(m, AttrNew);
      ghost var last;
      ok, last := RotateIndex(Table(was), Table(rows), Flag(unique));
      forall s | s in last + [files] ensures BatchMoment(f, s, was, rows, v, w, unique) {
        IndexIsBatchMoment(f, m, m2, s, was, rows, v, w, unique);
      }
      assert forall c :: Get(files, CertFile(c)) == Get(m2, CertFile(c)) == Get(m, CertFile(c));
      steps := steps + last;
    }
  }
}
