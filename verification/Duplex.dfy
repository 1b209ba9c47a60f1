/** The in-memory byte channel between two benchmark connections (benchmark/openssl-bench/bench.cc). */
module Duplex {
  import opened Base
  import opened Crypt64

  const CHUNK := 262144

  class Conn {
    /** m_read_buffer. */
    var readBuffer: seq<byte>
    /** What the memory BIO over m_read_buffer still has to give; the BIO borrows the vector's storage. */
    var readable: seq<byte>
    /** Whether that BIO has been installed since the vector last changed. */
    var installed: bool
    /** The contents of m_writes_to. */
    var pending: seq<byte>
    /** Everything the TLS engine has taken from the read BIO. */
    ghost var consumed: seq<byte>

    /** The BIO is fresh and what it still has is the end of the vector. */
    ghost predicate Valid()
      reads this
    {
      installed && |readable| <= |readBuffer| && readBuffer[|readBuffer| - |readable|..] == readable
    }

    constructor ()
      ensures Valid() && pending == [] && readable == [] && consumed == []
    {
      readBuffer, readable, pending, consumed, installed := [], [], [], [], true;
    }

    /** install_read_bio (bench.cc:200-208). */
    method InstallReadBio()
      modifies this`readable, this`installed
      ensures installed && readable == readBuffer
    {
      readable, installed := readBuffer, true;
    }

    /** drop_read_bytes (bench.cc:273-282): the vector is cut to what the BIO has left, and the BIO goes stale. */
    method DropReadBytes()
      requires Valid()
      modifies this`readBuffer, this`installed
      ensures readBuffer == readable && !installed
    {
      var oldLen := |readable|;
      var used := |readBuffer| - oldLen;
      readBuffer, installed := readBuffer[used..], false;
    }

    /** transfer_to (bench.cc:248-271): everything pending arrives behind what the peer has not read yet. */
    method TransferTo(other: Conn)
      requires this != other && other.Valid()
      modifies this`pending, other`readBuffer, other`readable, other`installed
      ensures other.Valid() && pending == []
      ensures other.readable == old(other.readable) + old(pending)
    {
      var newBytes := false;
      while pending != []
        invariant !newBytes ==> pending == old(pending) && other.Valid() && other.readable == old(other.readable)
        invariant newBytes ==> !other.installed
        invariant newBytes ==> other.readBuffer + pending == old(other.readable) + old(pending)
        decreases |pending|
      {
        var n := Min(CHUNK, |pending|);
        var buf := pending[..n];
        if !newBytes {
          other.DropReadBytes();
          newBytes := true;
        }
        assert pending == buf + pending[n..];
        assert other.readBuffer + pending == other.readBuffer + buf + pending[n..];
        pending := pending[n..];
        other.readBuffer := other.readBuffer + buf;
      }
      if newBytes {
        assert other.readBuffer + pending == other.readBuffer;
        other.InstallReadBio();
      }
    }

    /** The TLS engine writing to the write BIO, as in write, connect or accept. */
    method Produce(bytes: seq<byte>)
      modifies this`pending
      ensures pending == old(pending) + bytes
    {
      pending := pending + bytes;
    }

    /** The TLS engine reading from the read BIO, which must not be stale; it gets at most what is there. */
    method Consume(n: nat) returns (bytes: seq<byte>)
      requires Valid()
      modifies this`readable, this`consumed
      ensures Valid() && bytes == old(readable)[..Min(n, |old(readable)|)]
      ensures readable == old(readable)[|bytes|..] && consumed == old(consumed) + bytes
    {
      var k := Min(n, |readable|);
      bytes := readable[..k];
      readable, consumed := readable[k..], consumed + bytes;
    }
  }

  datatype Op = Write(first: bool, bytes: seq<byte>) | Read(first: bool, n: nat) | Transfer(first: bool)

  /** One direction: what the receiver has consumed, what it can still read, what has not been handed over. */
  datatype Wire = Wire(consumed: seq<byte>, readable: seq<byte>, pending: seq<byte>)

  function Stepped(w: Wire, op: Op, fromFirst: bool): Wire {
    match op
    case Write(first, bytes) =>
      if first == fromFirst then w.(pending := w.pending + bytes) else w
    case Transfer(first) =>
      if first == fromFirst then Wire(w.consumed, w.readable + w.pending, []) else w
    case Read(first, n) =>
      if first == fromFirst then w else
      var k := Min(n, |w.readable|);
      Wire(w.consumed + w.readable[..k], w.readable[k..], w.pending)
  }

  function After(ops: seq<Op>, fromFirst: bool): Wire {
    if ops == [] then Wire([], [], []) else
    Stepped(After(ops[..|ops| - 1], fromFirst), ops[|ops| - 1], fromFirst)
  }

  /** All the bytes one end has written, in order. */
  function Written(ops: seq<Op>, byFirst: bool): seq<byte> {
    if ops == [] then [] else
    Written(ops[..|ops| - 1], byFirst) + Gained(ops[|ops| - 1], byFirst)
  }

  /** Whatever the interleaving, nothing is lost, duplicated or reordered. */
  lemma {:induction false} Conserved(ops: seq<Op>, fromFirst: bool)
    ensures Carried(After(ops, fromFirst)) == Written(ops, fromFirst)
  {
    if ops != [] {
      Conserved(ops[..|ops| - 1], fromFirst);
      StepConserves(After(ops[..|ops| - 1], fromFirst), ops[|ops| - 1], fromFirst);
    }
  }

  /** What an operation adds to a direction. */
  function Gained(op: Op, fromFirst: bool): seq<byte> {
    if op.Write? && op.first == fromFirst then op.bytes else []
  }

  function Carried(w: Wire): seq<byte> { w.consumed + w.readable + w.pending }

  lemma {:induction false} StepConserves(w: Wire, op: Op, fromFirst: bool)
    ensures Carried(Stepped(w, op, fromFirst)) == Carried(w) + Gained(op, fromFirst)
  {
    var v := Stepped(w, op, fromFirst);
    if op.Write? && op.first == fromFirst {
      assert w.consumed + w.readable + (w.pending + op.bytes) == w.consumed + w.readable + w.pending + op.bytes;
    } else {
      assert Carried(w) + [] == Carried(w);
      if op.Read? { ReadConserves(w, op.n); } else { TransferConserves(w); }
    }
  }

  lemma {:induction false} ReadConserves(w: Wire, n: nat)
    ensures var k := Min(n, |w.readable|);
            Carried(Wire(w.consumed + w.readable[..k], w.readable[k..], w.pending)) == Carried(w)
  {
    var k := Min(n, |w.readable|);
    assert w.readable == w.readable[..k] + w.readable[k..];
    assert w.consumed + w.readable[..k] + w.readable[k..] == w.consumed + w.readable;
  }

  lemma {:induction false} TransferConserves(w: Wire)
    ensures Carried(Wire(w.consumed, w.readable + w.pending, [])) == Carried(w)
  {
    assert w.consumed + (w.readable + w.pending) + [] == w.consumed + w.readable + w.pending;
  }

  /** The direction from a to b, as the two connections hold it. */
  ghost function Between(a: Conn, b: Conn): Wire
    reads a, b
  {
    Wire(b.consumed, b.readable, a.pending)
  }

  /** One operation on either end does its step on both directions, and no read BIO is left stale. */
  method Perform(a: Conn, b: Conn, op: Op)
    requires a != b && a.Valid() && b.Valid()
    modifies a, b
    ensures a.Valid() && b.Valid()
    ensures Between(a, b) == Stepped(old(Between(a, b)), op, true)
    ensures Between(b, a) == Stepped(old(Between(b, a)), op, false)
  {
    match op {
      case Write(first, bytes) =>
        if first { a.Produce(bytes); } else { b.Produce(bytes); }
      case Read(first, n) =>
        if first { var _ := a.Consume(n); } else { var _ := b.Consume(n); }
      case Transfer(first) =>
        if first { a.TransferTo(b); } else { b.TransferTo(a); }
    }
  }

  /** Any interleaving of writes, reads and transfers on two fresh connections. */
  method RunAll(ops: seq<Op>) returns (a: Conn, b: Conn)
    ensures a.Valid() && b.Valid()
    ensures Between(a, b) == After(ops, true) && Between(b, a) == After(ops, false)
  {
    a := new Conn();
    b := new Conn();
    var i := 0;
    while i < |ops|
      invariant 0 <= i <= |ops| && a != b && a.Valid() && b.Valid()
      invariant Between(a, b) == After(ops[..i], true) && Between(b, a) == After(ops[..i], false)
    {
      assert ops[..i + 1][..i] == ops[..i];
      Perform(a, b, ops[i]);
      i := i + 1;
    }
    assert ops[..i] == ops;
  }
}
