/** The buffered connection under the WebSocket session: a reader fed by arbitrary chunks, and a
    writer over a connection that stops taking bytes at an arbitrary point. */
module WsConn {
  import opened Bytes

  /** `copy` of the first `n` bytes of `from` to `buf[at..]`. */
  method CopyBytes(from: Octets, n: nat, buf: array<Byte>, at: nat)
    requires n <= |from| && at + n <= buf.Length
    modifies buf
    ensures buf[..at] == old(buf[..at]) && buf[at..at + n] == from[..n]
  {
    for i := 0 to n
      invariant buf[..at] == old(buf[..at])
      invariant buf[at..at + i] == from[..i]
    {
      buf[at + i] := from[i];
    }
  }

  /** `bufio.Reader` over a connection that delivers `incoming` chunk by chunk and then ends, by a
      close or an error. A chunk may be empty. */
  class ChunkReader {
    var buffered: Octets
    var incoming: seq<Octets>

    constructor (chunks: seq<Octets>)
      ensures Remaining() == Flatten(chunks)
    {
      buffered, incoming := [], chunks;
    }

    /** Everything the stream will still deliver; how it is cut into chunks is not visible here. */
    ghost function Remaining(): Octets
      reads this
    {
      buffered + Flatten(incoming)
    }

    /** Buffers the next chunk. */
    method Refill()
      requires buffered == [] && incoming != []
      modifies this
      ensures Remaining() == old(Remaining()) && |incoming| < |old(incoming)|
    {
      buffered, incoming := incoming[0], incoming[1..];
    }

    /** One `Read` into `buf[at..]`: hands over what is buffered, refilling once when empty. */
    method Read(buf: array<Byte>, at: nat) returns (n: nat, eof: bool)
      requires at < buf.Length
      modifies this, buf
      ensures at + n <= buf.Length && buf[..at] == old(buf[..at])
      ensures old(Remaining()) == buf[at..at + n] + Remaining()
      ensures eof ==> n == 0 && Remaining() == []
      ensures !eof ==> n > 0 || |incoming| < |old(incoming)|
      ensures |incoming| <= |old(incoming)|
    {
      FlattenNone<Byte>();
      hide Flatten;
      if buffered == [] {
        if incoming == [] {
          return 0, true;
        }
        Refill();
      }
      n := if |buffered| < buf.Length - at then |buffered| else buf.Length - at;
      eof := false;
      CopyBytes(buffered, n, buf, at);
      Reassociate(buffered[..n], buffered[n..], Flatten(incoming));
      buffered := buffered[n..];
    }

    /** `io.ReadFull`: fills `buf`, or reports that the stream ended first. */
    method ReadFull(buf: array<Byte>) returns (ok: bool)
      modifies this, buf
      ensures ok == (|old(Remaining())| >= buf.Length)
      ensures ok ==> old(Remaining()) == buf[..] + Remaining()
      ensures !ok ==> Remaining() == []
    {
      hide Flatten;
      var n: nat, eof := 0, false;
      while n < buf.Length && !eof
        invariant n <= buf.Length
        invariant old(Remaining()) == buf[..n] + Remaining()
        invariant eof ==> n < buf.Length && Remaining() == []
        decreases buf.Length - n + |incoming|, !eof
      {
        ghost var had := buf[..n];
        var m;
        m, eof := Read(buf, n);
        Reassociate(had, buf[n..n + m], Remaining());
        assert buf[..n + m] == buf[..n] + buf[n..n + m];
        n := n + m;
      }
      ok := n == buf.Length;
      assert ok ==> buf[..n] == buf[..];
    }
  }

  /** `bufio.Writer` over a connection that accepts `capacity` bytes in all and then fails for good. */
  class ConnWriter {
    const capacity: nat
    var wire: Octets
    var pending: Octets
    var broken: bool

    /** Every byte handed to `Write` so far. */
    ghost var log: Octets

    const SIZE: nat := 4096

    constructor (capacity: nat)
      ensures Valid() && this.capacity == capacity && log == wire == pending == [] && !broken
    {
      this.capacity := capacity;
      wire, pending, broken, log := [], [], false, [];
    }

    /** What is on the wire is what the connection had room for of what was written: all of it up to
        what is still pending, or the first `capacity` bytes once the connection has failed. */
    ghost predicate Valid()
      reads this
    {
      && |pending| <= SIZE
      && (!broken ==> |wire| <= capacity && wire + pending == log)
      && (broken ==> capacity < |log| && wire == log[..capacity])
    }

    /** One `Write` on the connection, which may take only part of `bs`. */
    method Transmit(bs: Octets)
      requires !broken && |wire| <= capacity
      modifies this`wire, this`broken
      ensures !broken ==> wire == old(wire) + bs && |wire| <= capacity
      ensures broken ==> capacity < |old(wire) + bs| && wire == (old(wire) + bs)[..capacity]
    {
      var n := if |bs| <= capacity - |wire| then |bs| else capacity - |wire|;
      wire := wire + bs[..n];
      broken := n < |bs|;
    }

    method Flush() returns (ok: bool)
      requires Valid()
      modifies this`wire, this`broken, this`pending
      ensures Valid() && ok == !broken
      ensures ok ==> wire == log && pending == []
      ensures !ok ==> pending == old(pending)
      ensures old(broken) ==> broken
    {
      if broken {
        return false;
      }
      if pending != [] {
        Transmit(pending);
        if broken {
          return false;
        }
        pending := [];
      }
      return true;
    }

    /** A large write skips the empty buffer. */
    method Direct(bs: Octets)
      requires Valid() && !broken && pending == []
      modifies this`wire, this`broken, this`log
      ensures Valid() && log == old(log) + bs
    {
      log := log + bs;
      Transmit(bs);
    }

    method Buffer(bs: Octets)
      requires Valid() && !broken && |pending| + |bs| <= SIZE
      modifies this`pending, this`log
      ensures Valid() && log == old(log) + bs && pending == old(pending) + bs
    {
      log := log + bs;
      pending := pending + bs;
    }

    method Write(p: Octets) returns (ok: bool)
      requires Valid()
      modifies this
      ensures Valid() && ok == !broken
      ensures log == old(log) + p
      ensures old(broken) ==> broken
    {
      var rest := p;
      while |rest| > SIZE - |pending| && !broken
        invariant Valid() && (old(broken) ==> broken)
        invariant log + rest == old(log) + p
        decreases |rest|, |pending|, !broken
      {
        if pending == [] {
          Direct(rest);
          rest := [];
        } else {
          var n := SIZE - |pending|;
          Buffer(rest[..n]);
          rest := rest[n..];
          var _ := Flush();
        }
      }
      if broken {
        log := log + rest;
        return false;
      }
      Buffer(rest);
      return true;
    }
  }
}
