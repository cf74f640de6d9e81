/** Request capture: the bounded buffer, and the middleware that peeks at a body and puts it back. */
module Capture {
  import opened Bytes
  import opened WsConn

  /** What is kept of a request's body, 1 MiB; the response envelope echoes as much. */
  const MAX_BODY: nat := 0x10_0000

  datatype Entry = Entry(verb: string, path: string, body: Octets, truncated: bool)

  // ---- the buffer -------------------------------------------------------------------

  function LastN<T>(s: seq<T>, n: nat): (r: seq<T>)
    ensures |r| == if |s| < n then |s| else n
  {
    if |s| <= n then s else s[|s| - n..]
  }

  /** `r` holds the newest of `s`, at most `n` of them, oldest first. */
  ghost predicate Newest<T>(r: seq<T>, s: seq<T>, n: nat) {
    && |r| == (if |s| < n then |s| else n)
    && forall i :: 0 <= i < |r| ==> r[i] == s[|s| - |r| + i]
  }

  lemma LastNIs<T>(s: seq<T>, n: nat)
    ensures Newest(LastN(s, n), s, n)
  {
  }

  lemma LastNStep<T>(s: seq<T>, x: T, n: nat)
    requires n >= 1
    ensures LastN(s + [x], n) == LastN(LastN(s, n) + [x], n)
  {
  }

  /** A fixed-capacity FIFO. Its entries are the slice of `len` elements at `start` of an array that
      grows by being copied, and that appending writes to in place while there is room. */
  class Buffer {
    const max: nat
    var data: array<Entry>
    var start: nat
    var len: nat

    /** Everything added since the last clear. */
    ghost var history: seq<Entry>

    ghost predicate Valid()
      reads this, data
    {
      max >= 1 && start + len <= data.Length && Entries() == LastN(history, max)
    }

    ghost function Entries(): seq<Entry>
      reads this, data
      requires start + len <= data.Length
    {
      data[start..start + len]
    }

    constructor (max: int)
      ensures Valid() && fresh(data) && history == [] && this.max == if max < 1 then 1 else max
    {
      this.max := if max < 1 then 1 else max;
      data, start, len, history := new Entry[0], 0, 0, [];
    }

    /** Moves the slice to an array of its own with room to spare. */
    method Grow()
      requires start + len <= data.Length
      modifies this`data, this`start
      ensures fresh(data) && start + len < data.Length && Entries() == old(Entries())
    {
      var spare: int :| spare >= 0;
      var grown := new Entry[len + 1 + spare];
      for i := 0 to len
        modifies grown
        invariant grown[..i] == Entries()[..i]
      {
        grown[i] := data[start + i];
      }
      data, start := grown, 0;
    }

    /** `append`: in place while the array has room, else into a copy with room to spare. */
    method Append(e: Entry)
      requires start + len <= data.Length
      modifies this`data, this`start, this`len, data
      ensures start + len <= data.Length && Entries() == old(Entries()) + [e]
      ensures data == old(data) || fresh(data)
    {
      if start + len == data.Length {
        Grow();
      }
      data[start + len] := e;
      len := len + 1;
    }

    /** Reslices to the last `max` entries. */
    method Evict()
      requires start + len <= data.Length
      modifies this`start, this`len
      ensures start + len <= data.Length && Entries() == LastN(old(Entries()), max)
    {
      if len > max {
        start, len := start + (len - max), max;
        assert Entries() == old(Entries())[old(len) - max..];
      }
    }

    method Add(e: Entry)
      requires Valid()
      modifies this, data
      ensures Valid() && history == old(history) + [e]
      ensures data == old(data) || fresh(data)
    {
      hide LastN;
      Append(e);
      Evict();
      LastNStep(history, e, max);
      history := history + [e];
    }

    /** A copy of its own, which later changes to the buffer leave alone: the newest entries, at most
        `max` of them, oldest first. */
    method All() returns (out: array<Entry>)
      requires Valid()
      ensures fresh(out) && out[..] == LastN(history, max)
      ensures Newest(out[..], history, max)
    {
      hide LastN, Newest;
      LastNIs(history, max);
      out := new Entry[len];
      for i := 0 to len
        invariant out[..i] == Entries()[..i]
      {
        out[i] := data[start + i];
      }
    }

    method Clear()
      requires Valid()
      modifies this
      ensures Valid() && fresh(data) && history == []
    {
      data, start, len, history := new Entry[0], 0, 0, [];
    }
  }

  datatype BufferOp = Adds(e: Entry) | Clears

  /** The entries added since the last clear, once a run of operations has followed `history`. */
  function Since(history: seq<Entry>, ops: seq<BufferOp>): seq<Entry> {
    if ops == [] then history
    else match ops[|ops| - 1]
      case Adds(e) => Since(history, ops[..|ops| - 1]) + [e]
      case Clears => []
  }

  /** One run of operations. */
  method Perform(b: Buffer, ops: seq<BufferOp>)
    requires b.Valid()
    modifies b, b.data
    ensures b.Valid() && b.history == Since(old(b.history), ops)
    ensures b.data == old(b.data) || fresh(b.data)
  {
    for i := 0 to |ops|
      invariant b.Valid() && b.history == Since(old(b.history), ops[..i])
      invariant b.data == old(b.data) || fresh(b.data)
    {
      assert ops[..i + 1][..i] == ops[..i];
      match ops[i]
      case Adds(e) => b.Add(e);
      case Clears => b.Clear();
    }
    assert ops[..|ops|] == ops;
  }

  /** From any state, over any run of operations, the buffer holds the last `max` entries added since
      the last clear, oldest first; and a snapshot taken anywhere in the run still holds, at its end,
      what the buffer held when it was taken. */
  method RunBuffer(b: Buffer, before: seq<BufferOp>, after: seq<BufferOp>) returns (snapshot: array<Entry>)
    requires b.Valid()
    modifies b, b.data
    ensures b.Valid() && b.Entries() == LastN(Since(old(b.history), before + after), b.max)
    ensures snapshot[..] == LastN(Since(old(b.history), before), b.max)
    ensures Newest(b.Entries(), Since(old(b.history), before + after), b.max)
    ensures Newest(snapshot[..], Since(old(b.history), before), b.max)
  {
    hide LastN, Newest;
    Perform(b, before);
    LastNIs(b.history, b.max);
    snapshot := b.All();
    Perform(b, after);
    SinceConcat(old(b.history), before, after);
    LastNIs(b.history, b.max);
  }

  lemma {:induction false} SinceConcat(history: seq<Entry>, before: seq<BufferOp>, after: seq<BufferOp>)
    ensures Since(history, before + after) == Since(Since(history, before), after)
  {
    if after == [] {
      assert before + after == before;
    } else {
      var n := |after| - 1;
      SinceConcat(history, before, after[..n]);
      assert (before + after)[..|before| + n] == before + after[..n];
    }
  }

  // ---- bodies -------------------------------------------------------------------------

  /** `io.MultiReader` over bytes already read and the reader they came from. */
  class ReplayReader {
    var front: Octets
    const back: ChunkReader

    constructor (front: Octets, back: ChunkReader)
      ensures this.front == front && this.back == back
    {
      this.front, this.back := front, back;
    }

    ghost function Remaining(): Octets
      reads this, back
    {
      front + back.Remaining()
    }

    /** Room left to fill and chunks left to take, for termination of read loops. */
    ghost function Chunks(): nat
      reads this, back
    {
      |back.incoming|
    }

    method Read(buf: array<Byte>) returns (n: nat, eof: bool)
      requires buf.Length > 0
      modifies this, back, buf
      ensures n <= buf.Length
      ensures old(Remaining()) == buf[..n] + Remaining()
      ensures eof ==> n == 0 && Remaining() == []
      ensures !eof ==> n > 0 || Chunks() < old(Chunks())
      ensures Chunks() <= old(Chunks())
    {
      if front == [] {
        n, eof := back.Read(buf, 0);
        assert buf[0..n] == buf[..n];
        return;
      }
      n := if |front| < buf.Length then |front| else buf.Length;
      eof := false;
      CopyBytes(front, n, buf, 0);
      assert buf[0..n] == buf[..n];
      Reassociate(front[..n], front[n..], back.Remaining());
      front := front[n..];
    }
  }

  /** One read into a buffer of `size` bytes. */
  method ReadPiece(r: ReplayReader, size: nat) returns (piece: Octets, eof: bool)
    requires size > 0
    modifies r, r.back
    ensures |piece| <= size && old(r.Remaining()) == piece + r.Remaining()
    ensures eof ==> piece == [] && r.Remaining() == []
    ensures !eof ==> piece != [] || r.Chunks() < old(r.Chunks())
    ensures r.Chunks() <= old(r.Chunks())
  {
    var buf := new Byte[size];
    var n;
    n, eof := r.Read(buf);
    piece := buf[..n];
  }

  /** `io.ReadAll` over an `io.LimitReader`: stops at the limit or the end, whatever the chunks. */
  method ReadLimited(r: ReplayReader, limit: nat) returns (got: Octets)
    modifies r, r.back
    ensures got == Take(old(r.Remaining()), limit)
    ensures old(r.Remaining()) == got + r.Remaining()
  {
    got := [];
    var eof := false;
    while |got| < limit && !eof
      invariant |got| <= limit
      invariant old(r.Remaining()) == got + r.Remaining()
      invariant eof ==> r.Remaining() == []
      decreases limit - |got| + r.Chunks(), !eof
    {
      var piece;
      piece, eof := ReadPiece(r, if limit - |got| < 512 then limit - |got| else 512);
      Reassociate(got, piece, r.Remaining());
      got := got + piece;
    }
  }

  /** A handler reading its body in pieces of any sizes: what it gets, then what is left, is the body. */
  method ReadPieces(r: ReplayReader, sizes: seq<nat>) returns (got: Octets)
    modifies r, r.back
    ensures old(r.Remaining()) == got + r.Remaining()
  {
    got := [];
    for i := 0 to |sizes|
      invariant old(r.Remaining()) == got + r.Remaining()
    {
      if sizes[i] > 0 {
        var piece, _ := ReadPiece(r, sizes[i]);
        Reassociate(got, piece, r.Remaining());
        got := got + piece;
      }
    }
  }

  /** The entry a body leaves. */
  function Captured(verb: string, path: string, body: Octets): Entry {
    Entry(verb, path, if |body| > 0x10_0000 then body[..0x10_0000] else body, |body| > 0x10_0000)
  }

  /** One byte past the cap tells whether there is more. */
  lemma Capped(all: Octets, peek: Octets, max: nat)
    requires peek == Take(all, max + 1)
    ensures |peek| > max <==> |all| > max
    ensures (if |all| > max then all[..max] else all) == if |peek| > max then peek[..max] else peek
  {
  }

  /** `Middleware` up to the call of the next handler: peeks one byte past the cap, stores an entry, and
      hands on a body that still delivers every byte. */
  method Peek(buf: Buffer, verb: string, path: string, body: ReplayReader) returns (next: ReplayReader)
    requires buf.Valid() && body.front == []
    modifies buf, buf.data, body, body.back
    ensures buf.Valid() && buf.history == old(buf.history) + [Captured(verb, path, old(body.Remaining()))]
    ensures fresh(next) && next.back == body.back && next.Remaining() == old(body.Remaining())
  {
    hide LastN, Take;
    ghost var all := body.Remaining();
    var peek := ReadLimited(body, MAX_BODY + 1);
    var truncated := |peek| > MAX_BODY;
    var stored := peek;
    if truncated {
      stored := peek[..MAX_BODY];
    }
    Capped(all, peek, MAX_BODY);
    next := new ReplayReader(peek + body.front, body.back);
    buf.Add(Entry(verb, path, stored, truncated));
  }

  /** The body the response envelope echoes is the body captured, and the rest of it is still there to
      read. */
  method CaptureThenEcho(buf: Buffer, verb: string, path: string, body: ReplayReader) returns (echo: Octets, next: ReplayReader)
    requires buf.Valid() && body.front == []
    modifies buf, buf.data, body, body.back
    ensures buf.Valid() && |buf.history| == |old(buf.history)| + 1
    ensures echo == buf.history[|buf.history| - 1].body
    ensures echo + next.Remaining() == old(body.Remaining())
    ensures buf.history[|buf.history| - 1].truncated <==> next.Remaining() != []
  {
    next := Peek(buf, verb, path, body);
    echo := ReadLimited(next, MAX_BODY);
  }
}
