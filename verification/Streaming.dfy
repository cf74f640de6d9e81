/** Exact-size streaming: `writeExactBytes`, `handleStreamBytes` and `handleDrip`. */
module Streaming {
  import opened Options
  import opened Bytes
  import opened Decimal

  /** Bytes per chunk of a synthetic payload. */
  const CHUNK: nat := 32 * 1024

  const MAX_SYNTHETIC: nat := 0x4000_0000

  const MAX_DRIP: nat := 0x10_0000

  // ---- the parts a stream is made of ---------------------------------------------------

  /** A seeded generator: a fixed infinite stream, read from a position. */
  class Rng {
    const stream: nat -> Byte
    var pos: nat

    constructor (stream: nat -> Byte)
      ensures this.stream == stream && pos == 0
    {
      this.stream, pos := stream, 0;
    }

    /** Fills `buf[..size]` with the next bytes of the stream. */
    method Fill(buf: array<Byte>, size: nat)
      requires size <= buf.Length
      modifies this`pos, buf
      ensures pos == old(pos) + size && buf[..size] == Window(stream, old(pos), size)
    {
      for i := 0 to size
        modifies buf
        invariant buf[..i] == Window(stream, pos, i)
      {
        buf[i] := stream(pos + i);
      }
      pos := pos + size;
    }
  }

  function Window(stream: nat -> Byte, start: nat, n: nat): (r: Octets)
    ensures |r| == n
  {
    seq(n, i requires 0 <= i < n => stream(start + i))
  }

  lemma WindowSlice(stream: nat -> Byte, n: nat, start: nat, k: nat)
    requires start + k <= n
    ensures Window(stream, 0, n)[start..start + k] == Window(stream, start, k)
  {
  }

  function Zero(i: nat): Byte { 0 }

  /** A response body over a connection that takes `room` bytes and then fails. */
  class Sink {
    var body: Octets
    var room: nat
    var sizes: seq<nat>

    constructor (room: nat)
      ensures body == [] && this.room == room && sizes == []
    {
      body, this.room, sizes := [], room, [];
    }

    method Write(p: Octets) returns (ok: bool)
      modifies this
      ensures ok == (|p| <= old(room))
      ensures body == old(body) + Take(p, old(room)) && room == old(room) - |Take(p, old(room))|
      ensures sizes == old(sizes) + [|p|]
    {
      var taken := Take(p, room);
      ok := |taken| == |p|;
      body, room, sizes := body + taken, room - |taken|, sizes + [|p|];
    }
  }

  function Minimum(a: nat, b: nat): nat { if a < b then a else b }

  /** The sizes of the pieces of `n` bytes cut `size` at a time. */
  function Pieces(n: nat, size: nat): (r: seq<nat>)
    requires size > 0
  {
    if n == 0 then [] else [Minimum(size, n)] + Pieces(n - Minimum(size, n), size)
  }

  function Sum(ns: seq<int>): int {
    if ns == [] then 0 else Sum(ns[..|ns| - 1]) + ns[|ns| - 1]
  }

  /** There are as few pieces as cover `n`, ceil(n / size) of them, none over `size`, and only the last
      can be under it. */
  lemma {:induction false} PiecesCount(n: nat, size: nat)
    requires size > 0
    ensures var c := |Pieces(n, size)|; n <= c * size && (c > 0 ==> (c - 1) * size < n)
    ensures forall i :: 0 <= i < |Pieces(n, size)| ==> 0 < Pieces(n, size)[i] <= size
    ensures forall i :: 0 <= i < |Pieces(n, size)| - 1 ==> Pieces(n, size)[i] == size
    decreases n
  {
    if n > 0 {
      var rest := n - Minimum(size, n);
      PiecesCount(rest, size);
      var c := |Pieces(rest, size)|;
      assert (c + 1) * size == c * size + size && c * size == (c - 1) * size + size;
      assert rest == 0 ==> c == 0;
      assert c == 0 ==> rest == 0;
    }
  }

  // ---- writeExactBytes -------------------------------------------------------------------

  /** The shared zero chunk, cut to what remains. */
  function ZeroChunkNext(remaining: nat): Octets {
    Window(Zero, 0, Minimum(CHUNK, remaining))
  }

  /** The seeded closure of `handleBytes`, over its reused buffer. */
  method SeededNext(rng: Rng, buf: array<Byte>, remaining: nat) returns (chunk: Octets)
    requires buf.Length == CHUNK
    modifies rng, buf
    ensures chunk == Window(rng.stream, old(rng.pos), Minimum(CHUNK, remaining))
    ensures rng.pos == old(rng.pos) + |chunk|
  {
    var size := CHUNK;
    if remaining < size {
      size := remaining;
    }
    rng.Fill(buf, size);
    chunk := buf[..size];
  }

  /** The bytes a request asks for: a seeded stream from its start, or zeros. */
  function Content(seed: Option<nat -> Byte>, n: nat): (r: Octets)
    ensures |r| == n
  {
    match seed case None => Window(Zero, 0, n) case Some(stream) => Window(stream, 0, n)
  }

  /** Byte by byte what that is. */
  lemma ContentBytes(seed: Option<nat -> Byte>, stream: nat -> Byte, start: nat, n: nat)
    ensures forall i :: 0 <= i < n ==> Content(seed, n)[i] == match seed case None => 0 case Some(s) => s(i)
    ensures forall i :: 0 <= i < n ==> Window(stream, start, n)[i] == stream(start + i)
  {
    forall i | 0 <= i < n ensures Content(seed, n)[i] == match seed case None => 0 case Some(s) => s(i) {
      assert Zero(0 + i) == 0;
    }
  }

  /** A smaller body with the same seed is a prefix of a larger one. */
  lemma SmallerIsPrefix(seed: Option<nat -> Byte>, m: nat, n: nat)
    requires m <= n
    ensures Content(seed, m) <= Content(seed, n)
  {
  }

  /** Writing the next chunk of `ideal` over a connection with `room` for it in all. */
  lemma TakeMore(ideal: Octets, sent: nat, chunk: Octets, room: nat)
    requires sent + |chunk| <= |ideal| && sent <= room && chunk == ideal[sent..sent + |chunk|]
    ensures ideal[..sent] + Take(chunk, room - sent)
         == if sent + |chunk| <= room then ideal[..sent + |chunk|] else Take(ideal, room)
  {
  }

  lemma TakeAll(ideal: Octets, room: nat)
    ensures Take(ideal, room) <= ideal && ideal[..|ideal|] == ideal
    ensures |ideal| <= room ==> Take(ideal, room) == ideal
  {
  }

  /** `sent` bytes of `ideal` are out, over a connection that had `room` at the start. */
  ghost predicate Sent(w: Sink, ideal: Octets, sent: nat, room: nat)
    reads w
  {
    sent <= |ideal| && sent <= room && w.room == room - sent && w.body == ideal[..sent]
  }

  /** Sends the next chunk of `ideal`. */
  method SendChunk(w: Sink, chunk: Octets, ghost ideal: Octets, ghost sent: nat, ghost room: nat) returns (ok: bool)
    requires Sent(w, ideal, sent, room) && sent + |chunk| <= |ideal| && chunk == ideal[sent..sent + |chunk|]
    modifies w
    ensures ok == (sent + |chunk| <= room)
    ensures ok ==> Sent(w, ideal, sent + |chunk|, room)
    ensures !ok ==> w.body == Take(ideal, room)
    ensures w.sizes == old(w.sizes) + [|chunk|]
  {
    TakeMore(ideal, sent, chunk, room);
    ok := w.Write(chunk);
  }

  /** The next chunk of a payload of `n`, by whichever source. */
  method NextChunk(rng: Rng, buf: array<Byte>, seeded: bool, n: nat, remaining: nat) returns (chunk: Octets)
    requires buf.Length == CHUNK && 0 < remaining <= n
    requires if seeded then rng.pos == n - remaining else rng.stream == Zero
    modifies rng, buf
    ensures seeded ==> rng.pos == old(rng.pos) + |chunk|
    ensures |chunk| == Minimum(CHUNK, remaining)
    ensures chunk == Window(rng.stream, 0, n)[n - remaining..n - remaining + |chunk|]
  {
    hide Window;
    if seeded {
      chunk := SeededNext(rng, buf, remaining);
    } else {
      chunk := ZeroChunkNext(remaining);
      ZerosAlike(n - remaining, |chunk|);
    }
    WindowSlice(rng.stream, n, n - remaining, |chunk|);
  }

  /** `writeExactBytes`: the client gets the first `room` bytes of exactly `n`, in chunks within the
      limit. */
  method WriteExactBytes(w: Sink, n: nat, seed: Option<nat -> Byte>)
    requires w.body == [] && w.sizes == []
    modifies w
    ensures w.body == Take(Content(seed, n), old(w.room))
    ensures w.sizes <= Pieces(n, 0x8000)
    ensures n <= old(w.room) ==> w.sizes == Pieces(n, 0x8000)
  {
    hide Window, Content, Pieces, Take;
    var rng := new Rng(match seed case None => Zero case Some(stream) => stream);
    var buf := new Byte[CHUNK];
    ghost var stream, room := rng.stream, w.room;
    ghost var ideal := Window(stream, 0, n);
    TakeAll(ideal, room);
    ContentIs(seed, n);
    PiecesNone(CHUNK);
    var remaining: nat := n;
    while remaining > 0
      invariant remaining <= n && Sent(w, ideal, n - remaining, room)
      invariant rng.stream == stream && (seed.Some? ==> rng.pos == n - remaining)
      invariant w.sizes + Pieces(remaining, CHUNK) == Pieces(n, CHUNK)
    {
      ghost var sent := n - remaining;
      var chunk := NextChunk(rng, buf, seed.Some?, n, remaining);
      PiecesStep(w.sizes, remaining, n, CHUNK);
      var ok := SendChunk(w, chunk, ideal, sent, room);
      if !ok {
        return;
      }
      remaining := remaining - |chunk|;
    }
  }

  lemma ContentIs(seed: Option<nat -> Byte>, n: nat)
    ensures Content(seed, n) == Window(match seed case None => Zero case Some(stream) => stream, 0, n)
  {
  }

  lemma ZerosAlike(start: nat, k: nat)
    ensures Window(Zero, start, k) == Window(Zero, 0, k)
  {
    assert forall i: nat :: Zero(i) == 0;
    forall i | 0 <= i < k ensures Window(Zero, start, k)[i] == Window(Zero, 0, k)[i] {
      assert Zero(start + i) == Zero(0 + i);
    }
  }

  lemma PiecesNone(size: nat)
    requires size > 0
    ensures Pieces(0, size) == []
  {
  }

  /** One more piece sent. */
  lemma PiecesStep(sent: seq<nat>, remaining: nat, n: nat, size: nat)
    requires remaining > 0 && size > 0 && sent + Pieces(remaining, size) == Pieces(n, size)
    ensures var piece := Minimum(size, remaining);
            && sent + [piece] + Pieces(remaining - piece, size) == Pieces(n, size)
            && sent + [piece] <= Pieces(n, size)
  {
    var piece := Minimum(size, remaining);
    var rest := Pieces(remaining - piece, size);
    assert Pieces(remaining, size) == [piece] + rest;
    assert sent + ([piece] + rest) == sent + [piece] + rest;
  }

  // ---- handleStreamBytes -------------------------------------------------------------------

  /** The piece size of a request: 32 KiB, or a smaller one it asks for. */
  function PieceSize(raw: string): (size: Option<nat>)
    ensures size.Some? ==> 0 < size.value <= 0x8000
    ensures raw == "" ==> size == Some(0x8000)
    ensures raw != "" ==> match Atoi(raw)
              case None => size == None
              case Some(v) => if v <= 0 then size == None else size == Some(if v < 0x8000 then v else 0x8000)
  {
    if raw == "" then Some(CHUNK)
    else match Atoi(raw)
      case None => None
      case Some(v) => if v <= 0 then None else if v > CHUNK then Some(CHUNK) else Some(v)
  }

  /** The loop of `handleStreamBytes`: after `k` pieces the request's context may be done, and then, or when
      a write fails, the stream stops, and otherwise it does not. */
  method StreamBytes(w: Sink, rng: Rng, n: nat, size: nat, done: nat -> bool)
    requires w.body == [] && w.sizes == [] && rng.pos == 0 && 0 < size <= CHUNK
    modifies w, rng
    ensures w.body <= Window(rng.stream, 0, n) && w.sizes <= Pieces(n, size)
    ensures n <= old(w.room) && (forall k :: 1 <= k < |Pieces(n, size)| ==> !done(k)) ==>
              w.body == Window(rng.stream, 0, n) && w.sizes == Pieces(n, size)
    ensures forall k :: 1 <= k < |w.sizes| ==> !done(k)
    ensures w.body == Window(rng.stream, 0, n) || |w.body| == old(w.room) || (w.sizes != [] && done(|w.sizes|))
  {
    hide Window, Pieces, Take;
    var buf := new Byte[size];
    ghost var ideal, room := Window(rng.stream, 0, n), w.room;
    TakeAll(ideal, room);
    var remaining: nat, k: nat := n, 0;
    PiecesNone(size);
    while remaining > 0
      invariant remaining <= n && Sent(w, ideal, n - remaining, room) && rng.pos == n - remaining
      invariant w.sizes + Pieces(remaining, size) == Pieces(n, size) && k == |w.sizes|
      invariant forall j :: 1 <= j <= k ==> !done(j)
    {
      ghost var sent := n - remaining;
      var piece := size;
      if remaining < piece {
        piece := remaining;
      }
      rng.Fill(buf, piece);
      WindowSlice(rng.stream, n, sent, piece);
      PiecesStep(w.sizes, remaining, n, size);
      var ok := SendChunk(w, buf[..piece], ideal, sent, room);
      if !ok {
        return;
      }
      remaining, k := remaining - piece, k + 1;
      if done(k) {
        if remaining > 0 {
          PiecesStep(w.sizes, remaining, n, size);
        }
        return;
      }
    }
  }

  // ---- handleDrip ----------------------------------------------------------------------------

  /** 64-bit addition of durations. */
  function Wrap64(x: int): (r: int)
    ensures -(MAX_INT + 1) <= r <= MAX_INT
  {
    (x + MAX_INT + 1) % (2 * (MAX_INT + 1)) - (MAX_INT + 1)
  }

  /** The planned wait after byte `i`. */
  function Gap(interval: nat, jitter: nat, draw: nat -> nat, i: nat): int {
    if jitter > 0 then Wrap64(interval + draw(i)) else interval
  }

  function Gaps(count: nat, interval: nat, jitter: nat, draw: nat -> nat): (gaps: seq<int>)
    ensures |gaps| == count
  {
    seq(count, i requires 0 <= i < count => Gap(interval, jitter, draw, i))
  }

  /** `sent` of `n` bytes have gone out, with `gaps` between them: the planned ones, each waited out in full
      before the next byte; and fewer than `n` only because the connection took no more or the last wait
      was cut short. */
  ghost predicate Dripped(sent: nat, gaps: seq<int>, plan: seq<int>, n: nat, room: nat, waits: nat -> bool) {
    && gaps <= plan && sent <= n && sent <= room && sent <= |gaps| + 1
    && (forall i :: 0 <= i < sent - 1 ==> gaps[i] > 0 ==> waits(i))
    && (sent == n || sent == room || (|gaps| == sent > 0 && gaps[sent - 1] > 0 && !waits(sent - 1)))
  }

  /** The first `i` bytes have gone out and the waits after them are over. */
  ghost predicate Dripping(i: nat, gaps: seq<int>, plan: seq<int>, waits: nat -> bool) {
    && i <= |plan| && gaps == plan[..i]
    && forall j :: 0 <= j < i ==> gaps[j] > 0 ==> waits(j)
  }

  lemma DrippingStep(i: nat, gaps: seq<int>, plan: seq<int>, waits: nat -> bool, room: nat)
    requires Dripping(i, gaps, plan, waits) && i < |plan| && i < room
    ensures var gap := plan[i];
            if gap > 0 && !waits(i) then Dripped(i + 1, gaps + [gap], plan, |plan| + 1, room, waits)
            else Dripping(i + 1, gaps + [gap], plan, waits)
  {
    assert plan[..i + 1] == plan[..i] + [plan[i]];
  }

  lemma DrippingEnds(i: nat, gaps: seq<int>, plan: seq<int>, waits: nat -> bool, room: nat)
    requires Dripping(i, gaps, plan, waits)
    ensures i == room ==> Dripped(i, gaps, plan, |plan| + 1, room, waits)
    ensures i == |plan| < room ==> Dripped(i + 1, gaps, plan, |plan| + 1, room, waits)
  {
  }

  /** Uninterrupted, all of it goes out. */
  lemma DrippedAll(sent: nat, gaps: seq<int>, plan: seq<int>, room: nat, waits: nat -> bool)
    requires Dripped(sent, gaps, plan, |plan| + 1, room, waits)
    requires |plan| < room && forall i: nat :: waits(i)
    ensures sent == |plan| + 1 && gaps == plan
  {
  }

  /** `handleDrip` past its parameters: one zero byte at a time, waiting after each but the last. A wait
      may be cut short, and so may a write, which stop it at once; without either, exactly `numBytes` bytes
      go out, and between them the planned gaps. */
  method Drip(w: Sink, numBytes: nat, duration: nat, jitter: nat, draw: nat -> nat, waits: nat -> bool)
    returns (gaps: seq<int>)
    requires w.body == [] && numBytes <= MAX_DRIP
    modifies w
    ensures w.body == Window(Zero, 0, |w.body|)
    ensures numBytes == 0 ==> w.body == [] && gaps == []
    ensures numBytes > 0 ==>
              Dripped(|w.body|, gaps, Gaps(numBytes - 1, duration / numBytes, jitter, draw), numBytes, old(w.room), waits)
    ensures numBytes > 0 && numBytes <= old(w.room) && (forall i: nat :: waits(i)) ==>
              |w.body| == numBytes && gaps == Gaps(numBytes - 1, duration / numBytes, jitter, draw)
  {
    hide Wrap64, Window, Gap, Gaps, Dripped, Dripping;
    gaps := [];
    EmptyWindow(Zero);
    if numBytes == 0 {
      return;
    }
    var interval := duration / numBytes;
    ghost var room, plan := w.room, Gaps(numBytes - 1, interval, jitter, draw);
    DrippingNone(plan, waits);
    for i := 0 to numBytes
      invariant i <= room && w.room == room - i && w.body == Window(Zero, 0, i)
      invariant if i < numBytes then Dripping(i, gaps, plan, waits) else Dripped(i, gaps, plan, numBytes, room, waits)
    {
      ZerosGrow(i);
      DrippingEnds(i, gaps, plan, waits, room);
      var ok := w.Write([0]);
      if !ok {
        assert w.body == Window(Zero, 0, i) + [];
        break;
      }
      if i == numBytes - 1 {
        break;
      }
      GapsAt(i, numBytes - 1, interval, jitter, draw);
      DrippingStep(i, gaps, plan, waits, room);
      var gap: int := interval;
      if jitter > 0 {
        gap := Wrap64(gap + draw(i));
      }
      gaps := gaps + [gap];
      if gap > 0 && !waits(i) {
        break;
      }
    }
    if numBytes <= room && (forall i: nat :: waits(i)) {
      DrippedAll(|w.body|, gaps, plan, room, waits);
    }
  }

  lemma DrippingNone(plan: seq<int>, waits: nat -> bool)
    ensures Dripping(0, [], plan, waits)
  {
  }

  lemma GapsAt(i: nat, n: nat, interval: nat, jitter: nat, draw: nat -> nat)
    requires i < n
    ensures Gaps(n, interval, jitter, draw)[i] == if jitter > 0 then Wrap64(interval + draw(i)) else interval
  {
  }

  lemma EmptyWindow(stream: nat -> Byte)
    ensures Window(stream, 0, 0) == []
  {
  }

  lemma ZerosGrow(i: nat)
    ensures Window(Zero, 0, i) + [0] == Window(Zero, 0, i + 1)
  {
    assert Zero(i) == 0;
  }

  /** A gap is the interval and its draw exactly when that is short of 64-bit overflow; past it the gap is
      negative, and no wait happens. */
  lemma GapIff(interval: nat, jitter: nat, draw: nat -> nat, i: nat)
    requires interval <= MAX_INT && jitter > 0 && draw(i) <= MAX_INT
    ensures Gap(interval, jitter, draw, i) == interval + draw(i) <==> interval + draw(i) <= MAX_INT
    ensures interval + draw(i) > MAX_INT ==> Gap(interval, jitter, draw, i) < 0
  {
  }

  lemma {:induction false} SumBounds(gaps: seq<int>, low: int, high: int)
    requires forall i :: 0 <= i < |gaps| ==> low <= gaps[i] <= high
    ensures |gaps| * low <= Sum(gaps) <= |gaps| * high
  {
    if gaps != [] {
      var front := gaps[..|gaps| - 1];
      SumBounds(front, low, high);
      assert |gaps| * low == |front| * low + low && |gaps| * high == |front| * high + high;
    }
  }

  /** Without jitter the planned gaps add up to the duration, less one interval and what does not divide
      evenly. */
  lemma DripTotal(numBytes: nat, duration: nat, draw: nat -> nat)
    requires numBytes > 0
    ensures var q := duration / numBytes;
            Sum(Gaps(numBytes - 1, q, 0, draw)) == duration - q - duration % numBytes
  {
    var q := duration / numBytes;
    SumBounds(Gaps(numBytes - 1, q, 0, draw), q, q);
    assert (numBytes - 1) * q == numBytes * q - q;
  }

  /** With jitter each gap grows by less than it, so the total does by less than that many times over. */
  lemma DripTotalJittered(numBytes: nat, duration: nat, jitter: nat, draw: nat -> nat)
    requires numBytes > 0 && jitter > 0 && forall i :: draw(i) < jitter
    requires duration / numBytes + jitter - 1 <= MAX_INT
    ensures var q := duration / numBytes;
            (numBytes - 1) * q <= Sum(Gaps(numBytes - 1, q, jitter, draw)) <= (numBytes - 1) * (q + jitter - 1)
  {
    var q := duration / numBytes;
    var gaps := Gaps(numBytes - 1, q, jitter, draw);
    forall i | 0 <= i < |gaps| ensures q <= gaps[i] <= q + jitter - 1 {
      GapIff(q, jitter, draw, i);
    }
    SumBounds(gaps, q, q + jitter - 1);
  }

  // ---- parameters ------------------------------------------------------------------------------

  /** `parseByteCount`: a numeral from 0 to the synthetic maximum. */
  function ParseByteCount(raw: string): Option<nat> {
    match Atoi(raw)
    case None => None
    case Some(n) => if 0 <= n <= MAX_SYNTHETIC then Some(n) else None
  }

  /** `parseDripQueryInt`: the default when absent or empty, else a numeral within its bounds. */
  function ParseDripInt(raw: string, default: int, low: int, high: int): Option<int> {
    if raw == "" then Some(default)
    else match Atoi(raw)
      case None => None
      case Some(v) => if low <= v <= high then Some(v) else None
  }

  /** Every byte count up to 2^30 can be asked for by its numeral, and no larger or negative number can. */
  lemma ByteCountIff(n: int)
    requires n >= 0
    ensures ParseByteCount(Itoa(n)) == if n <= 0x4000_0000 then Some(n) else None
    ensures n > 0 ==> ParseByteCount("-" + Itoa(n)) == None
  {
    hide Itoa, Atoi;
    AtoiSigned(n);
  }

  /** A number of the drip is its default when left out, and else has to lie within its bounds. */
  lemma DripIntIff(n: int, default: int, low: int, high: int)
    requires n >= 0 && -0x8000_0000_0000_0000 <= low && high <= 0x7FFF_FFFF_FFFF_FFFF
    ensures ParseDripInt("", default, low, high) == Some(default)
    ensures ParseDripInt(Itoa(n), default, low, high) == if low <= n <= high then Some(n) else None
    ensures ParseDripInt("-" + Itoa(n), default, low, high) == if low <= -n <= high then Some(-n) else None
  {
    hide Itoa, Atoi;
    AtoiSigned(n);
    AtoiItoaNonEmpty(n);
  }

  lemma AtoiItoaNonEmpty(n: nat)
    ensures Itoa(n) != "" && "-" + Itoa(n) != ""
  {
  }
}
