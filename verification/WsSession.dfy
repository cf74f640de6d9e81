/** The frame loop of `handleWS`: the methods that read and write frames over a connection, the
    session loop, and the function of the input bytes that the session refines. */
module WsSession {
  import opened Bytes
  import opened WsGrammar
  import opened WsCodec
  import opened WsConn

  // ---- what a session answers ----------------------------------------------

  function Ascii(s: string): (r: Octets)
    requires forall i :: 0 <= i < |s| ==> s[i] < 128 as char
    ensures |r| == |s|
  {
    seq(|s|, i requires 0 <= i < |s| => ByteOf(s[i] as int))
  }

  /** `writeWSClose`'s frame: a status code and a reason, section 5.5.1 of RFC 6455. */
  function CloseFrame(code: nat, reason: Octets): Frame {
    Frame(true, OP_CLOSE, PutBigEndian(code, 2) + reason)
  }

  /** The status code to answer a close frame with. */
  function CloseCode(payload: Octets): (code: nat)
  {
    if |payload| >= 2 then BigEndian(payload[..2]) else 1000
  }

  predicate IsData(f: Frame) {
    f.opcode == OP_TEXT || f.opcode == OP_BINARY || f.opcode == OP_CONTINUATION
  }

  predicate Sendable(f: Frame) {
    f.opcode < 0x10 && |f.payload| < 0x8000_0000_0000_0000
  }

  predicate AllSendable(fs: seq<Frame>) {
    forall i :: 0 <= i < |fs| ==> Sendable(fs[i])
  }

  /** What one received frame is answered with: data is echoed, a ping gets a pong, an unsolicited
      pong gets nothing, and a close or an unsupported opcode gets a close frame. */
  function Answer(f: Frame): (fs: seq<Frame>)
    requires |f.payload| < 0x8000_0000_0000_0000 && f.opcode < 0x10
    ensures AllSendable(fs)
  {
    if IsData(f) then [f]
    else if f.opcode == OP_PING then [Frame(true, OP_PONG, f.payload)]
    else if f.opcode == OP_PONG then []
    else if f.opcode == OP_CLOSE then [CloseFrame(CloseCode(f.payload), [])]
    else [CloseFrame(1002, Ascii("unsupported opcode"))]
  }

  /** Frames after which the session ends. */
  predicate IsTerminal(f: Frame) {
    !IsData(f) && f.opcode != OP_PING && f.opcode != OP_PONG
  }

  lemma DecodedIsSendable(s: Octets)
    requires Decode(s).Got?
    ensures Sendable(Decode(s).frame) && |Decode(s).frame.payload| <= MAX_PAYLOAD
    ensures IsControl(Decode(s).frame) ==> Decode(s).frame.fin && |Decode(s).frame.payload| <= 125
    ensures |Decode(s).rest| + 6 <= |s|
  {
    var key, form := AcceptedIsEncoding(s);
  }

  /** The frames the loop sends on input `s`, one iteration at a time. */
  function Reply(s: Octets): (fs: seq<Frame>)
    ensures AllSendable(fs)
    decreases |s|
  {
    match Decode(s)
    case Truncated => []
    case Violation => [CloseFrame(1002, Ascii("protocol error"))]
    case Got(f, rest) =>
      DecodedIsSendable(s);
      if IsTerminal(f) then Answer(f) else Answer(f) + Reply(rest)
  }

  function Banner(text: Octets): Frame {
    Frame(true, OP_TEXT, text)
  }

  function EncodeAll(fs: seq<Frame>): Octets
    requires AllSendable(fs)
  {
    if fs == [] then [] else Encode(fs[0]) + EncodeAll(fs[1..])
  }

  lemma {:induction false} EncodeAllConcat(a: seq<Frame>, b: seq<Frame>)
    requires AllSendable(a) && AllSendable(b)
    ensures AllSendable(a + b)
    ensures EncodeAll(a + b) == EncodeAll(a) + EncodeAll(b)
  {
    hide Encode;
    if a == [] {
      assert a + b == b;
    } else {
      assert (a + b)[0] == a[0] && (a + b)[1..] == a[1..] + b;
      EncodeAllConcat(a[1..], b);
    }
  }

  // ---- reading and writing one frame ----------------------------------------

  datatype ReadResult = GotFrame(frame: Frame) | ProtocolError | IoError

  predicate Reads(res: ReadResult, before: Octets, after: Octets) {
    match Decode(before)
    case Got(f, rest) => res == GotFrame(f) && after == rest
    case Violation => res == ProtocolError
    case Truncated => res == IoError
  }

  /** The in-place unmasking loop. */
  method Unmask(payload: array<Byte>, key: array<Byte>)
    requires key.Length == 4 && payload != key
    modifies payload
    ensures payload[..] == Masked(old(payload[..]), key[..])
  {
    hide Xor;
    for i := 0 to payload.Length
      invariant forall j :: 0 <= j < i ==> payload[j] == Xor(old(payload[j]), key[j % 4])
      invariant forall j :: i <= j < payload.Length ==> payload[j] == old(payload[j])
      invariant key[..] == old(key[..])
    {
      payload[i] := Xor(payload[i], key[i % 4]);
    }
  }

  /** Fills a fixed-size header field. */
  method ReadField(br: ChunkReader, n: nat) returns (ok: bool, field: Octets)
    modifies br
    ensures ok == (|old(br.Remaining())| >= n)
    ensures ok ==> |field| == n && old(br.Remaining()) == field + br.Remaining()
  {
    var buf := new Byte[n];
    ok := br.ReadFull(buf);
    field := buf[..];
  }

  /** Fills a payload buffer and unmasks it in place. */
  method ReadPayload(br: ChunkReader, n: nat, key: Octets) returns (ok: bool, payload: Octets)
    requires |key| == 4
    modifies br
    ensures ok == (|old(br.Remaining())| >= n)
    ensures ok ==> |payload| == n && old(br.Remaining()) == Masked(payload, key) + br.Remaining()
  {
    hide Xor, Masked;
    var buf := new Byte[n];
    ok := br.ReadFull(buf);
    var maskKey := new Byte[4](i requires 0 <= i < 4 => key[i]);
    assert maskKey[..] == key;
    MaskedTwice(buf[..], key);
    Unmask(buf, maskKey);
    payload := buf[..];
  }

  /** The extended length behind a 7-bit length of 126 or 127. */
  method ReadLength(br: ChunkReader, short: nat) returns (ok: bool, length: nat, ghost ext: Octets)
    modifies br
    ensures var width := if short == 126 then 2 else if short == 127 then 8 else 0;
            && ok == (|old(br.Remaining())| >= width)
            && (ok ==> |ext| == width && old(br.Remaining()) == ext + br.Remaining())
    ensures ok ==> length == if ext == [] then short else BigEndian(ext)
  {
    ok, length, ext := true, short, [];
    var field;
    if short == 126 {
      ok, field := ReadField(br, 2);
      length, ext := BigEndian(field), field;
    } else if short == 127 {
      ok, field := ReadField(br, 8);
      length, ext := BigEndian(field), field;
    } else {
      assert br.Remaining() == [] + br.Remaining();
    }
  }

  /** `readWSFrame`. */
  method ReadFrame(br: ChunkReader) returns (res: ReadResult)
    modifies br
    ensures Reads(res, old(br.Remaining()), br.Remaining())
  {
    hide ReservedBits, FinBit, OpcodeBits, MaskBit, SmallLength, Masked, Decode;
    ghost var s := br.Remaining();
    var ok, head := ReadField(br, 2);
    AfterHead(s, head, br.Remaining(), ok);
    if !ok {
      return IoError;
    }
    if ReservedBits(head[0]) {
      return ProtocolError;
    }
    var fin := FinBit(head[0]);
    var opcode := OpcodeBits(head[0]);
    var masked := MaskBit(head[1]);
    var length := SmallLength(head[1]);
    if opcode >= 0x8 && (!fin || length > 125) {
      return ProtocolError;
    }
    ghost var ext;
    ok, length, ext := ReadLength(br, length);
    if !ok {
      return IoError;
    }
    AfterLength(s, head, ext, br.Remaining());
    if length > MAX_PAYLOAD {
      return ProtocolError;
    }
    if !masked {
      return ProtocolError;
    }
    var key, payload;
    ok, key := ReadField(br, 4);
    if !ok {
      return IoError;
    }
    ok, payload := ReadPayload(br, length, key);
    if !ok {
      return IoError;
    }
    AfterPayload(s, head, ext, key, payload, br.Remaining());
    return GotFrame(Frame(fin, opcode, payload));
  }

  /** What is decided once the two fixed bytes are in, or are known to be missing. */
  lemma AfterHead(s: Octets, head: Octets, rest: Octets, ok: bool)
    requires ok == (|s| >= 2)
    requires ok ==> |head| == 2 && s == head + rest
    ensures !ok ==> Decode(s).Truncated?
    ensures ok && BadStart(head[0], head[1]) ==> Decode(s).Violation?
    ensures ok && !BadStart(head[0], head[1]) && |rest| < ExtendedWidth(head[1]) ==> Decode(s).Truncated?
  {
    hide ReservedBits, FinBit, OpcodeBits, MaskBit, SmallLength, Masked;
  }

  /** What is decided once the payload length is known. */
  lemma AfterLength(s: Octets, head: Octets, ext: Octets, rest: Octets)
    requires |head| == 2 && |ext| == ExtendedWidth(head[1]) && s == head + (ext + rest)
    requires !BadStart(head[0], head[1])
    ensures |s| >= 2 + |ext| && s[0] == head[0] && s[1] == head[1]
    ensures DeclaredLength(s) == (if ext == [] then SmallLength(head[1]) else BigEndian(ext))
    ensures DeclaredLength(s) > MAX_PAYLOAD || !MaskBit(head[1]) ==> Decode(s).Violation?
    ensures DeclaredLength(s) <= MAX_PAYLOAD && MaskBit(head[1]) && |rest| < 4 + DeclaredLength(s) ==> Decode(s).Truncated?
  {
    hide ReservedBits, FinBit, OpcodeBits, MaskBit, SmallLength, Masked;
    assert s[2..2 + |ext|] == ext;
  }

  lemma AfterPayload(s: Octets, head: Octets, ext: Octets, key: Octets, payload: Octets, rest: Octets)
    requires |head| == 2 && |ext| == ExtendedWidth(head[1]) && |key| == 4
    requires !BadStart(head[0], head[1]) && MaskBit(head[1])
    requires s == head + (ext + (key + (Masked(payload, key) + rest)))
    requires |payload| == (if ext == [] then SmallLength(head[1]) else BigEndian(ext)) <= MAX_PAYLOAD
    ensures Decode(s) == Got(Frame(FinBit(head[0]), OpcodeBits(head[0]), payload), rest)
  {
    hide ReservedBits, FinBit, OpcodeBits, MaskBit, SmallLength, Masked;
    var body := Masked(payload, key);
    AfterLength(s, head, ext, key + (body + rest));
    Regrouped(head, ext, key, body, rest);
    Fields(head + ext, key, body, rest);
    MaskedTwice(payload, key);
  }

  lemma Regrouped(a: Octets, b: Octets, c: Octets, d: Octets, e: Octets)
    ensures a + (b + (c + (d + e))) == (a + b) + c + d + e
  {
    assert c + (d + e) == c + d + e;
    assert b + (c + d + e) == b + c + d + e;
  }

  /** `writeWSFrame`'s choice of header. */
  method FrameHead(fin: bool, opcode: Byte, length: nat) returns (head: Octets)
    requires length < 0x8000_0000_0000_0000
    ensures forall payload: Octets :: |payload| == length ==> Encode(Frame(fin, opcode, payload)) == head + payload
  {
    hide SetHighBit, ByteOf;
    var b0 := opcode;
    if fin {
      b0 := SetHighBit(b0);
    }
    if length <= 125 {
      head := [b0, ByteOf(length)];
    } else if length <= 0xFFFF {
      head := [b0, 126] + PutBigEndian(length, 2);
    } else {
      head := [b0, 127] + PutBigEndian(length, 8);
    }
  }

  /** `writeWSFrame`: the header, the payload if there is one, a flush. */
  method WriteFrame(bw: ConnWriter, fin: bool, opcode: Byte, payload: Octets) returns (ok: bool)
    requires bw.Valid() && |payload| < 0x8000_0000_0000_0000
    modifies bw
    ensures bw.Valid() && ok == !bw.broken
    ensures ok ==> bw.log == old(bw.log) + Encode(Frame(fin, opcode, payload)) && bw.wire == bw.log
    ensures bw.log <= old(bw.log) + Encode(Frame(fin, opcode, payload))
  {
    hide Encode;
    var head := FrameHead(fin, opcode, |payload|);
    assert bw.log + head + payload == bw.log + (head + payload);
    ok := bw.Write(head);
    if !ok {
      return false;
    }
    if |payload| > 0 {
      ok := bw.Write(payload);
      if !ok {
        return false;
      }
    }
    ok := bw.Flush();
  }

  /** `writeWSClose`. */
  method WriteClose(bw: ConnWriter, code: nat, reason: Octets) returns (ok: bool)
    requires bw.Valid() && code < 0x1_0000 && |reason| < 0x1_0000
    modifies bw
    ensures bw.Valid() && ok == !bw.broken
    ensures ok ==> bw.log == old(bw.log) + Encode(CloseFrame(code, reason)) && bw.wire == bw.log
    ensures bw.log <= old(bw.log) + Encode(CloseFrame(code, reason))
  {
    var payload := PutBigEndian(code, 2) + reason;
    ok := WriteFrame(bw, true, OP_CLOSE, payload);
  }

  // ---- the session -----------------------------------------------------------

  /** What a session puts on the wire for a banner text and an input. */
  function Transcript(banner: Octets, input: Octets): Octets
    requires |banner| < 0x8000_0000_0000_0000
  {
    Encode(Banner(banner)) + EncodeAll(Reply(input))
  }

  /** A writer that stopped inside a prefix of the transcript holds its first `capacity` bytes. */
  lemma CutTranscript(bw: ConnWriter, ideal: Octets)
    requires bw.Valid() && bw.log <= ideal
    requires !bw.broken ==> bw.wire == bw.log == ideal
    ensures bw.wire == Take(ideal, bw.capacity)
  {
  }

  /** The `switch` of the frame loop: sends the answer to one frame, and says whether to go on. */
  method Respond(bw: ConnWriter, frame: Frame) returns (more: bool)
    requires bw.Valid() && !bw.broken && bw.wire == bw.log
    requires Sendable(frame)
    modifies bw
    ensures bw.Valid() && more == (!bw.broken && !IsTerminal(frame))
    ensures !bw.broken ==> bw.log == old(bw.log) + EncodeAll(Answer(frame)) && bw.wire == bw.log
    ensures bw.log <= old(bw.log) + EncodeAll(Answer(frame))
  {
    hide Encode;
    forall f: Frame | Sendable(f) ensures AllSendable([f]) && EncodeAll([f]) == Encode(f) {
      EncodeOne(f);
    }
    assert EncodeAll([]) == [];
    if frame.opcode == OP_TEXT || frame.opcode == OP_BINARY || frame.opcode == OP_CONTINUATION {
      more := WriteFrame(bw, frame.fin, frame.opcode, frame.payload);
    } else if frame.opcode == OP_PING {
      more := WriteFrame(bw, true, OP_PONG, frame.payload);
    } else if frame.opcode == OP_PONG {
      more := true;
    } else if frame.opcode == OP_CLOSE {
      var code := 1000;
      if |frame.payload| >= 2 {
        code := BigEndian(frame.payload[..2]);
        HeaderSpans();
        BigEndianBounded(frame.payload[..2]);
      }
      var _ := WriteClose(bw, code, []);
      more := false;
    } else {
      var _ := WriteClose(bw, 1002, Ascii("unsupported opcode"));
      more := false;
    }
  }

  /** One iteration of the frame loop. `ideal` is the whole transcript: what has been sent, then the
      reply to what is still to be read. */
  method Turn(br: ChunkReader, bw: ConnWriter, ghost ideal: Octets) returns (more: bool)
    requires bw.Valid() && !bw.broken && bw.wire == bw.log
    requires ideal == bw.log + EncodeAll(Reply(br.Remaining()))
    modifies br, bw
    ensures bw.Valid()
    ensures more ==> !bw.broken && bw.wire == bw.log && |br.Remaining()| < |old(br.Remaining())|
    ensures more ==> ideal == bw.log + EncodeAll(Reply(br.Remaining()))
    ensures !more ==> bw.wire == Take(ideal, bw.capacity)
  {
    hide Encode, EncodeAll, Decode, Answer, IsTerminal, Ascii;
    ghost var s := br.Remaining();
    var res := ReadFrame(br);
    match res
    case IoError =>
      EncodeNone();
      CutTranscript(bw, ideal);
      return false;
    case ProtocolError =>
      EncodeOne(CloseFrame(1002, Ascii("protocol error")));
      var _ := WriteClose(bw, 1002, Ascii("protocol error"));
      CutTranscript(bw, ideal);
      return false;
    case GotFrame(frame) =>
      DecodedIsSendable(s);
      ghost var was := bw.log;
      more := Respond(bw, frame);
      if !IsTerminal(frame) {
        EncodeAllConcat(Answer(frame), Reply(br.Remaining()));
        Extends(was, EncodeAll(Answer(frame)), EncodeAll(Reply(br.Remaining())));
      }
      if !more {
        CutTranscript(bw, ideal);
      }
  }

  /** `handleWS` after the handshake: the wire ends up with the first `capacity` bytes of the
      transcript, so with all of it when the connection never fails. Only the input's bytes matter,
      not the chunks they arrive in. */
  method HandleFrames(br: ChunkReader, bw: ConnWriter, banner: Octets)
    requires |banner| < 0x8000_0000_0000_0000
    requires bw.Valid() && !bw.broken && bw.log == []
    modifies br, bw
    ensures bw.wire == Take(Transcript(banner, old(br.Remaining())), bw.capacity)
  {
    hide Encode, EncodeAll, Reply;
    ghost var ideal := Transcript(banner, br.Remaining());
    var more := WriteFrame(bw, true, OP_TEXT, banner);
    if !more {
      CutTranscript(bw, ideal);
      return;
    }
    while more
      invariant bw.Valid()
      invariant more ==> !bw.broken && bw.wire == bw.log && ideal == bw.log + EncodeAll(Reply(br.Remaining()))
      invariant !more ==> bw.wire == Take(ideal, bw.capacity)
      decreases more, |br.Remaining()|
    {
      more := Turn(br, bw, ideal);
    }
  }

  lemma EncodeNone()
    ensures EncodeAll([]) == []
  {
  }

  lemma EncodeOne(f: Frame)
    requires Sendable(f)
    ensures AllSendable([f]) && EncodeAll([f]) == Encode(f)
  {
    hide Encode;
    assert EncodeAll([f]) == Encode(f) + EncodeAll([]);
  }

  lemma Extends(a: Octets, b: Octets, c: Octets)
    ensures a + b <= a + (b + c) && a + (b + c) == (a + b) + c
  {
    assert a + (b + c) == (a + b) + c;
  }
}
