/** Whole runs of the WebSocket session: what the client sees of them. */
module WsTrace {
  import opened Bytes
  import opened WsGrammar
  import opened WsCodec
  import opened WsSession

  // ---- frames by their opcodes, section 5.2 of RFC 6455 ------------------------

  /** A continuation, text or binary frame. */
  predicate CarriesData(f: Frame) { f.opcode == 0x0 || f.opcode == 0x1 || f.opcode == 0x2 }

  predicate IsPing(f: Frame) { f.opcode == 0x9 }

  predicate IsPong(f: Frame) { f.opcode == 0xA }

  predicate IsClose(f: Frame) { f.opcode == 0x8 }

  /** One close frame with status 1002, 0x03EA, and the characters of `reason`. */
  predicate Refuses(fs: seq<Frame>, reason: string) {
    && |fs| == 1 && fs[0].fin && fs[0].opcode == 0x8
    && |fs[0].payload| == 2 + |reason| && fs[0].payload[..2] == [0x03, 0xEA]
    && forall i :: 0 <= i < |reason| ==> fs[0].payload[2 + i] as int == reason[i] as int
  }

  /** The answer to a frame, opcode by opcode: data is echoed, a ping gets a pong with its payload, a pong
      nothing; the session goes on after these five. After a close frame, whose status code comes back,
      1000 standing in for a missing one, and after every other opcode, which is refused, it ends. */
  lemma AnswerByOpcode(f: Frame)
    requires Sendable(f)
    ensures f.opcode == 0x0 || f.opcode == 0x1 || f.opcode == 0x2 ==> Answer(f) == [f]
    ensures f.opcode == 0x9 ==> Answer(f) == [Frame(true, 0xA, f.payload)]
    ensures f.opcode == 0xA ==> Answer(f) == []
    ensures f.opcode == 0x8 ==>
              Answer(f) == [Frame(true, 0x8, if |f.payload| >= 2 then f.payload[..2] else [0x03, 0xE8])]
    ensures f.opcode !in {0x0, 0x1, 0x2, 0x8, 0x9, 0xA} ==> Refuses(Answer(f), "unsupported opcode")
    ensures !IsTerminal(f) <==> f.opcode in {0x0, 0x1, 0x2, 0x9, 0xA}
  {
    hide Ascii, CloseCode, PutBigEndian;
    CloseCodeEchoed(f.payload);
    RefusalIs("unsupported opcode");
  }

  lemma RefusalIs(reason: string)
    requires forall i :: 0 <= i < |reason| ==> reason[i] < 128 as char
    ensures Refuses([CloseFrame(1002, Ascii(reason))], reason)
  {
    hide ByteOf, PutBigEndian;
    ByteOfValue(0x03);
    ByteOfValue(0xEA);
    TwoBytes(0x03, 0xEA);
    forall i | 0 <= i < |reason| ensures Ascii(reason)[i] as int == reason[i] as int {
      ValueOfByte(reason[i] as int);
    }
  }

  /** A close frame's status code comes back byte for byte; 1000 stands in for a missing one. */
  lemma CloseCodeEchoed(payload: Octets)
    ensures CloseFrame(CloseCode(payload), []).payload == if |payload| >= 2 then payload[..2] else [0x03, 0xE8]
  {
    hide ByteOf, BigEndian, PutBigEndian;
    if |payload| >= 2 {
      PutAfterGet(payload[..2]);
    } else {
      ByteOfValue(0x03);
      ByteOfValue(0xE8);
      TwoBytes(0x03, 0xE8);
    }
  }

  // ---- what was received, and how it ended -----------------------------------

  /** How a session ends: on a close frame, on an opcode it does not support, on a framing violation,
      or with the stream. */
  datatype Ending = Closed(payload: Octets) | Unsupported | BadFraming | Lost

  /** The frames accepted before the event that ends the session. */
  function Received(s: Octets): (fs: seq<Frame>)
    decreases |s|
  {
    match Decode(s)
    case Got(f, rest) => if IsTerminal(f) then [] else [f] + Received(rest)
    case _ => []
  }

  function End(s: Octets): Ending
    decreases |s|
  {
    match Decode(s)
    case Truncated => Lost
    case Violation => BadFraming
    case Got(f, rest) =>
      if !IsTerminal(f) then End(rest) else if f.opcode == 0x8 then Closed(f.payload) else Unsupported
  }

  function Farewell(e: Ending): seq<Frame> {
    match e
    case Closed(payload) => [CloseFrame(CloseCode(payload), [])]
    case Unsupported => [CloseFrame(1002, Ascii("unsupported opcode"))]
    case BadFraming => [CloseFrame(1002, Ascii("protocol error"))]
    case Lost => []
  }

  function Answers(fs: seq<Frame>): (r: seq<Frame>)
    requires AllSendable(fs)
  {
    if fs == [] then [] else Answer(fs[0]) + Answers(fs[1..])
  }

  lemma {:induction false} ReceivedSendable(s: Octets)
    ensures AllSendable(Received(s))
    ensures forall f <- Received(s) :: !IsTerminal(f) && (f.opcode >= 0x8 ==> f.fin && |f.payload| <= 125)
    decreases |s|
  {
    hide Decode;
    if Decode(s).Got? {
      DecodedIsSendable(s);
      if !IsTerminal(Decode(s).frame) {
        ReceivedSendable(Decode(s).rest);
      }
    }
  }

  /** The reply is the answers to what was received, in order, and then one farewell. */
  lemma {:induction false} ReplySplits(s: Octets)
    ensures AllSendable(Received(s))
    ensures Reply(s) == Answers(Received(s)) + Farewell(End(s))
    decreases |s|
  {
    hide Decode, Answer, CloseFrame, Ascii;
    ReceivedSendable(s);
    if Decode(s).Got? {
      var f, rest := Decode(s).frame, Decode(s).rest;
      DecodedIsSendable(s);
      if IsTerminal(f) {
        TerminalAnswer(f);
      } else {
        ReplySplits(rest);
        assert ([f] + Received(rest))[1..] == Received(rest);
        assert Answers([f] + Received(rest)) == Answer(f) + Answers(Received(rest));
      }
    }
  }

  lemma TerminalAnswer(f: Frame)
    requires Sendable(f) && IsTerminal(f)
    ensures Answer(f) == Farewell(if f.opcode == 0x8 then Closed(f.payload) else Unsupported)
  {
  }

  // ---- selecting frames from a trace -----------------------------------------

  function Select(fs: seq<Frame>, keep: Frame -> bool): seq<Frame> {
    if fs == [] then [] else (if keep(fs[0]) then [fs[0]] else []) + Select(fs[1..], keep)
  }

  lemma {:induction false} SelectConcat(a: seq<Frame>, b: seq<Frame>, keep: Frame -> bool)
    ensures Select(a + b, keep) == Select(a, keep) + Select(b, keep)
  {
    if a == [] {
      assert a + b == b;
    } else {
      var head := if keep(a[0]) then [a[0]] else [];
      assert (a + b)[0] == a[0] && (a + b)[1..] == a[1..] + b;
      SelectConcat(a[1..], b, keep);
      assert Select(a + b, keep) == head + (Select(a[1..], keep) + Select(b, keep));
      assert Select(a, keep) == head + Select(a[1..], keep);
    }
  }


  /** The pong section 5.5.3 of RFC 6455 asks for in answer to each of `pings`. */
  function PongsFor(pings: seq<Frame>): seq<Frame> {
    seq(|pings|, i requires 0 <= i < |pings| => Frame(true, 0xA, pings[i].payload))
  }

  predicate IsReply(f: Frame) { CarriesData(f) || IsPong(f) }

  predicate All(fs: seq<Frame>, p: Frame -> bool) {
    forall i :: 0 <= i < |fs| ==> p(fs[i])
  }

  lemma AnswerSelected(f: Frame)
    requires Sendable(f) && !IsTerminal(f)
    ensures Select(Answer(f), CarriesData) == if CarriesData(f) then [f] else []
    ensures Select(Answer(f), IsPong) == if IsPing(f) then [Frame(true, 0xA, f.payload)] else []
    ensures All(Answer(f), IsReply)
  {
    if Answer(f) != [] {
      assert Answer(f)[1..] == [];
    }
  }

  lemma {:induction false} AnswersSelected(fs: seq<Frame>)
    requires AllSendable(fs) && forall f <- fs :: !IsTerminal(f)
    ensures Select(Answers(fs), CarriesData) == Select(fs, CarriesData)
    ensures Select(Answers(fs), IsPong) == PongsFor(Select(fs, IsPing))
    ensures All(Answers(fs), IsReply)
  {
    hide Answer, IsTerminal, CarriesData, IsPing, IsPong, IsReply;
    if fs != [] {
      var f, head, tail := fs[0], Answer(fs[0]), fs[1..];
      AnswersSelected(tail);
      SelectConcat(head, Answers(tail), CarriesData);
      SelectConcat(head, Answers(tail), IsPong);
      AnswerSelected(f);
      PongsForStep(f, Select(tail, IsPing));
    }
  }

  lemma PongsForStep(f: Frame, later: seq<Frame>)
    ensures PongsFor([f] + later) == [Frame(true, 0xA, f.payload)] + PongsFor(later)
  {
  }

  /** The trace property: data comes back frame by frame in order, pings are answered in order, and a
      close frame is sent exactly when the session did not just lose its stream, once and last. */
  lemma SessionTrace(s: Octets)
    ensures Select(Reply(s), CarriesData) == Select(Received(s), CarriesData)
    ensures Select(Reply(s), IsPong) == PongsFor(Select(Received(s), IsPing))
    ensures |Select(Reply(s), IsClose)| == if End(s) == Lost then 0 else 1
    ensures forall i :: 0 <= i < |Reply(s)| && IsClose(Reply(s)[i]) ==> i == |Reply(s)| - 1
    ensures forall f <- Reply(s) :: CarriesData(f) || IsPong(f) || IsClose(f)
  {
    hide Decode, Reply, Received, End, Farewell, Answers, IsTerminal, CarriesData;
    ReplySplits(s);
    ReceivedSendable(s);
    var fs, last := Answers(Received(s)), Farewell(End(s));
    AnswersSelected(Received(s));
    SelectConcat(fs, last, CarriesData);
    SelectConcat(fs, last, IsPong);
    SelectConcat(fs, last, IsClose);
    assert forall i :: 0 <= i < |fs| ==> IsReply(fs[i]) && !IsClose(fs[i]) by {
      RepliesAreNotCloses(fs);
    }
    SelectNone(fs, IsClose);
    FarewellSelected(End(s));
  }

  lemma RepliesAreNotCloses(fs: seq<Frame>)
    requires All(fs, IsReply)
    ensures forall i :: 0 <= i < |fs| ==> IsReply(fs[i]) && !IsClose(fs[i])
  {
  }

  lemma FarewellSelected(e: Ending)
    ensures Select(Farewell(e), CarriesData) == [] && Select(Farewell(e), IsPong) == []
    ensures |Select(Farewell(e), IsClose)| == |Farewell(e)| == if e == Lost then 0 else 1
    ensures All(Farewell(e), IsClose)
  {
    hide CloseCode, Ascii, PutBigEndian;
    if Farewell(e) != [] {
      assert Farewell(e)[1..] == [];
    }
  }

  lemma {:induction false} SelectNone(fs: seq<Frame>, keep: Frame -> bool)
    requires forall f <- fs :: !keep(f)
    ensures Select(fs, keep) == []
  {
    if fs != [] {
      SelectNone(fs[1..], keep);
    }
  }

  /** The farewell, ending by ending: the client's own status code, a refusal, or nothing. */
  lemma FarewellByEnding(e: Ending)
    ensures e.Closed? ==>
              Farewell(e) == [Frame(true, 0x8, if |e.payload| >= 2 then e.payload[..2] else [0x03, 0xE8])]
    ensures e.Unsupported? ==> Refuses(Farewell(e), "unsupported opcode")
    ensures e.BadFraming? ==> Refuses(Farewell(e), "protocol error")
    ensures e.Lost? ==> Farewell(e) == []
  {
    hide Ascii, CloseCode, PutBigEndian;
    if e.Closed? {
      CloseCodeEchoed(e.payload);
    }
    RefusalIs("unsupported opcode");
    RefusalIs("protocol error");
  }

  /** Section 5.5 of RFC 6455 over a whole session: every frame sent is one `Encode` can carry, and
      every control frame among them is final with at most 125 bytes of payload. */
  lemma SentFramesLegal(banner: Octets, s: Octets)
    requires |banner| < 0x8000_0000_0000_0000
    ensures forall f <- [Banner(banner)] + Reply(s) ::
              Sendable(f) && (f.opcode >= 0x8 ==> f.fin && |f.payload| <= 125)
  {
    hide Decode, Received, Answers, Farewell, Reply, End, IsTerminal;
    ReplySplits(s);
    ReceivedSendable(s);
    AnswersLegal(Received(s));
    FarewellLegal(End(s));
  }

  lemma FarewellLegal(e: Ending)
    ensures forall f <- Farewell(e) :: Sendable(f) && f.fin && |f.payload| <= 125
  {
    hide CloseCode, PutBigEndian;
  }

  lemma {:induction false} AnswersLegal(fs: seq<Frame>)
    requires AllSendable(fs)
    requires forall f <- fs :: !IsTerminal(f) && (f.opcode >= 0x8 ==> f.fin && |f.payload| <= 125)
    ensures forall f <- Answers(fs) :: Sendable(f) && (f.opcode >= 0x8 ==> f.fin && |f.payload| <= 125)
  {
    if fs != [] {
      AnswersLegal(fs[1..]);
    }
  }

  // ---- both directions between client frames and runs --------------------------

  /** A frame as a client sends it. */
  datatype ClientFrame = ClientFrame(frame: Frame, key: Octets, form: LengthForm)

  predicate WellSent(m: ClientFrame) {
    |m.key| == 4 && Acceptable(m.frame, m.form) && (CarriesData(m.frame) || IsPing(m.frame) || IsPong(m.frame))
  }

  predicate AllWellSent(ms: seq<ClientFrame>) {
    forall i :: 0 <= i < |ms| ==> WellSent(ms[i])
  }

  function Wire(ms: seq<ClientFrame>): Octets
    requires AllWellSent(ms)
  {
    if ms == [] then [] else ClientEncoding(ms[0].frame, ms[0].key, ms[0].form) + Wire(ms[1..])
  }

  function Frames(ms: seq<ClientFrame>): (fs: seq<Frame>)
    ensures |fs| == |ms|
  {
    seq(|ms|, i requires 0 <= i < |ms| => ms[i].frame)
  }

  /** Any frames a client sends, under any keys and length forms and followed by anything, are
      received as sent. */
  lemma {:induction false} ReceivesWhatIsSent(ms: seq<ClientFrame>, tail: Octets)
    requires AllWellSent(ms)
    ensures Received(Wire(ms) + tail) == Frames(ms) + Received(tail)
    ensures End(Wire(ms) + tail) == End(tail)
    decreases |ms|
  {
    hide Decode, ClientEncoding, IsTerminal, Frames;
    if ms == [] {
      assert Wire(ms) + tail == tail && Frames(ms) == [];
    } else {
      var m := ms[0];
      GoesOn(m.frame);
      var e := ClientEncoding(m.frame, m.key, m.form);
      DecodesEncoding(m.frame, m.key, m.form, Wire(ms[1..]) + tail);
      assert Wire(ms) + tail == e + (Wire(ms[1..]) + tail);
      ReceivesWhatIsSent(ms[1..], tail);
      FramesStep(ms);
    }
  }

  lemma GoesOn(f: Frame)
    requires CarriesData(f) || IsPing(f) || IsPong(f)
    ensures !IsTerminal(f)
  {
  }

  lemma FramesStep(ms: seq<ClientFrame>)
    requires ms != []
    ensures Frames(ms) == [ms[0].frame] + Frames(ms[1..])
  {
  }

  /** Every input splits into the encodings of what was received and a rest that ends the session. */
  lemma {:induction false} InputSplits(s: Octets) returns (ms: seq<ClientFrame>, tail: Octets)
    ensures AllWellSent(ms) && s == Wire(ms) + tail
    ensures Received(s) == Frames(ms)
    ensures Decode(tail).Got? ==> IsTerminal(Decode(tail).frame)
    decreases |s|
  {
    hide Decode, ClientEncoding;
    if Decode(s).Got? && !IsTerminal(Decode(s).frame) {
      var key, form := AcceptedIsEncoding(s);
      var later;
      DecodedIsSendable(s);
      later, tail := InputSplits(Decode(s).rest);
      var m := ClientFrame(Decode(s).frame, key, form);
      ms := [m] + later;
      assert ms[1..] == later;
      assert Frames(ms) == [m.frame] + Frames(later);
      assert s == ClientEncoding(m.frame, key, form) + Wire(later) + tail;
    } else {
      ms, tail := [], s;
    }
  }

  // ---- runs cut short ----------------------------------------------------------

  /** Later input only adds to the reply: a stream that ends early gets a prefix of it. */
  lemma {:induction false} ReplyGrows(s: Octets, t: Octets)
    ensures Reply(s) <= Reply(s + t)
    decreases |s|
  {
    hide Decode, Answer, CloseFrame, Ascii;
    if !Decode(s).Truncated? {
      DecisionStable(s, t);
    }
    if Decode(s).Got? && !IsTerminal(Decode(s).frame) {
      DecodedIsSendable(s);
      ReplyGrows(Decode(s).rest, t);
    }
  }

  /** Every whole server frame at the front of `s`. */
  function ReadAll(s: Octets): seq<Frame>
    decreases |s|
  {
    match ClientRead(s)
    case None => []
    case One(f, rest) => [f] + ReadAll(rest)
  }

  /** A client that gets the first `k` bytes of what was sent reads a prefix of the frames, and all of
      them when nothing was cut. */
  lemma {:induction false} ReadAllCut(fs: seq<Frame>, k: nat)
    requires AllSendable(fs)
    ensures ReadAll(Take(EncodeAll(fs), k)) <= fs
    ensures k >= |EncodeAll(fs)| ==> ReadAll(Take(EncodeAll(fs), k)) == fs
  {
    hide Encode, ClientRead, ReadAll, Take;
    if fs == [] {
      ReadNothing([]);
      TakeConcat([], [], k);
    } else {
      var e, later := Encode(fs[0]), EncodeAll(fs[1..]);
      TakeConcat(e, later, k);
      if k < |e| {
        ClientReadNeedsAll(fs[0], k);
        ReadNothing(e[..k]);
      } else {
        var cut := Take(later, k - |e|);
        EncodeRoundTrip(fs[0], cut);
        ReadAllStep(e + cut, fs[0], cut);
        ReadAllCut(fs[1..], k - |e|);
        assert fs == [fs[0]] + fs[1..];
      }
    }
  }

  lemma TakeConcat(a: Octets, b: Octets, k: nat)
    ensures Take(a + b, k) == if k < |a| then a[..k] else a + Take(b, k - |a|)
    ensures a + [] == a && [] + b == b
  {
  }

  lemma ReadNothing(s: Octets)
    requires s == [] || ClientRead(s).None?
    ensures ReadAll(s) == []
  {
  }

  lemma ReadAllStep(s: Octets, f: Frame, rest: Octets)
    requires ClientRead(s) == One(f, rest)
    ensures ReadAll(s) == [f] + ReadAll(rest)
  {
    hide ClientRead;
  }

  /** The end-to-end statement: over any input and any point at which the connection gives out, the
      client reads a prefix of the banner followed by the reply, all of it if nothing was cut. */
  lemma SessionSeenByClient(banner: Octets, s: Octets, capacity: nat)
    requires |banner| < 0x8000_0000_0000_0000
    ensures var seen := ReadAll(Take(Transcript(banner, s), capacity));
            && seen <= [Frame(true, 0x1, banner)] + Reply(s)
            && (capacity >= |Transcript(banner, s)| ==> seen == [Frame(true, 0x1, banner)] + Reply(s))
  {
    hide Encode, Reply;
    var fs := [Banner(banner)] + Reply(s);
    assert fs[1..] == Reply(s);
    assert Transcript(banner, s) == EncodeAll(fs);
    ReadAllCut(fs, capacity);
  }

  // ---- sizes -------------------------------------------------------------------

  lemma {:induction false} AnswersShrink(ms: seq<ClientFrame>)
    requires AllWellSent(ms)
    ensures AllSendable(Frames(ms)) && AllSendable(Answers(Frames(ms)))
    ensures |EncodeAll(Answers(Frames(ms)))| + 4 * |Answers(Frames(ms))| <= |Wire(ms)|
    ensures 6 * |ms| <= |Wire(ms)|
  {
    hide Encode, ClientEncoding, Answer;
    assert forall i :: 0 <= i < |ms| ==> Sendable(ms[i].frame);
    if ms != [] {
      AnswersShrink(ms[1..]);
      var fs := Frames(ms);
      assert fs[1..] == Frames(ms[1..]);
      EncodeAllConcat(Answer(fs[0]), Answers(fs[1..]));
      AnswerShrinks(ms[0]);
    }
  }

  lemma AnswerShrinks(m: ClientFrame)
    requires WellSent(m)
    ensures Sendable(m.frame)
    ensures |EncodeAll(Answer(m.frame))| + 4 * |Answer(m.frame)| <= |ClientEncoding(m.frame, m.key, m.form)|
    ensures 6 <= |ClientEncoding(m.frame, m.key, m.form)|
  {
    hide Encode, ClientEncoding;
    EchoShrinks(m.frame, m.key, m.form);
    var pong := Frame(true, 0xA, m.frame.payload);
    SameSize(m.frame, pong);
    EncodeOne(m.frame);
    EncodeOne(pong);
    EncodeNone();
  }

  lemma SameSize(f: Frame, g: Frame)
    requires Sendable(f) && Sendable(g) && |f.payload| == |g.payload|
    ensures |Encode(f)| == |Encode(g)|
  {
  }

  /** Over any input: the answers take at least four bytes per frame less than the encodings of the
      frames received, which are what comes before the tail that ends the session; each of them costs
      the client at least six bytes, and the farewell is at most 22. */
  lemma ReplySizeBounded(s: Octets) returns (ms: seq<ClientFrame>, tail: Octets)
    ensures AllWellSent(ms) && s == Wire(ms) + tail && Received(s) == Frames(ms)
    ensures Decode(tail).Got? ==> IsTerminal(Decode(tail).frame)
    ensures AllSendable(Received(s))
    ensures var fs := Answers(Received(s));
            && AllSendable(fs) && Reply(s) == fs + Farewell(End(s))
            && |EncodeAll(fs)| + 4 * |fs| <= |s| - |tail|
    ensures 6 * |Received(s)| <= |s| - |tail|
    ensures AllSendable(Farewell(End(s))) && |EncodeAll(Farewell(End(s)))| <= 22
  {
    hide Decode;
    ms, tail := InputSplits(s);
    AnswersShrink(ms);
    ReplySplits(s);
    FarewellSize(End(s));
  }

  lemma FarewellSize(e: Ending)
    ensures AllSendable(Farewell(e)) && |EncodeAll(Farewell(e))| <= 22
  {
    hide Encode;
    EncodeNone();
    if e != Lost {
      var f := Farewell(e)[0];
      assert Farewell(e) == [f] && |f.payload| <= 20;
      EncodeOne(f);
      SmallSize(f);
    }
  }

  lemma SmallSize(f: Frame)
    requires Sendable(f) && |f.payload| <= 20
    ensures |Encode(f)| <= 22
  {
  }

  // ---- fragmentation -------------------------------------------------------------

  /** A reassembled message: the opcode of its first fragment and all its bytes. */
  datatype Message = Message(opcode: Byte, payload: Octets)

  /** Section 5.4 of RFC 6455: the messages completed, and the one still open, if any. */
  datatype Assembly = Assembly(done: seq<Message>, open: seq<Message>) | Illegal

  const EMPTY: Assembly := Assembly([], [])

  function Accept(a: Assembly, f: Frame): Assembly {
    if a == Illegal || f.opcode >= 0x8 then a
    else if f.opcode == 0x1 || f.opcode == 0x2 then
      if a.open != [] then Illegal else Append(a.done, Message(f.opcode, f.payload), f.fin)
    else if f.opcode == 0x0 then
      if a.open == [] then Illegal
      else Append(a.done, Message(a.open[0].opcode, a.open[0].payload + f.payload), f.fin)
    else Illegal
  }

  function Append(done: seq<Message>, m: Message, fin: bool): Assembly {
    if fin then Assembly(done + [m], []) else Assembly(done, [m])
  }

  /** Reassembles a frame sequence; control frames may stand between fragments. */
  function Reassemble(a: Assembly, fs: seq<Frame>): Assembly
    decreases fs
  {
    if fs == [] then a else Reassemble(Accept(a, fs[0]), fs[1..])
  }

  lemma {:induction false} ReassembleSkipsControl(a: Assembly, fs: seq<Frame>)
    requires forall f <- fs :: CarriesData(f) || f.opcode >= 0x8
    ensures Reassemble(a, fs) == Reassemble(a, Select(fs, CarriesData))
    decreases fs
  {
    if fs != [] {
      ReassembleSkipsControl(Accept(a, fs[0]), fs[1..]);
      var kept := Select(fs[1..], CarriesData);
      if CarriesData(fs[0]) {
        assert Select(fs, CarriesData) == [fs[0]] + kept;
        assert ([fs[0]] + kept)[1..] == kept;
      } else {
        assert Select(fs, CarriesData) == [] + kept == kept;
        assert Accept(a, fs[0]) == a;
      }
    }
  }

  /** Earlier complete messages only stand in front of what follows. */
  function Preceded(m: Message, a: Assembly): Assembly {
    if a == Illegal then a else a.(done := [m] + a.done)
  }

  lemma {:induction false} ReassembleAfter(m: Message, a: Assembly, fs: seq<Frame>)
    ensures Reassemble(Preceded(m, a), fs) == Preceded(m, Reassemble(a, fs))
    decreases fs
  {
    if fs != [] {
      if a != Illegal {
        assert forall d: Message :: [m] + a.done + [d] == [m] + (a.done + [d]);
      }
      assert Accept(Preceded(m, a), fs[0]) == Preceded(m, Accept(a, fs[0]));
      ReassembleAfter(m, Accept(a, fs[0]), fs[1..]);
    }
  }

  /** Fragmentation is preserved: the client reassembles what the server sent into the banner followed
      by exactly the messages, finished and open, that the server received; and what was received is
      legal exactly when what was sent is. */
  lemma FragmentationPreserved(banner: Octets, s: Octets)
    ensures Reassemble(EMPTY, [Frame(true, 0x1, banner)] + Reply(s))
         == Preceded(Message(0x1, banner), Reassemble(EMPTY, Received(s)))
  {
    hide Decode, Reply, Received;
    var first := Message(0x1, banner);
    var fs := [Banner(banner)] + Reply(s);
    assert fs[1..] == Reply(s);
    assert Accept(EMPTY, Banner(banner)) == Preceded(first, EMPTY);
    ReassembleAfter(first, EMPTY, Reply(s));
    SessionTrace(s);
    ReceivedSendable(s);
    ReassembleSkipsControl(EMPTY, Reply(s));
    ReassembleSkipsControl(EMPTY, Received(s));
  }
}
