/** Per-request overrides: a handler's response buffered and replayed, against the same handler writing
    directly. */
module Overrides {
  import opened Options
  import opened Bytes
  import opened Decimal

  type Header = map<string, seq<string>>

  const CONTENT_LENGTH: string := "Content-Length"

  // ---- handlers and what they write to -------------------------------------------

  /** One call a handler makes on its response writer. */
  datatype Op = SetHeader(name: string, values: seq<string>) | WriteHeader(status: int) | Write(bytes: Octets)

  type Trace = seq<Op>

  /** The writer of net/http: the first final status is the response's, and fixes the headers; a write
      before any status implies 200; a 1xx status other than 101 is sent on its own and fixes nothing; a
      status outside 100-999 aborts the handler. */
  datatype Response = Response(header: Header, sent: Option<(int, Header)>, writes: seq<Octets>, aborted: bool)

  predicate ValidStatus(code: int) { 100 <= code <= 999 }

  predicate Informational(code: int) { 100 <= code <= 199 && code != 101 }

  predicate Final(code: int) { ValidStatus(code) && !Informational(code) }

  function Commit(r: Response, code: int): Response {
    if r.aborted || r.sent.Some? then r
    else if !ValidStatus(code) then r.(aborted := true)
    else if Informational(code) then r
    else r.(sent := Some((code, r.header)))
  }

  function Apply(r: Response, op: Op): Response {
    if r.aborted then r
    else match op
      case SetHeader(name, values) => r.(header := r.header[name := values])
      case WriteHeader(code) => Commit(r, code)
      case Write(bytes) => var c := Commit(r, 200); c.(writes := c.writes + [bytes])
  }

  function Play(r: Response, ops: Trace): Response {
    if ops == [] then r else Apply(Play(r, ops[..|ops| - 1]), ops[|ops| - 1])
  }

  /** The response once the handler has returned: 200 when it wrote nothing. */
  function Finish(r: Response): Response {
    Commit(r, 200)
  }

  function Fresh(base: Header): Response {
    Response(base, None, [], false)
  }

  // ---- what a client gets ------------------------------------------------------------

  /** Whether a response with this status has a body at all. */
  predicate BodyAllowed(code: int) { code >= 200 && code != 204 && code != 304 }

  /** The headers of a handler that net/http does not send with this status. */
  function Suppressed(code: int): set<string> {
    if code == 304 then {"Content-Type", CONTENT_LENGTH, "Transfer-Encoding"}
    else if !BodyAllowed(code) then {CONTENT_LENGTH, "Transfer-Encoding"}
    else {}
  }

  /** A value of Content-Length that is the numeral of a length. */
  predicate IsLength(values: seq<string>) {
    values != [] && match Atoi(values[0]) case None => false case Some(n) => n >= 0
  }

  /** The body length a handler has declared. */
  function Declared(header: Header): Option<nat> {
    if CONTENT_LENGTH in header && IsLength(header[CONTENT_LENGTH])
    then Some(Atoi(header[CONTENT_LENGTH][0]).value)
    else None
  }

  /** The handler's headers, without a Content-Length that is no length. */
  function Framed(header: Header): Header {
    if Declared(header).None? then header - {CONTENT_LENGTH} else header
  }

  function Shown(code: int, header: Header): Header {
    Framed(header) - Suppressed(code)
  }

  /** A declared length that covers everything written. */
  predicate Covers(limit: Option<nat>, writes: seq<Octets>) {
    limit.None? || |Flatten(writes)| <= limit.value
  }

  /** The bytes that go out: each write whole or not at all, and none once they exceed the length
      declared. */
  function Accepted(limit: Option<nat>, writes: seq<Octets>): Octets {
    if writes == [] then []
    else
      var n := |writes| - 1;
      Accepted(limit, writes[..n]) + if Covers(limit, writes) then writes[n] else []
  }

  /** A response as a client gets it. */
  datatype Outcome = Outcome(status: int, header: Header, body: Octets) | NoOutcome

  function Delivered(code: int, header: Header, writes: seq<Octets>): Outcome {
    Outcome(code, Shown(code, header), if BodyAllowed(code) then Accepted(Declared(header), writes) else [])
  }

  function Seen(r: Response): Outcome {
    if r.aborted || r.sent.None? then NoOutcome else Delivered(r.sent.value.0, r.sent.value.1, r.writes)
  }

  // ---- the recorder ------------------------------------------------------------------

  /** `bufferedRecorder` as a value: headers, status and body, each the latest. */
  datatype Record = Record(header: Header, status: int, body: Octets)

  const EMPTY: Record := Record(map[], 200, [])

  function Note(rec: Record, op: Op): Record {
    match op
    case SetHeader(name, values) => rec.(header := rec.header[name := values])
    case WriteHeader(code) => rec.(status := code)
    case Write(bytes) => rec.(body := rec.body + bytes)
  }

  function Recorded(ops: Trace): Record {
    if ops == [] then EMPTY else Note(Recorded(ops[..|ops| - 1]), ops[|ops| - 1])
  }

  function Or<T>(over: Option<T>, value: T): T {
    match over case None => value case Some(v) => v
  }

  /** Headers with the length of an overriding body. */
  function WithLength(header: Header, body: Option<Octets>): Header {
    match body case None => header case Some(b) => header[CONTENT_LENGTH := [Itoa(|b|)]]
  }

  /** The headers, status and body replayed after a recording. */
  function Replayed(base: Header, rec: Record, status: Option<int>, body: Option<Octets>): Response {
    Play(Fresh(WithLength(base + rec.header, body)), [WriteHeader(Or(status, rec.status)), Write(Or(body, rec.body))])
  }

  /** The response under overrides; with neither, the handler writes directly. */
  function Overridden(base: Header, ops: Trace, status: Option<int>, body: Option<Octets>): Response {
    if status.None? && body.None? then Finish(Play(Fresh(base), ops))
    else Finish(Replayed(base, Recorded(ops), status, body))
  }

  // ---- reading the overrides -----------------------------------------------------------

  /** A request's first query value and header value by name; absent and empty read alike. */
  datatype Request = Request(query: map<string, string>, header: map<string, string>)

  function OverrideValue(r: Request, queryName: string, headerName: string): Option<string> {
    if queryName in r.query && r.query[queryName] != "" then Some(r.query[queryName])
    else if headerName in r.header && r.header[headerName] != "" then Some(r.header[headerName])
    else None
  }

  function OverrideInt(r: Request, queryName: string, headerName: string): Option<int> {
    match OverrideValue(r, queryName, headerName)
    case None => None
    case Some(raw) => Atoi(raw)
  }

  function StatusOverride(r: Request): Option<int> {
    OverrideInt(r, "_status", "X-Reflector-Status")
  }

  function BodyOverride(r: Request, encode: string -> Octets): Option<Octets> {
    match OverrideValue(r, "_body", "X-Reflector-Body") case None => None case Some(text) => Some(encode(text))
  }

  predicate Present(values: map<string, string>, name: string) {
    name in values && values[name] != ""
  }

  /** Where the overrides are read from: the query parameter if it is present, numeral or not, else the
      header. */
  lemma OverridesRead(r: Request, encode: string -> Octets)
    ensures StatusOverride(r)
         == if Present(r.query, "_status") then Atoi(r.query["_status"])
            else if Present(r.header, "X-Reflector-Status") then Atoi(r.header["X-Reflector-Status"])
            else None
    ensures BodyOverride(r, encode)
         == if Present(r.query, "_body") then Some(encode(r.query["_body"]))
            else if Present(r.header, "X-Reflector-Body") then Some(encode(r.header["X-Reflector-Body"]))
            else None
  {
    hide Atoi;
  }

  // ---- the objects -------------------------------------------------------------------

  /** A response writer. */
  class Writer {
    var state: Response

    constructor (base: Header)
      ensures state == Fresh(base)
    {
      state := Fresh(base);
    }

    method Do(op: Op)
      modifies this
      ensures state == Apply(old(state), op)
    {
      state := Apply(state, op);
    }
  }

  class BufferedRecorder {
    var header: Header
    var status: int
    var body: Octets

    constructor ()
      ensures View() == EMPTY
    {
      header, status, body := map[], 200, [];
    }

    ghost function View(): Record
      reads this
    {
      Record(header, status, body)
    }

    method Do(op: Op)
      modifies this
      ensures View() == Note(old(View()), op)
    {
      match op
      case SetHeader(name, values) => header := header[name := values];
      case WriteHeader(code) => status := code;
      case Write(bytes) => body := body + bytes;
    }
  }

  method ServeDirect(w: Writer, ops: Trace)
    modifies w
    ensures w.state == Play(old(w.state), ops)
  {
    for i := 0 to |ops|
      invariant w.state == Play(old(w.state), ops[..i])
    {
      assert ops[..i + 1][..i] == ops[..i];
      w.Do(ops[i]);
    }
    assert ops[..|ops|] == ops;
  }

  method ServeRecorded(rec: BufferedRecorder, ops: Trace)
    requires rec.View() == EMPTY
    modifies rec
    ensures rec.View() == Recorded(ops)
  {
    for i := 0 to |ops|
      invariant rec.View() == Recorded(ops[..i])
    {
      assert ops[..i + 1][..i] == ops[..i];
      rec.Do(ops[i]);
    }
    assert ops[..|ops|] == ops;
  }

  /** Copies the recorded headers one key at a time, in whatever order the map gives its keys. */
  method CopyHeaders(w: Writer, from: Header)
    requires !w.state.aborted
    modifies w
    ensures w.state == old(w.state).(header := old(w.state).header + from)
  {
    var left := from.Keys;
    while left != {}
      invariant left <= from.Keys
      invariant w.state == old(w.state).(header := old(w.state).header + (from - left))
      decreases left
    {
      var k :| k in left;
      w.Do(SetHeader(k, from[k]));
      MergeUpdate(old(w.state).header, from - left, k, from[k]);
      assert (from - left)[k := from[k]] == from - (left - {k});
      left := left - {k};
    }
    assert from - {} == from;
  }

  /** The buffering half of `withOverrides`, past the delay and abort overrides: `passThrough` is a
      WebSocket upgrade, `encode` gives the bytes of a string. */
  method ServeOverridden(w: Writer, ops: Trace, r: Request, encode: string -> Octets, passThrough: bool)
    requires w.state == Fresh(w.state.header)
    modifies w
    ensures Finish(w.state)
         == if passThrough then Overridden(old(w.state).header, ops, None, None)
            else Overridden(old(w.state).header, ops, StatusOverride(r), BodyOverride(r, encode))
  {
    hide OverrideValue, Atoi, Itoa;
    var status := StatusOverride(r);
    var body := BodyOverride(r, encode);
    if (status.None? && body.None?) || passThrough {
      ServeDirect(w, ops);
      return;
    }
    ghost var base := w.state.header;
    var rec := new BufferedRecorder();
    ServeRecorded(rec, ops);
    CopyHeaders(w, rec.header);
    var out := rec.body;
    if body.Some? {
      out := body.value;
      w.Do(SetHeader(CONTENT_LENGTH, [Itoa(|out|)]));
    }
    var code := rec.status;
    if status.Some? {
      code := status.value;
    }
    assert w.state == Fresh(WithLength(base + Recorded(ops).header, body));
    PlayTwo(w.state, WriteHeader(code), Write(out));
    w.Do(WriteHeader(code));
    w.Do(Write(out));
  }

  lemma PlayTwo(r: Response, a: Op, b: Op)
    ensures Play(r, [a, b]) == Apply(Apply(r, a), b)
  {
    assert [a, b][..1] == [a] && [a][..0] == [];
    assert Play(r, [a]) == Apply(Play(r, []), a);
  }

  // ---- what a trace says -------------------------------------------------------------

  /** The statuses written, a write with none before it counting as 200. */
  function Statuses(ops: Trace): seq<int> {
    if ops == [] then []
    else
      var rest := Statuses(ops[..|ops| - 1]);
      match ops[|ops| - 1]
      case WriteHeader(code) => rest + [code]
      case Write(_) => if rest == [] then [200] else rest
      case _ => rest
  }

  /** The status a trace decides on, which is the first. */
  function Decided(ops: Trace): int {
    if Statuses(ops) == [] then 200 else Statuses(ops)[0]
  }

  /** The last status a trace writes. */
  function LastStatus(ops: Trace): int {
    if ops == [] then 200
    else match ops[|ops| - 1] case WriteHeader(code) => code case _ => LastStatus(ops[..|ops| - 1])
  }

  /** The headers set before anything is decided, latest value each. */
  function Early(ops: Trace): Header {
    if ops == [] then map[]
    else
      var front := ops[..|ops| - 1];
      match ops[|ops| - 1]
      case SetHeader(name, values) => if Statuses(front) == [] then Early(front)[name := values] else Early(front)
      case _ => Early(front)
  }

  /** The headers set after that. */
  function Late(ops: Trace): Header {
    if ops == [] then map[]
    else
      var front := ops[..|ops| - 1];
      match ops[|ops| - 1]
      case SetHeader(name, values) => if Statuses(front) == [] then Late(front) else Late(front)[name := values]
      case _ => Late(front)
  }

  function Writes(ops: Trace): seq<Octets> {
    if ops == [] then []
    else
      var rest := Writes(ops[..|ops| - 1]);
      match ops[|ops| - 1] case Write(bytes) => rest + [bytes] case _ => rest
  }

  predicate FinalStatuses(ops: Trace) {
    forall i :: 0 <= i < |ops| && ops[i].WriteHeader? ==> Final(ops[i].status)
  }

  lemma FinalFront(ops: Trace)
    requires ops != [] && FinalStatuses(ops)
    ensures FinalStatuses(ops[..|ops| - 1])
  {
    hide Final;
    var front := ops[..|ops| - 1];
    assert forall i :: 0 <= i < |front| ==> front[i] == ops[i];
  }

  lemma FinalLast(ops: Trace)
    requires ops != [] && FinalStatuses(ops)
    ensures var op := ops[|ops| - 1]; op.WriteHeader? ==> Final(op.status)
  {
  }

  lemma {:induction false} FinalDecided(ops: Trace)
    requires FinalStatuses(ops)
    ensures Final(Decided(ops)) && Final(LastStatus(ops))
    ensures Statuses(ops) == [] ==> Late(ops) == map[] && Writes(ops) == []
  {
    if ops != [] {
      FinalFront(ops);
      FinalDecided(ops[..|ops| - 1]);
    }
  }

  /** What the recorder holds of a trace: every header, the last status, every byte. */
  lemma {:induction false} RecordedIs(ops: Trace)
    requires FinalStatuses(ops)
    ensures Recorded(ops) == Record(Early(ops) + Late(ops), LastStatus(ops), Flatten(Writes(ops)))
  {
    hide FinalStatuses, Flatten;
    MergeNone(map[]);
    FlattenNone<Byte>();
    if ops != [] {
      var front, op := ops[..|ops| - 1], ops[|ops| - 1];
      FinalFront(ops);
      RecordedIs(front);
      FinalDecided(front);
      match op
      case SetHeader(name, values) =>
        MergeNone(Early(front));
        MergeNone(Early(front)[name := values]);
        MergeUpdate(Early(front), Late(front), name, values);
      case Write(bytes) => FlattenLast(Writes(front), bytes);
      case _ =>
    }
  }

  /** What the same trace asks of a writer: the first status, with the headers set until then. */
  lemma {:induction false} PlayedIs(base: Header, ops: Trace)
    requires FinalStatuses(ops)
    ensures var r := Play(Fresh(base), ops);
            && !r.aborted && r.writes == Writes(ops) && r.header == base + Early(ops) + Late(ops)
            && r.sent == if Statuses(ops) == [] then None else Some((Decided(ops), base + Early(ops)))
  {
    hide FinalStatuses;
    MergeNone(base);
    if ops != [] {
      var front, op := ops[..|ops| - 1], ops[|ops| - 1];
      FinalFront(ops);
      PlayedIs(base, front);
      FinalDecided(front);
      MergeNone(base + Early(front));
      match op
      case SetHeader(name, values) =>
        MergeUpdate(base, Early(front), name, values);
        MergeUpdate(base + Early(front), Late(front), name, values);
        MergeNone(base + Early(front)[name := values]);
      case WriteHeader(code) =>
        FinalLast(ops);
      case _ =>
    }
  }

  lemma MergeNone(header: Header)
    ensures header + map[] == header
  {
  }

  lemma MergeUpdate(a: Header, b: Header, name: string, values: seq<string>)
    ensures (a + b)[name := values] == a + b[name := values]
  {
  }

  /** A handler writing directly has its first status, the headers set until then, and what it writes
      delivered. */
  lemma DirectIs(base: Header, ops: Trace)
    requires FinalStatuses(ops)
    ensures Seen(Overridden(base, ops, None, None)) == Delivered(Decided(ops), base + Early(ops), Writes(ops))
  {
    hide FinalStatuses, Delivered;
    PlayedIs(base, ops);
    FinalDecided(ops);
    MergeNone(base + Early(ops));
  }

  /** A recorded handler has its last status, every header, and all it wrote delivered in one write,
      except for what is overridden. */
  lemma BufferedIs(base: Header, ops: Trace, status: Option<int>, body: Option<Octets>)
    requires FinalStatuses(ops) && (status.Some? || body.Some?) && (status.Some? ==> Final(status.value))
    ensures Seen(Overridden(base, ops, status, body))
         == Delivered(Or(status, LastStatus(ops)), WithLength(base + (Early(ops) + Late(ops)), body),
                      [Or(body, Flatten(Writes(ops)))])
  {
    hide FinalStatuses, Delivered, WithLength;
    RecordedIs(ops);
    FinalDecided(ops);
    var rec := Recorded(ops);
    PlayTwo(Fresh(WithLength(base + rec.header, body)), WriteHeader(Or(status, rec.status)), Write(Or(body, rec.body)));
    assert [] + [Or(body, rec.body)] == [Or(body, rec.body)];
  }

  // ---- what delivery loses -------------------------------------------------------------

  lemma {:induction false} AcceptedIs(limit: Option<nat>, writes: seq<Octets>)
    ensures |Accepted(limit, writes)| <= |Flatten(writes)|
    ensures limit.Some? ==> |Accepted(limit, writes)| <= limit.value
    ensures Covers(limit, writes) ==> Accepted(limit, writes) == Flatten(writes)
  {
    if writes != [] {
      var n := |writes| - 1;
      AcceptedIs(limit, writes[..n]);
      FlattenLast(writes[..n], writes[n]);
      assert writes == writes[..n] + [writes[n]];
    }
  }

  lemma FramedIff(header: Header)
    ensures CONTENT_LENGTH in Framed(header) <==> Declared(header).Some?
  {
    hide IsLength;
  }

  /** What is asked for is delivered in full exactly when the status allows a body and the declared
      length covers it, or there is none; and a declared length is shown exactly when the status allows
      a body. */
  lemma DeliveredInFullIff(code: int, header: Header, writes: seq<Octets>)
    ensures var d := Delivered(code, header, writes);
            && (d.body == Flatten(writes) <==>
                  Flatten(writes) == [] || (BodyAllowed(code) && Covers(Declared(header), writes)))
            && (CONTENT_LENGTH in d.header <==> Declared(header).Some? && BodyAllowed(code))
  {
    hide Declared, Flatten, Framed;
    AcceptedIs(Declared(header), writes);
    FramedIff(header);
  }

  /** Which of a handler's headers are shown besides Content-Length: all but Content-Type with 304, and
      Transfer-Encoding with the statuses that have no body. */
  lemma ShownIff(code: int, header: Header, name: string)
    requires Final(code) && name != "Content-Length"
    ensures name in Shown(code, header) <==>
              name in header && !(name == "Content-Type" && code == 304)
              && !(name == "Transfer-Encoding" && code in {101, 204, 304})
    ensures name in Shown(code, header) ==> Shown(code, header)[name] == header[name]
  {
    hide Declared;
    assert |"Content-Type"| == 12 && |"Transfer-Encoding"| == 17;
  }

  /** The first bytes written. */
  function FirstBytes(writes: seq<Octets>): Octets {
    if writes == [] then []
    else
      var rest := FirstBytes(writes[..|writes| - 1]);
      if rest != [] then rest else writes[|writes| - 1]
  }

  /** The declared length covers everything written, or not even the first bytes of it. */
  predicate WholeOrNothing(limit: Option<nat>, writes: seq<Octets>) {
    Covers(limit, writes) || |FirstBytes(writes)| > limit.value
  }

  lemma {:induction false} NothingAccepted(limit: nat, writes: seq<Octets>)
    ensures Accepted(Some(limit), writes) == [] <==> Flatten(writes) == [] || |FirstBytes(writes)| > limit
    ensures |FirstBytes(writes)| <= |Flatten(writes)|
    ensures FirstBytes(writes) == [] <==> Flatten(writes) == []
  {
    if writes != [] {
      var n := |writes| - 1;
      NothingAccepted(limit, writes[..n]);
      FlattenLast(writes[..n], writes[n]);
      AcceptedIs(Some(limit), writes[..n]);
      assert writes == writes[..n] + [writes[n]];
    }
  }

  /** One write of everything is accepted like the writes it gathers exactly in those two cases. */
  lemma GatheredIff(limit: Option<nat>, writes: seq<Octets>)
    ensures Accepted(limit, [Flatten(writes)]) == Accepted(limit, writes) <==> WholeOrNothing(limit, writes)
  {
    var all := Flatten(writes);
    AcceptedIs(limit, writes);
    AcceptedIs(limit, [all]);
    FlattenOne(all);
    if !Covers(limit, writes) {
      NothingAccepted(limit.value, writes);
      NothingAccepted(limit.value, [all]);
      assert [all][..0] == [];
    }
  }

  lemma FlattenOne(bs: Octets)
    ensures Flatten([bs]) == bs
  {
    assert [bs][1..] == [];
  }

  // ---- when buffering is faithful ----------------------------------------------------------

  /** A header set late that the client is shown repeats the value in force when the response was
      decided; one that is no length says as much as another, or none. */
  predicate Repeats(code: int, body: Option<Octets>, inForce: Header, name: string, values: seq<string>) {
    || name in Suppressed(code)
    || (name == CONTENT_LENGTH && body.Some?)
    || (name in inForce && inForce[name] == values)
    || (name == CONTENT_LENGTH && Declared(inForce).None? && !IsLength(values))
  }

  lemma ShownAlikeIff(code: int, body: Option<Octets>, inForce: Header, late: Header)
    requires body.Some? ==> |body.value| <= MAX_INT
    ensures Shown(code, WithLength(inForce + late, body)) == Shown(code, WithLength(inForce, body))
       <==> forall name <- late :: Repeats(code, body, inForce, name, late[name])
  {
    hide Atoi, Itoa, Suppressed;
    if body.Some? {
      AtoiItoa(|body.value|);
    }
    var a, b := Shown(code, WithLength(inForce + late, body)), Shown(code, WithLength(inForce, body));
    forall name | name in late
      ensures Repeats(code, body, inForce, name, late[name])
         <==> (name in a <==> name in b) && (name in a && name in b ==> a[name] == b[name])
    {
    }
    if a == b {
      forall name | name in late ensures Repeats(code, body, inForce, name, late[name]) {
      }
    }
    if forall name <- late :: Repeats(code, body, inForce, name, late[name]) {
      forall name ensures (name in a <==> name in b) && (name in a && name in b ==> a[name] == b[name]) {
        if name in late {
          assert Repeats(code, body, inForce, name, late[name]);
        } else if name == CONTENT_LENGTH {
        }
      }
      assert a == b;
    }
  }

  /** The response of a handler that itself asked for the overriding status and body. */
  function Asked(base: Header, ops: Trace, status: Option<int>, body: Option<Octets>): Outcome {
    Delivered(Or(status, Decided(ops)), WithLength(base + Early(ops), body),
              match body case None => Writes(ops) case Some(b) => [b])
  }

  /** Buffering and replaying is the same as having the handler itself ask for the overriding parts, and
      write the rest directly, exactly when: without a status override, the last status written is the
      one decided first; every header set after that decision repeats the value in force, as far as it
      is shown; and, without a body override and if there is a body, the declared length covers
      everything written or not even the first bytes. */
  lemma BufferingFaithfulIff(base: Header, ops: Trace, status: Option<int>, body: Option<Octets>)
    requires FinalStatuses(ops)
    requires (status.Some? || body.Some?) && (status.Some? ==> Final(status.value))
    requires body.Some? ==> |body.value| <= MAX_INT
    ensures var code, inForce := Or(status, Decided(ops)), base + Early(ops);
            Seen(Overridden(base, ops, status, body)) == Asked(base, ops, status, body) <==>
              && (status.None? ==> LastStatus(ops) == Decided(ops))
              && (forall name <- Late(ops) :: Repeats(code, body, inForce, name, Late(ops)[name]))
              && (body.None? && BodyAllowed(code) ==> WholeOrNothing(Declared(inForce), Writes(ops)))
  {
    hide FinalStatuses, Overridden, Shown, Repeats, Accepted, WholeOrNothing, Suppressed, Declared;
    BufferedIs(base, ops, status, body);
    var code, inForce := Or(status, Decided(ops)), base + Early(ops);
    var all := base + (Early(ops) + Late(ops));
    assert all == inForce + Late(ops);
    ShownAlikeIff(code, body, inForce, Late(ops));
    match body {
      case Some(b) =>
      case None =>
        GatheredIff(Declared(inForce), Writes(ops));
        if BodyAllowed(code) && Shown(code, all) == Shown(code, inForce) {
          ShownDeclares(code, all, inForce);
        }
    }
    BodyFits(WithLength(all, body), WithLength(inForce, body), body);
  }

  /** Where a body is allowed, the headers shown say how long it was declared. */
  lemma ShownDeclares(code: int, a: Header, b: Header)
    requires BodyAllowed(code) && Shown(code, a) == Shown(code, b)
    ensures Declared(a) == Declared(b)
  {
    hide Atoi, IsLength;
    assert Framed(a) == Framed(b) by {
      assert Framed(a) - {} == Framed(a) && Framed(b) - {} == Framed(b);
    }
    assert CONTENT_LENGTH in Framed(a) <==> CONTENT_LENGTH in Framed(b);
  }

  /** An overriding body fits the length declared for it, whatever the other headers. */
  lemma BodyFits(a: Header, b: Header, body: Option<Octets>)
    requires body.Some? ==> |body.value| <= MAX_INT && WithLength(a, body) == a && WithLength(b, body) == b
    ensures body.Some? ==> Accepted(Declared(a), [body.value]) == Accepted(Declared(b), [body.value]) == body.value
  {
    hide Itoa, Atoi, Accepted;
    if body.Some? {
      AtoiItoa(|body.value|);
      FlattenOne(body.value);
      AcceptedIs(Declared(a), [body.value]);
      AcceptedIs(Declared(b), [body.value]);
    }
  }

  lemma NoBodyIff(code: int)
    requires Final(code)
    ensures BodyAllowed(code) <==> code !in {101, 204, 304}
  {
  }

  /** An overriding body reaches the client, and its Content-Length with it, exactly when the status
      that goes out allows a body; an empty one is none anyway. */
  lemma OverridingBodyShownIff(base: Header, ops: Trace, status: Option<int>, body: Octets)
    requires FinalStatuses(ops) && (status.Some? ==> Final(status.value)) && |body| <= MAX_INT
    ensures var seen := Seen(Overridden(base, ops, status, Some(body)));
            var code := Or(status, LastStatus(ops));
            && seen.Outcome? && seen.status == code
            && (seen.body == body <==> body == [] || code !in {101, 204, 304})
            && ("Content-Length" in seen.header && seen.header["Content-Length"] == [Itoa(|body|)] <==>
                  code !in {101, 204, 304})
  {
    hide FinalStatuses, Overridden, Itoa, Atoi, Accepted;
    FinalDecided(ops);
    NoBodyIff(Or(status, LastStatus(ops)));
    var header := WithLength(base + (Early(ops) + Late(ops)), Some(body));
    BufferedIs(base, ops, status, Some(body));
    BodyFits(header, header, Some(body));
    AtoiItoa(|body|);
  }

  /** A handler that writes two statuses is one for which it is not: the direct writer keeps the first,
      the recorder the last. */
  lemma TwoStatusesDiffer(base: Header, first: int, second: int, body: Octets)
    requires Final(first) && Final(second) && first != second && |body| <= MAX_INT
    ensures var ops := [WriteHeader(first), WriteHeader(second)];
            && Seen(Overridden(base, ops, None, Some(body))) != Asked(base, ops, None, Some(body))
            && Seen(Overridden(base, ops, None, None)) == Outcome(first, Shown(first, base), [])
            && Seen(Overridden(base, ops, None, Some(body))) == Delivered(second, WithLength(base, Some(body)), [body])
  {
    hide Shown, Itoa, Declared, WithLength;
    var ops := [WriteHeader(first), WriteHeader(second)];
    assert ops[..1] == [WriteHeader(first)] && ops[..1][..0] == [];
    var one := ops[..1];
    assert Statuses(one) == [first] && Early(one) == Late(one) == map[] && Writes(one) == [];
    assert Early(ops) == Late(ops) == map[] && Writes(ops) == [];
    assert base + map[] == base && base + (map[] + map[]) == base;
    DirectIs(base, ops);
    BufferedIs(base, ops, None, Some(body));
  }

  // ---- orderly handlers -----------------------------------------------------------------

  /** Headers first, then at most one final status, then body bytes. */
  predicate Orderly(ops: Trace) {
    && (forall i, j :: 0 <= i < j < |ops| && ops[j].SetHeader? ==> ops[i].SetHeader?)
    && (forall i, j :: 0 <= i < j < |ops| && ops[j].WriteHeader? ==> ops[i].SetHeader?)
    && FinalStatuses(ops)
  }

  lemma {:induction false} OrderlyIs(ops: Trace)
    requires Orderly(ops)
    ensures FinalStatuses(ops) && Late(ops) == map[] && LastStatus(ops) == Decided(ops)
    ensures Statuses(ops) == [] <==> forall i :: 0 <= i < |ops| ==> ops[i].SetHeader?
  {
    hide Final;
    if ops != [] {
      var front := ops[..|ops| - 1];
      assert forall i :: 0 <= i < |front| ==> front[i] == ops[i];
      OrderlyIs(front);
    }
  }

  /** For an orderly handler that writes no more than it declares, overrides replace exactly their part
      of the direct response exactly when: an overriding body has a status that allows it; without one,
      the two statuses agree on whether what was written is sent; and they suppress the same of the
      handler's headers, an overridden Content-Length aside. Two statuses that allow a body do. */
  lemma OverridesReplaceTheirPartIff(base: Header, ops: Trace, status: Option<int>, body: Option<Octets>)
    requires Orderly(ops) && Covers(Declared(base + Early(ops)), Writes(ops))
    requires (status.Some? || body.Some?) && (status.Some? ==> Final(status.value))
    requires body.Some? ==> |body.value| <= MAX_INT
    ensures var direct := Seen(Overridden(base, ops, None, None));
            var was, code := Decided(ops), Or(status, Decided(ops));
            && direct.Outcome? && direct.status == was
            && (Seen(Overridden(base, ops, status, body))
                  == Outcome(code, WithLength(direct.header, body), Or(body, direct.body)) <==>
                && (body.Some? ==> BodyAllowed(code))
                && (body.None? && Flatten(Writes(ops)) != [] ==> (BodyAllowed(code) <==> BodyAllowed(was)))
                && (forall name <- Framed(base + Early(ops)) ::
                      (name in Suppressed(code) <==> name in Suppressed(was)) || (name == CONTENT_LENGTH && body.Some?)))
            && (BodyAllowed(code) && BodyAllowed(was) ==>
                  Seen(Overridden(base, ops, status, body))
                    == Outcome(code, WithLength(direct.header, body), Or(body, direct.body)))
  {
    hide Orderly, Overridden, Shown, Repeats, Accepted, Declared, Decided, Framed, FinalStatuses;
    OrderlyIs(ops);
    DirectIs(base, ops);
    BufferingFaithfulIff(base, ops, status, body);
    var header := base + Early(ops);
    AcceptedIs(Declared(header), Writes(ops));
    BodyFits(WithLength(header, body), WithLength(header, body), body);
    ReplacedShownIff(Decided(ops), Or(status, Decided(ops)), header, body);
  }

  /** The headers shown after replacing are those of the direct response exactly when both statuses
      suppress the same of them. */
  lemma ReplacedShownIff(was: int, code: int, header: Header, body: Option<Octets>)
    requires body.Some? ==> |body.value| <= MAX_INT
    ensures Shown(code, WithLength(header, body)) == WithLength(Shown(was, header), body) <==>
              && (body.Some? ==> BodyAllowed(code))
              && (forall name <- Framed(header) ::
                    (name in Suppressed(code) <==> name in Suppressed(was)) || (name == CONTENT_LENGTH && body.Some?))
  {
    hide Atoi, Itoa;
    if body.Some? {
      AtoiItoa(|body.value|);
    }
    var a, b := Shown(code, WithLength(header, body)), WithLength(Shown(was, header), body);
    var same := (body.Some? ==> BodyAllowed(code))
      && (forall name <- Framed(header) ::
            (name in Suppressed(code) <==> name in Suppressed(was)) || (name == CONTENT_LENGTH && body.Some?));
    if a == b {
      if body.Some? {
        assert CONTENT_LENGTH in b;
      }
      forall name | name in Framed(header)
        ensures (name in Suppressed(code) <==> name in Suppressed(was)) || (name == CONTENT_LENGTH && body.Some?)
      {
        assert name in a <==> name in b;
      }
    }
    if same {
      assert a == b;
    }
  }

  /** A status override becomes the response's status exactly when it is one a final response can have,
      whatever the handler does; `overrideInt` lets any integer through. */
  lemma StatusOverrideTakenIff(base: Header, ops: Trace, status: int, body: Option<Octets>)
    ensures var seen := Seen(Overridden(base, ops, Some(status), body));
            && ((seen.Outcome? && seen.status == status) <==> status == 101 || 200 <= status <= 999)
            && (seen.NoOutcome? <==> status < 100 || status > 999)
            && (100 <= status <= 199 && status != 101 ==> seen.Outcome? && seen.status == 200)
  {
    hide Itoa, Recorded;
    var rec := Recorded(ops);
    PlayTwo(Fresh(WithLength(base + rec.header, body)), WriteHeader(status), Write(Or(body, rec.body)));
  }
}
