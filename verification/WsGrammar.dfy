/** The framing grammar of section 5.2 of RFC 6455, and the frame codec of
    internal/httpserver/websocket.go as functions over byte strings. */
module WsGrammar {
  import opened Bytes

  const OP_CONTINUATION: Byte := 0x0
  const OP_TEXT: Byte := 0x1
  const OP_BINARY: Byte := 0x2
  const OP_CLOSE: Byte := 0x8
  const OP_PING: Byte := 0x9
  const OP_PONG: Byte := 0xA

  /** The cap on one frame's payload, 1 MiB. */
  const MAX_PAYLOAD: nat := 0x10_0000

  // ---- the bits of the two fixed header bytes, and of masking -----------------

  predicate ReservedBits(first: Byte) { first & 0x70 != 0 }

  predicate FinBit(first: Byte) { first & 0x80 != 0 }

  function OpcodeBits(first: Byte): Byte { first & 0x0f }

  predicate MaskBit(second: Byte) { second & 0x80 != 0 }

  /** The 7-bit length field as a number. */
  function SmallLength(second: Byte): nat { (second & 0x7f) as int }

  function SetHighBit(b: Byte): Byte { 0x80 | b }

  function Xor(a: Byte, b: Byte): Byte { a ^ b }

  /** One decoded, unmasked frame. */
  datatype Frame = Frame(fin: bool, opcode: Byte, payload: Octets)

  predicate IsControl(f: Frame) {
    f.opcode >= 0x8
  }

  // ---- the grammar -------------------------------------------------------

  /** The three ways a header can carry a payload length. */
  datatype LengthForm = Short | Medium | Long
  {
    function Width(): nat {
      match this case Short => 0 case Medium => 2 case Long => 8
    }

    predicate Holds(n: nat) {
      match this case Short => n <= 125 case Medium => n < 0x1_0000 case Long => n < 0x8000_0000_0000_0000
    }

    /** The 7-bit length field. */
    function Code(n: nat): Byte
      requires Holds(n)
    {
      match this case Short => ByteOf(n) case Medium => 126 case Long => 127
    }
  }

  /** The shortest form that holds `n`, which section 5.2 requires of a sender. */
  function Shortest(n: nat): (form: LengthForm)
    requires n < 0x8000_0000_0000_0000
    ensures form.Holds(n)
    ensures forall other: LengthForm :: other.Holds(n) ==> form.Width() <= other.Width()
  {
    if n <= 125 then Short else if n < 0x1_0000 then Medium else Long
  }

  function FirstByte(f: Frame): Byte {
    if f.fin then SetHighBit(f.opcode) else f.opcode
  }

  /** The masking transform of section 5.3. It is its own inverse. */
  function Masked(payload: Octets, key: Octets): (r: Octets)
    requires |key| == 4
    ensures |r| == |payload|
    ensures forall i :: 0 <= i < |r| ==> r[i] == Xor(payload[i], key[i % 4])
  {
    seq(|payload|, i requires 0 <= i < |payload| => Xor(payload[i], key[i % 4]))
  }

  /** What a client puts on the wire for `f` under a masking key and a length form. */
  function ClientEncoding(f: Frame, key: Octets, form: LengthForm): Octets
    requires |key| == 4 && form.Holds(|f.payload|)
  {
    [FirstByte(f), SetHighBit(form.Code(|f.payload|))] + PutBigEndian(|f.payload|, form.Width())
    + key + Masked(f.payload, key)
  }

  /** What a server puts on the wire for `f`. */
  function ServerEncoding(f: Frame, form: LengthForm): Octets
    requires form.Holds(|f.payload|)
  {
    [FirstByte(f), form.Code(|f.payload|)] + PutBigEndian(|f.payload|, form.Width()) + f.payload
  }

  /** The client frames this server takes: a 4-bit opcode, a payload within the cap, and for a
      control frame the rules of section 5.5. A longer length form than needed is tolerated. */
  predicate Acceptable(f: Frame, form: LengthForm) {
    && f.opcode < 0x10
    && |f.payload| <= MAX_PAYLOAD
    && form.Holds(|f.payload|)
    && (IsControl(f) ==> f.fin && form == Short)
  }

  // ---- the reader and the writer -----------------------------------------

  /** Outcome of reading one frame: a frame and the bytes after it, a framing violation, or a
      stream that ended inside a field the reader was waiting for. */
  datatype Decoded = Got(frame: Frame, rest: Octets) | Violation | Truncated

  /** Bytes of extended length announced by the second header byte. */
  function ExtendedWidth(second: Byte): nat {
    if SmallLength(second) == 126 then 2 else if SmallLength(second) == 127 then 8 else 0
  }

  /** A violation already visible in the two fixed header bytes. */
  predicate BadStart(first: Byte, second: Byte) {
    || ReservedBits(first)
    || (OpcodeBits(first) >= 0x8 && (!FinBit(first) || SmallLength(second) > 125))
  }

  /** The payload length announced by a header whose extended length is present. */
  function DeclaredLength(s: Octets): nat
    requires |s| >= 2 && |s| >= 2 + ExtendedWidth(s[1])
  {
    var width := ExtendedWidth(s[1]);
    if width == 0 then SmallLength(s[1]) else BigEndian(s[2..2 + width])
  }

  /** `readWSFrame` on a stream whose bytes are exactly `s`. */
  function Decode(s: Octets): Decoded {
    if |s| < 2 then Truncated
    else if BadStart(s[0], s[1]) then Violation
    else
      var start := 2 + ExtendedWidth(s[1]);
      if |s| < start then Truncated
      else
        var length := DeclaredLength(s);
        if length > MAX_PAYLOAD || !MaskBit(s[1]) then Violation
        else if |s| < start + 4 + length then Truncated
        else Got(
          Frame(FinBit(s[0]), OpcodeBits(s[0]), Masked(s[start + 4..start + 4 + length], s[start..start + 4])),
          s[start + 4 + length..])
  }

  /** `writeWSFrame`'s bytes. */
  function Encode(f: Frame): Octets
    requires |f.payload| < 0x8000_0000_0000_0000
  {
    ServerEncoding(f, Shortest(|f.payload|))
  }

  /** A strict client's reader of one server frame: unmasked, no reserved bits. `None` stands for
      a stream that does not begin with a whole such frame. */
  datatype Parsed = One(frame: Frame, rest: Octets) | None

  function ClientRead(s: Octets): Parsed {
    if |s| < 2 || ReservedBits(s[0]) || MaskBit(s[1]) then None
    else
      var start := 2 + ExtendedWidth(s[1]);
      if |s| < start then None
      else
        var length := DeclaredLength(s);
        if |s| < start + length then None
        else One(Frame(FinBit(s[0]), OpcodeBits(s[0]), s[start..start + length]), s[start + length..])
  }
}
