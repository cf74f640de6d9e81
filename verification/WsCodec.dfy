/** The codec against the grammar: what the reader accepts, what the writer emits. */
module WsCodec {
  import opened Bytes
  import opened WsGrammar

  // ---- header bits -------------------------------------------------------

  lemma FirstByteBits(f: Frame)
    requires f.opcode < 0x10
    ensures !ReservedBits(FirstByte(f)) && FinBit(FirstByte(f)) == f.fin && OpcodeBits(FirstByte(f)) == f.opcode
  {
  }

  lemma FirstByteFromBits(b: Byte, payload: Octets)
    requires !ReservedBits(b)
    ensures OpcodeBits(b) < 0x10 && FirstByte(Frame(FinBit(b), OpcodeBits(b), payload)) == b
  {
  }

  lemma SecondByteBits(code: Byte)
    requires code <= 127
    ensures !MaskBit(code) && MaskBit(SetHighBit(code))
    ensures SmallLength(code) == code as int == SmallLength(SetHighBit(code))
  {
  }

  lemma SecondByteFromBits(b: Byte)
    ensures SmallLength(b) <= 127
    ensures MaskBit(b) ==> b == SetHighBit(ByteOf(SmallLength(b)))
  {
    ByteOfValue(b & 0x7f);
    LowBits(b);
  }

  lemma LowBits(b: Byte)
    ensures b & 0x80 != 0 ==> b == 0x80 | (b & 0x7f)
    ensures (b & 0x7f) as int <= 127
  {
  }

  lemma XorTwice(a: Byte, k: Byte)
    ensures Xor(Xor(a, k), k) == a
  {
  }

  lemma ByteOrder(b: Byte)
    ensures b as int <= 127 ==> b <= 127
  {
  }

  lemma Extremes()
    ensures ByteOf(126) == 126 && ByteOf(127) == 127
  {
    ByteOfValue(126);
    ByteOfValue(127);
  }

  lemma MaskedTwice(payload: Octets, key: Octets)
    requires |key| == 4
    ensures Masked(Masked(payload, key), key) == payload
  {
    hide Xor;
    forall i | 0 <= i < |payload|
      ensures Masked(Masked(payload, key), key)[i] == payload[i]
    {
      XorTwice(payload[i], key[i % 4]);
    }
  }

  // ---- headers -----------------------------------------------------------

  /** A header as either side writes it. */
  function Header(f: Frame, masked: bool, form: LengthForm): Octets
    requires form.Holds(|f.payload|)
  {
    var code := form.Code(|f.payload|);
    [FirstByte(f), if masked then SetHighBit(code) else code] + PutBigEndian(|f.payload|, form.Width())
  }

  lemma EncodingsAreHeaded(f: Frame, key: Octets, form: LengthForm)
    requires |key| == 4 && form.Holds(|f.payload|)
    ensures ClientEncoding(f, key, form) == Header(f, true, form) + key + Masked(f.payload, key)
    ensures ServerEncoding(f, form) == Header(f, false, form) + f.payload
  {
    hide FirstByte, SetHighBit, Masked;
  }

  lemma CodeBits(form: LengthForm, n: nat) returns (code: Byte)
    requires form.Holds(n)
    ensures code == form.Code(n) && code <= 127
    ensures code as int == match form case Short => n case Medium => 126 case Long => 127
  {
    code := form.Code(n);
    if form == Short {
      ValueOfByte(n);
      ByteOrder(code);
    }
  }

  /** What a reader recovers from the header of an encoding, without saying what its bytes are. */
  lemma HeaderSeen(f: Frame, masked: bool, form: LengthForm) returns (head: Octets)
    requires f.opcode < 0x10 && form.Holds(|f.payload|)
    ensures head == Header(f, masked, form)
    ensures |head| >= 2 && |head| == 2 + ExtendedWidth(head[1]) == 2 + form.Width()
    ensures DeclaredLength(head) == |f.payload|
    ensures !ReservedBits(head[0]) && FinBit(head[0]) == f.fin && OpcodeBits(head[0]) == f.opcode
    ensures MaskBit(head[1]) == masked
    ensures BadStart(head[0], head[1]) <==> IsControl(f) && (!f.fin || form != Short)
  {
    hide ReservedBits, FinBit, OpcodeBits, MaskBit, SmallLength, SetHighBit, FirstByte, PutBigEndian, BigEndian, ByteOf;
    FirstByteBits(f);
    var code := CodeBits(form, |f.payload|);
    SecondByteBits(code);
    head := Header(f, masked, form);
    if form != Short {
      HeaderSpans();
      GetAfterPut(|f.payload|, form.Width());
      assert head[2..2 + form.Width()] == PutBigEndian(|f.payload|, form.Width());
    }
  }

  /** The form a reader sees in the second header byte. */
  function SeenForm(second: Byte): (form: LengthForm)
    ensures form.Width() == ExtendedWidth(second)
  {
    if SmallLength(second) == 126 then Medium else if SmallLength(second) == 127 then Long else Short
  }

  /** The bytes before the key of an accepted stream are the header of the frame it yields. */
  lemma HeaderRebuilt(s: Octets) returns (form: LengthForm)
    requires Decode(s).Got?
    ensures form == SeenForm(s[1]) && Acceptable(Decode(s).frame, form)
    ensures [s[0], s[1]] + s[2..2 + form.Width()] == Header(Decode(s).frame, true, form)
  {
    hide ReservedBits, FinBit, OpcodeBits, MaskBit, SmallLength, SetHighBit, FirstByte, Masked, PutBigEndian, BigEndian;
    form := SeenForm(s[1]);
    FirstByteFromBits(s[0], Decode(s).frame.payload);
    SecondByteFromBits(s[1]);
    Extremes();
    if form != Short {
      PutAfterGet(s[2..2 + form.Width()]);
      HeaderSpans();
      BigEndianBounded(s[2..2 + form.Width()]);
    }
  }

  // ---- the reader --------------------------------------------------------

  /** Slicing a frame back into its fields. */
  lemma Fields(head: Octets, key: Octets, body: Octets, rest: Octets)
    ensures var s := head + key + body + rest;
            && s[|head|..|head| + |key|] == key
            && s[|head| + |key|..|head| + |key| + |body|] == body
            && s[|head| + |key| + |body|..] == rest
  {
  }

  lemma Regroup(s: Octets, start: nat, n: nat)
    requires 2 <= start && start + 4 + n <= |s|
    ensures s == [s[0], s[1]] + s[2..start] + s[start..start + 4] + s[start + 4..start + 4 + n] + s[start + 4 + n..]
  {
  }

  /** Soundness of the grammar for the reader: it decodes every acceptable client encoding, whatever
      the key, the length form and the bytes that follow. */
  lemma DecodesEncoding(f: Frame, key: Octets, form: LengthForm, rest: Octets)
    requires |key| == 4 && Acceptable(f, form)
    ensures Decode(ClientEncoding(f, key, form) + rest) == Got(f, rest)
  {
    EncodingsAreHeaded(f, key, form);
    var head := HeaderSeen(f, true, form);
    DecodesFields(f, head, key, rest);
  }

  /** The reader gets as far as a frame. */
  predicate Complete(s: Octets) {
    && |s| >= 2 && !BadStart(s[0], s[1]) && |s| >= 2 + ExtendedWidth(s[1])
    && DeclaredLength(s) <= MAX_PAYLOAD && MaskBit(s[1])
    && |s| >= 2 + ExtendedWidth(s[1]) + 4 + DeclaredLength(s)
  }

  lemma CompleteIff(s: Octets)
    ensures Decode(s).Got? <==> Complete(s)
    ensures Complete(s) ==>
              var start, n := 2 + ExtendedWidth(s[1]), DeclaredLength(s);
              Decode(s) == Got(
                Frame(FinBit(s[0]), OpcodeBits(s[0]), Masked(s[start + 4..start + 4 + n], s[start..start + 4])),
                s[start + 4 + n..])
  {
    hide FinBit, OpcodeBits, MaskBit, BadStart, ExtendedWidth, DeclaredLength, Masked;
  }

  lemma DecodesFields(f: Frame, head: Octets, key: Octets, rest: Octets)
    requires |head| >= 2 && |head| == 2 + ExtendedWidth(head[1]) && |key| == 4
    requires !BadStart(head[0], head[1]) && MaskBit(head[1])
    requires FinBit(head[0]) == f.fin && OpcodeBits(head[0]) == f.opcode
    requires DeclaredLength(head) == |f.payload| <= MAX_PAYLOAD
    ensures Decode(head + key + Masked(f.payload, key) + rest) == Got(f, rest)
  {
    hide FinBit, OpcodeBits, MaskBit, BadStart, ExtendedWidth, DeclaredLength, Masked, Decode;
    var body := Masked(f.payload, key);
    HeadOf(head, key, body, rest);
    Fields(head, key, body, rest);
    DecodesSlices(f, head + key + body + rest, head, key, rest);
  }

  lemma HeadOf(head: Octets, key: Octets, body: Octets, rest: Octets)
    requires |head| >= 2 && |head| == 2 + ExtendedWidth(head[1])
    ensures var s := head + key + body + rest;
            && |s| >= |head| && s[0] == head[0] && s[1] == head[1] && DeclaredLength(s) == DeclaredLength(head)
  {
    hide DeclaredLength, ExtendedWidth;
    assert head + key + body + rest == head + (key + body + rest);
    DeclaredLengthStable(head, key + body + rest);
  }

  lemma DecodesSlices(f: Frame, s: Octets, head: Octets, key: Octets, rest: Octets)
    requires |head| >= 2 && |head| == 2 + ExtendedWidth(head[1]) && |key| == 4
    requires !BadStart(head[0], head[1]) && MaskBit(head[1])
    requires FinBit(head[0]) == f.fin && OpcodeBits(head[0]) == f.opcode
    requires |s| >= |head| && s[0] == head[0] && s[1] == head[1]
    requires DeclaredLength(s) == |f.payload| <= MAX_PAYLOAD
    requires var start, n := |head|, |f.payload|;
             && |s| >= start + 4 + n && s[start..start + 4] == key && s[start + 4..start + 4 + n] == Masked(f.payload, key)
             && s[start + 4 + n..] == rest
    ensures Decode(s) == Got(f, rest)
  {
    hide FinBit, OpcodeBits, MaskBit, BadStart, ExtendedWidth, DeclaredLength, Masked, Decode;
    CompleteIff(s);
    MaskedTwice(f.payload, key);
  }

  /** Completeness: whatever the reader accepts is such an encoding. */
  lemma AcceptedIsEncoding(s: Octets) returns (key: Octets, form: LengthForm)
    requires Decode(s).Got?
    ensures |key| == 4 && Acceptable(Decode(s).frame, form)
    ensures s == ClientEncoding(Decode(s).frame, key, form) + Decode(s).rest
  {
    hide ReservedBits, FinBit, OpcodeBits, MaskBit, SmallLength, SetHighBit, FirstByte, Xor, ClientEncoding, Header;
    form := HeaderRebuilt(s);
    var start, n := 2 + form.Width(), DeclaredLength(s);
    key := s[start..start + 4];
    MaskedTwice(s[start + 4..start + 4 + n], key);
    EncodingsAreHeaded(Decode(s).frame, key, form);
    Regroup(s, start, n);
  }

  /** The reader succeeds with `f` and remainder `r` exactly on a masked encoding of an acceptable
      `f` followed by exactly `r`. */
  lemma DecodeIff(s: Octets, f: Frame, r: Octets)
    ensures Decode(s) == Got(f, r)
       <==> exists key: Octets, form: LengthForm ::
              |key| == 4 && Acceptable(f, form) && s == ClientEncoding(f, key, form) + r
  {
    if Decode(s) == Got(f, r) {
      var key, form := AcceptedIsEncoding(s);
    }
    if key: Octets, form: LengthForm :|
        |key| == 4 && Acceptable(f, form) && s == ClientEncoding(f, key, form) + r {
      DecodesEncoding(f, key, form, r);
    }
  }

  // ---- stability and prefixes ---------------------------------------------

  lemma DeclaredLengthStable(s: Octets, t: Octets)
    requires |s| >= 2 && |s| >= 2 + ExtendedWidth(s[1])
    ensures |s + t| >= 2 && (s + t)[0] == s[0] && (s + t)[1] == s[1]
    ensures DeclaredLength(s + t) == DeclaredLength(s)
  {
    hide SmallLength;
    var width := ExtendedWidth(s[1]);
    assert (s + t)[2..2 + width] == s[2..2 + width];
  }

  /** Bytes arriving later never change a frame or a violation already decided. */
  lemma DecisionStable(s: Octets, t: Octets)
    requires !Decode(s).Truncated?
    ensures Decode(s).Violation? ==> Decode(s + t).Violation?
    ensures Decode(s).Got? ==> Decode(s + t) == Got(Decode(s).frame, Decode(s).rest + t)
  {
    hide ReservedBits, FinBit, OpcodeBits, MaskBit, SmallLength, ClientEncoding, Masked;
    if Decode(s).Got? {
      var key, form := AcceptedIsEncoding(s);
      var e := ClientEncoding(Decode(s).frame, key, form);
      assert s + t == e + (Decode(s).rest + t);
      DecodesEncoding(Decode(s).frame, key, form, Decode(s).rest + t);
    } else if !BadStart(s[0], s[1]) {
      DeclaredLengthStable(s, t);
    }
  }

  /** No proper prefix of an accepted frame is decided, so no accepted frame is a proper prefix of
      another. */
  lemma ProperPrefixUndecided(s: Octets, k: nat)
    requires Decode(s).Got? && k < |s| - |Decode(s).rest|
    ensures Decode(s[..k]).Truncated?
  {
    hide Decode;
    assert s[..k] + s[k..] == s;
    if !Decode(s[..k]).Truncated? {
      DecisionStable(s[..k], s[k..]);
    }
  }

  /** Once the header, extended length included, is in, the reader reports a violation exactly when
      nothing the client could still send would turn the stream into an acceptable frame. */
  lemma ViolationIffDoomed(s: Octets)
    requires |s| >= 2 && |s| >= 2 + ExtendedWidth(s[1])
    ensures Decode(s).Violation? <==> forall t: Octets :: !Decode(s + t).Got?
  {
    hide ReservedBits, FinBit, OpcodeBits, MaskBit, SmallLength, Masked;
    if Decode(s).Violation? {
      forall t: Octets ensures !Decode(s + t).Got? {
        DecisionStable(s, t);
      }
    } else {
      var t := seq(4 + DeclaredLength(s), i => 0 as Byte);
      DeclaredLengthStable(s, t);
      assert Decode(s + t).Got?;
    }
  }

  // ---- the writer --------------------------------------------------------

  /** A client reading what a server wrote for `f` gets `f` back and leaves the following bytes, for
      every opcode, FIN bit, payload and length form. */
  lemma ClientReadsEncoding(f: Frame, form: LengthForm, rest: Octets)
    requires f.opcode < 0x10 && form.Holds(|f.payload|)
    ensures ClientRead(ServerEncoding(f, form) + rest) == One(f, rest)
  {
    EncodingsAreHeaded(f, [0, 0, 0, 0], form);
    var head := HeaderSeen(f, false, form);
    ClientReadsFields(f, head, rest);
  }

  lemma ClientReadsFields(f: Frame, head: Octets, rest: Octets)
    requires |head| >= 2 && |head| == 2 + ExtendedWidth(head[1])
    requires !ReservedBits(head[0]) && !MaskBit(head[1])
    requires FinBit(head[0]) == f.fin && OpcodeBits(head[0]) == f.opcode
    requires DeclaredLength(head) == |f.payload|
    ensures ClientRead(head + f.payload + rest) == One(f, rest)
  {
    hide ReservedBits, FinBit, OpcodeBits, MaskBit, SmallLength;
    Fields(head, [], f.payload, rest);
    assert head + [] + f.payload + rest == head + (f.payload + rest) == head + f.payload + rest;
    DeclaredLengthStable(head, f.payload + rest);
  }

  /** The writer's output is read back as written, and no encoding of the frame that a client could
      read is shorter. */
  lemma EncodeRoundTrip(f: Frame, rest: Octets)
    requires f.opcode < 0x10 && |f.payload| < 0x8000_0000_0000_0000
    ensures ClientRead(Encode(f) + rest) == One(f, rest)
    ensures forall form: LengthForm :: form.Holds(|f.payload|) ==> |Encode(f)| <= |ServerEncoding(f, form)|
  {
    hide FirstByte, SetHighBit, ClientRead;
    ClientReadsEncoding(f, Shortest(|f.payload|), rest);
  }

  /** Every emitted frame is unmasked and has its reserved bits clear. */
  lemma EncodeUnmasked(f: Frame)
    requires f.opcode < 0x10 && |f.payload| < 0x8000_0000_0000_0000
    ensures Encode(f)[0] & 0x70 == 0 && Encode(f)[1] & 0x80 == 0
  {
    EncodingsAreHeaded(f, [0, 0, 0, 0], Shortest(|f.payload|));
    var head := HeaderSeen(f, false, Shortest(|f.payload|));
  }

  /** A frame cut short is not read at all. */
  lemma ClientReadNeedsAll(f: Frame, k: nat)
    requires f.opcode < 0x10 && |f.payload| < 0x8000_0000_0000_0000 && k < |Encode(f)|
    ensures ClientRead(Encode(f)[..k]).None?
  {
    hide Encode, ReservedBits, FinBit, OpcodeBits, MaskBit, SmallLength;
    var s := Encode(f);
    EncodeRoundTrip(f, []);
    assert s + [] == s;
    if k >= 2 && k >= 2 + ExtendedWidth(s[1]) {
      DeclaredLengthStable(s[..k], s[k..]);
      assert s[..k] + s[k..] == s;
    }
  }

  /** Unmasked and in the shortest form, a frame is at least four bytes smaller on the way out. */
  lemma EchoShrinks(f: Frame, key: Octets, form: LengthForm)
    requires |key| == 4 && Acceptable(f, form)
    ensures |Encode(f)| + 4 <= |ClientEncoding(f, key, form)|
    ensures 6 <= |ClientEncoding(f, key, form)|
  {
  }
}
