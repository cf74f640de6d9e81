/** The reader and the writer in terms of the bytes on the wire, bit by bit as section 5.2 of RFC 6455 lays
    a frame out, without any of the definitions they are built from. */
module WsWire {
  import opened Bytes
  import opened WsGrammar
  import opened WsCodec

  // ---- the layout of a frame ---------------------------------------------------

  /** How many bytes of extended length the second byte announces. */
  function LengthBytes(second: Byte): nat {
    if (second & 0x7f) as int == 126 then 2 else if (second & 0x7f) as int == 127 then 8 else 0
  }

  /** The payload length that the first bytes of `s` announce. */
  function PayloadLength(s: Octets): int
    requires |s| >= 2 && |s| >= 2 + LengthBytes(s[1])
  {
    match LengthBytes(s[1])
    case 2 => 256 * Val(s[2]) + Val(s[3])
    case 8 => 0x1_0000_0000 * Four(s[2], s[3], s[4], s[5]) + Four(s[6], s[7], s[8], s[9])
    case _ => (s[1] & 0x7f) as int
  }

  function Val(b: Byte): int { b as int }

  function Four(a: Byte, b: Byte, c: Byte, d: Byte): int {
    0x100_0000 * Val(a) + 0x1_0000 * Val(b) + 0x100 * Val(c) + Val(d)
  }

  /** The two fixed bytes alone break the rules: a reserved bit is set, or a control frame is fragmented
      or longer than 125 bytes. */
  predicate Refused(first: Byte, second: Byte) {
    || first & 0x70 != 0
    || (first & 0x0f >= 0x8 && (first & 0x80 == 0 || (second & 0x7f) as int > 125))
  }

  // ---- big-endian numbers ----------------------------------------------------------

  lemma BigEndianStep(bs: Octets, k: nat)
    requires k < |bs|
    ensures BigEndian(bs[..k + 1]) == 256 * BigEndian(bs[..k]) + Val(bs[k])
  {
    assert bs[..k + 1][..k] == bs[..k];
  }

  lemma BigEndianTwo(bs: Octets)
    requires |bs| == 2
    ensures BigEndian(bs) == 256 * Val(bs[0]) + Val(bs[1])
  {
    hide BigEndian;
    BigEndianNone();
    BigEndianStep(bs, 0);
    BigEndianStep(bs, 1);
    assert bs[..0] == [] && bs[..2] == bs;
  }

  /** Four more bytes. */
  lemma BigEndianMore(bs: Octets, k: nat)
    requires k + 4 <= |bs|
    ensures BigEndian(bs[..k + 4]) == 0x1_0000_0000 * BigEndian(bs[..k]) + Four(bs[k], bs[k + 1], bs[k + 2], bs[k + 3])
  {
    hide BigEndian, Val;
    BigEndianStep(bs, k);
    BigEndianStep(bs, k + 1);
    BigEndianStep(bs, k + 2);
    BigEndianStep(bs, k + 3);
  }

  lemma BigEndianEight(bs: Octets)
    requires |bs| == 8
    ensures BigEndian(bs) == 0x1_0000_0000 * Four(bs[0], bs[1], bs[2], bs[3]) + Four(bs[4], bs[5], bs[6], bs[7])
  {
    hide BigEndian, Four;
    BigEndianNone();
    BigEndianMore(bs, 0);
    BigEndianMore(bs, 4);
    assert bs[..0] == [] && bs[..8] == bs;
  }

  lemma SameLength(s: Octets)
    requires |s| >= 2
    ensures ExtendedWidth(s[1]) == LengthBytes(s[1])
    ensures |s| >= 2 + LengthBytes(s[1]) ==> DeclaredLength(s) == PayloadLength(s)
  {
    hide BigEndian, Four;
    if |s| >= 2 + LengthBytes(s[1]) {
      if LengthBytes(s[1]) == 2 {
        BigEndianTwo(s[2..4]);
      } else if LengthBytes(s[1]) == 8 {
        BigEndianEight(s[2..10]);
      }
    }
  }

  // ---- the reader ------------------------------------------------------------------------

  lemma XorIs(a: Byte, b: Byte)
    ensures Xor(a, b) == a ^ b
  {
  }

  lemma UnmaskedBytes(body: Octets, key: Octets)
    requires |key| == 4
    ensures forall i :: 0 <= i < |body| ==> Masked(body, key)[i] == body[i] ^ key[i % 4]
  {
    hide Xor;
    forall i | 0 <= i < |body| ensures Masked(body, key)[i] == body[i] ^ key[i % 4] {
      XorIs(body[i], key[i % 4]);
    }
  }

  lemma UnmaskedAt(s: Octets, start: nat, n: nat)
    requires start + 4 + n <= |s|
    ensures var payload := Masked(s[start + 4..start + 4 + n], s[start..start + 4]);
            forall i :: 0 <= i < n ==> payload[i] == s[start + 4 + i] ^ s[start + i % 4]
  {
    hide Masked;
    var body, key := s[start + 4..start + 4 + n], s[start..start + 4];
    UnmaskedBytes(body, key);
    forall i | 0 <= i < n ensures Masked(body, key)[i] == s[start + 4 + i] ^ s[start + i % 4] {
      assert body[i] == s[start + 4 + i] && key[i % 4] == s[start + i % 4];
    }
  }

  lemma BadStartIs(first: Byte, second: Byte)
    ensures BadStart(first, second) <==> Refused(first, second)
    ensures MaskBit(second) <==> second & 0x80 != 0
    ensures FinBit(first) <==> first & 0x80 != 0
    ensures OpcodeBits(first) == first & 0x0f
  {
  }

  /** Exactly when the reader refuses a stream: its two fixed bytes break the rules, or, with the length
      in, the payload is over 2^20 bytes or the frame is not masked. */
  lemma RefusesByBytes(s: Octets)
    ensures Decode(s).Violation? <==>
              |s| >= 2 && (Refused(s[0], s[1])
                           || (|s| >= 2 + LengthBytes(s[1]) && (PayloadLength(s) > 0x10_0000 || s[1] & 0x80 == 0)))
  {
    hide Masked, BadStart, MaskBit, FinBit, OpcodeBits, ExtendedWidth, DeclaredLength, LengthBytes, PayloadLength, Refused;
    if |s| >= 2 {
      SameLength(s);
      BadStartIs(s[0], s[1]);
    }
  }

  /** Exactly when the reader yields a frame, and byte by byte which: FIN and opcode from the first byte,
      and every payload byte unmasked with its byte of the key. */
  lemma ReadsByBytes(s: Octets)
    ensures Decode(s).Got? <==>
              && |s| >= 2 && !Refused(s[0], s[1]) && |s| >= 2 + LengthBytes(s[1])
              && PayloadLength(s) <= 0x10_0000 && s[1] & 0x80 != 0
              && |s| >= 2 + LengthBytes(s[1]) + 4 + PayloadLength(s)
    ensures Decode(s).Got? ==>
              var f, at := Decode(s).frame, 2 + LengthBytes(s[1]) + 4;
              && f.fin == (s[0] & 0x80 != 0) && f.opcode == s[0] & 0x0f
              && |f.payload| == PayloadLength(s) && Decode(s).rest == s[at + |f.payload|..]
              && (forall i :: 0 <= i < |f.payload| ==> f.payload[i] == s[at + i] ^ s[2 + LengthBytes(s[1]) + i % 4])
  {
    hide Masked, BadStart, MaskBit, FinBit, OpcodeBits, ExtendedWidth, DeclaredLength, LengthBytes, PayloadLength, Refused, Decode;
    CompleteIff(s);
    if |s| >= 2 {
      SameLength(s);
      BadStartIs(s[0], s[1]);
      if Decode(s).Got? {
        UnmaskedAt(s, 2 + LengthBytes(s[1]), PayloadLength(s));
      }
    }
  }

  // ---- the writer ------------------------------------------------------------------------

  lemma CodeIs(form: LengthForm, n: nat)
    requires form.Holds(n)
    ensures match form case Short => form.Code(n) as int == n case Medium => form.Code(n) == 126 case Long => form.Code(n) == 127
  {
    if form == Short {
      ValueOfByte(n);
    }
  }

  lemma FirstByteIs(f: Frame)
    ensures FirstByte(f) == if f.fin then 0x80 | f.opcode else f.opcode
  {
  }

  /** Byte by byte what the writer emits: FIN and opcode, the length in one byte up to 125, in two more
      up to 65535, else in eight more, most significant byte first, and the payload as it is. */
  lemma WritesByBytes(f: Frame)
    requires |f.payload| < 0x8000_0000_0000_0000
    ensures var e, n := Encode(f), |f.payload|;
            && |e| >= 2 && e[0] == (if f.fin then 0x80 | f.opcode else f.opcode)
            && (n <= 125 ==> e[1] as int == n && e[2..] == f.payload)
            && (125 < n <= 65535 ==> |e| == 4 + n && e[1] == 126 && 256 * Val(e[2]) + Val(e[3]) == n && e[4..] == f.payload)
            && (65535 < n ==>
                  && |e| == 10 + n && e[1] == 127 && e[10..] == f.payload
                  && 0x1_0000_0000 * Four(e[2], e[3], e[4], e[5]) + Four(e[6], e[7], e[8], e[9]) == n)
  {
    hide FirstByte, ByteOf, PutBigEndian, BigEndian, Four, Val;
    var e, n, form := Encode(f), |f.payload|, Shortest(|f.payload|);
    FirstByteIs(f);
    CodeIs(form, n);
    var ext := PutBigEndian(n, form.Width());
    assert e == [FirstByte(f), form.Code(n)] + ext + f.payload;
    assert e[2..2 + |ext|] == ext && e[2 + |ext|..] == f.payload;
    if form != Short {
      HeaderSpans();
      GetAfterPut(n, form.Width());
      if form == Medium {
        BigEndianTwo(ext);
      } else {
        BigEndianEight(ext);
      }
    }
  }
}
