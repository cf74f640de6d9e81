/** Byte strings, and the big-endian integers that `encoding/binary` reads and writes. */
module Bytes {

  type Byte = bv8

  type Octets = seq<Byte>

  /** Go's `byte(n)` for a value that fits, bit by bit. */
  function ByteOf(n: nat): Byte
    requires n < 256
  {
    if n == 0 then 0 else 2 * ByteOf(n / 2) + (if n % 2 == 1 then 1 else 0)
  }

  lemma {:induction false} ValueOfByte(n: nat)
    requires n < 256
    ensures ByteOf(n) as int == n
  {
    if n != 0 {
      ValueOfByte(n / 2);
      DoubleValue(ByteOf(n / 2), if n % 2 == 1 then 1 else 0);
    }
  }

  lemma DoubleValue(b: Byte, bit: Byte)
    requires b as int < 128 && bit <= 1
    ensures (2 * b + bit) as int == 2 * (b as int) + bit as int
  {
  }

  lemma ByteOfValue(b: Byte)
    ensures 0 <= b as int < 256 && ByteOf(b as int) == b
  {
    ValueOfByte(b as int);
    SameValue(ByteOf(b as int), b);
  }

  lemma SameValue(a: Byte, b: Byte)
    requires a as int == b as int
    ensures a == b
  {
  }

  /** 256 to the power `width`: one more than the largest value `width` bytes can hold. */
  function Span(width: nat): (r: nat)
    ensures r >= 1
  {
    if width == 0 then 1 else 256 * Span(width - 1)
  }

  /** The value of `bs` read most significant byte first. */
  function BigEndian(bs: Octets): (n: nat)
  {
    if bs == [] then 0 else 256 * BigEndian(bs[..|bs| - 1]) + bs[|bs| - 1] as int
  }

  /** The low `width` bytes of `n`, most significant byte first. */
  function PutBigEndian(n: nat, width: nat): (bs: Octets)
    ensures |bs| == width
  {
    if width == 0 then [] else PutBigEndian(n / 256, width - 1) + [ByteOf(n % 256)]
  }

  lemma {:induction false} BigEndianBounded(bs: Octets)
    ensures BigEndian(bs) < Span(|bs|)
  {
    if bs != [] {
      BigEndianBounded(bs[..|bs| - 1]);
    }
  }

  lemma {:induction false} GetAfterPut(n: nat, width: nat)
    requires n < Span(width)
    ensures BigEndian(PutBigEndian(n, width)) == n
  {
    hide ByteOf, BigEndian;
    if width == 0 {
      BigEndianNone();
    } else {
      DivideSpan(n, Span(width - 1));
      GetAfterPut(n / 256, width - 1);
      ValueOfByte(n % 256);
      BigEndianLast(PutBigEndian(n / 256, width - 1), ByteOf(n % 256));
    }
  }

  lemma DivideSpan(n: nat, span: nat)
    requires n < 256 * span
    ensures n / 256 < span && 256 * (n / 256) + n % 256 == n
  {
  }

  lemma BigEndianNone()
    ensures BigEndian([]) == 0
  {
  }

  lemma BigEndianLast(bs: Octets, last: Byte)
    ensures BigEndian(bs + [last]) == 256 * BigEndian(bs) + last as int
  {
    assert (bs + [last])[..|bs|] == bs;
  }

  lemma {:induction false} PutAfterGet(bs: Octets)
    ensures PutBigEndian(BigEndian(bs), |bs|) == bs
  {
    hide ByteOf, BigEndian;
    if bs != [] {
      var front, last := bs[..|bs| - 1], bs[|bs| - 1];
      assert bs == front + [last];
      PutAfterGet(front);
      ByteOfValue(last);
      BigEndianLast(front, last);
      PutStep(BigEndian(front), last as int, |front|);
    }
  }

  lemma TwoBytes(high: nat, low: nat)
    requires high < 256 && low < 256
    ensures PutBigEndian(256 * high + low, 2) == [ByteOf(high), ByteOf(low)]
  {
    hide ByteOf, PutBigEndian;
    PutStep(high, low, 1);
    PutStep(0, high, 0);
  }

  lemma PutStep(high: nat, low: nat, width: nat)
    requires low < 256
    ensures PutBigEndian(256 * high + low, width + 1) == PutBigEndian(high, width) + [ByteOf(low)]
  {
    hide ByteOf;
    DivideShifted(high, low);
  }

  lemma DivideShifted(high: nat, low: nat)
    requires low < 256
    ensures (256 * high + low) / 256 == high && (256 * high + low) % 256 == low
  {
  }

  /** The widths a WebSocket header uses. */
  lemma HeaderSpans()
    ensures Span(0) == 1 && Span(2) == 0x1_0000 && Span(8) == 0x1_0000_0000_0000_0000
  {
    assert Span(1) == 256 && Span(3) == 0x100_0000 && Span(4) == 0x1_0000_0000;
    assert Span(5) == 0x100_0000_0000 && Span(6) == 0x1_0000_0000_0000 && Span(7) == 0x100_0000_0000_0000;
  }

  /** The first `n` bytes of `s`, or all of it when it is shorter. */
  function Take<T>(s: seq<T>, n: nat): (r: seq<T>)
    ensures |r| == if n < |s| then n else |s|
    ensures r <= s
  {
    if n < |s| then s[..n] else s
  }

  function Flatten<T>(chunks: seq<seq<T>>): (r: seq<T>)
  {
    if chunks == [] then [] else chunks[0] + Flatten(chunks[1..])
  }

  lemma Reassociate<T>(a: seq<T>, b: seq<T>, c: seq<T>)
    ensures a + (b + c) == a + b + c
  {
  }

  lemma FlattenNone<T>()
    ensures Flatten<T>([]) == []
  {
  }

  lemma {:induction false} FlattenLast<T>(chunks: seq<seq<T>>, last: seq<T>)
    ensures Flatten(chunks + [last]) == Flatten(chunks) + last
  {
    if chunks == [] {
      assert [last][1..] == [];
    } else {
      FlattenLast(chunks[1..], last);
      assert (chunks + [last])[1..] == chunks[1..] + [last];
    }
  }
}
