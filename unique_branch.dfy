/** The reply a single device sends to a DISC_UNIQUE_BRANCH query (section 7 of
    ANSI E1.20): a preamble of 0xFE bytes, a 0xAA separator, then the 6-byte
    identifier and a 16-bit checksum, each byte sent twice, once ORed with 0xAA
    and once ORed with 0x55. */
module UniqueBranch {
  import opened Bits
  import opened E120

  const PREAMBLE: u8 := 0xFE
  const SEPARATOR: u8 := 0xAA
  const PREAMBLE_LEN: nat := 7
  /** Seven preamble bytes and the separator that precede the doubled payload. */
  const HEADER: seq<u8> := [PREAMBLE, PREAMBLE, PREAMBLE, PREAMBLE, PREAMBLE, PREAMBLE, PREAMBLE, SEPARATOR]
  const REPLY_LEN: nat := 24

  /** Each byte `v` becomes the pair `v | 0xAA`, `v | 0x55`. */
  function Double(s: seq<u8>): (d: seq<u8>)
    ensures |d| == 2 * |s|
  {
    if s == [] then [] else [Or8(s[0], 0xAA), Or8(s[0], 0x55)] + Double(s[1..])
  }

  /** The receiver's decoding: each pair of wire bytes ANDed back into one byte. */
  function PairAnd(d: seq<u8>): (s: seq<u8>)
    requires |d| % 2 == 0
    ensures |s| == |d| / 2
  {
    if d == [] then [] else [And8(d[0], d[1])] + PairAnd(d[2..])
  }

  lemma {:induction false} DoubleThenPairAnd(s: seq<u8>)
    ensures PairAnd(Double(s)) == s
  {
    if s != [] {
      PairRoundTrip(s[0]);
      assert Double(s)[2..] == Double(s[1..]);
      DoubleThenPairAnd(s[1..]);
    }
  }

  lemma {:induction false} DoubleAt(s: seq<u8>, i: nat)
    requires i < |s|
    ensures Double(s)[2 * i] == Or8(s[i], 0xAA)
    ensures Double(s)[2 * i + 1] == Or8(s[i], 0x55)
  {
    if i > 0 {
      DoubleAt(s[1..], i - 1);
    }
  }

  /** The plain sum of the bytes, without wrap-around. */
  function Sum(s: seq<u8>): nat
  {
    if s == [] then 0 else Sum(s[..|s| - 1]) + s[|s| - 1]
  }

  lemma {:induction false} SumBound(s: seq<u8>)
    ensures Sum(s) <= 0xFF * |s|
  {
    if s != [] {
      SumBound(s[..|s| - 1]);
    }
  }

  /** The additive checksum: a u16 accumulator that adds each byte in turn and
      drops the carry out of bit 15. */
  function Checksum(wire: seq<u8>): u16
  {
    if wire == [] then 0 else (Checksum(wire[..|wire| - 1]) + wire[|wire| - 1]) % 0x1_0000
  }

  /** Adding to a value already wrapped to 16 bits wraps like adding to the full value. */
  lemma WrappingAdd(a: nat, b: nat)
    ensures (a % 0x1_0000 + b) % 0x1_0000 == (a + b) % 0x1_0000
  {
    var q := a / 0x1_0000;
    assert a == q * 0x1_0000 + a % 0x1_0000;
    assert a + b == q * 0x1_0000 + (a % 0x1_0000 + b);
  }

  /** Adding byte by byte with wrap-around is the exact sum reduced modulo 2^16. */
  lemma {:induction false} ChecksumIsWrappedSum(wire: seq<u8>)
    ensures Checksum(wire) == Sum(wire) % 0x1_0000
  {
    if wire != [] {
      var init := wire[..|wire| - 1];
      ChecksumIsWrappedSum(init);
      WrappingAdd(Sum(init), wire[|wire| - 1]);
    }
  }

  /** A sum of at most 257 bytes fits in 16 bits, so the accumulator never wraps. */
  lemma ShortChecksumNoWrap(wire: seq<u8>)
    requires |wire| <= 257
    ensures Checksum(wire) == Sum(wire)
  {
    SumBound(wire);
    ChecksumIsWrappedSum(wire);
  }

  /** A 16-bit value as two bytes, high byte first. */
  function BigEndian16(c: u16): (b: seq<u8>)
    ensures |b| == 2
    ensures b[0] as int * 0x100 + b[1] == c
  {
    [c / 0x100, c % 0x100]
  }

  /** The complete reply for an identifier serialized as `uid`. The checksum is
      taken over the twelve doubled wire bytes, not over the six raw bytes. */
  function ReplyBytes(uid: seq<u8>): (r: seq<u8>)
    requires |uid| == 6
    ensures |r| == REPLY_LEN
  {
    var payload := Double(uid);
    HEADER + payload + Double(BigEndian16(Checksum(payload)))
  }

  /** The reply buffer position by position: the preamble and separator, each
      identifier byte doubled at 8..19, and the checksum of the wire bytes 8..19
      doubled at 20..23, high byte first. */
  predicate LaidOut(uid: seq<u8>, w: seq<u8>)
    requires |uid| == 6
  {
    |w| == REPLY_LEN &&
    w[0] == PREAMBLE && w[1] == PREAMBLE && w[2] == PREAMBLE && w[3] == PREAMBLE &&
    w[4] == PREAMBLE && w[5] == PREAMBLE && w[6] == PREAMBLE && w[7] == SEPARATOR &&
    w[8] == Or8(uid[0], 0xAA) && w[9] == Or8(uid[0], 0x55) &&
    w[10] == Or8(uid[1], 0xAA) && w[11] == Or8(uid[1], 0x55) &&
    w[12] == Or8(uid[2], 0xAA) && w[13] == Or8(uid[2], 0x55) &&
    w[14] == Or8(uid[3], 0xAA) && w[15] == Or8(uid[3], 0x55) &&
    w[16] == Or8(uid[4], 0xAA) && w[17] == Or8(uid[4], 0x55) &&
    w[18] == Or8(uid[5], 0xAA) && w[19] == Or8(uid[5], 0x55) &&
    var crc := BigEndian16(Checksum(w[8..20]));
    w[20] == Or8(crc[0], 0xAA) && w[21] == Or8(crc[0], 0x55) &&
    w[22] == Or8(crc[1], 0xAA) && w[23] == Or8(crc[1], 0x55)
  }

  /** Two sequences that agree on each of twelve positions are equal. */
  lemma Equal12(a: seq<u8>, b: seq<u8>)
    requires |a| == |b| == 12
    requires a[0] == b[0] && a[1] == b[1] && a[2] == b[2] && a[3] == b[3]
    requires a[4] == b[4] && a[5] == b[5] && a[6] == b[6] && a[7] == b[7]
    requires a[8] == b[8] && a[9] == b[9] && a[10] == b[10] && a[11] == b[11]
    ensures a == b
  {
    forall k | 0 <= k < 12
      ensures a[k] == b[k]
    {
    }
  }

  /** The pieces the reply is made of: header, doubled identifier, doubled checksum. */
  lemma ReplyPieces(uid: seq<u8>)
    requires |uid| == 6
    ensures ReplyBytes(uid)[..8] == HEADER
    ensures ReplyBytes(uid)[8..20] == Double(uid)
    ensures ReplyBytes(uid)[20..] == Double(BigEndian16(Checksum(Double(uid))))
  {
  }

  lemma {:induction false} ReplyIsLaidOut(uid: seq<u8>)
    requires |uid| == 6
    ensures LaidOut(uid, ReplyBytes(uid))
  {
    var r := ReplyBytes(uid);
    ReplyPieces(uid);
    DoubleAt(uid, 0);
    DoubleAt(uid, 1);
    DoubleAt(uid, 2);
    DoubleAt(uid, 3);
    DoubleAt(uid, 4);
    DoubleAt(uid, 5);
    var c := BigEndian16(Checksum(Double(uid)));
    DoubleAt(c, 0);
    DoubleAt(c, 1);
    assert r[8..20] == Double(uid);
  }

  lemma {:induction false} LaidOutIsReply(uid: seq<u8>, w: seq<u8>)
    requires |uid| == 6
    requires LaidOut(uid, w)
    ensures w == ReplyBytes(uid)
  {
    var d := Double(uid);
    assert w[8..20] == d by {
      DoubleAt(uid, 0);
      DoubleAt(uid, 1);
      DoubleAt(uid, 2);
      DoubleAt(uid, 3);
      DoubleAt(uid, 4);
      DoubleAt(uid, 5);
      Equal12(w[8..20], d);
    }
    var c := BigEndian16(Checksum(d));
    assert w[20..] == Double(c) by {
      DoubleAt(c, 0);
      DoubleAt(c, 1);
    }
    assert w[..8] == HEADER;
    ReplyPieces(uid);
    assert w == w[..8] + w[8..20] + w[20..];
  }

  /** The reply is exactly the buffer with that positional content. */
  lemma ReplyBytesIffLaidOut(uid: seq<u8>, w: seq<u8>)
    requires |uid| == 6
    ensures w == ReplyBytes(uid) <==> LaidOut(uid, w)
  {
    if w == ReplyBytes(uid) {
      ReplyIsLaidOut(uid);
    }
    if LaidOut(uid, w) {
      LaidOutIsReply(uid, w);
    }
  }

  /** Byte-by-byte layout of the reply. */
  lemma ReplyLayout(uid: seq<u8>)
    requires |uid| == 6
    ensures forall k :: 0 <= k < PREAMBLE_LEN ==> ReplyBytes(uid)[k] == PREAMBLE
    ensures ReplyBytes(uid)[7] == SEPARATOR
    ensures forall i :: 0 <= i < 6 ==>
      ReplyBytes(uid)[8 + 2 * i] == Or8(uid[i], 0xAA) && ReplyBytes(uid)[9 + 2 * i] == Or8(uid[i], 0x55)
    ensures forall i :: 0 <= i < 2 ==>
      ReplyBytes(uid)[20 + 2 * i] == Or8(BigEndian16(Checksum(ReplyBytes(uid)[8..20]))[i], 0xAA) &&
      ReplyBytes(uid)[21 + 2 * i] == Or8(BigEndian16(Checksum(ReplyBytes(uid)[8..20]))[i], 0x55)
  {
    var r := ReplyBytes(uid);
    var payload := Double(uid);
    var crc := BigEndian16(Checksum(payload));
    assert r[8..20] == payload;
    assert r[20..24] == Double(crc);
    forall i | 0 <= i < 6
      ensures r[8 + 2 * i] == Or8(uid[i], 0xAA) && r[9 + 2 * i] == Or8(uid[i], 0x55)
    {
      DoubleAt(uid, i);
    }
    forall i | 0 <= i < 2
      ensures r[20 + 2 * i] == Or8(crc[i], 0xAA) && r[21 + 2 * i] == Or8(crc[i], 0x55)
    {
      DoubleAt(crc, i);
    }
  }

  /** A receiver that ANDs the pairs gets back the identifier bytes and a
      checksum that matches the one it computes over the received wire bytes. */
  lemma ReplyDecodes(uid: seq<u8>)
    requires |uid| == 6
    ensures PairAnd(ReplyBytes(uid)[8..20]) == uid
    ensures PairAnd(ReplyBytes(uid)[20..24]) == BigEndian16(Checksum(ReplyBytes(uid)[8..20]))
  {
    var r := ReplyBytes(uid);
    var payload := Double(uid);
    var crc := BigEndian16(Checksum(payload));
    assert r[8..20] == payload;
    assert r[20..24] == Double(crc);
    DoubleThenPairAnd(uid);
    DoubleThenPairAnd(crc);
  }

  /** Twelve bytes of at most 0xFF sum to at most 3060, so the 16-bit checksum never wraps. */
  lemma ReplyChecksumNoWrap(uid: seq<u8>)
    requires |uid| == 6
    ensures Sum(ReplyBytes(uid)[8..20]) <= 3060
    ensures Checksum(ReplyBytes(uid)[8..20]) == Sum(ReplyBytes(uid)[8..20])
  {
    SumBound(ReplyBytes(uid)[8..20]);
    ShortChecksumNoWrap(ReplyBytes(uid)[8..20]);
  }

  /** Every even payload position has all the 0xAA bits set, every odd one all the 0x55 bits. */
  lemma ReplyMaskBits(uid: seq<u8>)
    requires |uid| == 6
    ensures forall k :: 8 <= k < REPLY_LEN && k % 2 == 0 ==> And8(ReplyBytes(uid)[k], 0xAA) == 0xAA
    ensures forall k :: 8 <= k < REPLY_LEN && k % 2 == 1 ==> And8(ReplyBytes(uid)[k], 0x55) == 0x55
  {
    var r := ReplyBytes(uid);
    ReplyLayout(uid);
    forall k | 8 <= k < REPLY_LEN
      ensures k % 2 == 0 ==> And8(r[k], 0xAA) == 0xAA
      ensures k % 2 == 1 ==> And8(r[k], 0x55) == 0x55
    {
      var i := (k - 8) / 2;
      if i < 6 {
        MasksSet(uid[i]);
        assert k == 8 + 2 * i || k == 9 + 2 * i;
      } else {
        MasksSet(BigEndian16(Checksum(r[8..20]))[i - 6]);
        assert k == 20 + 2 * (i - 6) || k == 21 + 2 * (i - 6);
      }
    }
  }
}
