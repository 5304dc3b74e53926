/** The frame header (src/bitproto/frameheader_bp.c): its encoder and decoder, and the four
    bytes they exchange. */
module FrameHeader {
  import opened Bits
  import opened Numbers
  import opened Schema
  import opened Memory
  import opened RoundTrip
  import opened Messages

  const FRAME_HEADER := Message(false, 32, 6,
    Next(0, Scalar(UINT, 8, 1),
        Next(1, Scalar(ENUM, 3, 1), Next(2, Scalar(ENUM, 5, 1), Next(4, Scalar(UINT, 16, 2), End)))))

  const BYTES_LENGTH_FRAMEHEADER := 4
  const FRAME_MAGIC: byte := 0xB1
  const PAYLOAD_TYPE_DRONE: byte := 1
  const UINT16_MAX := 0xFFFF

  /** The fields of struct FrameHeader. */
  datatype Header = Header(magic: int, version: int, payloadType: int, payloadLength: int)

  ghost predicate HeaderInRange(h: Header) {
    0 <= h.magic < 256 && 0 <= h.version < 8 && 0 <= h.payloadType < 32 && 0 <= h.payloadLength <= UINT16_MAX
  }

  /** Two bytes as a 16-bit number. */
  function Word(lo: int, hi: int): int {
    lo + 256 * hi
  }

  /** The four bytes of a header. */
  function HeaderBytes(h: Header): (w: Bytes)
    requires HeaderInRange(h)
    ensures |w| == BYTES_LENGTH_FRAMEHEADER
  {
    [h.magic, h.version + 8 * h.payloadType, h.payloadLength % 256, h.payloadLength / 256]
  }

  /** The header that any four bytes stand for. */
  function HeaderOf(w: Bytes): (h: Header)
    requires |w| == BYTES_LENGTH_FRAMEHEADER
    ensures HeaderInRange(h)
  {
    Header(w[0], w[1] % 8, w[1] / 8, Word(w[2], w[3]))
  }

  /** Headers in range and four-byte strings correspond one to one. */
  lemma HeaderBijection(h: Header, w: Bytes)
    requires HeaderInRange(h) && |w| == BYTES_LENGTH_FRAMEHEADER
    ensures HeaderBytes(h) == w <==> h == HeaderOf(w)
  {
  }

  function HeaderValue(h: Header): Value {
    List([Num(h.magic), Num(h.version), Num(h.payloadType), Num(h.payloadLength)])
  }

  lemma HeaderType()
    ensures Described(FRAME_HEADER, 32, 6)
  {
    ScalarDescribed(UINT, 8, 1);
    ScalarDescribed(ENUM, 3, 1);
    ScalarDescribed(ENUM, 5, 1);
    ScalarDescribed(UINT, 16, 2);
    var last := Next(4, Scalar(UINT, 16, 2), End);
    NextDescribed(4, Scalar(UINT, 16, 2), 16, 2, End, 0, 3, 6);
    NextDescribed(2, Scalar(ENUM, 5, 1), 5, 1, last, 16, 2, 6);
    NextDescribed(1, Scalar(ENUM, 3, 1), 3, 1, Next(2, Scalar(ENUM, 5, 1), last), 21, 1, 6);
    NextDescribed(0, Scalar(UINT, 8, 1), 8, 1, Next(1, Scalar(ENUM, 3, 1), Next(2, Scalar(ENUM, 5, 1), last)),
                  24, 0, 6);
    MessageDescribed(32, 6, FRAME_HEADER.fields);
  }

  // ----- Bits of bytes -----

  lemma SplitByteBit(x: nat, k: nat)
    ensures BitOf(x, k) == if k < 3 then BitOf(x % 8, k) else BitOf(x / 8, k - 3)
  {
    if k < 3 { LowThreeBits(x, k); } else { HighBits(x, k - 3); }
  }

  lemma HighBits(x: nat, k: nat)
    ensures BitOf(x, k + 3) == BitOf(x / 8, k)
  {
    assert BitOf(x, k + 3) == BitOf(x / 2, k + 2) == BitOf(x / 2 / 2, k + 1) == BitOf(x / 2 / 2 / 2, k);
    assert x / 2 / 2 / 2 == x / 8;
  }

  lemma LowThreeBits(x: nat, k: nat)
    requires k < 3
    ensures BitOf(x, k) == BitOf(x % 8, k)
  {
    Pow2Values();
    JoinLow(x % 8, x / 8, 3, k);
    assert Pow2(3) == 2 * Pow2(2) && Pow2(2) == 2 * Pow2(1) && Pow2(1) == 2 * Pow2(0);
    assert x % 8 + Pow2(3) * (x / 8) == x;
  }

  lemma SplitWordBit(lo: byte, hi: nat, k: nat)
    ensures BitOf(Word(lo, hi), k) == if k < 8 then BitOf(lo, k) else BitOf(hi, k - 8)
  {
    Pow2Values();
    if k < 8 { JoinLow(lo, hi, 8, k); } else { NextByteBit(lo + 256 * hi, k - 8); assert (lo + 256 * hi) / 256 == hi; }
  }

  lemma {:induction false} JoinLow(x: nat, y: nat, n: nat, k: nat)
    requires k < n
    ensures BitOf(x + Pow2(n) * y, k) == BitOf(x, k)
  {
    assert Pow2(n) * y == 2 * (Pow2(n - 1) * y);
    if k > 0 {
      JoinLow(x / 2, y, n - 1, k - 1);
      assert (x + Pow2(n) * y) / 2 == x / 2 + Pow2(n - 1) * y;
    }
  }

  /** Bit by bit, four bytes are the wire form of the header they stand for. */
  lemma HeaderWire(w: Bytes)
    requires |w| == BYTES_LENGTH_FRAMEHEADER
    ensures Slice(w, 0, 32) == WireBits(FRAME_HEADER, HeaderValue(HeaderOf(w)))
    ensures InRange(FRAME_HEADER, HeaderValue(HeaderOf(w)))
  {
    var h := HeaderOf(w);
    var a, b, c, d := BitString(h.magic, 8), BitString(h.version, 3), BitString(h.payloadType, 5),
        BitString(h.payloadLength, 16);
    HeaderParts(h);
    var s := Slice(w, 0, 32);
    forall k | 0 <= k < 32
      ensures s[k] == (a + (b + (c + d)))[k]
    {
      HeaderWireBit(w, k);
    }
    assert s == a + (b + (c + d));
  }

  lemma FieldParts(offset: nat, flag: Flag, n: nat, b: nat, rest: Fields, x: int, vs: seq<Value>)
    ensures FieldsBits(Next(offset, Scalar(flag, n, b), rest), [Num(x)] + vs) == BitString(x, n) + FieldsBits(rest, vs)
    ensures NumberInRange(flag, n, x) && FieldsInRange(rest, vs) ==>
      FieldsInRange(Next(offset, Scalar(flag, n, b), rest), [Num(x)] + vs)
  {
    var all := [Num(x)] + vs;
    assert all[0] == Num(x) && all[1..] == vs;
  }

  lemma HeaderParts(h: Header)
    ensures WireBits(FRAME_HEADER, HeaderValue(h))
         == BitString(h.magic, 8)
            + (BitString(h.version, 3) + (BitString(h.payloadType, 5) + BitString(h.payloadLength, 16)))
    ensures HeaderInRange(h) ==> InRange(FRAME_HEADER, HeaderValue(h))
  {
    if HeaderInRange(h) { HeaderRanges(h); }
    var f4 := Next(4, Scalar(UINT, 16, 2), End);
    var f3 := Next(2, Scalar(ENUM, 5, 1), f4);
    var f2 := Next(1, Scalar(ENUM, 3, 1), f3);
    var v4 := [Num(h.payloadLength)] + [];
    var v3 := [Num(h.payloadType)] + v4;
    var v2 := [Num(h.version)] + v3;
    FieldParts(4, UINT, 16, 2, End, h.payloadLength, []);
    FieldParts(2, ENUM, 5, 1, f4, h.payloadType, v4);
    FieldParts(1, ENUM, 3, 1, f3, h.version, v3);
    FieldParts(0, UINT, 8, 1, f2, h.magic, v2);
    assert FieldsBits(f4, v4) == BitString(h.payloadLength, 16);
    WholeHeader(FRAME_HEADER, Next(0, Scalar(UINT, 8, 1), f2), HeaderValue(h), [Num(h.magic)] + v2);
  }

  lemma HeaderRanges(h: Header)
    requires HeaderInRange(h)
    ensures NumberInRange(UINT, 8, h.magic) && NumberInRange(ENUM, 3, h.version)
    ensures NumberInRange(ENUM, 5, h.payloadType) && NumberInRange(UINT, 16, h.payloadLength)
  {
    Pow2Values();
    assert Pow2(5) == 2 * Pow2(4) && Pow2(4) == 2 * Pow2(3);
  }

  lemma WholeHeader(t: Type, fs: Fields, v: Value, vs: seq<Value>)
    requires t == Message(false, 32, 6, fs) && v == List(vs)
    ensures WireBits(t, v) == FieldsBits(fs, vs) && (FieldsInRange(fs, vs) ==> InRange(t, v))
  {
    assert [] + FieldsBits(fs, vs) == FieldsBits(fs, vs);
  }

  lemma HeaderWireBit(w: Bytes, k: nat)
    requires |w| == BYTES_LENGTH_FRAMEHEADER && k < 32
    ensures var h := HeaderOf(w);
      BitAt(w, k) == if k < 8 then BitOf(h.magic, k) else if k < 11 then BitOf(h.version, k - 8)
                     else if k < 16 then BitOf(h.payloadType, k - 11) else BitOf(h.payloadLength, k - 16)
  {
    if 8 <= k < 16 { SplitByteBit(w[1], k - 8); }
    if 16 <= k {
      SplitWordBit(w[2], w[3], k - 16);
      assert k < 24 ==> k / 8 == 2 && k % 8 == k - 16;
      assert 24 <= k ==> k / 8 == 3 && k % 8 == k - 24;
    }
  }

  // ----- The struct in memory -----

  /** The header that a host's memory holds at p. */
  ghost function HeaderAt(big: bool, mem: Bytes, p: nat): Header
    requires p + 6 <= |mem|
  {
    Header(mem[p], mem[p + 1], mem[p + 2], if big then Word(mem[p + 5], mem[p + 4]) else Word(mem[p + 4], mem[p + 5]))
  }

  lemma ByteAt(big: bool, flag: Flag, mem: Bytes, p: nat)
    requires p < |mem| && !flag.INT?
    ensures NumberAt(big, flag, mem, p, 1) == mem[p]
  {
    Pow2Values();
    var a := View(big, mem, p, 1);
    assert a == [mem[p]];
    UnsignedIs(a, mem[p]);
  }

  lemma TwoBytesBit(lo: byte, hi: byte, k: nat)
    requires k < 16
    ensures BitAt([lo, hi], k) == BitOf(Word(lo, hi), k)
  {
    SplitWordBit(lo, hi, k);
    assert k < 8 ==> k / 8 == 0 && k % 8 == k;
    assert 8 <= k ==> k / 8 == 1 && k % 8 == k - 8;
  }

  lemma WordAt(big: bool, mem: Bytes, p: nat)
    requires p + 2 <= |mem|
    ensures NumberAt(big, UINT, mem, p, 2) == if big then Word(mem[p + 1], mem[p]) else Word(mem[p], mem[p + 1])
  {
    Pow2Values();
    var lo, hi := if big then mem[p + 1] else mem[p], if big then mem[p] else mem[p + 1];
    var a := View(big, mem, p, 2);
    assert a == [lo, hi];
    forall k | 0 <= k < 16
      ensures BitAt(a, k) == BitOf(Word(lo, hi), k)
    {
      TwoBytesBit(lo, hi, k);
    }
    UnsignedIs(a, Word(lo, hi));
  }

  lemma HeaderRead(big: bool, mem: Bytes, p: nat)
    requires p + 6 <= |mem|
    ensures Read(big, FRAME_HEADER, mem, p) == HeaderValue(HeaderAt(big, mem, p))
  {
    ByteAt(big, UINT, mem, p);
    ByteAt(big, ENUM, mem, p + 1);
    ByteAt(big, ENUM, mem, p + 2);
    WordAt(big, mem, p + 4);
    var f4 := Next(4, Scalar(UINT, 16, 2), End);
    var f3 := Next(2, Scalar(ENUM, 5, 1), f4);
    var f2 := Next(1, Scalar(ENUM, 3, 1), f3);
    var h := HeaderAt(big, mem, p);
    var v4 := [Num(h.payloadLength)] + [];
    var v3 := [Num(h.payloadType)] + v4;
    var v2 := [Num(h.version)] + v3;
    FieldRead(big, 4, UINT, 16, 2, End, mem, p, h.payloadLength, []);
    FieldRead(big, 2, ENUM, 5, 1, f4, mem, p, h.payloadType, v4);
    FieldRead(big, 1, ENUM, 3, 1, f3, mem, p, h.version, v3);
    FieldRead(big, 0, UINT, 8, 1, f2, mem, p, h.magic, v2);
    WholeRead(big, FRAME_HEADER, Next(0, Scalar(UINT, 8, 1), f2), mem, p, [Num(h.magic)] + v2);
    ValueParts(h);
  }

  lemma ValueParts(h: Header)
    ensures HeaderValue(h)
         == List([Num(h.magic)] + ([Num(h.version)] + ([Num(h.payloadType)] + ([Num(h.payloadLength)] + []))))
  {
  }

  lemma FieldRead(big: bool, offset: nat, flag: Flag, n: nat, b: nat, rest: Fields, mem: Bytes, p: nat, x: int,
                  vs: seq<Value>)
    requires NumberAt(big, flag, mem, p + offset, b) == x && ReadFields(big, rest, mem, p) == vs
    ensures ReadFields(big, Next(offset, Scalar(flag, n, b), rest), mem, p) == [Num(x)] + vs
  {
  }

  lemma WholeRead(big: bool, t: Type, fs: Fields, mem: Bytes, p: nat, vs: seq<Value>)
    requires t == Message(false, 32, 6, fs) && ReadFields(big, fs, mem, p) == vs
    ensures Read(big, t, mem, p) == List(vs)
  {
  }

  lemma SameHeader(g: Header, h: Header)
    requires HeaderValue(g) == HeaderValue(h)
    ensures g == h
  {
    var x, y := HeaderValue(g).items, HeaderValue(h).items;
    assert x[0] == y[0] && x[1] == y[1] && x[2] == y[2] && x[3] == y[3];
  }

  /** The part of a header that fits in its bits. */
  function Narrow(h: Header): (r: Header)
    requires 0 <= h.magic < 256 && 0 <= h.payloadLength <= UINT16_MAX
    ensures HeaderInRange(r) && (HeaderInRange(h) ==> r == h)
  {
    Header(h.magic, h.version % 8, h.payloadType % 32, h.payloadLength)
  }

  lemma NarrowWire(h: Header)
    requires 0 <= h.magic < 256 && 0 <= h.payloadLength <= UINT16_MAX && 0 <= h.version && 0 <= h.payloadType
    ensures WireBits(FRAME_HEADER, HeaderValue(Narrow(h))) == WireBits(FRAME_HEADER, HeaderValue(h))
  {
    HeaderParts(h);
    HeaderParts(Narrow(h));
    SameLowBits(h.version, 3, 8);
    SameLowBits(h.payloadType, 5, 32);
  }

  lemma SameLowBits(x: nat, n: nat, p: nat)
    requires (n == 3 && p == 8) || (n == 5 && p == 32)
    ensures BitString(x % p, n) == BitString(x, n)
  {
    Pow2Values();
    assert Pow2(5) == 2 * Pow2(4) && Pow2(4) == 2 * Pow2(3);
    forall k | 0 <= k < n
      ensures BitOf(x % p, k) == BitOf(x, k)
    {
      JoinLow(x % p, x / p, n, k);
      assert x % p + p * (x / p) == x;
    }
    SameStrings(x % p, x, n);
  }

  /** Encoding a header gives the four bytes of what fits in its bits, whatever the byte order of
      the host. */
  lemma HeaderSent(big: bool, mem: Bytes, p: nat)
    requires p + 6 <= |mem|
    ensures Sent(big, FRAME_HEADER, Zeros(4), 0, mem, p).wire == HeaderBytes(Narrow(HeaderAt(big, mem, p)))
  {
    var h := HeaderAt(big, mem, p);
    var w := HeaderBytes(Narrow(h));
    HeaderType();
    HeaderRead(big, mem, p);
    NarrowWire(h);
    HeaderBijection(Narrow(h), w);
    HeaderWire(w);
    SentBytes(FRAME_HEADER, 32, 6, big, mem, p, w);
  }

  /** Decoding any four bytes, into a cleared struct or on a big-endian host, gives the header they
      stand for. */
  lemma HeaderReceived(big: bool, w: Bytes, mem: Bytes, p: nat)
    requires |w| == BYTES_LENGTH_FRAMEHEADER && p + 6 <= |mem| && (big || Blank(mem, p, p + 6))
    ensures var got := Received(big, FRAME_HEADER, w, 0, mem, p).mem;
      |got| == |mem| && HeaderAt(big, got, p) == HeaderOf(w)
  {
    var v := HeaderValue(HeaderOf(w));
    HeaderType();
    HeaderWire(w);
    ReceivedBytes(FRAME_HEADER, 32, 6, big, w, v, mem, p);
    var got := Received(big, FRAME_HEADER, w, 0, mem, p).mem;
    HeaderRead(big, got, p);
    SameHeader(HeaderAt(big, got, p), HeaderOf(w));
  }

  /** Byte by byte: the magic number, the version below the payload type, and the length, least
      significant byte first; in the struct, at the offsets 0, 1, 2 and 4. */
  lemma HeaderSentIs(big: bool, mem: Bytes, p: nat)
    requires p + 6 <= |mem|
    ensures Sent(big, FRAME_HEADER, Zeros(4), 0, mem, p).wire ==
      [mem[p], mem[p + 1] % 8 + 8 * (mem[p + 2] % 32), mem[if big then p + 5 else p + 4],
       mem[if big then p + 4 else p + 5]]
  {
    HeaderSent(big, mem, p);
    NarrowBytes(mem[p], mem[p + 1], mem[p + 2], mem[if big then p + 5 else p + 4], mem[if big then p + 4 else p + 5]);
  }

  lemma NarrowBytes(magic: byte, version: byte, payloadType: byte, lo: byte, hi: byte)
    ensures Word(lo, hi) % 256 == lo && Word(lo, hi) / 256 == hi && 0 <= Word(lo, hi) <= UINT16_MAX
    ensures HeaderBytes(Narrow(Header(magic, version, payloadType, Word(lo, hi))))
         == [magic, version % 8 + 8 * (payloadType % 32), lo, hi]
  {
  }

  lemma HeaderReceivedIs(big: bool, w: Bytes, mem: Bytes, p: nat)
    requires |w| == 4 && p + 6 <= |mem| && (big || Blank(mem, p, p + 6))
    ensures var got := Received(big, FRAME_HEADER, w, 0, mem, p).mem;
      && |got| == |mem| && got[p] == w[0] && got[p + 1] == w[1] % 8 && got[p + 2] == w[1] / 8
      && got[if big then p + 5 else p + 4] == w[2] && got[if big then p + 4 else p + 5] == w[3]
  {
    HeaderReceived(big, w, mem, p);
    var got := Received(big, FRAME_HEADER, w, 0, mem, p).mem;
    WordBytes(w[2], w[3], got[if big then p + 5 else p + 4], got[if big then p + 4 else p + 5]);
  }

  lemma WordBytes(a: byte, b: byte, lo: byte, hi: byte)
    ensures Word(a, b) == Word(lo, hi) <==> a == lo && b == hi
  {
  }

  // ----- Encoding and decoding -----

  method EncodeFrameHeader(big: bool, m: array<byte>, s: array<byte>) returns (n: nat)
    requires m != s && m.Length == 6 && s.Length == BYTES_LENGTH_FRAMEHEADER
    modifies s, m
    ensures n == BYTES_LENGTH_FRAMEHEADER && m[..] == old(m[..])
    ensures s[..] == Sent(big, FRAME_HEADER, old(s[..]), 0, m[..], 0).wire
    ensures old(s[..]) == Zeros(4) ==> s[..] == HeaderBytes(Narrow(HeaderAt(big, m[..], 0)))
  {
    HeaderType();
    HeaderSent(big, m[..], 0);
    n := EncodeMessageType(FRAME_HEADER, 32, 6, BYTES_LENGTH_FRAMEHEADER, big, m, 0, s);
  }

  method DecodeFrameHeader(big: bool, m: array<byte>, s: array<byte>) returns (n: nat)
    requires m != s && m.Length == 6 && s.Length == BYTES_LENGTH_FRAMEHEADER
    modifies s, m
    ensures n == BYTES_LENGTH_FRAMEHEADER && s[..] == old(s[..])
    ensures m[..] == Received(big, FRAME_HEADER, s[..], 0, old(m[..]), 0).mem
    ensures big || old(m[..]) == Zeros(6) ==> HeaderAt(big, m[..], 0) == HeaderOf(s[..])
  {
    HeaderType();
    if big || m[..] == Zeros(6) { HeaderReceived(big, s[..], m[..], 0); }
    n := DecodeMessageType(FRAME_HEADER, 32, 6, BYTES_LENGTH_FRAMEHEADER, big, m, 0, s);
  }
}
