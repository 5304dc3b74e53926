/** Encoders and decoders of whole messages, as the generated sources have them: for a message type
    without extensible parts, of a stated number of bits and bytes. */
module Messages {
  import opened Bits
  import opened CopyBits
  import opened Schema
  import opened Codec
  import opened Encoding
  import opened Memory
  import opened Decoding
  import opened RoundTrip
  import Walker

  // ----- Types with the bits and bytes their descriptors state -----

  ghost predicate Described(t: Type, bits: nat, bytes: nat) {
    WellFormed(t) && Fixed(t) && NBits(t) == bits && Size(t) == bytes && (t.Message? ==> t.nbits == bits)
  }

  ghost predicate FieldsDescribed(fs: Fields, from: nat, to: nat, bits: nat) {
    FieldsWellFormed(fs, from, to) && FieldsFixed(fs) && FieldsNBits(fs) == bits
  }

  lemma ScalarDescribed(flag: Flag, n: nat, b: nat)
    requires 1 <= n <= 64 && b == StorageSize(n) && (flag.BOOL? ==> n == 1) && (flag.BYTE? ==> n == 8)
    ensures Described(Scalar(flag, n, b), n, b)
  {
  }

  lemma NextDescribed(offset: nat, t: Type, bits: nat, bytes: nat, rest: Fields, restBits: nat, from: nat, to: nat)
    requires from <= offset && Described(t, bits, bytes) && FieldsDescribed(rest, offset + bytes, to, restBits)
    ensures FieldsDescribed(Next(offset, t, rest), from, to, bits + restBits)
  {
  }

  /** Three fields of one type, one after the other. */
  lemma ThreeDescribed(t: Type, bits: nat, bytes: nat, last: Type, lastBits: nat, from: nat)
    requires Described(t, bits, bytes) && Described(last, lastBits, bytes)
    ensures FieldsDescribed(Next(from, t, Next(from + bytes, t, Next(from + 2 * bytes, last, End))), from,
      from + 3 * bytes, 2 * bits + lastBits)
  {
    NextDescribed(from + 2 * bytes, last, lastBits, bytes, End, 0, from + 2 * bytes, from + 3 * bytes);
    NextDescribed(from + bytes, t, bits, bytes, Next(from + 2 * bytes, last, End), lastBits, from + bytes,
        from + 3 * bytes);
    NextDescribed(from, t, bits, bytes, Next(from + bytes, t, Next(from + 2 * bytes, last, End)), bits + lastBits,
        from, from + 3 * bytes);
  }

  lemma MessageDescribed(bits: nat, bytes: nat, fs: Fields)
    requires FieldsDescribed(fs, 0, bytes, bits) && bits < 0x1_0000
    ensures Described(Message(false, bits, bytes, fs), bits, bytes)
  {
  }

  lemma ArrayDescribed(cap: nat, e: Type, bits: nat, bytes: nat)
    requires cap < 0x1_0000 && !e.Array? && Described(e, bits, bytes)
    ensures Described(Array(false, cap, e), cap * bits, cap * bytes)
  {
    TimesIs(cap, bits);
    TimesIs(cap, bytes);
  }

  // ----- Encoding and decoding -----

  /** A size_t Encode...(m, s) function: the wire that the writer sends, and the length. */
  method EncodeMessageType(t: Type, ghost bits: nat, ghost bytes: nat, length: nat, big: bool, m: array<byte>,
                           p: nat, s: array<byte>) returns (n: nat)
    requires t.Message? && Described(t, bits, bytes) && bits <= 8 * length
    requires m != s && p + bytes <= m.Length && length <= s.Length
    modifies s, m
    ensures n == length && m[..] == old(m[..])
    ensures s[..] == Sent(big, t, old(s[..]), 0, m[..], p).wire
  {
    var ctx := new Walker.Context(true, big, s);
    WalkFits(true, big, t, ctx.St(m), p);
    Walker.Process(t, ctx, m, p);
    n := length;
  }

  method DecodeMessageType(t: Type, ghost bits: nat, ghost bytes: nat, length: nat, big: bool, m: array<byte>,
                           p: nat, s: array<byte>) returns (n: nat)
    requires t.Message? && Described(t, bits, bytes) && bits <= 8 * length
    requires m != s && p + bytes <= m.Length && length <= s.Length
    modifies s, m
    ensures n == length && s[..] == old(s[..])
    ensures m[..] == Received(big, t, s[..], 0, old(m[..]), p).mem
  {
    var ctx := new Walker.Context(false, big, s);
    WalkFits(false, big, t, ctx.St(m), p);
    Walker.Process(t, ctx, m, p);
    n := length;
  }

  // ----- What comes of it -----

  /** Encoding onto a clear wire gives the bytes whose bits are the wire form. */
  lemma SentBytes(t: Type, bits: nat, bytes: nat, big: bool, mem: Bytes, p: nat, w: Bytes)
    requires Described(t, bits, bytes) && bits == 8 * |w| && p + bytes <= |mem|
    requires Slice(w, 0, bits) == WireBits(t, Read(big, t, mem, p))
    ensures Sent(big, t, Zeros(|w|), 0, mem, p).wire == w
  {
    EncodeType(big, t, State(Zeros(|w|), mem, 0), p);
    var x := WireBits(t, Read(big, t, mem, p));
    AppendSlice(Zeros(|w|), 0, x);
    var sent := Append(Zeros(|w|), 0, x);
    forall k | 0 <= k < bits
      ensures BitAt(sent, k) == BitAt(w, k)
    {
      assert BitAt(sent, k) == Slice(sent, 0, bits)[k] == Slice(w, 0, bits)[k];
    }
    SameBytes(sent, w);
  }

  /** Decoding bytes whose bits are the wire form of a value in range gives that value. */
  lemma ReceivedBytes(t: Type, bits: nat, bytes: nat, big: bool, w: Bytes, v: Value, mem: Bytes, p: nat)
    requires Described(t, bits, bytes) && bits == 8 * |w| && p + bytes <= |mem|
    requires big || Blank(mem, p, p + bytes)
    requires Slice(w, 0, bits) == WireBits(t, v) && InRange(t, v)
    ensures var got := Received(big, t, w, 0, mem, p).mem;
      |got| == |mem| && Read(big, t, got, p) == v
  {
    FixedMeets(t);
    if big { AnyAccepts(big, t, mem, p); } else { BlankAccepts(big, t, mem, p); }
    OwnReader(t);
    OwnProjection(t, v);
    DecodeType(big, t, t, v, State(w, mem, 0), p);
  }

  lemma RoundTripOf(t: Type, bits: nat, bytes: nat, length: nat, bigW: bool, bigR: bool, memW: Bytes, pW: nat,
                    memR: Bytes, pR: nat)
    requires Described(t, bits, bytes) && bits <= 8 * length
    requires pW + bytes <= |memW| && pR + bytes <= |memR| && (bigR || Blank(memR, pR, pR + bytes))
    requires InRange(t, Read(bigW, t, memW, pW))
    ensures var sent := Sent(bigW, t, Zeros(length), 0, memW, pW);
      var got := Received(bigR, t, sent.wire, 0, memR, pR);
      && sent.i == got.i == bits
      && ClearFrom(sent.wire, bits)
      && Slice(sent.wire, 0, bits) == WireBits(t, Read(bigW, t, memW, pW))
      && Read(bigR, t, got.mem, pR) == Read(bigW, t, memW, pW)
      && SameOutside(memR, got.mem, pR, pR + bytes)
  {
    var v := Read(bigW, t, memW, pW);
    FixedMeets(t);
    if bigR { AnyAccepts(bigR, t, memR, pR); } else { BlankAccepts(bigR, t, memR, pR); }
    SameSchemaRoundTrip(bigW, bigR, t, Zeros(length), 0, memW, pW, memR, pR);
    EncodeType(bigW, t, State(Zeros(length), memW, 0), pW);
    AppendClear(Zeros(length), 0, WireBits(t, v));
    AppendSlice(Zeros(length), 0, WireBits(t, v));
  }

  lemma {:induction false} FixedMeets(t: Type)
    requires Fixed(t)
    ensures CursorsMeet(t)
    decreases t, 0
  {
    match t
    case Scalar(_, _, _) =>
    case Alias(to) => FixedMeets(to);
    case Array(_, _, e) => FixedMeets(e);
    case Message(_, _, _, fs) => FixedFieldsMeet(fs);
  }

  lemma {:induction false} FixedFieldsMeet(fs: Fields)
    requires FieldsFixed(fs)
    ensures FieldsMeet(fs)
    decreases fs, 0
  {
    if fs.Next? {
      FixedMeets(fs.typ);
      FixedFieldsMeet(fs.rest);
    }
  }
}
