/** Encoding appends the wire form of the value, and nothing else, to a clear buffer. */
module Encoding {
  import opened Bits
  import opened CopyBits
  import opened Schema
  import opened Codec
  import opened Numbers

  // ----- Base types -----

  /** The bits that a base type reads from memory are those of the number held there. */
  lemma SourceBits(big: bool, n: nat, mem: Bytes, p: nat)
    requires 1 <= n <= 64 && p + StorageSize(n) <= |mem|
    ensures Slice(if big then Stage(mem, p, n) else mem, if big then 0 else 8 * p, n)
         == BitString(Unsigned(View(big, mem, p, StorageSize(n))), n)
  {
    var view := View(big, mem, p, StorageSize(n));
    UnsignedString(view, n);
    if big {
      assert Slice(Stage(mem, p, n), 0, n) == Slice(view, 0, n) by { StageBits(mem, p, n); }
    } else {
      forall k | 0 <= k < n
        ensures BitAt(mem, 8 * p + k) == BitAt(view, k)
      {
        PartBit(mem, p, StorageSize(n), k);
      }
      assert Slice(mem, 8 * p, n) == Slice(view, 0, n);
    }
  }

  lemma StageBits(mem: Bytes, p: nat, n: nat)
    requires n <= 64
    ensures forall k :: 0 <= k < n ==> BitAt(Stage(mem, p, n), k) == BitAt(View(true, mem, p, StorageSize(n)), k)
  {
  }

  lemma EncodeBase(big: bool, n: nat, st: State, p: nat)
    requires 1 <= n <= 64 && p + StorageSize(n) <= |st.mem| && ClearFrom(st.wire, st.i)
    ensures Base(true, big, n, st, p).wire
         == Append(st.wire, st.i, BitString(Unsigned(View(big, st.mem, p, StorageSize(n))), n))
  {
    var src, at := if big then Stage(st.mem, p, n) else st.mem, if big then 0 else 8 * p;
    CopyAppends(n, st.wire, src, st.i, at);
    SourceBits(big, n, st.mem, p);
  }

  lemma AheadAppends(big: bool, ext: bool, x: nat, st: State)
    requires ClearFrom(st.wire, st.i)
    ensures Ahead(true, big, ext, x, st).wire == Append(st.wire, st.i, PrefixBits(ext, x))
  {
    if ext {
      var bytes := Unload(x, 2);
      var local := State(st.wire, Host(big, bytes), st.i);
      EncodeBase(big, 16, local, 0);
      assert View(big, local.mem, 0, 2) == bytes;
      StoredString(x, 2, 16);
    } else {
      AppendNone(st.wire, st.i);
    }
  }

  // ----- The batched copy of an array -----

  /** One element of a batched array is one copy of its bits. */
  lemma BatchedItem(enc: bool, e: Type, st: State, p: nat)
    requires WellFormed(e) && Batched(false, e)
    ensures Walk(enc, false, e, st, p) == Base(enc, false, NBits(e), st, p)
    ensures NBits(e) == 8 * Size(e)
  {
    if e.Alias? { BatchedItem(enc, e.to, st, p); }
  }

  lemma BaseSplit(enc: bool, n: nat, m: nat, st: State, p: nat)
    requires n % 8 == 0 && m % 8 == 0 && (enc ==> ClearFrom(st.wire, st.i))
    ensures Base(enc, false, n + m, st, p) == Base(enc, false, m, Base(enc, false, n, st, p), p + n / 8)
  {
    if enc {
      CopySplit(n, m, st.wire, st.mem, st.i, 8 * p);
    } else {
      CopySplit(n, m, st.mem, st.wire, 8 * p, st.i);
    }
  }

  lemma BaseNone(enc: bool, st: State, p: nat)
    ensures Base(enc, false, 0, st, p) == st
  {
    SameBytes(Copied(0, st.wire, st.mem, st.i, 8 * p), st.wire);
    SameBytes(Copied(0, st.mem, st.wire, 8 * p, st.i), st.mem);
  }

  lemma BaseKeepsClear(n: nat, st: State, p: nat)
    requires ClearFrom(st.wire, st.i)
    ensures ClearFrom(Base(true, false, n, st, p).wire, st.i + n)
  {
    CopyAppends(n, st.wire, st.mem, st.i, 8 * p);
    AppendClear(st.wire, st.i, Slice(st.mem, 8 * p, n));
  }

  /** The batched copy of an array does what the loop over its elements does: always when
      decoding, and from a clear buffer when encoding. */
  lemma {:induction false} BatchIsLoop(enc: bool, e: Type, cap: nat, st: State, p: nat)
    requires WellFormed(e) && Batched(false, e) && (enc ==> ClearFrom(st.wire, st.i))
    ensures Base(enc, false, Times(cap, NBits(e)), st, p) == WalkItems(enc, false, e, cap, st, p)
    decreases cap
  {
    var n := NBits(e);
    if cap == 0 {
      BaseNone(enc, st, p);
    } else {
      BatchedItem(enc, e, st, p);
      TimesEight(cap - 1, Size(e));
      BaseSplit(enc, n, Times(cap - 1, n), st, p);
      if enc { BaseKeepsClear(n, st, p); }
      BatchIsLoop(enc, e, cap - 1, Base(enc, false, n, st, p), p + Size(e));
    }
  }

  // ----- All types -----

  /** The wire is extended by the wire form of the value in memory; the cursor moves past it. */
  ghost predicate Encodes(st: State, r: State, bits: seq<bool>) {
    r.wire == Append(st.wire, st.i, bits) && r.i == st.i + |bits| && r.mem == st.mem
  }

  lemma EncodesBoth(st: State, st1: State, r: State, x: seq<bool>, y: seq<bool>)
    requires Encodes(st, st1, x) && Encodes(st1, r, y)
    ensures Encodes(st, r, x + y)
  {
    AppendBoth(st.wire, st.i, x, y);
  }

  /** There is room on the clear wire and in memory for a type of so many bits and bytes. */
  ghost predicate Room(st: State, bits: nat, p: nat, bytes: nat) {
    ClearFrom(st.wire, st.i) && st.i + bits <= 8 * |st.wire| && p + bytes <= |st.mem|
  }

  lemma RoomAfter(st: State, st1: State, x: seq<bool>, bits: nat, p: nat, bytes: nat)
    requires Encodes(st, st1, x) && st.i + |x| + bits <= 8 * |st.wire| && p + bytes <= |st.mem|
    ensures Room(st1, bits, p, bytes)
  {
    AppendClear(st.wire, st.i, x);
  }

  lemma {:induction false} EncodeType(big: bool, t: Type, st: State, p: nat)
    requires WellFormed(t) && Room(st, NBits(t), p, Size(t))
    ensures Encodes(st, Walk(true, big, t, st, p), WireBits(t, Read(big, t, st.mem, p)))
    decreases t, 0, 0
  {
    match t
    case Scalar(flag, n, size) => EncodeScalar(big, flag, n, size, st, p);
    case Alias(to) => EncodeType(big, to, st, p);
    case Array(ext, cap, e) => EncodeArray(big, ext, cap, e, st, p);
    case Message(ext, nbits, size, fs) => EncodeMessage(big, ext, nbits, size, fs, st, p);
  }

  lemma EncodeScalar(big: bool, flag: Flag, n: nat, size: nat, st: State, p: nat)
    requires 1 <= n <= 64 && size == StorageSize(n) && Room(st, n, p, size)
    ensures Encodes(st, WalkScalar(true, big, flag, n, size, st, p), BitString(NumberAt(big, flag, st.mem, p, size), n))
  {
    EncodeBase(big, n, st, p);
    SignedString(View(big, st.mem, p, size), n);
  }

  lemma {:induction false} EncodeMessage(big: bool, ext: bool, nbits: nat, size: nat, fs: Fields, st: State, p: nat)
    requires FieldsWellFormed(fs, 0, size) && Room(st, Prefix(ext) + FieldsNBits(fs), p, size)
    ensures Encodes(st, WalkMessage(true, big, ext, nbits, fs, st, p),
                    PrefixBits(ext, nbits) + FieldsBits(fs, ReadFields(big, fs, st.mem, p)))
    decreases fs, 1, 0
  {
    var st1 := Ahead(true, big, ext, nbits, st);
    AheadAppends(big, ext, nbits, st);
    RoomAfter(st, st1, PrefixBits(ext, nbits), FieldsNBits(fs), p, size);
    EncodeFields(big, fs, 0, size, st1, p);
    EncodesBoth(st, st1, WalkFields(true, big, fs, st1, p), PrefixBits(ext, nbits),
        FieldsBits(fs, ReadFields(big, fs, st.mem, p)));
  }

  lemma {:induction false} EncodeArray(big: bool, ext: bool, cap: nat, e: Type, st: State, p: nat)
    requires WellFormed(e) && !e.Array? && Room(st, Prefix(ext) + Times(cap, NBits(e)), p, Times(cap, Size(e)))
    ensures Encodes(st, WalkArray(true, big, ext, cap, e, st, p),
                    PrefixBits(ext, cap) + ItemsBits(e, cap, ReadItems(big, e, cap, st.mem, p)))
    decreases e, 2, 0
  {
    var st1 := Ahead(true, big, ext, cap, st);
    AheadAppends(big, ext, cap, st);
    RoomAfter(st, st1, PrefixBits(ext, cap), Times(cap, NBits(e)), p, Times(cap, Size(e)));
    EncodeItems(big, e, cap, st1, p);
    if Batched(big, e) { BatchIsLoop(true, e, cap, st1, p); }
    EncodesBoth(st, st1, WalkItems(true, big, e, cap, st1, p), PrefixBits(ext, cap),
        ItemsBits(e, cap, ReadItems(big, e, cap, st.mem, p)));
  }

  lemma {:induction false} EncodeItems(big: bool, e: Type, cap: nat, st: State, p: nat)
    requires WellFormed(e) && !e.Array? && Room(st, Times(cap, NBits(e)), p, Times(cap, Size(e)))
    ensures Encodes(st, WalkItems(true, big, e, cap, st, p), ItemsBits(e, cap, ReadItems(big, e, cap, st.mem, p)))
    decreases e, 1, cap
  {
    if cap == 0 {
      AppendNone(st.wire, st.i);
    } else {
      var st1, q := Walk(true, big, e, st, p), p + Size(e);
      assert st1.mem == st.mem;
      EncodeType(big, e, st, p);
      RoomAfter(st, st1, WireBits(e, Read(big, e, st.mem, p)), Times(cap - 1, NBits(e)), q, Times(cap - 1, Size(e)));
      EncodeItems(big, e, cap - 1, st1, q);
      ItemsEncoded(big, e, cap, st, st1, WalkItems(true, big, e, cap - 1, st1, q), p);
    }
  }

  lemma ItemsEncoded(big: bool, e: Type, cap: nat, st: State, st1: State, r: State, p: nat)
    requires cap > 0 && Encodes(st, st1, WireBits(e, Read(big, e, st.mem, p)))
    requires Encodes(st1, r, ItemsBits(e, cap - 1, ReadItems(big, e, cap - 1, st.mem, p + Size(e))))
    ensures Encodes(st, r, ItemsBits(e, cap, ReadItems(big, e, cap, st.mem, p)))
  {
    var vs, rest := ReadItems(big, e, cap, st.mem, p), ReadItems(big, e, cap - 1, st.mem, p + Size(e));
    assert Head(vs) == Read(big, e, st.mem, p) && Tail(vs) == rest;
    EncodesBoth(st, st1, r, WireBits(e, Head(vs)), ItemsBits(e, cap - 1, rest));
  }

  lemma {:induction false} EncodeFields(big: bool, fs: Fields, from: nat, to: nat, st: State, p: nat)
    requires FieldsWellFormed(fs, from, to) && Room(st, FieldsNBits(fs), p, to)
    ensures Encodes(st, WalkFields(true, big, fs, st, p), FieldsBits(fs, ReadFields(big, fs, st.mem, p)))
    decreases fs, 0, 0
  {
    if fs.End? {
      AppendNone(st.wire, st.i);
    } else {
      var next := fs.offset + Size(fs.typ);
      FieldsEnd(fs.rest, next, to);
      var st1 := Walk(true, big, fs.typ, st, p + fs.offset);
      EncodeType(big, fs.typ, st, p + fs.offset);
      RoomAfter(st, st1, WireBits(fs.typ, Read(big, fs.typ, st.mem, p + fs.offset)), FieldsNBits(fs.rest), p, to);
      EncodeFields(big, fs.rest, next, to, st1, p);
      FieldsEncoded(big, fs, st, st1, WalkFields(true, big, fs.rest, st1, p), p);
    }
  }

  lemma FieldsEncoded(big: bool, fs: Fields, st: State, st1: State, r: State, p: nat)
    requires fs.Next? && Encodes(st, st1, WireBits(fs.typ, Read(big, fs.typ, st.mem, p + fs.offset)))
    requires Encodes(st1, r, FieldsBits(fs.rest, ReadFields(big, fs.rest, st.mem, p)))
    ensures Encodes(st, r, FieldsBits(fs, ReadFields(big, fs, st.mem, p)))
  {
    var vs, rest := ReadFields(big, fs, st.mem, p), ReadFields(big, fs.rest, st.mem, p);
    assert Head(vs) == Read(big, fs.typ, st.mem, p + fs.offset) && Tail(vs) == rest;
    EncodesBoth(st, st1, r, WireBits(fs.typ, Head(vs)), FieldsBits(fs.rest, rest));
  }

  // ----- Where the walkers go, whatever the buffers hold -----

  /** No extensible array or message anywhere. */
  ghost predicate Fixed(t: Type)
    decreases t, 0
  {
    match t
    case Scalar(_, _, _) => true
    case Alias(to) => Fixed(to)
    case Array(ext, _, e) => !ext && Fixed(e)
    case Message(ext, _, _, fs) => !ext && FieldsFixed(fs)
  }

  ghost predicate FieldsFixed(fs: Fields)
    decreases fs, 0
  {
    fs.End? || (Fixed(fs.typ) && FieldsFixed(fs.rest))
  }

  /** Encoding, and decoding of types without extensible parts, move the cursor by the bits of the type. */
  lemma {:induction false} WalkMoves(enc: bool, big: bool, t: Type, st: State, p: nat)
    requires WellFormed(t) && (enc || Fixed(t))
    ensures Walk(enc, big, t, st, p).i == st.i + NBits(t)
    decreases t, 0, 0
  {
    match t
    case Scalar(_, _, _) =>
    case Alias(to) => WalkMoves(enc, big, to, st, p);
    case Array(ext, cap, e) => ItemsMove(enc, big, e, cap, Ahead(enc, big, ext, cap, st), p);
    case Message(ext, nbits, size, fs) => FieldsMove(enc, big, fs, 0, size, Ahead(enc, big, ext, nbits, st), p);
  }

  lemma {:induction false} ItemsMove(enc: bool, big: bool, e: Type, cap: nat, st: State, p: nat)
    requires WellFormed(e) && !e.Array? && (enc || Fixed(e))
    ensures WalkItems(enc, big, e, cap, st, p).i == st.i + Times(cap, NBits(e))
    decreases e, 1, cap
  {
    if cap > 0 {
      WalkMoves(enc, big, e, st, p);
      ItemsMove(enc, big, e, cap - 1, Walk(enc, big, e, st, p), p + Size(e));
    }
  }

  lemma {:induction false} FieldsMove(enc: bool, big: bool, fs: Fields, from: nat, to: nat, st: State, p: nat)
    requires FieldsWellFormed(fs, from, to) && (enc || FieldsFixed(fs))
    ensures WalkFields(enc, big, fs, st, p).i == st.i + FieldsNBits(fs)
    decreases fs, 0, 0
  {
    if fs.Next? {
      WalkMoves(enc, big, fs.typ, st, p + fs.offset);
      FieldsMove(enc, big, fs.rest, fs.offset + Size(fs.typ), to, Walk(enc, big, fs.typ, st, p + fs.offset), p);
    }
  }

  /** They stay inside their buffers if those have room for the type. */
  lemma {:induction false} WalkFits(enc: bool, big: bool, t: Type, st: State, p: nat)
    requires WellFormed(t) && (enc || Fixed(t))
    requires st.i + NBits(t) <= 8 * |st.wire| && p + Size(t) <= |st.mem|
    ensures Fits(enc, big, t, st, p)
    decreases t, 0, 0
  {
    match t
    case Scalar(_, _, _) =>
    case Alias(to) => WalkFits(enc, big, to, st, p);
    case Array(ext, cap, e) => WalkArrayFits(enc, big, ext, cap, e, st, p);
    case Message(ext, nbits, size, fs) => WalkFieldsFit(enc, big, fs, 0, size, Ahead(enc, big, ext, nbits, st), p);
  }

  lemma {:induction false} WalkArrayFits(enc: bool, big: bool, ext: bool, cap: nat, e: Type, st: State, p: nat)
    requires WellFormed(e) && !e.Array? && (enc || (!ext && Fixed(e)))
    requires st.i + Prefix(ext) + Times(cap, NBits(e)) <= 8 * |st.wire| && p + Times(cap, Size(e)) <= |st.mem|
    ensures ArrayFits(enc, big, ext, cap, e, st, p)
    decreases e, 2, 0
  {
    var st1 := Ahead(enc, big, ext, cap, st);
    if Batched(big, e) {
      BatchedItem(enc, e, st1, p);
      TimesEight(cap, Size(e));
    } else {
      WalkItemsFit(enc, big, e, cap, st1, p);
    }
  }

  lemma {:induction false} WalkItemsFit(enc: bool, big: bool, e: Type, cap: nat, st: State, p: nat)
    requires WellFormed(e) && !e.Array? && (enc || Fixed(e))
    requires st.i + Times(cap, NBits(e)) <= 8 * |st.wire| && p + Times(cap, Size(e)) <= |st.mem|
    ensures ItemsFit(enc, big, e, cap, st, p)
    decreases e, 1, cap
  {
    if cap > 0 {
      WalkFits(enc, big, e, st, p);
      WalkMoves(enc, big, e, st, p);
      WalkItemsFit(enc, big, e, cap - 1, Walk(enc, big, e, st, p), p + Size(e));
    }
  }

  lemma {:induction false} WalkFieldsFit(enc: bool, big: bool, fs: Fields, from: nat, to: nat, st: State, p: nat)
    requires FieldsWellFormed(fs, from, to) && (enc || FieldsFixed(fs))
    requires st.i + FieldsNBits(fs) <= 8 * |st.wire| && p + to <= |st.mem|
    ensures FieldsFit(enc, big, fs, st, p)
    decreases fs, 0, 0
  {
    if fs.Next? {
      var next, q := fs.offset + Size(fs.typ), p + fs.offset;
      FieldsEnd(fs.rest, next, to);
      WalkFits(enc, big, fs.typ, st, q);
      WalkMoves(enc, big, fs.typ, st, q);
      WalkFieldsFit(enc, big, fs.rest, next, to, Walk(enc, big, fs.typ, st, q), p);
    }
  }
}
