/** Where decoding ends. The cursor is what the fields behind an extensible type depend on: the
    walkers skip to where the announced number puts the end, and not always rightly. */
module Cursors {
  import opened Bits
  import opened Schema
  import opened Codec
  import opened Encoding
  import opened Memory
  import opened Decoding
  import opened RoundTrip

  // ----- The cursor depends on the wire alone -----

  lemma {:induction false} CursorOnly(big: bool, t: Type, a: State, b: State, p: nat, q: nat)
    requires a.wire == b.wire && a.i == b.i
    ensures Walk(false, big, t, a, p).i == Walk(false, big, t, b, q).i
    decreases t, 0, 0
  {
    match t
    case Scalar(_, _, _) =>
    case Alias(to) => CursorOnly(big, to, a, b, p, q);
    case Array(ext, cap, e) =>
      ItemsCursorOnly(big, e, cap, Ahead(false, big, ext, cap, a), Ahead(false, big, ext, cap, b), p, q);
      SameAhead(big, a, b);
    case Message(ext, nbits, _, fs) =>
      FieldsCursorOnly(big, fs, Ahead(false, big, ext, nbits, a), Ahead(false, big, ext, nbits, b), p, q);
      SameAhead(big, a, b);
  }

  lemma SameAhead(big: bool, a: State, b: State)
    requires a.wire == b.wire && a.i == b.i
    ensures DecodeAhead(big, a) == DecodeAhead(big, b)
  {
  }

  lemma {:induction false} ItemsCursorOnly(big: bool, e: Type, cap: nat, a: State, b: State, p: nat, q: nat)
    requires a.wire == b.wire && a.i == b.i
    ensures WalkItems(false, big, e, cap, a, p).i == WalkItems(false, big, e, cap, b, q).i
    decreases e, 1, cap
  {
    if cap > 0 {
      CursorOnly(big, e, a, b, p, q);
      var a1 := if e.Array? then a else Walk(false, big, e, a, p);
      var b1 := if e.Array? then b else Walk(false, big, e, b, q);
      ItemsCursorOnly(big, e, cap - 1, a1, b1, p + Size(e), q + Size(e));
    }
  }

  lemma {:induction false} FieldsCursorOnly(big: bool, fs: Fields, a: State, b: State, p: nat, q: nat)
    requires a.wire == b.wire && a.i == b.i
    ensures WalkFields(false, big, fs, a, p).i == WalkFields(false, big, fs, b, q).i
    decreases fs, 0, 0
  {
    if fs.Next? {
      var p1, q1 := p + fs.offset, q + fs.offset;
      CursorOnly(big, fs.typ, a, b, p1, q1);
      FieldsCursorOnly(big, fs.rest, Walk(false, big, fs.typ, a, p1), Walk(false, big, fs.typ, b, q1), p, q);
    }
  }

  // ----- Skips only go forward -----

  lemma {:induction false} AtLeast(big: bool, t: Type, st: State, p: nat)
    requires WellFormed(t)
    ensures Walk(false, big, t, st, p).i >= st.i + NBits(t)
    decreases t, 0, 0
  {
    match t
    case Scalar(_, _, _) =>
    case Alias(to) => AtLeast(big, to, st, p);
    case Array(ext, cap, e) => ItemsAtLeast(big, e, cap, Ahead(false, big, ext, cap, st), p);
    case Message(ext, nbits, size, fs) => FieldsAtLeast(big, fs, 0, size, Ahead(false, big, ext, nbits, st), p);
  }

  lemma {:induction false} ItemsAtLeast(big: bool, e: Type, cap: nat, st: State, p: nat)
    requires WellFormed(e) && !e.Array?
    ensures WalkItems(false, big, e, cap, st, p).i >= st.i + Times(cap, NBits(e))
    decreases e, 1, cap
  {
    if cap > 0 {
      AtLeast(big, e, st, p);
      ItemsAtLeast(big, e, cap - 1, Walk(false, big, e, st, p), p + Size(e));
    }
  }

  lemma {:induction false} FieldsAtLeast(big: bool, fs: Fields, from: nat, to: nat, st: State, p: nat)
    requires FieldsWellFormed(fs, from, to)
    ensures WalkFields(false, big, fs, st, p).i >= st.i + FieldsNBits(fs)
    decreases fs, 0, 0
  {
    if fs.Next? {
      AtLeast(big, fs.typ, st, p + fs.offset);
      FieldsAtLeast(big, fs.rest, fs.offset + Size(fs.typ), to, Walk(false, big, fs.typ, st, p + fs.offset), p);
    }
  }

  // ----- Own-schema decoding -----

  /** A type whose cursors meet is decoded in exactly its bits, into whatever memory. */
  lemma Exactly(big: bool, t: Type, v: Value, st: State, p: nat)
    requires WellFormed(t) && OnWire(t, v, st) && CursorsMeet(t)
    ensures Walk(false, big, t, st, p).i == st.i + NBits(t)
  {
    var blank := st.(mem := Zeros(Size(t)));
    OwnReader(t);
    BlankAccepts(big, t, blank.mem, 0);
    DecodeType(big, t, t, v, blank, 0);
    CursorOnly(big, t, st, blank, p, 0);
  }

  /** Any other goes too far. */
  lemma {:induction false} Over(big: bool, t: Type, v: Value, st: State, p: nat)
    requires WellFormed(t) && OnWire(t, v, st) && !CursorsMeet(t)
    ensures Walk(false, big, t, st, p).i > st.i + NBits(t)
    decreases t, 0, 0
  {
    if t.Alias? {
      Over(big, t.to, v, st, p);
    } else if t.Array? {
      ArrayOver(big, t, v, st, p);
    } else if t.Message? {
      MessageOver(big, t, v, st, p);
    }
  }

  lemma {:induction false} ArrayOver(big: bool, t: Type, v: Value, st: State, p: nat)
    requires t.Array? && WellFormed(t) && OnWire(t, v, st) && !CursorsMeet(t)
    ensures Walk(false, big, t, st, p).i > st.i + NBits(t)
    decreases t.element, 1, 0
  {
    var cap, e, st1 := t.cap, t.element, Ahead(false, big, t.extensible, t.cap, st);
    ArrayOnWire(big, t, v, st, st1);
    if cap > 0 && !CursorsMeet(e) {
      FirstOnWire(e, cap, v.items, st1, st1.(i := st1.i + NBits(e)));
      Over(big, e, v.items[0], st1, p);
      ItemsOver(big, e, cap, st1, p);
      ArrayFromItems(big, t, st, p);
    } else {
      ArraySkips(big, t, st, p);
    }
  }

  lemma ItemsOver(big: bool, e: Type, cap: nat, st: State, p: nat)
    requires WellFormed(e) && !e.Array? && cap > 0 && Walk(false, big, e, st, p).i > st.i + NBits(e)
    ensures WalkItems(false, big, e, cap, st, p).i > st.i + Times(cap, NBits(e))
  {
    ItemsAtLeast(big, e, cap - 1, Walk(false, big, e, st, p), p + Size(e));
  }

  lemma ArraySkips(big: bool, t: Type, st: State, p: nat)
    requires t.Array? && t.extensible && DecodeAhead(big, st) == t.cap
    ensures Walk(false, big, t, st, p).i >= st.i + Times(t.cap, t.cap)
  {
  }

  /** Decoding an array ends no sooner than the element loop would. */
  lemma ArrayFromItems(big: bool, t: Type, st: State, p: nat)
    requires t.Array? && WellFormed(t)
    ensures Walk(false, big, t, st, p).i
         >= WalkItems(false, big, t.element, t.cap, Ahead(false, big, t.extensible, t.cap, st), p).i
  {
    if Batched(big, t.element) { BatchIsLoop(false, t.element, t.cap, Ahead(false, big, t.extensible, t.cap, st), p); }
  }

  lemma {:induction false} MessageOver(big: bool, t: Type, v: Value, st: State, p: nat)
    requires t.Message? && WellFormed(t) && OnWire(t, v, st) && !CursorsMeet(t)
    ensures Walk(false, big, t, st, p).i > st.i + NBits(t)
    decreases t.fields, 1, 0
  {
    var st1 := Ahead(false, big, t.extensible, t.nbits, st);
    MessageOnWire(big, t, v, st, st1);
    if !FieldsMeet(t.fields) { FieldsOver(big, t.fields, 0, t.size, v.items, st1, p); }
  }

  lemma {:induction false} FieldsOver(big: bool, fs: Fields, from: nat, to: nat, vs: seq<Value>, st: State, p: nat)
    requires FieldsWellFormed(fs, from, to) && FieldsOnWire(fs, vs, st) && !FieldsMeet(fs)
    ensures WalkFields(false, big, fs, st, p).i > st.i + FieldsNBits(fs)
    decreases fs, 0, 0
  {
    var q, next := p + fs.offset, fs.offset + Size(fs.typ);
    var st1 := Walk(false, big, fs.typ, st, q);
    FirstFieldOnWire(fs, vs, st, st.(i := st.i + NBits(fs.typ)));
    if CursorsMeet(fs.typ) {
      Exactly(big, fs.typ, vs[0], st, q);
      FirstFieldOnWire(fs, vs, st, st1);
      FieldsOver(big, fs.rest, next, to, vs[1..], st1, p);
    } else {
      Over(big, fs.typ, vs[0], st, q);
      FieldsAtLeast(big, fs.rest, next, to, st1, p);
    }
  }

  /** Decoding with the sender's own schema ends at the sender's cursor if and only if no
      extensible type anywhere in the schema skips too far: for every well-formed type, value,
      starting bit and reader's memory, on hosts of either byte order. */
  lemma OwnCursor(bigW: bool, bigR: bool, t: Type, wire: Bytes, i: nat, memW: Bytes, pW: nat, memR: Bytes, pR: nat)
    requires Writes(t, wire, i, memW, pW)
    ensures var sent := Sent(bigW, t, wire, i, memW, pW);
      Received(bigR, t, sent.wire, i, memR, pR).i == sent.i <==> CursorsMeet(t)
  {
    var v := Wrap(t, Read(bigW, t, memW, pW));
    var st := SentIsOnWire(bigW, t, wire, i, memW, pW, memR);
    if CursorsMeet(t) { Exactly(bigR, t, v, st, pR); } else { Over(bigR, t, v, st, pR); }
  }

  /** For an extensible array: its elements must decode well, if it has any, and the square of its
      capacity must not exceed its bits, because the skip multiplies the sender's capacity by the
      capacity and not by the width of an element. */
  lemma ExtensibleArrayCursor(bigW: bool, bigR: bool, cap: nat, e: Type, wire: Bytes, i: nat, memW: Bytes, pW: nat,
                              memR: Bytes, pR: nat)
    requires Writes(Array(true, cap, e), wire, i, memW, pW)
    ensures var t := Array(true, cap, e);
      var sent := Sent(bigW, t, wire, i, memW, pW);
      Received(bigR, t, sent.wire, i, memR, pR).i == sent.i
      <==> (cap > 0 ==> CursorsMeet(e)) && cap * cap <= 16 + cap * NBits(e)
  {
    OwnCursor(bigW, bigR, Array(true, cap, e), wire, i, memW, pW, memR, pR);
    TimesIs(cap, cap);
    TimesIs(cap, NBits(e));
  }

  /** For instance, 32 extensible bytes: 16 + 256 bits are sent, and the reader's cursor moves by 1024. */
  lemma ExtensibleBytesOvershoot(memW: Bytes)
    requires |memW| == 32
    ensures var t := Array(true, 32, Scalar(BYTE, 8, 1));
      var sent := Sent(false, t, Zeros(34), 0, memW, 0);
      Received(false, t, sent.wire, 0, Zeros(32), 0).i != sent.i
  {
    TimesIs(32, 8);
    TimesIs(32, 1);
    ExtensibleArrayCursor(false, false, 32, Scalar(BYTE, 8, 1), Zeros(34), 0, memW, 0, Zeros(32), 0);
  }

  // ----- Readers that know fewer fields -----

  /** The fields are read, and then the number that the writer announced decides. */
  lemma PrefixCursor(big: bool, w: Type, r: Type, v: Value, st: State)
    requires Facing(big, w, r, v, st, 0)
    requires w.Message? && r.Message? && w.extensible && r.extensible && FieldsCompatible(true, w.fields, r.fields)
    ensures Walk(false, big, r, st, 0).i == st.i + NBits(w)
       <==> Lands(16 + SharedNBits(w.fields, r.fields), w.nbits, 16 + FieldsNBits(w.fields))
  {
    MessageReady(big, w, r, v, st, 0);
    var st1 := Ahead(false, big, true, r.nbits, st);
    DecodeFields(big, true, w.fields, 0, w.size, r.fields, 0, r.size, v.items, st1, 0);
    assert Walk(false, big, r, st, 0) == SkipTo(st.i + w.nbits, WalkFields(false, big, r.fields, st1, 0));
  }

  /** A reader that knows a prefix of the fields of a writer's extensible message ends where the
      writer did exactly when `Lands` says so. */
  lemma ExtensibleMessageCursor(bigW: bool, bigR: bool, w: Type, r: Type, wire: Bytes, i: nat, memW: Bytes, pW: nat,
                                memR: Bytes, pR: nat)
    requires Writes(w, wire, i, memW, pW) && WellFormed(r)
    requires w.Message? && r.Message? && w.extensible && r.extensible && FieldsCompatible(true, w.fields, r.fields)
    ensures var sent := Sent(bigW, w, wire, i, memW, pW);
      Received(bigR, r, sent.wire, i, memR, pR).i == sent.i
      <==> Lands(16 + SharedNBits(w.fields, r.fields), w.nbits, 16 + FieldsNBits(w.fields))
  {
    var blank := Zeros(Size(r));
    BlankAccepts(bigR, r, blank, 0);
    var st := SentIsReady(bigW, bigR, w, r, wire, i, memW, pW, blank, 0);
    PrefixCursor(bigR, w, r, Wrap(w, Read(bigW, w, memW, pW)), st);
    CursorOnly(bigR, r, st.(mem := memR), st, pR, 0);
  }

  lemma {:induction false} SharedAtMost(wfs: Fields, rfs: Fields)
    ensures SharedNBits(wfs, rfs) <= FieldsNBits(wfs)
    decreases wfs
  {
    if wfs.Next? && rfs.Next? { SharedAtMost(wfs.rest, rfs.rest); }
  }

  /** If the number that a writer announces counts its own 16 bits, readers of every prefix of the
      fields end where the writer did; if it counts the fields alone, only those that miss no bits do. */
  lemma PrefixMustBeCounted(bigW: bool, bigR: bool, w: Type, r: Type, wire: Bytes, i: nat, memW: Bytes, pW: nat,
                            memR: Bytes, pR: nat)
    requires Writes(w, wire, i, memW, pW) && WellFormed(r)
    requires w.Message? && r.Message? && w.extensible && r.extensible && FieldsCompatible(true, w.fields, r.fields)
    ensures var sent := Sent(bigW, w, wire, i, memW, pW);
      var met := Received(bigR, r, sent.wire, i, memR, pR).i == sent.i;
      && (w.nbits == 16 + FieldsNBits(w.fields) ==> met)
      && (w.nbits == FieldsNBits(w.fields) ==> (met <==> SharedNBits(w.fields, r.fields) == FieldsNBits(w.fields)))
  {
    ExtensibleMessageCursor(bigW, bigR, w, r, wire, i, memW, pW, memR, pR);
    SharedAtMost(w.fields, r.fields);
  }

  /** For instance, a message of one extensible byte that is announced as 8 bits: 24 bits are sent,
      and a reader that knows none of its fields stops after 16. */
  lemma UncountedPrefixStops(memW: Bytes)
    requires |memW| == 1
    ensures var w := Message(true, 8, 1, Next(0, Scalar(BYTE, 8, 1), End));
      var sent := Sent(false, w, Zeros(3), 0, memW, 0);
      sent.i == 24 && Received(false, Message(true, 0, 0, End), sent.wire, 0, [], 0).i != sent.i
  {
    var w, r := Message(true, 8, 1, Next(0, Scalar(BYTE, 8, 1), End)), Message(true, 0, 0, End);
    assert FieldsNBits(w.fields) == 8;
    EncodeType(false, w, State(Zeros(3), memW, 0), 0);
    PrefixMustBeCounted(false, false, w, r, Zeros(3), 0, memW, 0, [], 0);
  }
}
