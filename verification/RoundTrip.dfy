/** The main results about the codec. */
module RoundTrip {
  import opened Bits
  import opened CopyBits
  import opened Schema
  import opened Numbers
  import opened Codec
  import opened Encoding
  import opened Memory
  import opened Decoding

  // ----- What a type can carry -----

  /** The number in range of an n-bit type that has the same n low bits as x. */
  ghost function WrapNumber(flag: Flag, n: nat, x: int): (y: int)
    requires 1 <= n
    ensures NumberInRange(flag, n, y) && BitString(y, n) == BitString(x, n)
  {
    var low := Low(x, n);
    var y := if flag.INT? && low >= Pow2(n - 1) then low - Pow2(n) else low;
    forall k | 0 <= k < n
      ensures BitOf(y, k) == BitOf(x, k)
    {
      LowBit(x, n, k);
      BelowPow(y, n, k);
    }
    SameStrings(y, x, n);
    y
  }

  ghost function Wrap(t: Type, v: Value): Value
    decreases t, 0, 0
  {
    match t
    case Scalar(flag, n, _) => Num(if n == 0 then 0 else WrapNumber(flag, n, AsNum(v)))
    case Alias(to) => Wrap(to, v)
    case Array(_, cap, e) => List(WrapItems(e, cap, AsList(v)))
    case Message(_, _, _, fs) => List(WrapFields(fs, AsList(v)))
  }

  ghost function WrapItems(e: Type, cap: nat, vs: seq<Value>): seq<Value>
    decreases e, 1, cap
  {
    if cap == 0 then [] else [Wrap(e, Head(vs))] + WrapItems(e, cap - 1, Tail(vs))
  }

  ghost function WrapFields(fs: Fields, vs: seq<Value>): seq<Value>
    decreases fs, 0, 0
  {
    if fs.End? then [] else [Wrap(fs.typ, Head(vs))] + WrapFields(fs.rest, Tail(vs))
  }

  /** A wrapped value is in range and looks the same on the wire. */
  lemma {:induction false} WrapCarries(t: Type, v: Value)
    requires WellFormed(t)
    ensures InRange(t, Wrap(t, v)) && WireBits(t, Wrap(t, v)) == WireBits(t, v)
    decreases t, 0, 0
  {
    match t
    case Scalar(_, _, _) =>
    case Alias(to) => WrapCarries(to, v);
    case Array(_, cap, e) => WrapItemsCarry(e, cap, AsList(v));
    case Message(_, _, size, fs) => WrapFieldsCarry(fs, 0, size, AsList(v));
  }

  lemma {:induction false} WrapItemsCarry(e: Type, cap: nat, vs: seq<Value>)
    requires WellFormed(e)
    ensures var ws := WrapItems(e, cap, vs);
      && |ws| == cap && (forall k :: 0 <= k < cap ==> InRange(e, ws[k]))
      && ItemsBits(e, cap, ws) == ItemsBits(e, cap, vs)
    decreases e, 1, cap
  {
    if cap > 0 {
      WrapCarries(e, Head(vs));
      WrapItemsCarry(e, cap - 1, Tail(vs));
      OneItemCarries(e, cap, vs, WrapItems(e, cap, vs), WrapItems(e, cap - 1, Tail(vs)));
    }
  }

  lemma OneItemCarries(e: Type, cap: nat, vs: seq<Value>, ws: seq<Value>, rest: seq<Value>)
    requires cap > 0 && |rest| == cap - 1 && ws == [Wrap(e, Head(vs))] + rest
    requires InRange(e, Wrap(e, Head(vs))) && forall k :: 0 <= k < cap - 1 ==> InRange(e, rest[k])
    requires WireBits(e, Wrap(e, Head(vs))) == WireBits(e, Head(vs))
    requires ItemsBits(e, cap - 1, rest) == ItemsBits(e, cap - 1, Tail(vs))
    ensures |ws| == cap && (forall k :: 0 <= k < cap ==> InRange(e, ws[k]))
    ensures ItemsBits(e, cap, ws) == ItemsBits(e, cap, vs)
  {
    assert Head(ws) == Wrap(e, Head(vs)) && Tail(ws) == rest;
    ItemsBitsAre(e, cap, ws);
    ItemsBitsAre(e, cap, vs);
  }

  lemma ItemsBitsAre(e: Type, cap: nat, vs: seq<Value>)
    requires cap > 0
    ensures ItemsBits(e, cap, vs) == WireBits(e, Head(vs)) + ItemsBits(e, cap - 1, Tail(vs))
  {
  }

  lemma {:induction false} WrapFieldsCarry(fs: Fields, from: nat, to: nat, vs: seq<Value>)
    requires FieldsWellFormed(fs, from, to)
    ensures FieldsInRange(fs, WrapFields(fs, vs)) && FieldsBits(fs, WrapFields(fs, vs)) == FieldsBits(fs, vs)
    decreases fs, 0, 0
  {
    if fs.Next? {
      WrapCarries(fs.typ, Head(vs));
      WrapFieldsCarry(fs.rest, fs.offset + Size(fs.typ), to, Tail(vs));
      var ws, rest := WrapFields(fs, vs), WrapFields(fs.rest, Tail(vs));
      assert Head(ws) == Wrap(fs.typ, Head(vs)) && Tail(ws) == rest;
    }
  }

  /** A value in range is carried as it is. */
  lemma {:induction false} WrapKeeps(t: Type, v: Value)
    requires WellFormed(t) && InRange(t, v)
    ensures Wrap(t, v) == v
    decreases t, 0, 0
  {
    match t
    case Scalar(flag, n, _) => OneInRange(flag, n, WrapNumber(flag, n, v.n), v.n);
    case Alias(to) => WrapKeeps(to, v);
    case Array(_, cap, e) => WrapItemsKeeps(e, cap, v.items);
    case Message(_, _, size, fs) => WrapFieldsKeeps(fs, 0, size, v.items);
  }

  lemma {:induction false} WrapItemsKeeps(e: Type, cap: nat, vs: seq<Value>)
    requires WellFormed(e) && |vs| == cap && forall k :: 0 <= k < cap ==> InRange(e, vs[k])
    ensures WrapItems(e, cap, vs) == vs
    decreases e, 1, cap
  {
    if cap > 0 {
      WrapKeeps(e, vs[0]);
      WrapItemsKeeps(e, cap - 1, vs[1..]);
    }
  }

  lemma {:induction false} WrapFieldsKeeps(fs: Fields, from: nat, to: nat, vs: seq<Value>)
    requires FieldsWellFormed(fs, from, to) && FieldsInRange(fs, vs)
    ensures WrapFields(fs, vs) == vs
    decreases fs, 0, 0
  {
    if fs.Next? {
      WrapKeeps(fs.typ, vs[0]);
      WrapFieldsKeeps(fs.rest, fs.offset + Size(fs.typ), to, vs[1..]);
    }
  }

  /** Two numbers in range with the same n low bits are equal. */
  lemma OneInRange(flag: Flag, n: nat, x: int, y: int)
    requires 1 <= n && NumberInRange(flag, n, x) && NumberInRange(flag, n, y) && BitString(x, n) == BitString(y, n)
    ensures x == y
  {
    var a, b := if x < 0 then x + Pow2(n) else x, if y < 0 then y + Pow2(n) else y;
    assert Pow2(n) == 2 * Pow2(n - 1);
    forall k | 0 <= k < n
      ensures BitOf(a, k) == BitOf(b, k)
    {
      BelowPow(x, n, k);
      BelowPow(y, n, k);
      assert BitOf(x, k) == BitString(x, n)[k] == BitString(y, n)[k] == BitOf(y, k);
    }
    SameBits(a, b, n);
  }

  // ----- A schema as its own reader -----

  /** Decoding with the sender's own schema skips no further than the sender went: no extensible
      array has more elements squared than bits, and no extensible message claims too many bits. */
  ghost predicate CursorsMeet(t: Type)
    decreases t, 0
  {
    match t
    case Scalar(_, _, _) => true
    case Alias(to) => CursorsMeet(to)
    case Array(ext, cap, e) => (cap > 0 ==> CursorsMeet(e)) && (ext ==> Times(cap, cap) <= 16 + Times(cap, NBits(e)))
    case Message(ext, nbits, _, fs) => FieldsMeet(fs) && (ext ==> nbits <= 16 + FieldsNBits(fs))
  }

  ghost predicate FieldsMeet(fs: Fields)
    decreases fs, 0
  {
    fs.End? || (CursorsMeet(fs.typ) && FieldsMeet(fs.rest))
  }

  lemma {:induction false} OwnReader(t: Type)
    ensures Compatible(t, t) <==> CursorsMeet(t)
    decreases t, 0
  {
    match t
    case Scalar(_, _, _) =>
    case Alias(to) => OwnReader(to);
    case Array(_, _, e) => OwnReader(e);
    case Message(ext, _, _, fs) => OwnFields(ext, fs);
  }

  lemma {:induction false} OwnFields(ext: bool, fs: Fields)
    ensures (FieldsCompatible(ext, fs, fs) <==> FieldsMeet(fs)) && SharedNBits(fs, fs) == FieldsNBits(fs)
    decreases fs, 0
  {
    if fs.Next? {
      OwnReader(fs.typ);
      OwnFields(ext, fs.rest);
    }
  }

  /** A type has room for all of its own values. */
  lemma {:induction false} OwnProjection(t: Type, v: Value)
    requires InRange(t, v)
    ensures Project(t, t, v) == v
    decreases t, 0, 0
  {
    match t
    case Scalar(_, _, _) =>
    case Alias(to) => OwnProjection(to, v);
    case Array(_, cap, e) => OwnItems(e, cap, v.items);
    case Message(_, _, _, fs) => OwnFieldsProjection(fs, v.items);
  }

  lemma {:induction false} OwnItems(e: Type, cap: nat, vs: seq<Value>)
    requires |vs| == cap && forall k :: 0 <= k < cap ==> InRange(e, vs[k])
    ensures ProjectItems(e, e, cap, vs) == vs
    decreases e, 1, cap
  {
    if cap > 0 {
      OwnProjection(e, vs[0]);
      OwnItems(e, cap - 1, vs[1..]);
    }
  }

  lemma {:induction false} OwnFieldsProjection(fs: Fields, vs: seq<Value>)
    requires FieldsInRange(fs, vs)
    ensures ProjectFields(fs, fs, vs) == vs
    decreases fs, 0, 0
  {
    if fs.Next? {
      OwnProjection(fs.typ, vs[0]);
      OwnFieldsProjection(fs.rest, vs[1..]);
    }
  }

  // ----- Encode, then decode -----

  /** A writer encodes a struct of type w onto a clear wire. */
  ghost predicate Writes(w: Type, wire: Bytes, i: nat, memW: Bytes, pW: nat) {
    WellFormed(w) && Room(State(wire, memW, i), NBits(w), pW, Size(w))
  }

  /** And a reader decodes it as type r into memory that accepts it. */
  ghost predicate Exchange(bigR: bool, w: Type, r: Type, wire: Bytes, i: nat, memW: Bytes, pW: nat, memR: Bytes,
                           pR: nat) {
    && Writes(w, wire, i, memW, pW) && WellFormed(r)
    && pR + Size(r) <= |memR| && Accepts(bigR, r, memR, pR)
  }

  ghost function Sent(big: bool, w: Type, wire: Bytes, i: nat, mem: Bytes, p: nat): State {
    Walk(true, big, w, State(wire, mem, i), p)
  }

  ghost function Received(big: bool, r: Type, wire: Bytes, i: nat, mem: Bytes, p: nat): State {
    Walk(false, big, r, State(wire, mem, i), p)
  }

  /** The round trip: a compatible reader, on a host of either byte order, gets what its type
      has room for of the writer's value, cut to what the writer's type can carry; both cursors
      stop at the same bit; and nothing else changes in the reader's memory. */
  lemma RoundTrip(bigW: bool, bigR: bool, w: Type, r: Type, wire: Bytes, i: nat, memW: Bytes, pW: nat, memR: Bytes,
                  pR: nat)
    requires Exchange(bigR, w, r, wire, i, memW, pW, memR, pR) && Compatible(w, r)
    ensures var sent := Sent(bigW, w, wire, i, memW, pW);
      var got := Received(bigR, r, sent.wire, i, memR, pR);
      && sent.i == i + NBits(w) && got.i == sent.i
      && sent.mem == memW && got.wire == sent.wire
      && SameOutside(memR, got.mem, pR, pR + Size(r))
      && Read(bigR, r, got.mem, pR) == Project(w, r, Wrap(w, Read(bigW, w, memW, pW)))
    ensures Fits(true, bigW, w, State(wire, memW, i), pW)
    ensures Fits(false, bigR, r, State(Sent(bigW, w, wire, i, memW, pW).wire, memR, i), pR)
  {
    var v := Wrap(w, Read(bigW, w, memW, pW));
    var st := SentIsReady(bigW, bigR, w, r, wire, i, memW, pW, memR, pR);
    WalkFits(true, bigW, w, State(wire, memW, i), pW);
    DecodeType(bigR, w, r, v, st, pR);
    DecodeFits(bigR, w, r, v, st, pR);
  }

  /** What the writer has sent faces the reader. */
  lemma SentIsReady(bigW: bool, bigR: bool, w: Type, r: Type, wire: Bytes, i: nat, memW: Bytes, pW: nat, memR: Bytes,
                    pR: nat)
    returns (st: State)
    requires Exchange(bigR, w, r, wire, i, memW, pW, memR, pR)
    ensures st == State(Sent(bigW, w, wire, i, memW, pW).wire, memR, i)
    ensures Facing(bigR, w, r, Wrap(w, Read(bigW, w, memW, pW)), st, pR)
    ensures Sent(bigW, w, wire, i, memW, pW).i == i + NBits(w) && Sent(bigW, w, wire, i, memW, pW).mem == memW
  {
    st := SentIsOnWire(bigW, w, wire, i, memW, pW, memR);
  }

  lemma SentIsOnWire(bigW: bool, w: Type, wire: Bytes, i: nat, memW: Bytes, pW: nat, memR: Bytes) returns (st: State)
    requires Writes(w, wire, i, memW, pW)
    ensures st == State(Sent(bigW, w, wire, i, memW, pW).wire, memR, i)
    ensures OnWire(w, Wrap(w, Read(bigW, w, memW, pW)), st)
    ensures Sent(bigW, w, wire, i, memW, pW).i == i + NBits(w) && Sent(bigW, w, wire, i, memW, pW).mem == memW
  {
    var v := Read(bigW, w, memW, pW);
    st := State(Sent(bigW, w, wire, i, memW, pW).wire, memR, i);
    EncodeType(bigW, w, State(wire, memW, i), pW);
    AppendSlice(wire, i, WireBits(w, v));
    WrapCarries(w, v);
  }

  /** With one schema on both sides, every value in range comes back. */
  lemma SameSchemaRoundTrip(bigW: bool, bigR: bool, t: Type, wire: Bytes, i: nat, memW: Bytes, pW: nat, memR: Bytes,
                            pR: nat)
    requires Exchange(bigR, t, t, wire, i, memW, pW, memR, pR)
    requires CursorsMeet(t) && InRange(t, Read(bigW, t, memW, pW))
    ensures var sent := Sent(bigW, t, wire, i, memW, pW);
      var got := Received(bigR, t, sent.wire, i, memR, pR);
      && got.i == sent.i == i + NBits(t)
      && SameOutside(memR, got.mem, pR, pR + Size(t))
      && Read(bigR, t, got.mem, pR) == Read(bigW, t, memW, pW)
  {
    var v := Read(bigW, t, memW, pW);
    OwnReader(t);
    RoundTrip(bigW, bigR, t, t, wire, i, memW, pW, memR, pR);
    WrapKeeps(t, v);
    OwnProjection(t, v);
  }

  /** On a big-endian host any type, and on a little-endian one any type all of whose scalars are
      complete C integers, is decoded correctly into memory that was not cleared. */
  lemma DirtyMemory(bigW: bool, bigR: bool, t: Type, wire: Bytes, i: nat, memW: Bytes, pW: nat, memR: Bytes, pR: nat)
    requires Writes(t, wire, i, memW, pW) && pR + Size(t) <= |memR| && (bigR || Complete(t))
    requires CursorsMeet(t) && InRange(t, Read(bigW, t, memW, pW))
    ensures var sent := Sent(bigW, t, wire, i, memW, pW);
      var got := Received(bigR, t, sent.wire, i, memR, pR);
      && got.i == sent.i && SameOutside(memR, got.mem, pR, pR + Size(t))
      && Read(bigR, t, got.mem, pR) == Read(bigW, t, memW, pW)
  {
    AnyAccepts(bigR, t, memR, pR);
    SameSchemaRoundTrip(bigW, bigR, t, wire, i, memW, pW, memR, pR);
  }

  /** Hosts of both byte orders put the same bits on the wire for the same value. */
  lemma HostsAgree(t: Type, wire: Bytes, i: nat, memL: Bytes, pL: nat, memB: Bytes, pB: nat)
    requires WellFormed(t) && Room(State(wire, memL, i), NBits(t), pL, Size(t))
      && Room(State(wire, memB, i), NBits(t), pB, Size(t))
    requires Read(false, t, memL, pL) == Read(true, t, memB, pB)
    ensures Sent(false, t, wire, i, memL, pL).wire == Sent(true, t, wire, i, memB, pB).wire
  {
    EncodeType(false, t, State(wire, memL, i), pL);
    EncodeType(true, t, State(wire, memB, i), pB);
  }
}
