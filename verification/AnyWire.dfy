/** What decoding makes of a wire that no encoder of the model need have produced: a value in range,
    inside the struct, that is encoded to the same bits again. */
module AnyWire {
  import opened Bits
  import opened CopyBits
  import opened Schema
  import opened Numbers
  import opened Codec
  import opened Encoding
  import opened Memory
  import opened Decoding
  import opened RoundTrip
  import opened Messages
  import opened Drone

  // ----- Every bit string is the wire form of a value -----

  lemma {:induction false} Denoted(t: Type, bits: seq<bool>) returns (v: Value)
    requires WellFormed(t) && Fixed(t) && |bits| == NBits(t)
    ensures InRange(t, v) && WireBits(t, v) == bits
    decreases t, 0, 0
  {
    match t
    case Scalar(flag, n, _) => v := Num(DenotedNumber(flag, bits));
    case Alias(to) => v := Denoted(to, bits);
    case Array(_, cap, e) =>
      var vs := DenotedItems(e, cap, bits);
      v := List(vs);
      assert WireBits(t, v) == [] + ItemsBits(e, cap, vs);
    case Message(_, _, size, fs) =>
      var vs := DenotedFields(fs, 0, size, bits);
      v := List(vs);
      assert WireBits(t, v) == [] + FieldsBits(fs, vs);
  }

  ghost function DenotedNumber(flag: Flag, bits: seq<bool>): (x: int)
    requires bits != []
    ensures NumberInRange(flag, |bits|, x) && BitString(x, |bits|) == bits
  {
    var n := |bits|;
    var x := FromBits(k => 0 <= k < n && bits[k], 0, n);
    forall k | 0 <= k < n
      ensures BitString(x, n)[k] == bits[k]
    {
      assert BitOf(x, k) == bits[0 + k];
    }
    WrapNumber(flag, n, x)
  }

  lemma {:induction false} DenotedItems(e: Type, cap: nat, bits: seq<bool>) returns (vs: seq<Value>)
    requires WellFormed(e) && Fixed(e) && |bits| == Times(cap, NBits(e))
    ensures |vs| == cap && (forall k :: 0 <= k < cap ==> InRange(e, vs[k])) && ItemsBits(e, cap, vs) == bits
    decreases e, 1, cap
  {
    if cap == 0 {
      vs := [];
    } else {
      var x, y := bits[..NBits(e)], bits[NBits(e)..];
      var v := Denoted(e, x);
      var rest := DenotedItems(e, cap - 1, y);
      vs := [v] + rest;
      OneDenoted(e, cap, x, y, v, rest);
      AllInRange(e, v, rest);
      assert bits == x + y;
    }
  }

  lemma AllInRange(e: Type, v: Value, rest: seq<Value>)
    requires InRange(e, v) && forall k :: 0 <= k < |rest| ==> InRange(e, rest[k])
    ensures forall k :: 0 <= k < |rest| + 1 ==> InRange(e, ([v] + rest)[k])
  {
  }

  lemma OneDenoted(e: Type, cap: nat, x: seq<bool>, y: seq<bool>, v: Value, rest: seq<Value>)
    requires cap > 0 && WireBits(e, v) == x && ItemsBits(e, cap - 1, rest) == y
    ensures ItemsBits(e, cap, [v] + rest) == x + y
  {
    var vs := [v] + rest;
    assert Head(vs) == v && Tail(vs) == rest;
    ItemsBitsAre(e, cap, vs);
  }

  lemma {:induction false} DenotedFields(fs: Fields, from: nat, to: nat, bits: seq<bool>) returns (vs: seq<Value>)
    requires FieldsWellFormed(fs, from, to) && FieldsFixed(fs) && |bits| == FieldsNBits(fs)
    ensures FieldsInRange(fs, vs) && FieldsBits(fs, vs) == bits
    decreases fs, 0, 0
  {
    vs := [];
    if fs.Next? {
      var n := NBits(fs.typ);
      var v := Denoted(fs.typ, bits[..n]);
      var rest := DenotedFields(fs.rest, fs.offset + Size(fs.typ), to, bits[n..]);
      vs := [v] + rest;
      assert vs[1..] == rest && bits == bits[..n] + bits[n..];
    }
  }

  // ----- Decoding stays inside the struct -----

  /** Whatever is on the wire and in the memory, decoding changes only the bytes of the type. */
  lemma {:induction false} Inside(big: bool, t: Type, st: State, p: nat)
    requires WellFormed(t)
    ensures SameOutside(st.mem, Walk(false, big, t, st, p).mem, p, p + Size(t))
    decreases t, 0, 0
  {
    match t
    case Scalar(flag, n, size) => ScalarInside(big, flag, n, size, st, p);
    case Alias(to) => Inside(big, to, st, p);
    case Array(ext, cap, e) =>
      var st1 := Ahead(false, big, ext, cap, st);
      if Batched(big, e) { BatchIsLoop(false, e, cap, st1, p); }
      ItemsInside(big, e, cap, st1, p);
    case Message(ext, nbits, size, fs) => FieldsInside(big, fs, 0, size, Ahead(false, big, ext, nbits, st), p);
  }

  lemma ScalarInside(big: bool, flag: Flag, n: nat, size: nat, st: State, p: nat)
    requires 1 <= n <= 64 && size == StorageSize(n)
    ensures SameOutside(st.mem, WalkScalar(false, big, flag, n, size, st, p).mem, p, p + size)
  {
    var st1 := Base(false, big, n, st, p);
    BaseInside(big, n, st, p);
    SignInside(big, size, n, st1, p);
  }

  lemma SpliceInside(mem: Bytes, p: nat, a: Bytes)
    ensures SameOutside(mem, Splice(mem, p, a), p, p + |a|)
  {
  }

  lemma BaseInside(big: bool, n: nat, st: State, p: nat)
    requires 1 <= n <= 64
    ensures SameOutside(st.mem, Base(false, big, n, st, p).mem, p, p + StorageSize(n))
  {
    if big {
      SpliceInside(st.mem, p, Reverse(Copied(n, Zeros(8), st.wire, 0, st.i)[..StorageSize(n)]));
    } else {
      forall q | 0 <= q < |st.mem| && !(p <= q < p + StorageSize(n))
        ensures Copied(n, st.mem, st.wire, 8 * p, st.i)[q] == st.mem[q]
      {
        CopyTouches(n, st.mem, st.wire, 8 * p, st.i, q);
      }
    }
  }

  lemma SignInside(big: bool, size: nat, n: nat, st: State, p: nat)
    ensures SameOutside(st.mem, Sign(false, big, size, n, st, p).mem, p, p + size)
  {
    SpliceInside(st.mem, p, Host(big, SignExtended(View(big, st.mem, p, size), n)));
  }

  lemma {:induction false} ItemsInside(big: bool, e: Type, cap: nat, st: State, p: nat)
    requires WellFormed(e) && !e.Array?
    ensures SameOutside(st.mem, WalkItems(false, big, e, cap, st, p).mem, p, p + Times(cap, Size(e)))
    decreases e, 1, cap
  {
    if cap > 0 {
      Inside(big, e, st, p);
      ItemsInside(big, e, cap - 1, Walk(false, big, e, st, p), p + Size(e));
    }
  }

  lemma {:induction false} FieldsInside(big: bool, fs: Fields, from: nat, to: nat, st: State, p: nat)
    requires FieldsWellFormed(fs, from, to)
    ensures SameOutside(st.mem, WalkFields(false, big, fs, st, p).mem, p + from, p + to)
    decreases fs, 0, 0
  {
    if fs.Next? {
      var next := fs.offset + Size(fs.typ);
      FieldsEnd(fs.rest, next, to);
      Inside(big, fs.typ, st, p + fs.offset);
      FieldsInside(big, fs.rest, next, to, Walk(false, big, fs.typ, st, p + fs.offset), p);
    }
  }

  // ----- Decode, then encode -----

  /** Any bits decode to a value in range, of which they are the wire form. */
  lemma Decoded(big: bool, t: Type, wire: Bytes, i: nat, mem: Bytes, p: nat)
    requires WellFormed(t) && Fixed(t) && i + NBits(t) <= 8 * |wire|
    requires p + Size(t) <= |mem| && Accepts(big, t, mem, p)
    ensures var got := Received(big, t, wire, i, mem, p);
      var v := Read(big, t, got.mem, p);
      && InRange(t, v) && WireBits(t, v) == Slice(wire, i, NBits(t))
      && got.i == i + NBits(t) && SameOutside(mem, got.mem, p, p + Size(t))
  {
    var v := Denoted(t, Slice(wire, i, NBits(t)));
    FixedMeets(t);
    OwnReader(t);
    OwnProjection(t, v);
    DecodeType(big, t, t, v, State(wire, mem, i), p);
  }

  /** The other round trip: what was decoded from any bits is encoded, by a host of either byte order
      that holds the same value, to the same bits. */
  lemma EncodedAgain(bigR: bool, bigW: bool, t: Type, wire: Bytes, i: nat, memR: Bytes, pR: nat,
                     clear: Bytes, j: nat, memW: Bytes, pW: nat)
    requires WellFormed(t) && Fixed(t) && i + NBits(t) <= 8 * |wire|
    requires pR + Size(t) <= |memR| && Accepts(bigR, t, memR, pR)
    requires Writes(t, clear, j, memW, pW)
    requires Read(bigW, t, memW, pW) == Read(bigR, t, Received(bigR, t, wire, i, memR, pR).mem, pR)
    ensures Slice(Sent(bigW, t, clear, j, memW, pW).wire, j, NBits(t)) == Slice(wire, i, NBits(t))
  {
    Decoded(bigR, t, wire, i, memR, pR);
    EncodeType(bigW, t, State(clear, memW, j), pW);
    AppendSlice(clear, j, WireBits(t, Read(bigW, t, memW, pW)));
  }

  /** For instance, any 65 bytes decode to a drone in range, with the first 516 bits as its wire form. */
  lemma AnyDrone(big: bool, payload: Bytes)
    requires |payload| == BYTES_LENGTH_DRONE
    ensures var drone := Read(big, DRONE, Received(big, DRONE, payload, 0, Zeros(96), 0).mem, 0);
      InRange(DRONE, drone) && WireBits(DRONE, drone) == Slice(payload, 0, 516)
  {
    DroneType();
    AnyBytes(DRONE, 516, 96, big, payload);
  }

  lemma AnyBytes(t: Type, bits: nat, bytes: nat, big: bool, payload: Bytes)
    requires Described(t, bits, bytes) && bits <= 8 * |payload|
    ensures var v := Read(big, t, Received(big, t, payload, 0, Zeros(bytes), 0).mem, 0);
      InRange(t, v) && WireBits(t, v) == Slice(payload, 0, bits)
  {
    BlankAccepts(big, t, Zeros(bytes), 0);
    Decoded(big, t, payload, 0, Zeros(bytes), 0);
  }
}
