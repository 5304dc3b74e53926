/** Decoding a wire form into memory that accepts it, possibly with a reader's schema that knows
    less than the writer's. */
module Decoding {
  import opened Bits
  import opened CopyBits
  import opened Schema
  import opened Codec
  import opened Numbers
  import opened Encoding
  import opened Memory

  // ----- Which readers understand a writer -----

  /** A cursor that has reached `reached` and then skips to `skip` unless past it stands at `end`. */
  predicate Lands(reached: nat, skip: nat, end: nat) {
    end == if skip >= reached then skip else reached
  }

  /** Readers of type r understand writers of type w: the types are the same but for extensible
      messages, whose last fields the reader may not know, and extensible arrays, of which the
      reader may hold fewer elements; and skipping the redundant bits ends where the writer did. */
  ghost predicate Compatible(w: Type, r: Type)
    decreases w, 0
  {
    match w
    case Alias(to) => r.Alias? && Compatible(to, r.to)
    case Array(ext, cap, e) =>
      && r.Array? && r.extensible == ext && (r.cap > 0 ==> Compatible(e, r.element))
      && (if ext
          then r.cap <= cap && Lands(16 + Times(r.cap, NBits(e)), Times(cap, r.cap), 16 + Times(cap, NBits(e)))
          else r.cap == cap)
    case Message(ext, nbits, _, fs) =>
      && r.Message? && r.extensible == ext && FieldsCompatible(ext, fs, r.fields)
      && (ext ==> Lands(16 + SharedNBits(fs, r.fields), nbits, 16 + FieldsNBits(fs)))
    case Scalar(_, _, _) => r == w
  }

  ghost predicate FieldsCompatible(ext: bool, wfs: Fields, rfs: Fields)
    decreases wfs, 0
  {
    if rfs.End? then ext || wfs.End?
    else wfs.Next? && Compatible(wfs.typ, rfs.typ) && FieldsCompatible(ext, wfs.rest, rfs.rest)
  }

  /** Bits on the wire of the writer's fields that the reader knows. */
  function SharedNBits(wfs: Fields, rfs: Fields): nat {
    if rfs.End? || wfs.End? then 0 else NBits(wfs.typ) + SharedNBits(wfs.rest, rfs.rest)
  }

  /** The part of a writer's value that the reader's type has room for. */
  function Project(w: Type, r: Type, v: Value): Value
    decreases w, 0, 0
  {
    match w
    case Alias(to) => if r.Alias? then Project(to, r.to, v) else v
    case Array(_, _, e) => if r.Array? then List(ProjectItems(e, r.element, r.cap, AsList(v))) else v
    case Message(_, _, _, fs) => if r.Message? then List(ProjectFields(fs, r.fields, AsList(v))) else v
    case Scalar(_, _, _) => v
  }

  function ProjectItems(w: Type, r: Type, cap: nat, vs: seq<Value>): seq<Value>
    decreases w, 1, cap
  {
    if cap == 0 then [] else [Project(w, r, Head(vs))] + ProjectItems(w, r, cap - 1, Tail(vs))
  }

  function ProjectFields(wfs: Fields, rfs: Fields, vs: seq<Value>): seq<Value>
    decreases wfs, 0, 0
  {
    if rfs.End? || wfs.End? then []
    else [Project(wfs.typ, rfs.typ, Head(vs))] + ProjectFields(wfs.rest, rfs.rest, Tail(vs))
  }

  // ----- Base types -----

  lemma DecodeBase(big: bool, n: nat, st: State, p: nat)
    requires 1 <= n <= 64 && p + StorageSize(n) <= |st.mem| && Receives(big, n, st.mem, p)
    ensures var size, r := StorageSize(n), Base(false, big, n, st, p);
      && SameOutside(st.mem, r.mem, p, p + size)
      && forall k :: 0 <= k < 8 * size ==> BitAt(View(big, r.mem, p, size), k) == (k < n && BitAt(st.wire, st.i + k))
  {
    if big { DecodeBaseBig(n, st, p); } else { DecodeBaseLittle(n, st, p); }
  }

  lemma DecodeBaseBig(n: nat, st: State, p: nat)
    requires 1 <= n <= 64 && p + StorageSize(n) <= |st.mem|
    ensures var size, r := StorageSize(n), Base(false, true, n, st, p);
      && SameOutside(st.mem, r.mem, p, p + size)
      && forall k :: 0 <= k < 8 * size ==> BitAt(View(true, r.mem, p, size), k) == (k < n && BitAt(st.wire, st.i + k))
  {
    var a := StagedBits(n, st.wire, st.i, StorageSize(n));
    SplicedView(true, st.mem, p, a);
    assert Base(false, true, n, st, p).mem == Splice(st.mem, p, Host(true, a));
  }

  /** The staging buffer after a decoding copy. */
  lemma StagedBits(n: nat, wire: Bytes, i: nat, size: nat) returns (a: Bytes)
    requires n <= 8 * size && size <= 8
    ensures a == Copied(n, Zeros(8), wire, 0, i)[..size]
    ensures forall k :: 0 <= k < 8 * size ==> BitAt(a, k) == (k < n && BitAt(wire, i + k))
  {
    var le := Copied(n, Zeros(8), wire, 0, i);
    CopyPlaces(n, Zeros(8), wire, 0, i);
    a := le[0..size];
    forall k | 0 <= k < 8 * size
      ensures BitAt(a, k) == (k < n && BitAt(wire, i + k))
    {
      PartBit(le, 0, size, k);
    }
  }

  lemma DecodeBaseLittle(n: nat, st: State, p: nat)
    requires 1 <= n <= 64 && p + StorageSize(n) <= |st.mem| && Receives(false, n, st.mem, p)
    ensures var size, r := StorageSize(n), Base(false, false, n, st, p);
      && SameOutside(st.mem, r.mem, p, p + size)
      && forall k :: 0 <= k < 8 * size ==> BitAt(View(false, r.mem, p, size), k) == (k < n && BitAt(st.wire, st.i + k))
  {
    var size, mem := StorageSize(n), Copied(n, st.mem, st.wire, 8 * p, st.i);
    forall b | 8 * p <= b && b / 8 < p + size && !StandardWidth(n)
      ensures !BitAt(st.mem, b)
    {
      if b < 8 * |st.mem| { ZeroBit(b % 8); }
    }
    CopyPlaces(n, st.mem, st.wire, 8 * p, st.i);
    forall q | 0 <= q < |mem| && !(p <= q < p + size)
      ensures mem[q] == st.mem[q]
    {
      CopyTouches(n, st.mem, st.wire, 8 * p, st.i, q);
    }
    forall k | 0 <= k < 8 * size
      ensures BitAt(View(false, mem, p, size), k) == (k < n && BitAt(st.wire, st.i + k))
    {
      PartBit(mem, p, size, k);
      assert BitAt(mem, 8 * p + k) == if k < n then BitAt(st.wire, st.i + (8 * p + k - 8 * p))
          else BitAt(st.mem, 8 * p + k);
    }
  }

  /** The wire holds the n low bits of x at the cursor. */
  ghost predicate WireHas(st: State, x: int, n: nat) {
    Slice(st.wire, st.i, n) == BitString(x, n)
  }

  lemma WireBit(st: State, x: int, n: nat, k: nat)
    requires WireHas(st, x, n) && k < n
    ensures BitAt(st.wire, st.i + k) == BitOf(x, k)
  {
    assert Slice(st.wire, st.i, n)[k] == BitString(x, n)[k];
  }

  lemma DecodeUnsigned(big: bool, n: nat, x: nat, st: State, p: nat)
    requires 1 <= n <= 64 && p + StorageSize(n) <= |st.mem| && Receives(big, n, st.mem, p)
    requires WireHas(st, x, n) && x < Pow2(n)
    ensures var size, r := StorageSize(n), Base(false, big, n, st, p);
      SameOutside(st.mem, r.mem, p, p + size) && Unsigned(View(big, r.mem, p, size)) == x
  {
    var size, r := StorageSize(n), Base(false, big, n, st, p);
    var view := View(big, r.mem, p, size);
    DecodeBase(big, n, st, p);
    forall k | 0 <= k < 8 * size
      ensures BitAt(view, k) == BitOf(x, k)
    {
      if k < n { WireBit(st, x, n, k); } else { HighBit(x, n, k); }
    }
    Pow2Mono(n, 8 * size);
    UnsignedIs(view, x);
  }

  lemma DecodeSigned(big: bool, n: nat, x: int, st: State, p: nat)
    requires 1 <= n <= 64 && p + StorageSize(n) <= |st.mem| && Receives(big, n, st.mem, p)
    requires WireHas(st, x, n) && -(Pow2(n - 1) as int) <= x < Pow2(n - 1)
    ensures var size := StorageSize(n);
      var r := Sign(false, big, size, n, Base(false, big, n, st, p), p);
      SameOutside(st.mem, r.mem, p, p + size) && Signed(View(big, r.mem, p, size)) == x
  {
    var size, st1 := StorageSize(n), Base(false, big, n, st, p);
    var view, r := View(big, st1.mem, p, size), Sign(false, big, size, n, st1, p);
    DecodeBase(big, n, st, p);
    forall k | 0 <= k < n
      ensures BitAt(view, k) == BitOf(x, k)
    {
      WireBit(st, x, n, k);
    }
    if StandardWidth(n) {
      SignExtensionRecovers(x, n, view);
    } else {
      var a := SignExtended(view, n);
      SplicedView(big, st1.mem, p, a);
      forall k | 0 <= k < 8 * size
        ensures BitAt(a, k) == BitOf(x, if k < n then k else n - 1)
      {
        assert BitAt(a, k) == (BitAt(view, k) || (n <= k && BitAt(view, n - 1)));
      }
      SignExtensionRecovers(x, n, a);
    }
  }

  lemma SplicedView(big: bool, mem: Bytes, p: nat, a: Bytes)
    requires p + |a| <= |mem|
    ensures var r := Splice(mem, p, Host(big, a));
      SameOutside(mem, r, p, p + |a|) && View(big, r, p, |a|) == a
  {
    var r := Splice(mem, p, Host(big, a));
    assert r[p..p + |a|] == Host(big, a);
  }

  lemma DecodeAheadIs(big: bool, x: nat, st: State)
    requires WireHas(st, x, 16) && x < 0x1_0000
    ensures DecodeAhead(big, st) == x
  {
    Pow2Values();
    DecodeUnsigned(big, 16, x, State(st.wire, [0, 0], st.i), 0);
  }

  // ----- All types -----

  /** The reader's memory at p holds v, no other byte has changed, and the cursor is at `end`. */
  ghost predicate Decodes(big: bool, r: Type, st: State, after: State, p: nat, end: nat, v: Value) {
    && after.wire == st.wire && after.i == end
    && SameOutside(st.mem, after.mem, p, p + Size(r))
    && Read(big, r, after.mem, p) == v
  }

  /** m + n bits at i, read as m bits at i and n bits at j. */
  lemma SliceParts(a: Bytes, i: nat, m: nat, j: nat, n: nat, all: nat, x: seq<bool>, y: seq<bool>)
    requires |x| == m && |y| == n && j == i + m && all == m + n && Slice(a, i, all) == x + y
    ensures Slice(a, i, m) == x && Slice(a, j, n) == y
  {
    SliceSplit(a, i, m, n);
    assert x == Slice(a, i, all)[..m] == Slice(a, i, m);
    assert y == Slice(a, i, all)[m..] == Slice(a, j, n);
  }

  /** Filling [i, j) and then [k, l) beside it: nothing outside [m, n) changes, and what was
      read from the first part is still there. */
  lemma BothFilled(big: bool, r: Type, a: Bytes, b: Bytes, c: Bytes, i: nat, k: int, l: int, m: int, n: int)
    requires WellFormed(r) && SameOutside(a, b, i, i + Size(r)) && SameOutside(b, c, k, l)
    requires m <= i && i + Size(r) <= k && k <= l <= n
    ensures SameOutside(a, c, m, n) && Read(big, r, c, i) == Read(big, r, b, i)
  {
    ReadAgrees(big, r, b, c, i);
  }

  /** The wire at the cursor holds the value v of type t. */
  ghost predicate OnWire(t: Type, v: Value, st: State) {
    && InRange(t, v)
    && st.i + NBits(t) <= 8 * |st.wire| && Slice(st.wire, st.i, NBits(t)) == WireBits(t, v)
  }

  /** A value of the writer's type w is on the wire, and the reader's memory accepts its type r. */
  ghost predicate Facing(big: bool, w: Type, r: Type, v: Value, st: State, p: nat) {
    && WellFormed(w) && WellFormed(r) && OnWire(w, v, st)
    && p + Size(r) <= |st.mem| && Accepts(big, r, st.mem, p)
  }

  ghost predicate Ready(big: bool, w: Type, r: Type, v: Value, st: State, p: nat) {
    Facing(big, w, r, v, st, p) && Compatible(w, r)
  }

  lemma {:induction false} DecodeType(big: bool, w: Type, r: Type, v: Value, st: State, p: nat)
    requires Ready(big, w, r, v, st, p)
    ensures Decodes(big, r, st, Walk(false, big, r, st, p), p, st.i + NBits(w), Project(w, r, v))
    decreases w, 0, 0
  {
    if w.Alias? {
      DecodeType(big, w.to, r.to, v, st, p);
    } else if w.Array? {
      DecodeArray(big, w, r, v, st, p);
    } else if w.Message? {
      DecodeMessage(big, w, r, v, st, p);
    } else {
      DecodeScalar(big, w, v.n, st, p);
    }
  }

  lemma DecodeScalar(big: bool, t: Type, x: int, st: State, p: nat)
    requires t.Scalar? && WellFormed(t) && InRange(t, Num(x)) && WireHas(st, x, t.bits)
    requires p + Size(t) <= |st.mem| && Receives(big, t.bits, st.mem, p)
    ensures Decodes(big, t, st, WalkScalar(false, big, t.flag, t.bits, t.bytes, st, p), p, st.i + NBits(t), Num(x))
  {
    DecodeNumber(big, t.flag, t.bits, t.bytes, x, st, p);
  }

  lemma DecodeNumber(big: bool, flag: Flag, n: nat, size: nat, x: int, st: State, p: nat)
    requires 1 <= n <= 64 && size == StorageSize(n) && NumberInRange(flag, n, x) && WireHas(st, x, n)
    requires p + size <= |st.mem| && Receives(big, n, st.mem, p)
    ensures var r := WalkScalar(false, big, flag, n, size, st, p);
      SameOutside(st.mem, r.mem, p, p + size) && NumberAt(big, flag, r.mem, p, size) == x
  {
    if flag.INT? { DecodeSigned(big, n, x, st, p); } else { DecodeUnsigned(big, n, x, st, p); }
  }

  lemma {:induction false} DecodeMessage(big: bool, w: Type, r: Type, v: Value, st: State, p: nat)
    requires w.Message? && r.Message? && Ready(big, w, r, v, st, p)
    ensures Decodes(big, r, st, Walk(false, big, r, st, p), p, st.i + NBits(w), Project(w, r, v))
    decreases w.fields, 1, 0
  {
    MessageReady(big, w, r, v, st, p);
    DecodeFields(big, w.extensible, w.fields, 0, w.size, r.fields, 0, r.size, v.items,
        Ahead(false, big, w.extensible, r.nbits, st), p);
    if !w.extensible { AllShared(w.fields, r.fields); }
  }

  lemma MessageReady(big: bool, w: Type, r: Type, v: Value, st: State, p: nat)
    requires w.Message? && r.Message? && Facing(big, w, r, v, st, p)
    requires r.extensible == w.extensible && FieldsCompatible(w.extensible, w.fields, r.fields)
    ensures FieldsReady(big, w.extensible, w.fields, 0, w.size, r.fields, 0, r.size, v.items,
                        Ahead(false, big, w.extensible, r.nbits, st), p)
    ensures w.extensible ==> DecodeAhead(big, st) == w.nbits
  {
    MessageOnWire(big, w, v, st, st.(i := st.i + Prefix(w.extensible)));
  }

  /** Behind the announced number of bits are the fields. */
  lemma MessageOnWire(big: bool, t: Type, v: Value, st: State, st1: State)
    requires t.Message? && WellFormed(t) && OnWire(t, v, st) && st1 == st.(i := st.i + Prefix(t.extensible))
    ensures FieldsOnWire(t.fields, v.items, st1)
    ensures t.extensible ==> DecodeAhead(big, st) == t.nbits
  {
    SliceParts(st.wire, st.i, Prefix(t.extensible), st1.i, FieldsNBits(t.fields), NBits(t),
               PrefixBits(t.extensible, t.nbits), FieldsBits(t.fields, v.items));
    if t.extensible { DecodeAheadIs(big, t.nbits, st); }
  }

  lemma {:induction false} AllShared(wfs: Fields, rfs: Fields)
    requires FieldsCompatible(false, wfs, rfs)
    ensures SharedNBits(wfs, rfs) == FieldsNBits(wfs)
    decreases wfs
  {
    if rfs.Next? { AllShared(wfs.rest, rfs.rest); }
  }

  ghost predicate FieldsOnWire(fs: Fields, vs: seq<Value>, st: State) {
    && FieldsInRange(fs, vs)
    && st.i + FieldsNBits(fs) <= 8 * |st.wire| && Slice(st.wire, st.i, FieldsNBits(fs)) == FieldsBits(fs, vs)
  }

  lemma FirstFieldOnWire(fs: Fields, vs: seq<Value>, st: State, st1: State)
    requires fs.Next? && FieldsOnWire(fs, vs, st) && st1.wire == st.wire && st1.i == st.i + NBits(fs.typ)
    ensures OnWire(fs.typ, vs[0], st) && FieldsOnWire(fs.rest, vs[1..], st1)
  {
    SliceParts(st.wire, st.i, NBits(fs.typ), st1.i, FieldsNBits(fs.rest), FieldsNBits(fs),
               WireBits(fs.typ, vs[0]), FieldsBits(fs.rest, vs[1..]));
  }

  ghost predicate FieldsReady(big: bool, ext: bool, wfs: Fields, wfrom: nat, wto: nat, rfs: Fields, from: nat, to: nat,
                              vs: seq<Value>, st: State, p: nat) {
    && FieldsWellFormed(wfs, wfrom, wto) && FieldsWellFormed(rfs, from, to)
    && FieldsCompatible(ext, wfs, rfs) && FieldsOnWire(wfs, vs, st)
    && p + to <= |st.mem| && AcceptsFields(big, rfs, st.mem, p)
  }

  ghost predicate FieldsDecoded(big: bool, wfs: Fields, rfs: Fields, from: nat, to: nat, vs: seq<Value>, st: State,
                                after: State, p: nat) {
    && after.wire == st.wire && after.i == st.i + SharedNBits(wfs, rfs)
    && SameOutside(st.mem, after.mem, p + from, p + to)
    && ReadFields(big, rfs, after.mem, p) == ProjectFields(wfs, rfs, vs)
  }

  lemma {:induction false} DecodeFields(big: bool, ext: bool, wfs: Fields, wfrom: nat, wto: nat, rfs: Fields,
                                        from: nat, to: nat, vs: seq<Value>, st: State, p: nat)
    requires FieldsReady(big, ext, wfs, wfrom, wto, rfs, from, to, vs, st, p)
    ensures FieldsDecoded(big, wfs, rfs, from, to, vs, st, WalkFields(false, big, rfs, st, p), p)
    decreases wfs, 0, 0
  {
    if rfs.Next? {
      var q, next := p + rfs.offset, rfs.offset + Size(rfs.typ);
      FieldReady(big, ext, wfs, wfrom, wto, rfs, from, to, vs, st, p);
      DecodeType(big, wfs.typ, rfs.typ, vs[0], st, q);
      var st1 := Walk(false, big, rfs.typ, st, q);
      NextFieldReady(big, ext, wfs, wfrom, wto, rfs, from, to, vs, st, st1, p);
      DecodeFields(big, ext, wfs.rest, wfs.offset + Size(wfs.typ), wto, rfs.rest, next, to, vs[1..], st1, p);
      FieldsDone(big, wfs, rfs, from, to, vs, st, st1, WalkFields(false, big, rfs.rest, st1, p), p);
    }
  }

  lemma FieldsDone(big: bool, wfs: Fields, rfs: Fields, from: nat, to: nat, vs: seq<Value>, st: State, st1: State,
                   after: State, p: nat)
    requires wfs.Next? && rfs.Next? && WellFormed(rfs.typ) && 0 < |vs|
    requires from <= rfs.offset && rfs.offset + Size(rfs.typ) <= to
    requires Decodes(big, rfs.typ, st, st1, p + rfs.offset, st.i + NBits(wfs.typ), Project(wfs.typ, rfs.typ, vs[0]))
    requires FieldsDecoded(big, wfs.rest, rfs.rest, rfs.offset + Size(rfs.typ), to, vs[1..], st1, after, p)
    ensures FieldsDecoded(big, wfs, rfs, from, to, vs, st, after, p)
  {
    BothFilled(big, rfs.typ, st.mem, st1.mem, after.mem, p + rfs.offset, p + (rfs.offset + Size(rfs.typ)), p + to,
        p + from, p + to);
  }

  lemma FieldReady(big: bool, ext: bool, wfs: Fields, wfrom: nat, wto: nat, rfs: Fields, from: nat, to: nat,
                   vs: seq<Value>, st: State, p: nat)
    requires rfs.Next? && FieldsReady(big, ext, wfs, wfrom, wto, rfs, from, to, vs, st, p)
    ensures Ready(big, wfs.typ, rfs.typ, vs[0], st, p + rfs.offset)
    ensures rfs.offset + Size(rfs.typ) <= to
  {
    FieldsEnd(rfs.rest, rfs.offset + Size(rfs.typ), to);
    FirstFieldOnWire(wfs, vs, st, st.(i := st.i + NBits(wfs.typ)));
  }

  lemma NextFieldReady(big: bool, ext: bool, wfs: Fields, wfrom: nat, wto: nat, rfs: Fields, from: nat, to: nat,
                       vs: seq<Value>, st: State, st1: State, p: nat)
    requires rfs.Next? && FieldsReady(big, ext, wfs, wfrom, wto, rfs, from, to, vs, st, p)
    requires st1.wire == st.wire && st1.i == st.i + NBits(wfs.typ)
    requires SameOutside(st.mem, st1.mem, p + rfs.offset, p + rfs.offset + Size(rfs.typ))
    ensures FieldsReady(big, ext, wfs.rest, wfs.offset + Size(wfs.typ), wto, rfs.rest, rfs.offset + Size(rfs.typ), to,
                        vs[1..], st1, p)
  {
    AcceptsFieldsFrame(big, rfs.rest, rfs.offset + Size(rfs.typ), to, st.mem, st1.mem, p);
    FirstFieldOnWire(wfs, vs, st, st1);
  }

  lemma {:induction false} DecodeArray(big: bool, w: Type, r: Type, v: Value, st: State, p: nat)
    requires w.Array? && r.Array? && Ready(big, w, r, v, st, p)
    ensures Decodes(big, r, st, Walk(false, big, r, st, p), p, st.i + NBits(w), Project(w, r, v))
    decreases w.element, 2, 0
  {
    var ext, e := w.extensible, w.element;
    var st1 := Ahead(false, big, ext, r.cap, st);
    ArrayReady(big, w, r, v, st, p);
    DecodeItems(big, e, w.cap, r.element, r.cap, v.items, st1, p);
    ArrayLoop(big, w, r, st, p);
    ArrayDone(big, w, r, v, st, WalkItems(false, big, r.element, r.cap, st1, p), p);
  }

  /** The skip after the elements ends where the writer did. */
  lemma ArrayDone(big: bool, w: Type, r: Type, v: Value, st: State, st2: State, p: nat)
    requires w.Array? && r.Array? && Compatible(w, r) && v.List?
    requires ItemsDecoded(big, w.element, r.element, r.cap, v.items, Ahead(false, big, w.extensible, r.cap, st), st2, p)
    ensures Decodes(big, r, st, if r.extensible then SkipTo(st.i + Times(w.cap, r.cap), st2) else st2, p,
                    st.i + NBits(w), Project(w, r, v))
  {
  }

  lemma ArrayReady(big: bool, w: Type, r: Type, v: Value, st: State, p: nat)
    requires w.Array? && r.Array? && Facing(big, w, r, v, st, p)
    requires r.extensible == w.extensible && (r.cap > 0 ==> Compatible(w.element, r.element)) && r.cap <= w.cap
    ensures ItemsReady(big, w.element, w.cap, r.element, r.cap, v.items, Ahead(false, big, w.extensible, r.cap, st), p)
    ensures w.extensible ==> DecodeAhead(big, st) == w.cap
  {
    ArrayOnWire(big, w, v, st, st.(i := st.i + Prefix(w.extensible)));
  }

  /** Behind the announced capacity are the elements. */
  lemma ArrayOnWire(big: bool, t: Type, v: Value, st: State, st1: State)
    requires t.Array? && WellFormed(t) && OnWire(t, v, st) && st1 == st.(i := st.i + Prefix(t.extensible))
    ensures ItemsOnWire(t.element, t.cap, v.items, st1)
    ensures t.extensible ==> DecodeAhead(big, st) == t.cap
  {
    var x, y := PrefixBits(t.extensible, t.cap), ItemsBits(t.element, t.cap, v.items);
    assert WireBits(t, v) == x + y;
    SliceParts(st.wire, st.i, Prefix(t.extensible), st1.i, Times(t.cap, NBits(t.element)), NBits(t), x, y);
    if t.extensible { DecodeAheadIs(big, t.cap, st); }
  }

  /** Decoding an array is its element loop and the skip, batched or not. */
  lemma ArrayLoop(big: bool, w: Type, r: Type, st: State, p: nat)
    requires w.Array? && r.Array? && WellFormed(r)
    requires r.extensible ==> DecodeAhead(big, st) == w.cap
    ensures var st2 := WalkItems(false, big, r.element, r.cap, Ahead(false, big, r.extensible, r.cap, st), p);
      Walk(false, big, r, st, p) == if r.extensible then SkipTo(st.i + Times(w.cap, r.cap), st2) else st2
  {
    if Batched(big, r.element) { BatchIsLoop(false, r.element, r.cap, Ahead(false, big, r.extensible, r.cap, st), p); }
  }

  /** The wire at the cursor holds wcap values of type w, one after the other. */
  ghost predicate ItemsOnWire(w: Type, wcap: nat, vs: seq<Value>, st: State) {
    && |vs| == wcap && (forall k :: 0 <= k < wcap ==> InRange(w, vs[k]))
    && st.i + Times(wcap, NBits(w)) <= 8 * |st.wire|
    && Slice(st.wire, st.i, Times(wcap, NBits(w))) == ItemsBits(w, wcap, vs)
  }

  ghost predicate ItemsReady(big: bool, w: Type, wcap: nat, r: Type, cap: nat, vs: seq<Value>, st: State, p: nat) {
    && WellFormed(w) && WellFormed(r) && (cap > 0 ==> Compatible(w, r)) && !r.Array? && cap <= wcap
    && ItemsOnWire(w, wcap, vs, st)
    && p + Times(cap, Size(r)) <= |st.mem| && AcceptsItems(big, r, cap, st.mem, p)
  }

  /** `after` is st with `cap` elements decoded into the memory at p. */
  ghost predicate ItemsDecoded(big: bool, w: Type, r: Type, cap: nat, vs: seq<Value>, st: State, after: State, p: nat) {
    && after.wire == st.wire && after.i == st.i + Times(cap, NBits(w))
    && SameOutside(st.mem, after.mem, p, p + Times(cap, Size(r)))
    && ReadItems(big, r, cap, after.mem, p) == ProjectItems(w, r, cap, vs)
  }

  lemma {:induction false} DecodeItems(big: bool, w: Type, wcap: nat, r: Type, cap: nat, vs: seq<Value>, st: State,
                                       p: nat)
    requires ItemsReady(big, w, wcap, r, cap, vs, st, p)
    ensures ItemsDecoded(big, w, r, cap, vs, st, WalkItems(false, big, r, cap, st, p), p)
    decreases w, 1, cap
  {
    if cap > 0 {
      ItemReady(big, w, wcap, r, cap, vs, st, p);
      DecodeType(big, w, r, vs[0], st, p);
      var st1 := Walk(false, big, r, st, p);
      NextItemReady(big, w, wcap, r, cap, vs, st, st1, p);
      DecodeItems(big, w, wcap - 1, r, cap - 1, vs[1..], st1, p + Size(r));
      ItemsDone(big, w, r, cap, vs, st, st1, WalkItems(false, big, r, cap - 1, st1, p + Size(r)), p);
    }
  }

  lemma ItemsDone(big: bool, w: Type, r: Type, cap: nat, vs: seq<Value>, st: State, st1: State, after: State, p: nat)
    requires WellFormed(r) && 0 < cap && 0 < |vs|
    requires Decodes(big, r, st, st1, p, st.i + NBits(w), Project(w, r, vs[0]))
    requires ItemsDecoded(big, w, r, cap - 1, vs[1..], st1, after, p + Size(r))
    ensures ItemsDecoded(big, w, r, cap, vs, st, after, p)
  {
    var q := p + Size(r);
    BothFilled(big, r, st.mem, st1.mem, after.mem, p, q, q + Times(cap - 1, Size(r)), p, p + Times(cap, Size(r)));
    assert ReadItems(big, r, cap, after.mem, p)
        == [Read(big, r, after.mem, p)] + ReadItems(big, r, cap - 1, after.mem, q);
    assert ProjectItems(w, r, cap, vs) == [Project(w, r, vs[0])] + ProjectItems(w, r, cap - 1, vs[1..]);
  }

  lemma ItemReady(big: bool, w: Type, wcap: nat, r: Type, cap: nat, vs: seq<Value>, st: State, p: nat)
    requires cap > 0 && ItemsReady(big, w, wcap, r, cap, vs, st, p)
    ensures Ready(big, w, r, vs[0], st, p)
  {
    FirstOnWire(w, wcap, vs, st, st.(i := st.i + NBits(w)));
  }

  lemma NextItemReady(big: bool, w: Type, wcap: nat, r: Type, cap: nat, vs: seq<Value>, st: State, st1: State, p: nat)
    requires cap > 0 && ItemsReady(big, w, wcap, r, cap, vs, st, p)
    requires st1.wire == st.wire && st1.i == st.i + NBits(w) && SameOutside(st.mem, st1.mem, p, p + Size(r))
    ensures ItemsReady(big, w, wcap - 1, r, cap - 1, vs[1..], st1, p + Size(r))
  {
    FirstOnWire(w, wcap, vs, st, st1);
    AcceptsItemsFrame(big, r, cap - 1, st.mem, st1.mem, p + Size(r));
  }

  lemma FirstOnWire(w: Type, wcap: nat, vs: seq<Value>, st: State, st1: State)
    requires wcap > 0 && ItemsOnWire(w, wcap, vs, st) && st1.wire == st.wire && st1.i == st.i + NBits(w)
    ensures OnWire(w, vs[0], st) && ItemsOnWire(w, wcap - 1, vs[1..], st1)
  {
    SliceParts(st.wire, st.i, NBits(w), st1.i, Times(wcap - 1, NBits(w)), Times(wcap, NBits(w)),
               WireBits(w, vs[0]), ItemsBits(w, wcap - 1, vs[1..]));
  }

  // ----- Decoding stays inside its buffers -----

  lemma {:induction false} DecodeFits(big: bool, w: Type, r: Type, v: Value, st: State, p: nat)
    requires Ready(big, w, r, v, st, p)
    ensures Fits(false, big, r, st, p)
    decreases w, 0, 0
  {
    if w.Alias? {
      DecodeFits(big, w.to, r.to, v, st, p);
    } else if w.Array? {
      DecodeArrayFits(big, w, r, v, st, p);
    } else if w.Message? {
      DecodeMessageFits(big, w, r, v, st, p);
    }
  }

  lemma {:induction false} DecodeMessageFits(big: bool, w: Type, r: Type, v: Value, st: State, p: nat)
    requires w.Message? && r.Message? && Ready(big, w, r, v, st, p)
    ensures Fits(false, big, r, st, p)
    decreases w.fields, 1, 0
  {
    MessageReady(big, w, r, v, st, p);
    DecodeFieldsFit(big, w.extensible, w.fields, 0, w.size, r.fields, 0, r.size, v.items,
        Ahead(false, big, w.extensible, r.nbits, st), p);
  }

  lemma {:induction false} DecodeArrayFits(big: bool, w: Type, r: Type, v: Value, st: State, p: nat)
    requires w.Array? && r.Array? && Ready(big, w, r, v, st, p)
    ensures Fits(false, big, r, st, p)
    decreases w.element, 2, 0
  {
    ArrayReady(big, w, r, v, st, p);
    if Batched(big, r.element) {
      if r.cap > 0 { SameElement(w.element, r.element); }
      BatchedItem(false, r.element, st, p);
      TimesEight(r.cap, Size(r.element));
      TimesMore(r.cap, w.cap, NBits(r.element));
    } else {
      DecodeItemsFit(big, w.element, w.cap, r.element, r.cap, v.items, Ahead(false, big, w.extensible, r.cap, st), p);
    }
  }

  lemma SameElement(w: Type, r: Type)
    requires Compatible(w, r) && WellFormed(r) && (IsBaseInteger(r) || (r.Alias? && IsBaseInteger(r.to)))
    ensures w == r
  {
  }

  lemma OneItemFits(big: bool, e: Type, cap: nat, st: State, p: nat)
    requires cap > 0 && Fits(false, big, e, st, p)
    requires ItemsFit(false, big, e, cap - 1, Walk(false, big, e, st, p), p + Size(e))
    ensures ItemsFit(false, big, e, cap, st, p)
  {
  }

  lemma {:induction false} DecodeItemsFit(big: bool, w: Type, wcap: nat, r: Type, cap: nat, vs: seq<Value>,
                                          st: State, p: nat)
    requires ItemsReady(big, w, wcap, r, cap, vs, st, p)
    ensures ItemsFit(false, big, r, cap, st, p)
    decreases w, 1, cap
  {
    if cap > 0 {
      ItemReady(big, w, wcap, r, cap, vs, st, p);
      DecodeFits(big, w, r, vs[0], st, p);
      DecodeType(big, w, r, vs[0], st, p);
      var st1 := Walk(false, big, r, st, p);
      NextItemReady(big, w, wcap, r, cap, vs, st, st1, p);
      DecodeItemsFit(big, w, wcap - 1, r, cap - 1, vs[1..], st1, p + Size(r));
      OneItemFits(big, r, cap, st, p);
    }
  }

  lemma {:induction false} DecodeFieldsFit(big: bool, ext: bool, wfs: Fields, wfrom: nat, wto: nat, rfs: Fields,
                                           from: nat, to: nat, vs: seq<Value>, st: State, p: nat)
    requires FieldsReady(big, ext, wfs, wfrom, wto, rfs, from, to, vs, st, p)
    ensures FieldsFit(false, big, rfs, st, p)
    decreases wfs, 0, 0
  {
    if rfs.Next? {
      var q := p + rfs.offset;
      FieldReady(big, ext, wfs, wfrom, wto, rfs, from, to, vs, st, p);
      DecodeFits(big, wfs.typ, rfs.typ, vs[0], st, q);
      DecodeType(big, wfs.typ, rfs.typ, vs[0], st, q);
      var st1 := Walk(false, big, rfs.typ, st, q);
      NextFieldReady(big, ext, wfs, wfrom, wto, rfs, from, to, vs, st, st1, p);
      DecodeFieldsFit(big, ext, wfs.rest, wfs.offset + Size(wfs.typ), wto, rfs.rest, rfs.offset + Size(rfs.typ), to,
          vs[1..], st1, p);
    }
  }
}
