/** Where the scalars of a fixed type are, on the wire and in the struct: what encoding and decoding do
    to each bit, without the tree of descriptors. */
module Places {
  import opened Bits
  import opened CopyBits
  import opened Numbers
  import opened Schema
  import opened Codec
  import opened Encoding
  import opened Memory
  import opened RoundTrip
  import opened Messages
  import AnyWire

  /** The n bits from bit `bit` of the wire are the low bits of the C integer of some bytes at `at`. */
  datatype Place = Place(bit: nat, n: nat, at: nat, bytes: nat, signed: bool)

  /** Bit k of the C integer at a place, in a host's struct at p. */
  ghost predicate PlaceBit(big: bool, mem: Bytes, p: nat, l: Place, k: int) {
    && 0 <= k < 8 * l.bytes && p + l.at + l.bytes <= |mem|
    && MemBit(big, mem, p + l.at, l.bytes, k)
  }

  /** Bit k of the C integer of some bytes at q: they are in the byte order of the host. */
  ghost predicate MemBit(big: bool, mem: Bytes, q: nat, bytes: nat, k: nat)
    requires k < 8 * bytes && q + bytes <= |mem|
  {
    var j := k / 8;
    if big then BitOf(mem[q + (bytes - 1 - j)], k % 8) else BitOf(mem[q + j], k % 8)
  }

  /** Bit k of the number that a wire has at a place: above its bits, its sign. */
  ghost predicate NumberBitAt(wire: Bytes, l: Place, k: int) {
    if k < l.n then BitAt(wire, l.bit + k) else l.signed && BitAt(wire, l.bit + l.n - 1)
  }

  // ----- The places of a type -----

  /** The scalar at l is one of those of a type that is at a bit of the wire and an offset of the struct. */
  ghost predicate IsPlace(t: Type, bit: nat, at: nat, l: Place)
    decreases t, 0, 0
  {
    match t
    case Scalar(flag, n, b) => l == Place(bit, n, at, b, flag.INT?)
    case Alias(to) => IsPlace(to, bit, at, l)
    case Array(_, cap, e) => IsItemPlace(e, cap, bit, at, l)
    case Message(_, _, _, fs) => IsFieldPlace(fs, bit, at, l)
  }

  ghost predicate IsItemPlace(e: Type, cap: nat, bit: nat, at: nat, l: Place)
    decreases e, 1, cap
  {
    cap > 0 && (IsPlace(e, bit, at, l) || IsItemPlace(e, cap - 1, bit + NBits(e), at + Size(e), l))
  }

  ghost predicate IsFieldPlace(fs: Fields, bit: nat, at: nat, l: Place)
    decreases fs, 0, 0
  {
    fs.Next? && (IsPlace(fs.typ, bit, at + fs.offset, l) || IsFieldPlace(fs.rest, bit + NBits(fs.typ), at, l))
  }

  // ----- What stands there -----

  ghost predicate Inside(mem: Bytes, p: nat, l: Place) {
    1 <= l.n <= 8 * l.bytes && p + l.at + l.bytes <= |mem|
  }

  /** The struct at p has the bits x at a place, where x begins at bit `from` of the wire. */
  ghost predicate Shows(big: bool, mem: Bytes, p: nat, x: seq<bool>, from: nat, l: Place) {
    && Inside(mem, p, l) && from <= l.bit && l.bit - from + l.n <= |x|
    && forall k :: 0 <= k < l.n ==> x[l.bit - from + k] == PlaceBit(big, mem, p, l, k)
  }

  /** Above the bits of the wire, the number is filled with its sign. */
  ghost predicate Filled(big: bool, mem: Bytes, p: nat, l: Place) {
    && Inside(mem, p, l)
    && forall k :: l.n <= k < 8 * l.bytes ==>
        PlaceBit(big, mem, p, l, k) == (l.signed && PlaceBit(big, mem, p, l, l.n - 1))
  }

  lemma ShowsFirst(big: bool, mem: Bytes, p: nat, a: seq<bool>, b: seq<bool>, c: seq<bool>, from: nat, l: Place)
    requires c == a + b && Shows(big, mem, p, a, from, l)
    ensures Shows(big, mem, p, c, from, l)
  {
  }

  lemma ShowsSecond(big: bool, mem: Bytes, p: nat, a: seq<bool>, b: seq<bool>, c: seq<bool>, from: nat, next: nat,
                    l: Place)
    requires c == a + b && next == from + |a| && Shows(big, mem, p, b, next, l)
    ensures Shows(big, mem, p, c, from, l)
  {
    forall k | 0 <= k < l.n
      ensures c[l.bit - from + k] == PlaceBit(big, mem, p, l, k)
    {
      assert c[l.bit - from + k] == b[l.bit - next + k];
    }
  }

  lemma ShowsOne(big: bool, mem: Bytes, p: nat, a: seq<bool>, b: seq<bool>, c: seq<bool>, from: nat, next: nat,
                 l: Place)
    requires c == a + b && next == from + |a| && (Shows(big, mem, p, a, from, l) || Shows(big, mem, p, b, next, l))
    ensures Shows(big, mem, p, c, from, l)
  {
    if Shows(big, mem, p, a, from, l) {
      ShowsFirst(big, mem, p, a, b, c, from, l);
    } else {
      ShowsSecond(big, mem, p, a, b, c, from, next, l);
    }
  }

  /** The bits of a number in memory. */
  lemma NumberBit(big: bool, flag: Flag, mem: Bytes, p: nat, l: Place, k: nat)
    requires Inside(mem, p, l) && k < 8 * l.bytes
    ensures BitOf(NumberAt(big, flag, mem, p + l.at, l.bytes), k) == PlaceBit(big, mem, p, l, k)
  {
    HostBit(big, flag, mem, p + l.at, l.bytes, k);
  }

  lemma HostBit(big: bool, flag: Flag, mem: Bytes, q: nat, bytes: nat, k: nat)
    requires k < 8 * bytes && q + bytes <= |mem|
    ensures BitOf(NumberAt(big, flag, mem, q, bytes), k) == MemBit(big, mem, q, bytes, k)
  {
    ViewBit(big, flag, mem, q, bytes, k);
    ViewAt(big, mem, q, bytes, k / 8);
  }

  lemma ViewBit(big: bool, flag: Flag, mem: Bytes, q: nat, bytes: nat, k: nat)
    requires k < 8 * bytes
    ensures BitOf(NumberAt(big, flag, mem, q, bytes), k) == BitOf(View(big, mem, q, bytes)[k / 8], k % 8)
  {
    var a := View(big, mem, q, bytes);
    if flag.INT? { SignedBit(a, k); } else { UnsignedBit(a, k); }
  }

  lemma UnsignedBit(a: Bytes, k: nat)
    requires k < 8 * |a|
    ensures BitOf(Unsigned(a), k) == BitOf(a[k / 8], k % 8)
  {
    assert BitAt(a, k) == BitOf(Unsigned(a), k);
  }

  lemma SignedBit(a: Bytes, k: nat)
    requires k < 8 * |a|
    ensures BitOf(Signed(a), k) == BitOf(a[k / 8], k % 8)
  {
    assert BitAt(a, k) == BitOf(Signed(a), k);
  }

  lemma ViewAt(big: bool, mem: Bytes, p: nat, bytes: nat, j: nat)
    requires p + bytes <= |mem| && j < bytes
    ensures View(big, mem, p, bytes)[j] == if big then mem[p + (bytes - 1 - j)] else mem[p + j]
  {
    var a, i := mem[p..p + bytes], if big then bytes - 1 - j else j;
    PartAt(mem, p, bytes, i);
    if big { assert Reverse(a)[j] == a[i]; }
  }

  lemma PartAt(mem: Bytes, p: nat, bytes: nat, i: nat)
    requires p + bytes <= |mem| && i < bytes
    ensures mem[p..p + bytes][i] == mem[p + i]
  {
  }

  lemma ScalarShows(big: bool, flag: Flag, mem: Bytes, p: nat, l: Place)
    requires Inside(mem, p, l)
    ensures Shows(big, mem, p, BitString(NumberAt(big, flag, mem, p + l.at, l.bytes), l.n), l.bit, l)
  {
    forall k | 0 <= k < l.n
      ensures BitOf(NumberAt(big, flag, mem, p + l.at, l.bytes), k) == PlaceBit(big, mem, p, l, k)
    {
      NumberBit(big, flag, mem, p, l, k);
    }
  }

  lemma ScalarFilled(big: bool, flag: Flag, mem: Bytes, p: nat, l: Place)
    requires Inside(mem, p, l) && l.signed == flag.INT?
    requires NumberInRange(flag, l.n, NumberAt(big, flag, mem, p + l.at, l.bytes))
    ensures Filled(big, mem, p, l)
  {
    var x := NumberAt(big, flag, mem, p + l.at, l.bytes);
    forall k: nat | k < 8 * l.bytes
      ensures BitOf(x, k) == PlaceBit(big, mem, p, l, k)
    {
      NumberBit(big, flag, mem, p, l, k);
    }
    NumberFilled(big, flag, mem, p, l, x);
  }

  lemma NumberFilled(big: bool, flag: Flag, mem: Bytes, p: nat, l: Place, x: int)
    requires Inside(mem, p, l) && l.signed == flag.INT? && NumberInRange(flag, l.n, x)
    requires forall k: nat :: k < 8 * l.bytes ==> BitOf(x, k) == PlaceBit(big, mem, p, l, k)
    ensures Filled(big, mem, p, l)
  {
    forall k | l.n <= k < 8 * l.bytes
      ensures PlaceBit(big, mem, p, l, k) == (l.signed && PlaceBit(big, mem, p, l, l.n - 1))
    {
      RangeBit(flag, l.n, x, k);
    }
  }

  lemma RangeBit(flag: Flag, n: nat, x: int, k: nat)
    requires 1 <= n <= k && NumberInRange(flag, n, x)
    ensures BitOf(x, k) == (flag.INT? && BitOf(x, n - 1))
  {
    if flag.INT? {
      SignBits(x, n - 1, k);
      SignBits(x, n - 1, n - 1);
    } else {
      SignBits(x, n, k);
    }
  }

  /** The wire form of what a struct holds shows the low bits of its C integers at their places. */
  lemma {:induction false} WireShows(big: bool, t: Type, mem: Bytes, p: nat, bit: nat, at: nat, l: Place, z: seq<bool>)
    requires WellFormed(t) && Fixed(t) && p + at + Size(t) <= |mem| && IsPlace(t, bit, at, l)
    requires z == WireBits(t, Read(big, t, mem, p + at))
    ensures Shows(big, mem, p, z, bit, l)
    decreases t, 0, 0
  {
    match t
    case Scalar(flag, n, b) => ScalarShows(big, flag, mem, p, l);
    case Alias(to) => WireShows(big, to, mem, p, bit, at, l, z);
    case Array(_, cap, e) =>
      assert z == ItemsBits(e, cap, ReadItems(big, e, cap, mem, p + at));
      ItemsShow(big, e, cap, mem, p, bit, at, l, z);
    case Message(_, _, size, fs) =>
      assert z == FieldsBits(fs, ReadFields(big, fs, mem, p + at));
      FieldsShow(big, fs, 0, size, mem, p, bit, at, l, z);
  }

  lemma {:induction false} ItemsShow(big: bool, e: Type, cap: nat, mem: Bytes, p: nat, bit: nat, at: nat, l: Place,
                                     z: seq<bool>)
    requires WellFormed(e) && Fixed(e) && p + at + Times(cap, Size(e)) <= |mem| && IsItemPlace(e, cap, bit, at, l)
    requires z == ItemsBits(e, cap, ReadItems(big, e, cap, mem, p + at))
    ensures Shows(big, mem, p, z, bit, l)
    decreases e, 1, cap
  {
    var next, nextBit := at + Size(e), bit + NBits(e);
    var v, rest := Read(big, e, mem, p + at), ReadItems(big, e, cap - 1, mem, p + next);
    if IsPlace(e, bit, at, l) {
      WireShows(big, e, mem, p, bit, at, l, WireBits(e, v));
    } else {
      ItemsShow(big, e, cap - 1, mem, p, nextBit, next, l, ItemsBits(e, cap - 1, rest));
    }
    OneItemShows(big, e, cap, v, rest, ReadItems(big, e, cap, mem, p + at), mem, p, bit, nextBit, l, z);
  }

  lemma OneItemShows(big: bool, e: Type, cap: nat, v: Value, rest: seq<Value>, vs: seq<Value>, mem: Bytes, p: nat,
                     bit: nat, nextBit: nat, l: Place, z: seq<bool>)
    requires cap > 0 && vs == [v] + rest && nextBit == bit + NBits(e) && z == ItemsBits(e, cap, vs)
    requires
      Shows(big, mem, p, WireBits(e, v), bit, l) || Shows(big, mem, p, ItemsBits(e, cap - 1, rest), nextBit, l)
    ensures Shows(big, mem, p, z, bit, l)
  {
    assert Head(vs) == v && Tail(vs) == rest;
    ShowsOne(big, mem, p, WireBits(e, v), ItemsBits(e, cap - 1, rest), z, bit, nextBit, l);
  }

  lemma {:induction false} FieldsShow(big: bool, fs: Fields, from: nat, to: nat, mem: Bytes, p: nat, bit: nat, at: nat,
                                      l: Place, z: seq<bool>)
    requires FieldsWellFormed(fs, from, to) && FieldsFixed(fs) && p + at + to <= |mem| && IsFieldPlace(fs, bit, at, l)
    requires z == FieldsBits(fs, ReadFields(big, fs, mem, p + at))
    ensures Shows(big, mem, p, z, bit, l)
    decreases fs, 0, 0
  {
    var t, next, nextBit := fs.typ, fs.offset + Size(fs.typ), bit + NBits(fs.typ);
    var v, rest := Read(big, t, mem, p + at + fs.offset), ReadFields(big, fs.rest, mem, p + at);
    var x, y := WireBits(t, v), FieldsBits(fs.rest, rest);
    FieldsEnd(fs.rest, next, to);
    if IsPlace(t, bit, at + fs.offset, l) {
      WireShows(big, t, mem, p, bit, at + fs.offset, l, x);
    } else {
      FieldsShow(big, fs.rest, next, to, mem, p, nextBit, at, l, y);
    }
    FirstField(fs, v, rest, ReadFields(big, fs, mem, p + at), x, y, z);
    ShowsOne(big, mem, p, x, y, z, bit, nextBit, l);
  }

  lemma FirstField(fs: Fields, v: Value, rest: seq<Value>, vs: seq<Value>, x: seq<bool>, y: seq<bool>, z: seq<bool>)
    requires fs.Next? && vs == [v] + rest
    requires x == WireBits(fs.typ, v) && y == FieldsBits(fs.rest, rest) && z == FieldsBits(fs, vs)
    ensures z == x + y
  {
    assert Head(vs) == v && Tail(vs) == rest;
  }

  /** The numbers of a value in range are filled with their signs. */
  lemma {:induction false} RangeFilled(big: bool, t: Type, mem: Bytes, p: nat, bit: nat, at: nat, l: Place)
    requires WellFormed(t) && p + at + Size(t) <= |mem| && InRange(t, Read(big, t, mem, p + at))
      && IsPlace(t, bit, at, l)
    ensures Filled(big, mem, p, l)
    decreases t, 0, 0
  {
    match t
    case Scalar(flag, n, b) => ScalarFilled(big, flag, mem, p, l);
    case Alias(to) => RangeFilled(big, to, mem, p, bit, at, l);
    case Array(_, cap, e) => ItemsFilled(big, e, cap, ReadItems(big, e, cap, mem, p + at), mem, p, bit, at, l);
    case Message(_, _, size, fs) => FieldsFilled(big, fs, 0, size, mem, p, bit, at, l);
  }

  lemma {:induction false} ItemsFilled(big: bool, e: Type, cap: nat, vs: seq<Value>, mem: Bytes, p: nat, bit: nat,
                                       at: nat, l: Place)
    requires WellFormed(e) && p + at + Times(cap, Size(e)) <= |mem| && IsItemPlace(e, cap, bit, at, l)
    requires vs == ReadItems(big, e, cap, mem, p + at) && forall k :: 0 <= k < |vs| ==> InRange(e, vs[k])
    ensures Filled(big, mem, p, l)
    decreases e, 1, cap
  {
    var next := at + Size(e);
    var rest := ReadItems(big, e, cap - 1, mem, p + next);
    RestInRange(e, vs, Read(big, e, mem, p + at), rest);
    if IsPlace(e, bit, at, l) {
      RangeFilled(big, e, mem, p, bit, at, l);
    } else {
      ItemsFilled(big, e, cap - 1, rest, mem, p, bit + NBits(e), next, l);
    }
  }

  lemma RestInRange(e: Type, vs: seq<Value>, v: Value, rest: seq<Value>)
    requires vs == [v] + rest && forall k :: 0 <= k < |vs| ==> InRange(e, vs[k])
    ensures InRange(e, v) && forall k :: 0 <= k < |rest| ==> InRange(e, rest[k])
  {
    assert vs[0] == v;
    forall k | 0 <= k < |rest|
      ensures InRange(e, rest[k])
    {
      assert rest[k] == vs[k + 1];
    }
  }

  lemma {:induction false} FieldsFilled(big: bool, fs: Fields, from: nat, to: nat, mem: Bytes, p: nat, bit: nat,
                                        at: nat, l: Place)
    requires FieldsWellFormed(fs, from, to) && p + at + to <= |mem| && IsFieldPlace(fs, bit, at, l)
    requires FieldsInRange(fs, ReadFields(big, fs, mem, p + at))
    ensures Filled(big, mem, p, l)
    decreases fs, 0, 0
  {
    var next := fs.offset + Size(fs.typ);
    var vs := ReadFields(big, fs, mem, p + at);
    assert vs[0] == Read(big, fs.typ, mem, p + at + fs.offset) && vs[1..] == ReadFields(big, fs.rest, mem, p + at);
    FieldsEnd(fs.rest, next, to);
    if IsPlace(fs.typ, bit, at + fs.offset, l) {
      RangeFilled(big, fs.typ, mem, p, bit, at + fs.offset, l);
    } else {
      FieldsFilled(big, fs.rest, next, to, mem, p, bit + NBits(fs.typ), at, l);
    }
  }

  // ----- Encoding and decoding -----

  /** Encoding puts the low bits of each C integer in its place, and nothing behind the last. */
  lemma SentPlace(t: Type, bits: nat, bytes: nat, big: bool, wire: Bytes, mem: Bytes, p: nat, l: Place)
    requires Described(t, bits, bytes) && bits <= 8 * |wire| && ClearFrom(wire, 0) && p + bytes <= |mem|
    requires IsPlace(t, 0, 0, l)
    ensures var sent := Sent(big, t, wire, 0, mem, p).wire;
      && |sent| == |wire| && ClearFrom(sent, bits) && Inside(mem, p, l)
      && forall k :: 0 <= k < l.n ==> PlaceBit(big, mem, p, l, k) == BitAt(sent, l.bit + k)
  {
    var x := WireBits(t, Read(big, t, mem, p));
    EncodeType(big, t, State(wire, mem, 0), p);
    AppendClear(wire, 0, x);
    WireShows(big, t, mem, p, 0, 0, l, x);
    PlaceSent(big, wire, x, mem, p, l);
  }

  lemma PlaceSent(big: bool, wire: Bytes, x: seq<bool>, mem: Bytes, p: nat, l: Place)
    requires |x| <= 8 * |wire| && Shows(big, mem, p, x, 0, l)
    ensures forall k :: 0 <= k < l.n ==> PlaceBit(big, mem, p, l, k) == BitAt(Append(wire, 0, x), l.bit + k)
  {
    forall k | 0 <= k < l.n
      ensures PlaceBit(big, mem, p, l, k) == BitAt(Append(wire, 0, x), l.bit + k)
    {
      AppendBit(wire, 0, x, l.bit + k);
      assert x[l.bit - 0 + k] == PlaceBit(big, mem, p, l, k);
    }
  }

  /** Decoding, whatever is on the wire, gives each C integer the bits of its place, and above them its
      sign. */
  lemma ReceivedPlace(t: Type, bits: nat, bytes: nat, big: bool, wire: Bytes, mem: Bytes, p: nat, l: Place)
    requires Described(t, bits, bytes) && bits <= 8 * |wire| && p + bytes <= |mem|
    requires big || Blank(mem, p, p + bytes)
    requires IsPlace(t, 0, 0, l)
    ensures var got := Received(big, t, wire, 0, mem, p).mem;
      && SameOutside(mem, got, p, p + bytes) && Inside(mem, p, l)
      && forall k :: 0 <= k < 8 * l.bytes ==>
          PlaceBit(big, got, p, l, k) == NumberBitAt(wire, l, k)
  {
    if big { AnyAccepts(big, t, mem, p); } else { BlankAccepts(big, t, mem, p); }
    AnyWire.Decoded(big, t, wire, 0, mem, p);
    var got := Received(big, t, wire, 0, mem, p).mem;
    var x := WireBits(t, Read(big, t, got, p));
    WireShows(big, t, got, p, 0, 0, l, x);
    RangeFilled(big, t, got, p, 0, 0, l);
    PlaceReceived(big, wire, x, got, p, l);
  }

  lemma PlaceReceived(big: bool, wire: Bytes, x: seq<bool>, mem: Bytes, p: nat, l: Place)
    requires IsSlice(x, wire, 0, |x|) && Shows(big, mem, p, x, 0, l) && Filled(big, mem, p, l)
    ensures forall k :: 0 <= k < 8 * l.bytes ==> PlaceBit(big, mem, p, l, k) == NumberBitAt(wire, l, k)
  {
    forall k | 0 <= k < l.n
      ensures PlaceBit(big, mem, p, l, k) == BitAt(wire, l.bit + k)
    {
      assert x[l.bit - 0 + k] == BitAt(wire, 0 + (l.bit + k));
    }
    assert PlaceBit(big, mem, p, l, l.n - 1) == BitAt(wire, l.bit + (l.n - 1));
  }
}
