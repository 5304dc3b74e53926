/** bitproto types, the values they hold, and what a value looks like on the wire.

    A `Type` is the tree of descriptors that the generated processors build: where a
    BpType holds a processor function, the tree holds the type that processor describes. */
module Schema {
  import opened Bits
  import opened Numbers

  /** The flags of the types that are C scalars. */
  datatype Flag = BOOL | INT | UINT | BYTE | ENUM

  datatype Type =
    | Scalar(flag: Flag, bits: nat, bytes: nat)
    | Alias(to: Type)
    | Array(extensible: bool, cap: nat, element: Type)
    | Message(extensible: bool, nbits: nat, size: nat, fields: Fields)

  /** The fields of a message in order: the offset of each in the struct, and its type. */
  datatype Fields = End | Next(offset: nat, typ: Type, rest: Fields)

  /** Number of bits on the wire. */
  function NBits(t: Type): nat
    decreases t, 0
  {
    match t
    case Scalar(_, n, _) => n
    case Alias(to) => NBits(to)
    case Array(ext, cap, e) => Prefix(ext) + Times(cap, NBits(e))
    case Message(ext, _, _, fs) => Prefix(ext) + FieldsNBits(fs)
  }

  function FieldsNBits(fs: Fields): nat
    decreases fs, 0
  {
    if fs.End? then 0 else NBits(fs.typ) + FieldsNBits(fs.rest)
  }

  /** An extensible array or message is preceded by a 16-bit number. */
  function Prefix(ext: bool): nat {
    if ext then 16 else 0
  }

  /** Number of bytes in memory. */
  function Size(t: Type): nat {
    match t
    case Scalar(_, _, b) => b
    case Alias(to) => Size(to)
    case Array(_, cap, e) => Times(cap, Size(e))
    case Message(_, _, size, _) => size
  }

  /** The bytes a base integer of n bits occupies. */
  function StorageSize(n: nat): nat {
    if n <= 8 then 1 else if n <= 16 then 2 else if n <= 32 then 4 else 8
  }

  predicate StandardWidth(n: nat) {
    n == 8 || n == 16 || n == 32 || n == 64
  }

  // ----- Well-formed types: what the bitproto compiler generates -----

  ghost predicate WellFormed(t: Type)
    decreases t, 0
  {
    match t
    case Scalar(flag, n, b) => 1 <= n <= 64 && b == StorageSize(n) && (flag.BOOL? ==> n == 1) && (flag.BYTE? ==> n == 8)
    case Alias(to) => ((to.Scalar? && !to.flag.ENUM?) || to.Array?) && WellFormed(to)
    case Array(_, cap, e) => cap < 0x1_0000 && !e.Array? && WellFormed(e)
    case Message(_, nbits, size, fs) => nbits < 0x1_0000 && FieldsWellFormed(fs, 0, size)
  }

  /** The fields lie one after the other between the offsets `from` and `to`. */
  ghost predicate FieldsWellFormed(fs: Fields, from: nat, to: nat)
    decreases fs, 0
  {
    if fs.End? then from <= to
    else
      && from <= fs.offset
      && WellFormed(fs.typ)
      && FieldsWellFormed(fs.rest, fs.offset + Size(fs.typ), to)
  }

  // ----- Values -----

  datatype Value = Num(n: int) | List(items: seq<Value>)

  // A value of the wrong shape is read as if the missing parts were zero.

  function AsNum(v: Value): int {
    if v.Num? then v.n else 0
  }

  function AsList(v: Value): seq<Value> {
    if v.List? then v.items else []
  }

  function Head(vs: seq<Value>): Value {
    if vs == [] then Num(0) else vs[0]
  }

  function Tail(vs: seq<Value>): seq<Value> {
    if vs == [] then [] else vs[1..]
  }

  /** v has the shape of t and every number in it is in the range of its type. */
  ghost predicate InRange(t: Type, v: Value)
    decreases t, 0, 0
  {
    match t
    case Scalar(flag, n, _) => v.Num? && NumberInRange(flag, n, v.n)
    case Alias(to) => InRange(to, v)
    case Array(_, cap, e) => v.List? && |v.items| == cap && forall k :: 0 <= k < cap ==> InRange(e, v.items[k])
    case Message(_, _, _, fs) => v.List? && FieldsInRange(fs, v.items)
  }

  ghost predicate NumberInRange(flag: Flag, n: nat, x: int) {
    if flag.INT? then n > 0 && -(Pow2(n - 1) as int) <= x < Pow2(n - 1) else 0 <= x < Pow2(n)
  }

  ghost predicate FieldsInRange(fs: Fields, vs: seq<Value>)
    decreases fs, 0, 0
  {
    if fs.End? then vs == [] else vs != [] && InRange(fs.typ, vs[0]) && FieldsInRange(fs.rest, vs[1..])
  }

  // ----- The wire -----

  ghost function PrefixBits(ext: bool, x: nat): (r: seq<bool>)
    ensures |r| == Prefix(ext)
  {
    if ext then BitString(x, 16) else []
  }

  /** The wire form of a value: the low bits of its numbers, in order. */
  ghost function WireBits(t: Type, v: Value): (r: seq<bool>)
    ensures |r| == NBits(t)
    decreases t, 0, 0
  {
    match t
    case Scalar(_, n, _) => BitString(AsNum(v), n)
    case Alias(to) => WireBits(to, v)
    case Array(ext, cap, e) => PrefixBits(ext, cap) + ItemsBits(e, cap, AsList(v))
    case Message(ext, nbits, _, fs) => PrefixBits(ext, nbits) + FieldsBits(fs, AsList(v))
  }

  ghost function ItemsBits(e: Type, cap: nat, vs: seq<Value>): (r: seq<bool>)
    ensures |r| == Times(cap, NBits(e))
    decreases e, 1, cap
  {
    if cap == 0 then [] else WireBits(e, Head(vs)) + ItemsBits(e, cap - 1, Tail(vs))
  }

  ghost function FieldsBits(fs: Fields, vs: seq<Value>): (r: seq<bool>)
    ensures |r| == FieldsNBits(fs)
    decreases fs, 0, 0
  {
    if fs.End? then [] else WireBits(fs.typ, Head(vs)) + FieldsBits(fs.rest, Tail(vs))
  }

  // ----- Values in memory -----

  function Reverse(a: Bytes): (r: Bytes)
    ensures |r| == |a|
    ensures forall k :: 0 <= k < |a| ==> r[k] == a[|a| - 1 - k]
  {
    seq(|a|, k requires 0 <= k < |a| => a[|a| - 1 - k])
  }

  /** The little-endian view of `size` bytes at p in the memory of a little- or big-endian host. */
  function View(big: bool, mem: Bytes, p: nat, size: nat): (r: Bytes)
    ensures |r| == size
  {
    if p + size > |mem| then seq(size, _ => 0)
    else if big then Reverse(mem[p..p + size]) else mem[p..p + size]
  }

  /** The C integer of `size` bytes that a host's memory holds at p. */
  ghost function NumberAt(big: bool, flag: Flag, mem: Bytes, p: nat, size: nat): int {
    var a := View(big, mem, p, size);
    if flag.INT? && size > 0 then Signed(a) else Unsigned(a)
  }

  /** The value of type t that a host's memory holds at p. */
  ghost function Read(big: bool, t: Type, mem: Bytes, p: nat): Value
    decreases t, 0, 0
  {
    match t
    case Scalar(flag, _, b) => Num(NumberAt(big, flag, mem, p, b))
    case Alias(to) => Read(big, to, mem, p)
    case Array(_, cap, e) => List(ReadItems(big, e, cap, mem, p))
    case Message(_, _, _, fs) => List(ReadFields(big, fs, mem, p))
  }

  ghost function ReadItems(big: bool, e: Type, cap: nat, mem: Bytes, p: nat): (vs: seq<Value>)
    ensures |vs| == cap
    decreases e, 1, cap
  {
    if cap == 0 then [] else [Read(big, e, mem, p)] + ReadItems(big, e, cap - 1, mem, p + Size(e))
  }

  ghost function ReadFields(big: bool, fs: Fields, mem: Bytes, p: nat): (vs: seq<Value>)
    decreases fs, 0, 0
  {
    if fs.End? then [] else [Read(big, fs.typ, mem, p + fs.offset)] + ReadFields(big, fs.rest, mem, p)
  }

  ghost predicate Agree(a: Bytes, b: Bytes, i: int, j: int) {
    |a| == |b| && forall q :: 0 <= q < |a| && i <= q < j ==> a[q] == b[q]
  }

  /** What is read depends only on the bytes of the type. */
  lemma {:induction false} ReadAgrees(big: bool, t: Type, a: Bytes, b: Bytes, p: nat)
    requires WellFormed(t) && Agree(a, b, p, p + Size(t))
    ensures Read(big, t, a, p) == Read(big, t, b, p)
    decreases t, 0, 0
  {
    match t
    case Scalar(_, _, size) => ViewAgrees(big, a, b, p, size);
    case Alias(to) => ReadAgrees(big, to, a, b, p);
    case Array(_, cap, e) => ReadItemsAgree(big, e, cap, a, b, p);
    case Message(_, _, size, fs) => ReadFieldsAgree(big, fs, 0, size, a, b, p);
  }

  lemma ViewAgrees(big: bool, a: Bytes, b: Bytes, p: nat, size: nat)
    requires Agree(a, b, p, p + size)
    ensures View(big, a, p, size) == View(big, b, p, size)
  {
    if p + size <= |a| { assert a[p..p + size] == b[p..p + size]; }
  }

  lemma {:induction false} ReadItemsAgree(big: bool, e: Type, cap: nat, a: Bytes, b: Bytes, p: nat)
    requires WellFormed(e) && Agree(a, b, p, p + Times(cap, Size(e)))
    ensures ReadItems(big, e, cap, a, p) == ReadItems(big, e, cap, b, p)
    decreases e, 1, cap
  {
    if cap > 0 {
      ReadAgrees(big, e, a, b, p);
      ReadItemsAgree(big, e, cap - 1, a, b, p + Size(e));
    }
  }

  lemma {:induction false} ReadFieldsAgree(big: bool, fs: Fields, from: nat, to: nat, a: Bytes, b: Bytes, p: nat)
    requires FieldsWellFormed(fs, from, to) && Agree(a, b, p + from, p + to)
    ensures ReadFields(big, fs, a, p) == ReadFields(big, fs, b, p)
    decreases fs, 0, 0
  {
    if fs.Next? {
      var next := fs.offset + Size(fs.typ);
      FieldsEnd(fs.rest, next, to);
      ReadAgrees(big, fs.typ, a, b, p + fs.offset);
      ReadFieldsAgree(big, fs.rest, next, to, a, b, p);
    }
  }

  lemma {:induction false} FieldsEnd(fs: Fields, from: nat, to: nat)
    requires FieldsWellFormed(fs, from, to)
    ensures from <= to
    decreases fs
  {
    if fs.Next? { FieldsEnd(fs.rest, fs.offset + Size(fs.typ), to); }
  }
}
