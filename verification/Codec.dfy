/** What the bitproto walkers do to the wire, the struct and the cursor, for encoding and
    decoding, on little- and big-endian hosts (src/bitproto/bitproto.c, lines 85-283 and
    400-548). `Walk` follows the source: it goes through the same branches and moves bits by
    the same copies. What it amounts to is the subject of the RoundTrip module. */
module Codec {
  import opened Bits
  import opened CopyBits
  import opened Schema
  import opened Numbers

  /** The wire buffer, the memory that holds the structs, and the bit cursor ctx->i. */
  datatype State = State(wire: Bytes, mem: Bytes, i: nat)

  /** Host memory with the bytes a at p. */
  function Splice(mem: Bytes, p: nat, a: Bytes): (r: Bytes)
    ensures |r| == |mem|
  {
    if p + |a| <= |mem| then mem[..p] + a + mem[p + |a|..] else mem
  }

  /** Little-endian bytes in the order of the host, and back. */
  function Host(big: bool, a: Bytes): (r: Bytes)
    ensures |r| == |a|
  {
    if big then Reverse(a) else a
  }

  // ----- Base types -----

  /** BpEndecodeBaseType. On a big-endian host the field goes through 8 little-endian bytes. */
  ghost function Base(enc: bool, big: bool, n: nat, st: State, p: nat): (r: State)
    ensures r.i == st.i + n && |r.wire| == |st.wire| && |r.mem| == |st.mem|
    ensures enc ==> r.mem == st.mem
    ensures !enc ==> r.wire == st.wire
  {
    if enc then
      var src, at := if big then Stage(st.mem, p, n) else st.mem, if big then 0 else 8 * p;
      State(Copied(n, st.wire, src, st.i, at), st.mem, st.i + n)
    else if big then
      var le := Copied(n, Zeros(8), st.wire, 0, st.i);
      State(st.wire, Splice(st.mem, p, Reverse(le[..StorageSize(n)])), st.i + n)
    else
      State(st.wire, Copied(n, st.mem, st.wire, 8 * p, st.i), st.i + n)
  }

  /** The staging buffer: the n-bit integer at p in little-endian order, then zeros. */
  ghost function Stage(mem: Bytes, p: nat, n: nat): (le: Bytes)
    ensures |le| == 8
  {
    View(true, mem, p, StorageSize(n)) + Zeros(8 - StorageSize(n))
  }

  ghost predicate BaseFits(big: bool, n: nat, st: State, p: nat) {
    && st.i + n <= 8 * |st.wire|
    && (if big then n <= 64 && p + StorageSize(n) <= |st.mem| else 8 * p + n <= 8 * |st.mem|)
  }

  /** A little-endian integer with the bits from n on set if bit n - 1 is. */
  ghost function SignExtended(a: Bytes, n: nat): Bytes {
    Tabulate(|a|, k => BitAt(a, k) || (n <= k && BitAt(a, n - 1)))
  }

  /** BpHandleIntSignAfterEndecode. */
  ghost function Sign(enc: bool, big: bool, size: nat, n: nat, st: State, p: nat): (r: State)
    ensures r.i == st.i && r.wire == st.wire && |r.mem| == |st.mem|
  {
    if enc || StandardWidth(n) || !(size == 1 || size == 2 || size == 4 || size == 8) then st
    else st.(mem := Splice(st.mem, p, Host(big, SignExtended(View(big, st.mem, p, size), n))))
  }

  ghost predicate SignFits(enc: bool, size: nat, n: nat, st: State, p: nat) {
    enc || StandardWidth(n) || !(size == 1 || size == 2 || size == 4 || size == 8) || (1 <= n && p + size <= |st.mem|)
  }

  // ----- The 16-bit number ahead of extensible types -----

  ghost function EncodeAhead(big: bool, x: nat, st: State): (r: State)
    ensures r.i == st.i + 16 && |r.wire| == |st.wire| && r.mem == st.mem
  {
    var local := State(st.wire, Host(big, Unload(x, 2)), st.i);
    State(Base(true, big, 16, local, 0).wire, st.mem, st.i + 16)
  }

  ghost function DecodeAhead(big: bool, st: State): nat {
    var local := State(st.wire, [0, 0], st.i);
    Unsigned(View(big, Base(false, big, 16, local, 0).mem, 0, 2))
  }

  ghost function Ahead(enc: bool, big: bool, ext: bool, x: nat, st: State): (r: State)
    ensures r.i == st.i + Prefix(ext) && |r.wire| == |st.wire| && r.mem == st.mem
    ensures !enc ==> r.wire == st.wire
  {
    if !ext then st else if enc then EncodeAhead(big, x, st) else st.(i := st.i + 16)
  }

  /** Skip the redundant bits: the cursor moves to `to` unless it is past it. */
  function SkipTo(to: nat, st: State): State {
    if to >= st.i then st.(i := to) else st
  }

  // ----- Types -----

  predicate IsBaseInteger(t: Type) {
    t.Scalar? && !t.flag.BOOL?
  }

  /** The array is copied in one go: its elements are complete C integers, or aliases to them. */
  predicate Batched(big: bool, e: Type) {
    !big && StandardWidth(NBits(e)) && (IsBaseInteger(e) || (e.Alias? && IsBaseInteger(e.to)))
  }

  ghost function Walk(enc: bool, big: bool, t: Type, st: State, p: nat): (r: State)
    ensures |r.wire| == |st.wire| && |r.mem| == |st.mem| && st.i <= r.i
    ensures enc ==> r.mem == st.mem
    ensures !enc ==> r.wire == st.wire
    decreases t, 0, 0
  {
    match t
    case Scalar(flag, n, size) => WalkScalar(enc, big, flag, n, size, st, p)
    case Alias(to) => if Propagates(to) then Walk(enc, big, to, st, p) else st
    case Array(ext, cap, e) => WalkArray(enc, big, ext, cap, e, st, p)
    case Message(ext, nbits, _, fs) => WalkMessage(enc, big, ext, nbits, fs, st, p)
  }

  ghost function WalkScalar(enc: bool, big: bool, flag: Flag, n: nat, size: nat, st: State, p: nat): (r: State)
    ensures |r.wire| == |st.wire| && |r.mem| == |st.mem| && r.i == st.i + n
    ensures enc ==> r.mem == st.mem
    ensures !enc ==> r.wire == st.wire
  {
    var st1 := Base(enc, big, n, st, p);
    if flag.INT? then Sign(enc, big, size, n, st1, p) else st1
  }

  /** The types that the switch of BpEndecodeAlias has a case for. */
  predicate Propagates(to: Type) {
    (to.Scalar? && !to.flag.ENUM?) || to.Array?
  }

  ghost function WalkMessage(enc: bool, big: bool, ext: bool, nbits: nat, fs: Fields, st: State, p: nat): (r: State)
    ensures |r.wire| == |st.wire| && |r.mem| == |st.mem| && st.i <= r.i
    ensures enc ==> r.mem == st.mem
    ensures !enc ==> r.wire == st.wire
    decreases fs, 1, 0
  {
    var st1 := WalkFields(enc, big, fs, Ahead(enc, big, ext, nbits, st), p);
    if ext && !enc then SkipTo(st.i + DecodeAhead(big, st), st1) else st1
  }

  ghost function WalkArray(enc: bool, big: bool, ext: bool, cap: nat, e: Type, st: State, p: nat): (r: State)
    ensures |r.wire| == |st.wire| && |r.mem| == |st.mem| && st.i <= r.i
    ensures enc ==> r.mem == st.mem
    ensures !enc ==> r.wire == st.wire
    decreases e, 2, cap
  {
    var st1 := Ahead(enc, big, ext, cap, st);
    var st2 := if Batched(big, e) then Base(enc, big, Times(cap, NBits(e)), st1, p)
        else WalkItems(enc, big, e, cap, st1, p);
    if ext && !enc then SkipTo(st.i + Times(DecodeAhead(big, st), cap), st2) else st2
  }

  /** The element loop. An array that is directly an element matches no case of its switch. */
  ghost function WalkItems(enc: bool, big: bool, e: Type, cap: nat, st: State, p: nat): (r: State)
    ensures |r.wire| == |st.wire| && |r.mem| == |st.mem| && st.i <= r.i
    ensures enc ==> r.mem == st.mem
    ensures !enc ==> r.wire == st.wire
    decreases e, 1, cap
  {
    if cap == 0 then st
    else WalkItems(enc, big, e, cap - 1, if e.Array? then st else Walk(enc, big, e, st, p), p + Size(e))
  }

  ghost function WalkFields(enc: bool, big: bool, fs: Fields, st: State, p: nat): (r: State)
    ensures |r.wire| == |st.wire| && |r.mem| == |st.mem| && st.i <= r.i
    ensures enc ==> r.mem == st.mem
    ensures !enc ==> r.wire == st.wire
    decreases fs, 0, 0
  {
    if fs.End? then st
    else WalkFields(enc, big, fs.rest, Walk(enc, big, fs.typ, st, p + fs.offset), p)
  }

  // ----- What no case is for -----

  /** An alias to an enum, to a message or to another alias is passed over. */
  lemma AliasSkipped(enc: bool, big: bool, to: Type, st: State, p: nat)
    ensures to.Message? || to.Alias? || (to.Scalar? && to.flag.ENUM?) ==> Walk(enc, big, Alias(to), st, p) == st
  {
  }

  /** And so is an array that is directly an element of an array. */
  lemma {:induction false} NestedArraySkipped(enc: bool, big: bool, cap: nat, e: Type, n: nat, st: State, p: nat)
    requires e.Array?
    ensures Walk(enc, big, Array(false, n, e), st, p) == st
    decreases n
  {
    ItemsSkipped(enc, big, e, n, st, p);
  }

  lemma {:induction false} ItemsSkipped(enc: bool, big: bool, e: Type, n: nat, st: State, p: nat)
    requires e.Array?
    ensures WalkItems(enc, big, e, n, st, p) == st
    decreases n
  {
    if n > 0 { ItemsSkipped(enc, big, e, n - 1, st, p + Size(e)); }
  }

  // ----- When every access stays inside its buffer -----

  ghost predicate Fits(enc: bool, big: bool, t: Type, st: State, p: nat)
    decreases t, 0, 0
  {
    match t
    case Scalar(flag, n, size) => BaseFits(big, n, st, p) && (flag.INT? ==> SignFits(enc, size, n, st, p))
    case Alias(to) => Propagates(to) ==> Fits(enc, big, to, st, p)
    case Array(ext, cap, e) => ArrayFits(enc, big, ext, cap, e, st, p)
    case Message(ext, nbits, _, fs) => MessageFits(enc, big, ext, nbits, fs, st, p)
  }

  ghost predicate MessageFits(enc: bool, big: bool, ext: bool, nbits: nat, fs: Fields, st: State, p: nat)
    decreases fs, 1, 0
  {
    && (ext ==> st.i + 16 <= 8 * |st.wire|)
    && FieldsFit(enc, big, fs, Ahead(enc, big, ext, nbits, st), p)
  }

  ghost predicate ArrayFits(enc: bool, big: bool, ext: bool, cap: nat, e: Type, st: State, p: nat)
    decreases e, 2, cap
  {
    && (ext ==> st.i + 16 <= 8 * |st.wire|)
    && var st1 := Ahead(enc, big, ext, cap, st);
       if Batched(big, e) then BaseFits(big, Times(cap, NBits(e)), st1, p) else ItemsFit(enc, big, e, cap, st1, p)
  }

  ghost predicate ItemsFit(enc: bool, big: bool, e: Type, cap: nat, st: State, p: nat)
    decreases e, 1, cap
  {
    cap == 0 || e.Array?
    || (Fits(enc, big, e, st, p) && ItemsFit(enc, big, e, cap - 1, Walk(enc, big, e, st, p), p + Size(e)))
  }

  ghost predicate FieldsFit(enc: bool, big: bool, fs: Fields, st: State, p: nat)
    decreases fs, 0, 0
  {
    fs.End?
    || (Fits(enc, big, fs.typ, st, p + fs.offset)
        && FieldsFit(enc, big, fs.rest, Walk(enc, big, fs.typ, st, p + fs.offset), p))
  }
}
