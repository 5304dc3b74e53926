/** The walkers of src/bitproto/bitproto.c, running on a processor context, a wire buffer
    and the memory of the structs, each proved to do what `Codec.Walk` says. */
module Walker {
  import opened Bits
  import opened CopyBits
  import opened Schema
  import opened Numbers
  import opened Codec

  /** struct BpProcessorContext, with the byte order of the host. */
  class Context {
    const isEncode: bool
    const big: bool
    const s: array<byte>
    var i: nat

    constructor (isEncode: bool, big: bool, s: array<byte>)
      ensures this.isEncode == isEncode && this.big == big && this.s == s && i == 0
    {
      this.isEncode, this.big, this.s, this.i := isEncode, big, s, 0;
    }

    ghost function St(mem: array<byte>): State
      reads this, s, mem
    {
      State(s[..], mem[..], i)
    }
  }

  // ----- Base types -----

  method EndecodeBaseType(n: nat, ctx: Context, mem: array<byte>, p: nat)
    requires ctx.s != mem && BaseFits(ctx.big, n, ctx.St(mem), p)
    modifies ctx`i, ctx.s, mem
    ensures ctx.St(mem) == Base(ctx.isEncode, ctx.big, n, old(ctx.St(mem)), p)
  {
    if ctx.big {
      if ctx.isEncode {
        var le := StageFrom(mem, p, n);
        CopyBufferBits(false, n, ctx.s, 0, le, 0, ctx.i, 0);
      } else {
        var le := new byte[8](_ => 0);
        ZerosIs(le[..]);
        CopyBufferBits(false, n, le, 0, ctx.s, 0, 0, ctx.i);
        StageTo(mem, p, n, le);
      }
    } else if ctx.isEncode {
      CopyBufferBits(true, n, ctx.s, 0, mem, p, ctx.i, 0);
    } else {
      CopyBufferBits(true, n, mem, p, ctx.s, 0, 0, ctx.i);
    }
    ctx.i := ctx.i + n;
  }

  /** Native big-endian bytes to a little-endian staging buffer. */
  method StageFrom(mem: array<byte>, p: nat, n: nat) returns (le: array<byte>)
    requires p + StorageSize(n) <= mem.Length
    ensures fresh(le) && le[..] == Stage(mem[..], p, n)
  {
    var size := StorageSize(n);
    le := new byte[8](_ => 0);
    for k := 0 to size
      invariant forall j :: 0 <= j < 8 ==> le[j] == if j < k then mem[p + size - 1 - j] else 0
    {
      le[k] := mem[p + size - 1 - k];
    }
    StageIs(mem[..], p, n, le[..]);
  }

  /** Little-endian staging buffer to native big-endian bytes. */
  method StageTo(mem: array<byte>, p: nat, n: nat, le: array<byte>)
    requires le != mem && le.Length == 8 && p + StorageSize(n) <= mem.Length
    modifies mem
    ensures mem[..] == Splice(old(mem[..]), p, Reverse(le[..][..StorageSize(n)]))
  {
    var size := StorageSize(n);
    for k := 0 to size
      invariant forall q :: 0 <= q < mem.Length ==>
        mem[q] == if p + size - k <= q < p + size then le[p + size - 1 - q] else old(mem[..])[q]
    {
      mem[p + size - 1 - k] := le[k];
    }
    assert mem[..] == Splice(old(mem[..]), p, Reverse(le[..][..size]));
  }

  lemma StageIs(mem: Bytes, p: nat, n: nat, le: Bytes)
    requires |le| == 8 && p + StorageSize(n) <= |mem|
    requires forall j :: 0 <= j < 8 ==> le[j] == if j < StorageSize(n) then mem[p + StorageSize(n) - 1 - j] else 0
    ensures le == Stage(mem, p, n)
  {
    ZerosAre(8 - StorageSize(n));
  }

  lemma ZerosAre(n: nat)
    ensures forall k :: 0 <= k < n ==> Zeros(n)[k] == 0
  {
  }

  lemma ZerosIs(a: Bytes)
    requires forall k :: 0 <= k < |a| ==> a[k] == 0
    ensures a == Zeros(|a|)
  {
  }

  /** The sign extension of an n-bit integer held in a C integer of `size` bytes. */
  method HandleIntSignAfterEndecode(size: nat, n: nat, ctx: Context, mem: array<byte>, p: nat)
    requires ctx.s != mem && SignFits(ctx.isEncode, size, n, ctx.St(mem), p)
    modifies mem
    ensures ctx.St(mem) == Sign(ctx.isEncode, ctx.big, size, n, old(ctx.St(mem)), p)
  {
    if ctx.isEncode || StandardWidth(n) || !(size == 1 || size == 2 || size == 4 || size == 8) {
      return;
    }
    var view := View(ctx.big, mem[..], p, size);
    var bytes := SignExtend(view, n);
    WriteBytes(mem, p, Host(ctx.big, bytes));
    assert mem[..] == Splice(old(mem[..]), p, Host(ctx.big, bytes));
  }

  /** if (w & (1 << (n - 1))) w |= ~((1 << n) - 1); for the C integer with the given bytes. */
  method SignExtend(view: Bytes, n: nat) returns (bytes: Bytes)
    requires 1 <= n
    ensures bytes == SignExtended(view, n)
  {
    var w := LoadWord(view);
    var negative := IsSet(w, n - 1);
    assert negative == BitAt(view, n - 1);
    if negative {
      w := SetFrom(w, n, 8 * |view|);
    }
    bytes := UnloadWord(w, |view|);
    ExtendedIs(view, n, bytes);
  }

  lemma ExtendedIs(view: Bytes, n: nat, bytes: Bytes)
    requires |bytes| == |view|
    requires forall k: nat ::
               BitAt(bytes, k) == (k < 8 * |view| && (BitAt(view, k) || (BitAt(view, n - 1) && n <= k)))
    ensures bytes == SignExtended(view, n)
  {
    SameBytes(bytes, SignExtended(view, n));
  }

  /** w & (1 << k) */
  method IsSet(w: nat, k: nat) returns (b: bool)
    ensures b == BitOf(w, k)
  {
    TestBit(w, k);
    b := And(w, Shl(1, k)) != 0;
  }

  /** w | ~((1 << n) - 1) in a word of the given width. */
  method SetFrom(w: nat, n: nat, width: nat) returns (r: nat)
    ensures forall k: nat :: BitOf(r, k) == (BitOf(w, k) || n <= k < width)
  {
    var mask := Low(Not(Shl(1, n) - 1), width);
    r := Or(w, mask);
    forall k: nat
      ensures BitOf(Or(w, mask), k) == (BitOf(w, k) || n <= k < width)
    {
      OrBit(w, mask, k);
      UpperMaskBit(n, width, k);
    }
  }

  method EndecodeInt(size: nat, n: nat, ctx: Context, mem: array<byte>, p: nat)
    requires ctx.s != mem && BaseFits(ctx.big, n, ctx.St(mem), p) && SignFits(ctx.isEncode, size, n, ctx.St(mem), p)
    modifies ctx`i, ctx.s, mem
    ensures ctx.St(mem) == WalkScalar(ctx.isEncode, ctx.big, INT, n, size, old(ctx.St(mem)), p)
  {
    EndecodeBaseType(n, ctx, mem, p);
    HandleIntSignAfterEndecode(size, n, ctx, mem, p);
  }

  // ----- The 16-bit number ahead of extensible types -----

  method EncodeExtensibleAhead(x: nat, ctx: Context, ghost mem: array<byte>)
    requires ctx.s != mem && ctx.isEncode && ctx.i + 16 <= 8 * ctx.s.Length
    modifies ctx`i, ctx.s
    ensures ctx.St(mem) == EncodeAhead(ctx.big, x, old(ctx.St(mem)))
  {
    var bytes := Host(ctx.big, Unload(x, 2));
    var data := new byte[2](k requires 0 <= k < 2 => bytes[k]);
    assert data[..] == bytes;
    EndecodeBaseType(16, ctx, data, 0);
  }

  method DecodeExtensibleAhead(ctx: Context, ghost mem: array<byte>) returns (ahead: nat)
    requires ctx.s != mem && !ctx.isEncode && ctx.i + 16 <= 8 * ctx.s.Length
    modifies ctx`i, ctx.s
    ensures ctx.St(mem) == old(ctx.St(mem)).(i := old(ctx.i) + 16)
    ensures ahead == DecodeAhead(ctx.big, old(ctx.St(mem)))
  {
    var data := new byte[2](_ => 0);
    assert data[..] == [0, 0];
    EndecodeBaseType(16, ctx, data, 0);
    var view := View(ctx.big, data[..], 0, 2);
    LoadHolds(view);
    UnsignedIs(view, Load(view));
    ahead := Load(view);
  }

  // ----- Composite types -----

  method EndecodeMessage(t: Type, ctx: Context, mem: array<byte>, p: nat)
    requires t.Message? && ctx.s != mem && Fits(ctx.isEncode, ctx.big, t, ctx.St(mem), p)
    modifies ctx`i, ctx.s, mem
    ensures ctx.St(mem) == Walk(ctx.isEncode, ctx.big, t, old(ctx.St(mem)), p)
    decreases t, 0
  {
    var i, ahead := ctx.i, 0;
    if t.extensible {
      if ctx.isEncode {
        EncodeExtensibleAhead(t.nbits, ctx, mem);
      } else {
        ahead := DecodeExtensibleAhead(ctx, mem);
      }
    }
    ghost var st1 := ctx.St(mem);
    var fs := t.fields;
    while fs.Next?
      invariant fs == t.fields || fs < t.fields
      invariant FieldsFit(ctx.isEncode, ctx.big, fs, ctx.St(mem), p)
      invariant WalkFields(ctx.isEncode, ctx.big, fs, ctx.St(mem), p)
        == WalkFields(ctx.isEncode, ctx.big, t.fields, st1, p)
      decreases fs
    {
      EndecodeMessageField(fs.typ, ctx, mem, p + fs.offset);
      fs := fs.rest;
    }
    if t.extensible && !ctx.isEncode {
      var to := i + ahead;
      if to >= ctx.i {
        ctx.i := to;
      }
    }
  }

  method EndecodeMessageField(t: Type, ctx: Context, mem: array<byte>, p: nat)
    requires ctx.s != mem && Fits(ctx.isEncode, ctx.big, t, ctx.St(mem), p)
    modifies ctx`i, ctx.s, mem
    ensures ctx.St(mem) == Walk(ctx.isEncode, ctx.big, t, old(ctx.St(mem)), p)
    decreases t, 2
  {
    match t
    case Scalar(flag, n, size) =>
      if flag.INT? { EndecodeInt(size, n, ctx, mem, p); } else { EndecodeBaseType(n, ctx, mem, p); }
    case Alias(_) => Process(t, ctx, mem, p);
    case Array(_, _, _) => Process(t, ctx, mem, p);
    case Message(_, _, _, _) => Process(t, ctx, mem, p);
  }

  /** type.processor(data, ctx) */
  method Process(t: Type, ctx: Context, mem: array<byte>, p: nat)
    requires t.Alias? || t.Array? || t.Message?
    requires ctx.s != mem && Fits(ctx.isEncode, ctx.big, t, ctx.St(mem), p)
    modifies ctx`i, ctx.s, mem
    ensures ctx.St(mem) == Walk(ctx.isEncode, ctx.big, t, old(ctx.St(mem)), p)
    decreases t, 1
  {
    match t
    case Alias(_) => EndecodeAlias(t, ctx, mem, p);
    case Array(_, _, _) => EndecodeArray(t, ctx, mem, p);
    case Message(_, _, _, _) => EndecodeMessage(t, ctx, mem, p);
  }

  method EndecodeAlias(t: Type, ctx: Context, mem: array<byte>, p: nat)
    requires t.Alias? && ctx.s != mem && Fits(ctx.isEncode, ctx.big, t, ctx.St(mem), p)
    modifies ctx`i, ctx.s, mem
    ensures ctx.St(mem) == Walk(ctx.isEncode, ctx.big, t, old(ctx.St(mem)), p)
    decreases t, 0
  {
    match t.to
    case Scalar(flag, n, size) =>
      match flag {
        case BOOL => EndecodeBaseType(n, ctx, mem, p);
        case UINT => EndecodeBaseType(n, ctx, mem, p);
        case BYTE => EndecodeBaseType(n, ctx, mem, p);
        case INT => EndecodeInt(size, n, ctx, mem, p);
        case ENUM =>
      }
    case Array(_, _, _) => Process(t.to, ctx, mem, p);
    case _ =>
  }

  method EndecodeArray(t: Type, ctx: Context, mem: array<byte>, p: nat)
    requires t.Array? && ctx.s != mem && Fits(ctx.isEncode, ctx.big, t, ctx.St(mem), p)
    modifies ctx`i, ctx.s, mem
    ensures ctx.St(mem) == Walk(ctx.isEncode, ctx.big, t, old(ctx.St(mem)), p)
    decreases t, 0
  {
    var i, ahead := ctx.i, 0;
    if t.extensible {
      if ctx.isEncode {
        EncodeExtensibleAhead(t.cap, ctx, mem);
      } else {
        ahead := DecodeExtensibleAhead(ctx, mem);
      }
    }
    var cap, e := t.cap, t.element;
    if Batched(ctx.big, e) {
      TimesIs(cap, NBits(e));
      EndecodeBaseType(NBits(e) * cap, ctx, mem, p);
      if IsInt(e) || (e.Alias? && IsInt(e.to)) {
        SignItems(Size(e), NBits(e), cap, ctx, mem, p);
      }
    } else {
      EndecodeItems(e, cap, ctx, mem, p);
    }
    if t.extensible && !ctx.isEncode {
      TimesIs(ahead, t.cap);
      var to := i + ahead * t.cap;
      if to >= ctx.i {
        ctx.i := to;
      }
    }
  }

  predicate IsInt(t: Type) {
    t.Scalar? && t.flag.INT?
  }

  /** The sign loop after a batched copy; complete C integers need no sign extension. */
  method SignItems(size: nat, n: nat, cap: nat, ctx: Context, mem: array<byte>, p: nat)
    requires ctx.s != mem && StandardWidth(n)
    modifies mem
    ensures ctx.St(mem) == old(ctx.St(mem))
  {
    var q: nat := p;
    for k := 0 to cap
      invariant ctx.St(mem) == old(ctx.St(mem))
    {
      HandleIntSignAfterEndecode(size, n, ctx, mem, q);
      q := q + size;
    }
  }

  /** The element-by-element loop of an array. */
  method EndecodeItems(e: Type, cap: nat, ctx: Context, mem: array<byte>, p: nat)
    requires ctx.s != mem && ItemsFit(ctx.isEncode, ctx.big, e, cap, ctx.St(mem), p)
    modifies ctx`i, ctx.s, mem
    ensures ctx.St(mem) == WalkItems(ctx.isEncode, ctx.big, e, cap, old(ctx.St(mem)), p)
    decreases e, 4
  {
    var q: nat := p;
    for k := 0 to cap
      invariant ItemsFit(ctx.isEncode, ctx.big, e, cap - k, ctx.St(mem), q)
      invariant WalkItems(ctx.isEncode, ctx.big, e, cap - k, ctx.St(mem), q)
             == WalkItems(ctx.isEncode, ctx.big, e, cap, old(ctx.St(mem)), p)
    {
      EndecodeItem(e, ctx, mem, q);
      q := q + Size(e);
    }
  }

  /** The switch on the element type. */
  method EndecodeItem(e: Type, ctx: Context, mem: array<byte>, p: nat)
    requires ctx.s != mem && (e.Array? || Fits(ctx.isEncode, ctx.big, e, ctx.St(mem), p))
    modifies ctx`i, ctx.s, mem
    ensures ctx.St(mem) == if e.Array? then old(ctx.St(mem)) else Walk(ctx.isEncode, ctx.big, e, old(ctx.St(mem)), p)
    decreases e, 3
  {
    match e
    case Scalar(flag, n, size) =>
      if flag.INT? { EndecodeInt(size, n, ctx, mem, p); } else { EndecodeBaseType(n, ctx, mem, p); }
    case Alias(_) => Process(e, ctx, mem, p);
    case Message(_, _, _, _) => Process(e, ctx, mem, p);
    case Array(_, _, _) =>
  }
}
