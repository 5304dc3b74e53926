/** The bit copier of src/bitproto/bitproto.c, lines 292-398.

    `Copied` says what one call leaves in the destination, bit by bit and for every
    initial destination; `CopyBufferBits` is the loop of the source, with its five
    ways of copying, proved to leave exactly that in both of its builds. */
module CopyBits {
  import opened Bits

  // ----- What a copy leaves behind -----

  /** Byte q of the destination is assigned rather than OR-ed into: the copy reaches
      its first bit, and from there the bits still to copy, counted from the start
      of the source byte they begin in, fill a byte. */
  predicate Overwritten(q: int, n: nat, di: nat, si: nat) {
    di <= 8 * q < di + n && 8 <= (di + n - 8 * q) + (si + 8 * q - di) % 8
  }

  /** Bit p of the destination after n bits were copied from bit si of s to bit di of d. */
  predicate CopiedBit(n: nat, d: Bytes, s: Bytes, di: nat, si: nat, p: int) {
    (di <= p < di + n && BitAt(s, si + (p - di))) || (BitAt(d, p) && !Overwritten(p / 8, n, di, si))
  }

  ghost function Copied(n: nat, d: Bytes, s: Bytes, di: nat, si: nat): (r: Bytes)
    ensures |r| == |d|
    ensures forall p :: 0 <= p < 8 * |d| ==> BitAt(r, p) == CopiedBit(n, d, s, di, si, p)
  {
    Tabulate(|d|, p => CopiedBit(n, d, s, di, si, p))
  }

  /** The n bits from bit si of s stand at bit di; every other bit is as in d. */
  ghost predicate Placed(r: Bytes, n: nat, d: Bytes, s: Bytes, di: nat, si: nat) {
    && |r| == |d|
    && forall p :: 0 <= p < 8 * |d| ==> BitAt(r, p) == if di <= p < di + n then BitAt(s, si + (p - di)) else BitAt(d, p)
  }

  /** A copy just places its bits if the bytes it may assign are clear from di on, or if
      it starts and ends at byte boundaries. */
  lemma CopyPlaces(n: nat, d: Bytes, s: Bytes, di: nat, si: nat)
    requires (forall p :: di <= p && 8 * (p / 8) < di + n ==> !BitAt(d, p)) || (di % 8 == 0 && n % 8 == 0)
    ensures Placed(Copied(n, d, s, di, si), n, d, s, di, si)
  {
    var r := Copied(n, d, s, di, si);
    forall p | 0 <= p < 8 * |d|
      ensures BitAt(r, p) == if di <= p < di + n then BitAt(s, si + (p - di)) else BitAt(d, p)
    {
      assert BitAt(r, p) == CopiedBit(n, d, s, di, si, p);
      if di % 8 == 0 && n % 8 == 0 && di <= p < di + n { assert Overwritten(p / 8, n, di, si); }
    }
  }

  /** Placing m + n bits is placing m and then n. */
  lemma PlacedSplit(r: Bytes, r1: Bytes, r2: Bytes, m: nat, n: nat, d: Bytes, s: Bytes, di: nat, si: nat)
    requires Placed(r, m + n, d, s, di, si)
    requires Placed(r1, m, d, s, di, si) && Placed(r2, n, r1, s, di + m, si + m)
    ensures r == r2
  {
    SameBytes(r, r2);
  }

  /** The buffer a up to bit i, then the given bits, then zeros. */
  ghost function Append(a: Bytes, i: nat, bits: seq<bool>): (r: Bytes)
    ensures |r| == |a|
  {
    Tabulate(|a|, p => if p < i then BitAt(a, p) else p - i < |bits| && bits[p - i])
  }

  lemma AppendBit(a: Bytes, i: nat, bits: seq<bool>, p: int)
    ensures BitAt(Append(a, i, bits), p)
         == (0 <= p < 8 * |a| && if p < i then BitAt(a, p) else p - i < |bits| && bits[p - i])
  {
  }

  lemma AppendClear(a: Bytes, i: nat, bits: seq<bool>)
    ensures ClearFrom(Append(a, i, bits), i + |bits|)
  {
    forall p | i + |bits| <= p
      ensures !BitAt(Append(a, i, bits), p)
    {
      AppendBit(a, i, bits, p);
    }
  }

  lemma AppendSlice(a: Bytes, i: nat, bits: seq<bool>)
    requires i + |bits| <= 8 * |a|
    ensures Slice(Append(a, i, bits), i, |bits|) == bits
  {
    forall k | 0 <= k < |bits|
      ensures BitAt(Append(a, i, bits), i + k) == bits[k]
    {
      AppendBit(a, i, bits, i + k);
    }
  }

  lemma AppendNone(a: Bytes, i: nat)
    requires ClearFrom(a, i)
    ensures Append(a, i, []) == a
  {
    forall p | 0 <= p < 8 * |a|
      ensures BitAt(Append(a, i, []), p) == BitAt(a, p)
    {
      AppendBit(a, i, [], p);
    }
    SameBytes(Append(a, i, []), a);
  }

  lemma AppendBoth(a: Bytes, i: nat, x: seq<bool>, y: seq<bool>)
    ensures Append(Append(a, i, x), i + |x|, y) == Append(a, i, x + y)
  {
    var b, c := Append(a, i, x), Append(a, i, x + y);
    var d := Append(b, i + |x|, y);
    forall p | 0 <= p < 8 * |a|
      ensures BitAt(d, p) == BitAt(c, p)
    {
      AppendBit(a, i, x, p);
      AppendBit(b, i + |x|, y, p);
      AppendBit(a, i, x + y, p);
    }
    SameBytes(d, c);
  }

  /** Copying into a buffer that is clear from di on appends the copied bits. */
  lemma CopyAppends(n: nat, d: Bytes, s: Bytes, di: nat, si: nat)
    requires ClearFrom(d, di)
    ensures Copied(n, d, s, di, si) == Append(d, di, Slice(s, si, n))
  {
    var r, bits := Copied(n, d, s, di, si), Slice(s, si, n);
    CopyPlaces(n, d, s, di, si);
    forall p | 0 <= p < 8 * |d|
      ensures BitAt(r, p) == BitAt(Append(d, di, bits), p)
    {
      AppendBit(d, di, bits, p);
      if di <= p < di + n { assert bits[p - di] == BitAt(s, si + (p - di)); }
    }
    SameBytes(r, Append(d, di, bits));
  }

  /** Copying n + m bits at once is copying n and then m: into a clear destination, or
      between byte boundaries of the destination. */
  lemma CopySplit(n: nat, m: nat, d: Bytes, s: Bytes, di: nat, si: nat)
    requires ClearFrom(d, di) || (di % 8 == 0 && n % 8 == 0 && m % 8 == 0)
    ensures Copied(n + m, d, s, di, si) == Copied(m, Copied(n, d, s, di, si), s, di + n, si + n)
  {
    if ClearFrom(d, di) {
      CopyAppends(n + m, d, s, di, si);
      CopyAppends(n, d, s, di, si);
      AppendClear(d, di, Slice(s, si, n));
      CopyAppends(m, Append(d, di, Slice(s, si, n)), s, di + n, si + n);
      AppendBoth(d, di, Slice(s, si, n), Slice(s, si + n, m));
      SliceSplit(s, si, n, m);
    } else {
      CopySplitAligned(n, m, d, s, di, si);
    }
  }

  lemma CopySplitAligned(n: nat, m: nat, d: Bytes, s: Bytes, di: nat, si: nat)
    requires di % 8 == 0 && n % 8 == 0 && m % 8 == 0
    ensures Copied(n + m, d, s, di, si) == Copied(m, Copied(n, d, s, di, si), s, di + n, si + n)
  {
    var first := Copied(n, d, s, di, si);
    CopyWholeBytes(n + m, d, s, di, si);
    CopyWholeBytes(n, d, s, di, si);
    CopyWholeBytes(m, first, s, di + n, si + n);
    PlacedSplit(Copied(n + m, d, s, di, si), first, Copied(m, first, s, di + n, si + n), n, m, d, s, di, si);
  }

  lemma CopyWholeBytes(n: nat, d: Bytes, s: Bytes, di: nat, si: nat)
    requires di % 8 == 0 && n % 8 == 0
    ensures Placed(Copied(n, d, s, di, si), n, d, s, di, si)
  {
    CopyPlaces(n, d, s, di, si);
  }

  /** A copy touches no byte but those that hold an addressed bit. */
  lemma CopyTouches(n: nat, d: Bytes, s: Bytes, di: nat, si: nat, q: nat)
    requires q < |d|
    requires n == 0 || q < di / 8 || (di + n - 1) / 8 < q
    ensures Copied(n, d, s, di, si)[q] == d[q]
  {
    var r := Copied(n, d, s, di, si);
    Pow2Values();
    forall k | 0 <= k < 8
      ensures BitOf(r[q], k) == BitOf(d[q], k)
    {
      var p := 8 * q + k;
      assert BitAt(r, p) == CopiedBit(n, d, s, di, si, p);
      assert BitAt(d, p) == BitOf(d[q], k);
    }
    SameBits(r[q], d[q], 8);
  }

  /** A copy changes no bit before its destination, and sets none behind it; those behind it that
      it clears share a byte with its last bit. */
  lemma CopyOutside(n: nat, d: Bytes, s: Bytes, di: nat, si: nat, p: nat)
    requires p < di || di + n <= p
    ensures BitAt(Copied(n, d, s, di, si), p) ==> BitAt(d, p)
    ensures p < di || p / 8 != (di + n - 1) / 8 || n == 0 ==> BitAt(Copied(n, d, s, di, si), p) == BitAt(d, p)
  {
    var r := Copied(n, d, s, di, si);
    if p < 8 * |d| { assert BitAt(r, p) == CopiedBit(n, d, s, di, si, p); }
  }

  /** An old bit inside the copied range of a byte-aligned destination survives exactly
      when it is set and lies in the last, partial byte, and the partial byte does not
      need more than one source byte; every other bit is the source's. */
  lemma StaleBits(n: nat, d: Bytes, s: Bytes, dp: nat, si: nat, k: nat)
    requires k < n && 8 * dp + n <= 8 * |d|
    ensures BitAt(Copied(n, d, s, 8 * dp, si), 8 * dp + k)
      == (BitAt(s, si + k)
          || (BitAt(d, 8 * dp + k) && n % 8 != 0 && si % 8 + n % 8 < 8 && n / 8 <= k / 8))
  {
    var p, j := 8 * dp + k, k / 8;
    assert BitAt(Copied(n, d, s, 8 * dp, si), p) == CopiedBit(n, d, s, 8 * dp, si, p);
    assert p / 8 == dp + j;
    OverwrittenAligned(n, dp, si, j);
  }

  lemma OverwrittenAligned(n: nat, dp: nat, si: nat, j: nat)
    requires 8 * j < n
    ensures Overwritten(dp + j, n, 8 * dp, si) == !(n % 8 != 0 && si % 8 + n % 8 < 8 && n / 8 <= j)
  {
    assert si + 8 * (dp + j) - 8 * dp == si + 8 * j;
    assert (si + 8 * j) % 8 == si % 8;
  }

  // ----- One store of the loop -----

  /** w bytes from dp on hold the w bytes of s from sp on, shifted right by si bits;
      the other bytes are as before. */
  ghost predicate Stored(before: Bytes, after: Bytes, dp: nat, s: Bytes, sp: nat, si: nat, w: nat) {
    && |after| == |before|
    && forall p :: 0 <= p < 8 * |after| ==>
         BitAt(after, p) == if 8 * dp <= p < 8 * (dp + w)
                            then p - 8 * dp + si < 8 * w && BitAt(s, 8 * sp + si + (p - 8 * dp))
                            else BitAt(before, p)
  }

  /** ((uintW_t*)dst)[0] = ((uintW_t*)src)[0] >> si, for a little-endian word of w bytes. */
  method StoreShifted(dst: array<byte>, dp: nat, src: array<byte>, sp: nat, si: nat, w: nat)
    requires dst != src && dp + w <= dst.Length && sp + w <= src.Length
    modifies dst
    ensures Stored(old(dst[..]), dst[..], dp, src[..], sp, si, w)
  {
    var part := src[sp..sp + w];
    var bytes := ShiftWord(part, si);
    WriteBytes(dst, dp, bytes);
    forall k | 0 <= k < 8 * w
      ensures BitAt(bytes, k) == (k + si < 8 * w && BitAt(src[..], 8 * sp + si + k))
    {
      assert part == src[..][sp..sp + w];
      if k + si < 8 * w { PartBit(src[..], sp, w, k + si); }
    }
    StoredBits(old(dst[..]), dst[..], dp, src[..], sp, si, w, bytes);
  }

  method WriteBytes(dst: array<byte>, dp: nat, a: Bytes)
    requires dp + |a| <= dst.Length
    modifies dst
    ensures dst[..] == old(dst[..dp]) + a + old(dst[dp + |a|..])
  {
    forall j | 0 <= j < |a| {
      dst[dp + j] := a[j];
    }
  }

  lemma StoredBits(before: Bytes, after: Bytes, dp: nat, s: Bytes, sp: nat, si: nat, w: nat, bytes: Bytes)
    requires |bytes| == w && dp + w <= |before|
    requires after == before[..dp] + bytes + before[dp + w..]
    requires forall k :: 0 <= k < 8 * w ==> BitAt(bytes, k) == (k + si < 8 * w && BitAt(s, 8 * sp + si + k))
    ensures Stored(before, after, dp, s, sp, si, w)
  {
    assert after[dp..dp + w] == bytes;
    forall p | 0 <= p < 8 * |after|
      ensures BitAt(after, p) == if 8 * dp <= p < 8 * (dp + w)
                                 then p - 8 * dp + si < 8 * w && BitAt(s, 8 * sp + si + (p - 8 * dp))
                                 else BitAt(before, p)
    {
      if 8 * dp <= p < 8 * (dp + w) {
        PartBit(after, dp, w, p - 8 * dp);
      } else {
        assert after[p / 8] == before[p / 8];
      }
    }
  }

  /** A word is loaded, shifted to the right, and the bytes to store are taken from it. */
  method ShiftWord(part: Bytes, si: nat) returns (bytes: Bytes)
    ensures |bytes| == |part|
    ensures forall k :: 0 <= k < 8 * |part| ==> BitAt(bytes, k) == BitAt(part, k + si)
  {
    var w := LoadWord(part);
    w := ShiftRight(w, si);
    bytes := UnloadWord(w, |part|);
  }

  method LoadWord(a: Bytes) returns (w: nat)
    ensures w == Load(a) && forall k: nat :: BitOf(w, k) == BitAt(a, k)
  {
    w := Load(a);
    forall k: nat
      ensures BitOf(Load(a), k) == BitAt(a, k)
    {
      LoadBit(a, k);
    }
  }

  method ShiftRight(w: nat, s: nat) returns (r: nat)
    ensures r == Shr(w, s) && forall k: nat :: BitOf(r, k) == BitOf(w, k + s)
  {
    r := Shr(w, s);
    forall k: nat
      ensures BitOf(Shr(w, s), k) == BitOf(w, k + s)
    {
      ShrBit(w, s, k);
    }
  }

  method UnloadWord(w: nat, n: nat) returns (a: Bytes)
    ensures a == Unload(w, n) && forall k: nat :: BitAt(a, k) == (k < 8 * n && BitOf(w, k))
  {
    a := Unload(w, n);
    forall k: nat
      ensures BitAt(Unload(w, n), k) == (k < 8 * n && BitOf(w, k))
    {
      UnloadBit(w, n, k);
    }
  }

  lemma PartBit(s: Bytes, sp: nat, w: nat, k: int)
    requires sp + w <= |s| && k < 8 * w
    ensures BitAt(s[sp..sp + w], k) == (0 <= k && BitAt(s, 8 * sp + k))
  {
    if 0 <= k {
      assert (8 * sp + k) / 8 == sp + k / 8 && (8 * sp + k) % 8 == k % 8;
    }
  }

  /** c bits of the source byte are OR-ed into the destination byte at bit di. */
  ghost predicate OredIn(before: Bytes, after: Bytes, dp: nat, di: nat, s: Bytes, sp: nat, si: nat, c: nat) {
    && |after| == |before|
    && forall p :: 0 <= p < 8 * |after| ==>
         BitAt(after, p) == (BitAt(before, p)
                             || (8 * dp + di <= p < 8 * dp + di + c && BitAt(s, 8 * sp + si + (p - 8 * dp - di))))
  }

  /** ((ch >> si) << di) & ~((0xff << di) << c) */
  function Masked(ch: byte, di: nat, si: nat, c: nat): nat {
    And(Shl(Shr(ch, si), di), Not(Shl(Shl(0xff, di), c)))
  }

  lemma MaskBit(ones: nat, di: nat, c: nat, k: nat)
    requires forall j :: 0 <= j < 8 ==> BitOf(ones, j)
    requires k < 8
    ensures BitOf(Not(Shl(Shl(ones, di), c)), k) == (k < di + c)
  {
    NotBit(Shl(Shl(ones, di), c), k);
    ShlBit(Shl(ones, di), c, k);
    if c <= k { ShlBit(ones, di, k - c); }
  }

  lemma ShiftedBit(ch: byte, di: nat, si: nat, k: nat)
    ensures BitOf(Shl(Shr(ch, si), di), k) == (di <= k && BitOf(ch, k - di + si))
  {
    ShlBit(Shr(ch, si), di, k);
    if di <= k { ShrBit(ch, si, k - di); }
  }

  lemma MaskedBit(ch: byte, di: nat, si: nat, c: nat, k: nat)
    requires di + c <= 8 && si + c <= 8 && k < 8
    ensures BitOf(Masked(ch, di, si, c), k) == (di <= k < di + c && BitOf(ch, k - di + si))
  {
    forall j | 0 <= j < 8
      ensures BitOf(0xff, j)
    {
      Pow2Values();
      OnesBit(8, j);
    }
    AndBit(Shl(Shr(ch, si), di), Not(Shl(Shl(0xff, di), c)), k);
    ShiftedBit(ch, di, si, k);
    MaskBit(0xff, di, c, k);
  }

  /** What dst[0] |= ... stores. */
  method OrByte(x: byte, ch: byte, di: nat, si: nat, c: nat) returns (y: byte)
    requires di + c <= 8 && si + c <= 8
    ensures forall k :: 0 <= k < 8 ==> BitOf(y, k) == (BitOf(x, k) || (di <= k < di + c && BitOf(ch, k - di + si)))
  {
    y := LowByte(Or(x, Masked(ch, di, si, c)));
    forall k | 0 <= k < 8
      ensures BitOf(y, k) == (BitOf(x, k) || (di <= k < di + c && BitOf(ch, k - di + si)))
    {
      OrBit(x, Masked(ch, di, si, c), k);
      MaskedBit(ch, di, si, c, k);
    }
  }

  /** dst[0] |= ..., skipped for an empty source byte when the destination is not aligned. */
  method OrInto(dst: array<byte>, dp: nat, di: nat, src: array<byte>, sp: nat, si: nat, c: nat)
    requires dst != src && dp < dst.Length && sp < src.Length
    requires di + c <= 8 && si + c <= 8
    modifies dst
    ensures OredIn(old(dst[..]), dst[..], dp, di, src[..], sp, si, c)
  {
    var ch := src[sp];
    if di == 0 || ch != 0 {
      dst[dp] := OrByte(dst[dp], ch, di, si, c);
    }
    forall p | 8 * dp <= p < 8 * dp + 8
      ensures BitAt(dst[..], p) == (BitAt(old(dst[..]), p)
               || (8 * dp + di <= p < 8 * dp + di + c && BitAt(src[..], 8 * sp + si + (p - 8 * dp - di))))
    {
      if 8 * dp + di <= p < 8 * dp + di + c { ZeroBit(p - 8 * dp - di + si); }
    }
  }

  // ----- The loop -----

  /** Bit p of the destination when the copy has reached destination bit g. */
  ghost predicate PartialBit(n: nat, d: Bytes, s: Bytes, di: nat, si: nat, g: int, p: int) {
    (di <= p < g && BitAt(s, si + (p - di))) || (BitAt(d, p) && !(8 * (p / 8) < g && Overwritten(p / 8, n, di, si)))
  }

  ghost predicate Partial(n: nat, d: Bytes, s: Bytes, di: nat, si: nat, g: int, now: Bytes) {
    |now| == |d| && forall p :: 0 <= p < 8 * |d| ==> BitAt(now, p) == PartialBit(n, d, s, di, si, g, p)
  }

  /** One iteration at the start of a destination byte: c bits are copied. */
  method CopyAligned(words: bool, n: nat, dst: array<byte>, dp: nat, src: array<byte>, sp: nat, si: nat,
                     ghost N: nat, ghost d: Bytes, ghost D: nat, ghost S: nat)
    returns (c: nat)
    requires dst != src && si < 8 && 0 < n <= N
    requires 8 * dp == D + N - n && 8 * sp + si == S + N - n && D + N <= 8 * |d| && S + N <= 8 * src.Length
    requires Partial(N, d, src[..], D, S, 8 * dp, dst[..])
    modifies dst
    ensures 0 < c <= n && Partial(N, d, src[..], D, S, 8 * dp + c, dst[..])
  {
    ghost var before := dst[..];
    var bits := n + si;
    if words && bits >= 32 {
      StoreShifted(dst, dp, src, sp, si, 4);
      Assigned(N, d, src[..], D, S, 8 * dp, before, dst[..], dp, sp, si, 4);
      c := 32 - si;
    } else if words && bits >= 16 {
      StoreShifted(dst, dp, src, sp, si, 2);
      Assigned(N, d, src[..], D, S, 8 * dp, before, dst[..], dp, sp, si, 2);
      c := 16 - si;
    } else if bits >= 8 {
      StoreShifted(dst, dp, src, sp, si, 1);
      Assigned(N, d, src[..], D, S, 8 * dp, before, dst[..], dp, sp, si, 1);
      c := 8 - si;
    } else {
      c := Min(8 - si, n);
      OrInto(dst, dp, 0, src, sp, si, c);
      Merged(N, d, src[..], D, S, 8 * dp, before, dst[..], dp, 0, sp, si, c);
    }
  }

  /** Pointers are an array and a byte offset into it; `di` and `si` count bits from there.
      `words` says whether the build has the native-endian word copies. */
  method CopyBufferBits(words: bool, n: nat, dst: array<byte>, dp: nat, src: array<byte>, sp: nat, di: nat, si: nat)
    requires dst != src
    requires 8 * dp + di + n <= 8 * dst.Length && 8 * sp + si + n <= 8 * src.Length
    modifies dst
    ensures dst[..] == Copied(n, old(dst[..]), src[..], 8 * dp + di, 8 * sp + si)
  {
    ghost var d, s, D, S := dst[..], src[..], 8 * dp + di, 8 * sp + si;
    var n', d', s', di', si' := n, dp, sp, di, si;
    while n' != 0
      invariant 0 <= n' <= n && 0 <= d' && 0 <= s' && 0 <= di' && 0 <= si'
      invariant 8 * d' + di' == D + n - n' && 8 * s' + si' == S + n - n'
      invariant src[..] == s
      invariant Partial(n, d, s, D, S, D + n - n', dst[..])
      decreases n'
    {
      d', s' := d' + di' / 8, s' + si' / 8;
      di', si' := di' % 8, si' % 8;
      var c;
      if di' == 0 {
        c := CopyAligned(words, n', dst, d', src, s', si', n, d, D, S);
      } else {
        ghost var before := dst[..];
        c := MinTriple(8 - di', 8 - si', n');
        OrInto(dst, d', di', src, s', si', c);
        Merged(n, d, s, D, S, D + n - n', before, dst[..], d', di', s', si', c);
      }
      n', di', si' := n' - c, di' + c, si' + c;
    }
    Finished(n, d, s, D, S, dst[..]);
  }

  function Min(a: nat, b: nat): nat {
    if a < b then a else b
  }

  function MinTriple(a: nat, b: nat, c: nat): nat {
    if a < b then (if a < c then a else c) else (if b < c then b else c)
  }

  lemma Finished(n: nat, d: Bytes, s: Bytes, D: nat, S: nat, now: Bytes)
    requires Partial(n, d, s, D, S, D + n, now)
    ensures now == Copied(n, d, s, D, S)
  {
    forall p | 0 <= p < 8 * |d|
      ensures BitAt(now, p) == BitAt(Copied(n, d, s, D, S), p)
    {
      assert BitAt(now, p) == PartialBit(n, d, s, D, S, D + n, p);
    }
    SameBytes(now, Copied(n, d, s, D, S));
  }

  /** w bytes assigned at an aligned destination bring the copy forward by 8 * w - si bits. */
  lemma Assigned(n: nat, d: Bytes, s: Bytes, D: nat, S: nat, g: nat, before: Bytes, after: Bytes,
                 dp: nat, sp: nat, si: nat, w: nat)
    requires Partial(n, d, s, D, S, g, before)
    requires D <= g < D + n && g == 8 * dp && S + (g - D) == 8 * sp + si && si < 8
    requires 1 <= w && 8 * w <= (D + n - g) + si
    requires Stored(before, after, dp, s, sp, si, w)
    ensures Partial(n, d, s, D, S, g + 8 * w - si, after)
  {
    forall p | 0 <= p < 8 * |d|
      ensures BitAt(after, p) == PartialBit(n, d, s, D, S, g + 8 * w - si, p)
    {
      assert BitAt(before, p) == PartialBit(n, d, s, D, S, g, p);
      if dp <= p / 8 < dp + w { AssignedByte(n, D, S, g, dp, sp, si, w, p / 8); }
    }
  }

  lemma AssignedByte(n: nat, D: nat, S: nat, g: nat, dp: nat, sp: nat, si: nat, w: nat, q: nat)
    requires D <= g < D + n && g == 8 * dp && S + (g - D) == 8 * sp + si && si < 8
    requires 8 * w <= (D + n - g) + si && dp <= q < dp + w
    ensures Overwritten(q, n, D, S)
  {
    assert S + 8 * q - D == 8 * (sp + (q - dp)) + si;
  }

  /** c bits OR-ed into one byte bring the copy forward by c bits. */
  lemma Merged(n: nat, d: Bytes, s: Bytes, D: nat, S: nat, g: nat, before: Bytes, after: Bytes,
               dp: nat, di: nat, sp: nat, si: nat, c: nat)
    requires Partial(n, d, s, D, S, g, before)
    requires D <= g && g + c <= D + n && g == 8 * dp + di && S + (g - D) == 8 * sp + si && si < 8 && di < 8
    requires di + c <= 8 && 1 <= c
    requires di == 0 ==> (D + n - g) + si < 8
    requires OredIn(before, after, dp, di, s, sp, si, c)
    ensures Partial(n, d, s, D, S, g + c, after)
  {
    forall p | 0 <= p < 8 * |d|
      ensures BitAt(after, p) == PartialBit(n, d, s, D, S, g + c, p)
    {
      var q := p / 8;
      assert BitAt(before, p) == PartialBit(n, d, s, D, S, g, p);
      if q == dp && di == 0 {
        assert S + 8 * q - D == 8 * sp + si;
        assert !Overwritten(q, n, D, S);
      }
    }
  }
}
