/** Bits of integers and of byte buffers.

    C promotes bytes and words to integers before it computes on them, so a word is an
    integer here and `BitOf` reads its bits in two's complement, for negative numbers too.
    A buffer is a sequence of bytes read as one long string of bits: bit p of a buffer is
    bit p % 8 (least significant first) of byte p / 8. */
module Bits {

  type byte = x: int | 0 <= x < 256
  type Bytes = seq<byte>

  function Pow2(n: nat): (r: nat)
    ensures r > 0
  {
    if n == 0 then 1 else 2 * Pow2(n - 1)
  }

  /** n * x, added up, which keeps multiplication out of the proofs about arrays. */
  function Times(n: nat, x: nat): nat {
    if n == 0 then 0 else x + Times(n - 1, x)
  }

  lemma {:induction false} TimesIs(n: nat, x: nat)
    ensures Times(n, x) == n * x
  {
    if n > 0 {
      TimesIs(n - 1, x);
      assert n * x == x + (n - 1) * x;
    }
  }

  lemma {:induction false} TimesEight(n: nat, x: nat)
    ensures Times(n, 8 * x) == 8 * Times(n, x)
  {
    if n > 0 { TimesEight(n - 1, x); }
  }

  lemma {:induction false} TimesMore(m: nat, n: nat, x: nat)
    requires m <= n
    ensures Times(m, x) <= Times(n, x)
  {
    if m > 0 { TimesMore(m - 1, n - 1, x); }
  }

  lemma Pow2Values()
    ensures Pow2(1) == 2 && Pow2(2) == 4 && Pow2(3) == 8 && Pow2(4) == 16 && Pow2(7) == 128 && Pow2(8) == 0x100
    ensures Pow2(15) == 0x8000 && Pow2(16) == 0x1_0000 && Pow2(31) == 0x8000_0000 && Pow2(32) == 0x1_0000_0000
    ensures Pow2(63) == 0x8000_0000_0000_0000 && Pow2(64) == 0x1_0000_0000_0000_0000
  {
    assert Pow2(8) == 16 * Pow2(4);
    assert Pow2(12) == 16 * Pow2(8);
    assert Pow2(16) == 16 * Pow2(12);
    assert Pow2(20) == 16 * Pow2(16);
    assert Pow2(24) == 16 * Pow2(20);
    assert Pow2(28) == 16 * Pow2(24);
    assert Pow2(32) == 16 * Pow2(28);
    assert Pow2(36) == 16 * Pow2(32);
    assert Pow2(40) == 16 * Pow2(36);
    assert Pow2(44) == 16 * Pow2(40);
    assert Pow2(48) == 16 * Pow2(44);
    assert Pow2(52) == 16 * Pow2(48);
    assert Pow2(56) == 16 * Pow2(52);
    assert Pow2(60) == 16 * Pow2(56);
    assert Pow2(64) == 16 * Pow2(60);
  }

  // ----- Bits of integers -----

  /** Bit k of x in two's complement, least significant first. */
  predicate BitOf(x: int, k: nat)
    decreases k
  {
    if k == 0 then x % 2 == 1 else BitOf(x / 2, k - 1)
  }

  /** A bit is a digit of the binary expansion. */
  lemma {:induction false} BitIsDigit(x: nat, k: nat)
    ensures BitOf(x, k) <==> x / Pow2(k) % 2 == 1
    decreases k
  {
    if k > 0 {
      BitIsDigit(x / 2, k - 1);
      HalfFirst(x, Pow2(k - 1));
    }
  }

  lemma HalfFirst(x: nat, m: nat)
    requires m > 0
    ensures x / (2 * m) == x / 2 / m
  {
    var q, r := x / 2 / m, x / 2 % m;
    assert x / 2 == q * m + r;
    Quotient(x, 2 * m, q, 2 * r + x % 2);
  }

  lemma Quotient(x: nat, d: nat, q: nat, r: nat)
    requires r < d && x == q * d + r
    ensures x / d == q
  {
    var t := x / d - q;
    assert t * d == r - x % d;
  }

  /** Weights of bits, the greatest first: of the twelve lowest, or of the eight of a byte. */
  lemma Weights(k: nat)
    requires k < 12
    ensures [2048, 1024, 512, 256, 128, 64, 32, 16, 8, 4, 2, 1][k] == Pow2(11 - k)
    ensures k < 8 ==> [128, 64, 32, 16, 8, 4, 2, 1][k] == Pow2(7 - k)
  {
    assert Pow2(3) == 8 && Pow2(2) == 4 && Pow2(1) == 2 && Pow2(0) == 1;
    assert Pow2(7) == 128 && Pow2(6) == 64 && Pow2(5) == 32 && Pow2(4) == 16;
    assert Pow2(11) == 2048 && Pow2(10) == 1024 && Pow2(9) == 512 && Pow2(8) == 256;
  }

  /** x >> s */
  function Shr(x: int, s: nat): (r: int)
    ensures 0 <= x ==> 0 <= r <= x
    decreases s
  {
    if s == 0 then x else Shr(x / 2, s - 1)
  }

  /** x << s */
  function Shl(x: int, s: nat): (r: int)
    ensures 0 <= x ==> x <= r
    decreases s
  {
    if s == 0 then x else Shl(2 * x, s - 1)
  }

  /** ~x */
  function Not(x: int): int {
    -x - 1
  }

  /** x | y */
  function Or(x: nat, y: nat): nat {
    if x == 0 then y else if y == 0 then x
    else 2 * Or(x / 2, y / 2) + (if x % 2 == 1 || y % 2 == 1 then 1 else 0)
  }

  /** x & y */
  function And(x: nat, y: int): (r: nat)
    ensures r <= x
  {
    if x == 0 then 0
    else 2 * And(x / 2, y / 2) + (if x % 2 == 1 && y % 2 == 1 then 1 else 0)
  }

  /** A cast to an n-bit unsigned type: the low n bits of x. */
  function Low(x: int, n: nat): (r: nat)
    ensures r < Pow2(n)
    decreases n
  {
    if n == 0 then 0 else 2 * Low(x / 2, n - 1) + x % 2
  }

  lemma {:induction false} ShrBit(x: int, s: nat, k: nat)
    ensures BitOf(Shr(x, s), k) == BitOf(x, k + s)
    decreases s
  {
    if s > 0 { ShrBit(x / 2, s - 1, k); }
  }

  lemma {:induction false} ShlBit(x: int, s: nat, k: nat)
    ensures BitOf(Shl(x, s), k) == (s <= k && BitOf(x, k - s))
    decreases s
  {
    if s > 0 {
      ShlBit(2 * x, s - 1, k);
      if s <= k { assert BitOf(2 * x, k - s + 1) == BitOf((2 * x) / 2, k - s) == BitOf(x, k - s); }
    }
  }

  lemma {:induction false} NotBit(x: int, k: nat)
    ensures BitOf(Not(x), k) == !BitOf(x, k)
    decreases k
  {
    if k > 0 {
      assert Not(x) / 2 == Not(x / 2);
      NotBit(x / 2, k - 1);
    }
  }

  lemma {:induction false} ZeroBit(k: nat)
    ensures !BitOf(0, k)
  {
    if k > 0 { ZeroBit(k - 1); }
  }

  lemma {:induction false} OrBit(x: nat, y: nat, k: nat)
    ensures BitOf(Or(x, y), k) == (BitOf(x, k) || BitOf(y, k))
  {
    if x == 0 || y == 0 {
      ZeroBit(k);
    } else if k > 0 {
      OrBit(x / 2, y / 2, k - 1);
      assert Or(x, y) / 2 == Or(x / 2, y / 2);
    }
  }

  lemma {:induction false} OrBound(x: nat, y: nat, n: nat)
    requires x < Pow2(n) && y < Pow2(n)
    ensures Or(x, y) < Pow2(n)
  {
    if x != 0 && y != 0 { OrBound(x / 2, y / 2, n - 1); }
  }

  lemma {:induction false} AndBit(x: nat, y: int, k: nat)
    ensures BitOf(And(x, y), k) == (BitOf(x, k) && BitOf(y, k))
  {
    if x == 0 {
      ZeroBit(k);
    } else if k > 0 {
      AndBit(x / 2, y / 2, k - 1);
      assert And(x, y) / 2 == And(x / 2, y / 2);
    }
  }

  lemma {:induction false} AndZero(x: nat)
    ensures And(x, 0) == 0
  {
    if x != 0 { AndZero(x / 2); }
  }

  lemma {:induction false} LowBit(x: int, n: nat, k: nat)
    ensures BitOf(Low(x, n), k) == (k < n && BitOf(x, k))
    decreases n
  {
    if n == 0 {
      ZeroBit(k);
    } else if k > 0 {
      LowBit(x / 2, n - 1, k - 1);
      assert Low(x, n) / 2 == Low(x / 2, n - 1);
    }
  }

  /** The bits of Pow2(n) - 1 are the n low ones. */
  lemma {:induction false} OnesBit(n: nat, k: nat)
    ensures BitOf(Pow2(n) - 1, k) == (k < n)
  {
    if n == 0 {
      ZeroBit(k);
    } else if k > 0 {
      assert (Pow2(n) - 1) / 2 == Pow2(n - 1) - 1;
      OnesBit(n - 1, k - 1);
    }
  }

  lemma {:induction false} HighBit(x: nat, n: nat, k: nat)
    requires x < Pow2(n) && n <= k
    ensures !BitOf(x, k)
  {
    if n == 0 { ZeroBit(k); } else { HighBit(x / 2, n - 1, k - 1); }
  }

  /** Two n-bit numbers with the same bits are the same number. */
  lemma {:induction false} SameBits(x: nat, y: nat, n: nat)
    requires x < Pow2(n) && y < Pow2(n)
    requires forall k :: 0 <= k < n ==> BitOf(x, k) == BitOf(y, k)
    ensures x == y
  {
    if n > 0 {
      assert BitOf(x, 0) == BitOf(y, 0);
      forall k | 0 <= k < n - 1
        ensures BitOf(x / 2, k) == BitOf(y / 2, k)
      {
        assert BitOf(x, k + 1) == BitOf(y, k + 1);
      }
      SameBits(x / 2, y / 2, n - 1);
    }
  }

  lemma {:induction false} ShlOne(n: nat, x: int)
    ensures Shl(x, n) == x * Pow2(n)
    decreases n
  {
    if n > 0 {
      ShlOne(n - 1, 2 * x);
      assert 2 * x * Pow2(n - 1) == x * (2 * Pow2(n - 1));
    }
  }

  lemma {:induction false} OneBit(n: nat, k: nat)
    ensures BitOf(Shl(1, n), k) == (k == n)
  {
    ShlBit(1, n, k);
    if k > n { HighBit(1, 1, k - n); }
  }

  lemma {:induction false} BitBelow(n: nat, m: nat)
    requires n < m
    ensures 0 < Shl(1, n) < Pow2(m)
    decreases n, m
  {
    ShlOne(n, 1);
    if n > 0 {
      BitBelow(n - 1, m - 1);
      ShlOne(n - 1, 1);
    }
  }

  lemma {:induction false} NoBits(x: nat)
    requires forall k: nat :: !BitOf(x, k)
    ensures x == 0
  {
    if x > 0 {
      assert !BitOf(x, 0);
      forall k: nat
        ensures !BitOf(x / 2, k)
      {
        assert !BitOf(x, k + 1);
      }
      NoBits(x / 2);
    }
  }

  /** w & (1 << k) tests bit k. */
  lemma TestBit(w: nat, k: nat)
    ensures (And(w, Shl(1, k)) != 0) == BitOf(w, k)
  {
    var m := And(w, Shl(1, k));
    forall j: nat
      ensures BitOf(m, j) == (BitOf(w, j) && j == k)
    {
      AndBit(w, Shl(1, k), j);
      ShlBit(1, k, j);
      if k < j { HighBit(1, 1, j - k); }
    }
    if m == 0 { ZeroBit(k); } else if !BitOf(w, k) { NoBits(m); }
  }

  /** ~((1 << n) - 1), cast to a word of some width, has the bits from n on. */
  lemma UpperMaskBit(n: nat, width: nat, k: nat)
    ensures BitOf(Low(Not(Shl(1, n) - 1), width), k) == (n <= k < width)
  {
    ShlOne(n, 1);
    LowBit(Not(Shl(1, n) - 1), width, k);
    NotBit(Pow2(n) - 1, k);
    OnesBit(n, k);
  }

  /** The number with the given n bits. */
  function FromBits(f: int -> bool, from: int, n: nat): (x: nat)
    ensures x < Pow2(n)
    ensures forall k :: 0 <= k < n ==> BitOf(x, k) == f(from + k)
    decreases n
  {
    if n == 0 then 0
    else
      var rest := FromBits(f, from + 1, n - 1);
      var x := 2 * rest + (if f(from) then 1 else 0);
      assert forall k :: 0 <= k < n ==> BitOf(x, k) == f(from + k) by {
        forall k | 0 <= k < n
          ensures BitOf(x, k) == f(from + k)
        {
          if k > 0 { assert BitOf(x, k) == BitOf(rest, k - 1) == f(from + 1 + (k - 1)); }
        }
      }
      x
  }

  // ----- Bits of buffers -----

  /** Bit p of a buffer; positions outside the buffer read as clear. */
  predicate BitAt(a: Bytes, p: int) {
    0 <= p < 8 * |a| && BitOf(a[p / 8], p % 8)
  }

  lemma BitInByte(a: Bytes, q: nat, k: nat)
    requires q < |a| && k < 8
    ensures BitAt(a, 8 * q + k) == BitOf(a[q], k)
  {
    assert (8 * q + k) / 8 == q && (8 * q + k) % 8 == k;
  }

  /** Two buffers of the same length with the same bits are the same buffer. */
  lemma SameBytes(a: Bytes, b: Bytes)
    requires |a| == |b|
    requires forall p :: 0 <= p < 8 * |a| ==> BitAt(a, p) == BitAt(b, p)
    ensures a == b
  {
    Pow2Values();
    forall q | 0 <= q < |a|
      ensures a[q] == b[q]
    {
      forall k | 0 <= k < 8
        ensures BitOf(a[q], k) == BitOf(b[q], k)
      {
        BitInByte(a, q, k);
        BitInByte(b, q, k);
      }
      SameBits(a[q], b[q], 8);
    }
  }

  ghost predicate HasBits(a: Bytes, len: nat, f: int -> bool) {
    |a| == len && forall p :: 0 <= p < 8 * len ==> BitAt(a, p) == f(p)
  }

  /** The buffer of the given length with the given bits; `SameBytes` says there is just one. */
  ghost function Tabulate(len: nat, f: int -> bool): (a: Bytes)
    ensures HasBits(a, len, f)
  {
    BitsExist(len, f);
    var a :| HasBits(a, len, f);
    a
  }

  lemma {:induction false} BitsExist(len: nat, f: int -> bool)
    ensures exists a: Bytes :: HasBits(a, len, f)
  {
    if len == 0 {
      assert HasBits([], 0, f);
    } else {
      BitsExist(len - 1, f);
      var a :| HasBits(a, len - 1, f);
      var b := ByteWith(f, 8 * (len - 1));
      AppendByte(a, b, f);
      assert HasBits(a + [b], len, f);
    }
  }

  lemma ByteWith(f: int -> bool, from: int) returns (b: byte)
    ensures forall k :: 0 <= k < 8 ==> BitOf(b, k) == f(from + k)
  {
    Pow2Values();
    b := FromBits(f, from, 8);
  }

  lemma AppendByte(a: Bytes, b: byte, f: int -> bool)
    requires HasBits(a, |a|, f)
    requires forall k :: 0 <= k < 8 ==> BitOf(b, k) == f(8 * |a| + k)
    ensures HasBits(a + [b], |a| + 1, f)
  {
    forall p | 0 <= p < 8 * (|a| + 1)
      ensures BitAt(a + [b], p) == f(p)
    {
      if p < 8 * |a| { assert BitAt(a, p) == f(p); } else { assert p == 8 * |a| + p % 8; }
    }
  }

  ghost predicate IsSlice(r: seq<bool>, a: Bytes, i: int, n: nat) {
    |r| == n && forall k :: 0 <= k < n ==> r[k] == BitAt(a, i + k)
  }

  /** n bits of a buffer, from bit i on. */
  ghost function Slice(a: Bytes, i: int, n: nat): (r: seq<bool>)
    ensures IsSlice(r, a, i, n)
  {
    var r := seq(n, k requires 0 <= k < n => BitAt(a, i + k));
    assert IsSlice(r, a, i, n);
    var r' :| IsSlice(r', a, i, n);
    r'
  }

  lemma SliceSplit(a: Bytes, i: int, m: nat, n: nat)
    ensures Slice(a, i, m + n) == Slice(a, i, m) + Slice(a, i + m, n)
  {
    var r, x, y := Slice(a, i, m + n), Slice(a, i, m), Slice(a, i + m, n);
    forall k | 0 <= k < m + n
      ensures r[k] == (x + y)[k]
    {
      if m <= k { assert y[k - m] == BitAt(a, i + m + (k - m)); }
    }
  }

  /** No bit at or past i is set. */
  ghost predicate ClearFrom(a: Bytes, i: int) {
    forall p :: i <= p ==> !BitAt(a, p)
  }

  function Zeros(n: nat): (r: Bytes)
    ensures |r| == n && forall k :: 0 <= k < n ==> r[k] == 0
    ensures forall p :: !BitAt(r, p)
  {
    var r := seq(n, _ => 0);
    assert forall p :: !BitAt(r, p) by {
      forall p
        ensures !BitAt(r, p)
      {
        if 0 <= p < 8 * n { ZeroBit(p % 8); }
      }
    }
    r
  }

  // ----- Words in memory -----

  /** The little-endian word stored in some bytes. */
  function Load(a: Bytes): nat {
    if a == [] then 0 else Or(a[0], Shl(Load(a[1..]), 8))
  }

  function LowByte(w: int): (b: byte)
    ensures forall k :: 0 <= k < 8 ==> BitOf(b, k) == BitOf(w, k)
  {
    Pow2Values();
    LowBits(w, 8);
    Low(w, 8)
  }

  lemma LowBits(w: int, n: nat)
    ensures forall k :: 0 <= k < n ==> BitOf(Low(w, n), k) == BitOf(w, k)
  {
    forall k | 0 <= k < n
      ensures BitOf(Low(w, n), k) == BitOf(w, k)
    {
      LowBit(w, n, k);
    }
  }

  /** The low n bytes of a word, least significant first. */
  function Unload(w: int, n: nat): (a: Bytes)
    ensures |a| == n
    decreases n
  {
    if n == 0 then [] else [LowByte(w)] + Unload(w / 256, n - 1)
  }

  lemma TailBit(a: Bytes, p: nat)
    requires a != []
    ensures BitAt(a, p) == if p < 8 then BitOf(a[0], p) else BitAt(a[1..], p - 8)
  {
    if 8 <= p < 8 * |a| { assert a[1..][(p - 8) / 8] == a[p / 8]; }
  }

  lemma JoinBit(b: byte, w: nat, n: nat, p: nat)
    requires b < Pow2(n)
    ensures BitOf(Or(b, Shl(w, n)), p) == if p < n then BitOf(b, p) else BitOf(w, p - n)
  {
    OrBit(b, Shl(w, n), p);
    ShlBit(w, n, p);
    if n <= p { HighBit(b, n, p); }
  }

  lemma {:induction false} LoadBit(a: Bytes, p: nat)
    ensures BitOf(Load(a), p) == BitAt(a, p)
  {
    if a == [] {
      ZeroBit(p);
    } else {
      assert a[0] < Pow2(8) by { Pow2Values(); }
      JoinBit(a[0], Load(a[1..]), 8, p);
      TailBit(a, p);
      if 8 <= p { LoadBit(a[1..], p - 8); }
    }
  }

  lemma NextByteBit(w: int, k: nat)
    ensures BitOf(w / 256, k) == BitOf(w, k + 8)
  {
    NibbleBit(w, k + 4);
    NibbleBit(w / 16, k);
    assert w / 16 / 16 == w / 256;
  }

  lemma NibbleBit(w: int, k: nat)
    ensures BitOf(w / 16, k) == BitOf(w, k + 4)
  {
    assert BitOf(w, k + 4) == BitOf(w / 2, k + 3) == BitOf(w / 2 / 2, k + 2) == BitOf(w / 2 / 2 / 2, k + 1);
    assert w / 2 / 2 / 2 / 2 == w / 16;
  }

  lemma {:induction false} UnloadBit(w: int, n: nat, p: nat)
    ensures BitAt(Unload(w, n), p) == (p < 8 * n && BitOf(w, p))
    decreases n
  {
    if n > 0 {
      var v := w / 256;
      var a := [LowByte(w)] + Unload(v, n - 1);
      assert a[1..] == Unload(v, n - 1);
      TailBit(a, p);
      if 8 <= p {
        UnloadBit(v, n - 1, p - 8);
        NextByteBit(w, p - 8);
      }
    }
  }
}
