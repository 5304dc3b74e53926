/** Numbers, their bits, and their bytes in memory. */
module Numbers {
  import opened Bits

  // ----- Bits of a number -----

  ghost predicate IsBitString(r: seq<bool>, x: int, n: nat) {
    |r| == n && forall k :: 0 <= k < n ==> r[k] == BitOf(x, k)
  }

  /** The n low bits of x, least significant first. */
  ghost function BitString(x: int, n: nat): (r: seq<bool>)
    ensures IsBitString(r, x, n)
  {
    var r := seq(n, k requires 0 <= k < n => BitOf(x, k));
    assert IsBitString(r, x, n);
    var r' :| IsBitString(r', x, n);
    r'
  }

  lemma SameStrings(x: int, y: int, n: nat)
    requires forall k :: 0 <= k < n ==> BitOf(x, k) == BitOf(y, k)
    ensures BitString(x, n) == BitString(y, n)
  {
  }

  /** Past the range of x, its bits are all equal to its sign. */
  lemma {:induction false} SignBits(x: int, n: nat, k: nat)
    requires -(Pow2(n) as int) <= x < Pow2(n) && n <= k
    ensures BitOf(x, k) == (x < 0)
    decreases k
  {
    if n > 0 {
      SignBits(x / 2, n - 1, k - 1);
    } else if k > 0 {
      assert x / 2 == x;
      SignBits(x, 0, k - 1);
    }
  }

  /** Adding 2^m leaves the bits below m as they are. */
  lemma {:induction false} BelowPow(x: int, m: nat, k: nat)
    requires k < m
    ensures BitOf(x + Pow2(m), k) == BitOf(x, k)
    decreases k
  {
    assert (x + Pow2(m)) / 2 == x / 2 + Pow2(m - 1);
    if k > 0 { BelowPow(x / 2, m - 1, k - 1); }
  }

  lemma {:induction false} Pow2Mono(m: nat, n: nat)
    requires m <= n
    ensures Pow2(m) <= Pow2(n)
    decreases n - m
  {
    if m < n { Pow2Mono(m + 1, n); }
  }

  // ----- The number held in some bytes -----

  ghost predicate HoldsUnsigned(a: Bytes, x: int) {
    0 <= x < Pow2(8 * |a|) && forall k :: 0 <= k < 8 * |a| ==> BitAt(a, k) == BitOf(x, k)
  }

  ghost predicate HoldsSigned(a: Bytes, x: int) {
    && |a| > 0 && -(Pow2(8 * |a| - 1) as int) <= x < Pow2(8 * |a| - 1)
    && forall k :: 0 <= k < 8 * |a| ==> BitAt(a, k) == BitOf(x, k)
  }

  /** The unsigned number with the bits of a (a little-endian C integer). */
  ghost function Unsigned(a: Bytes): (x: nat)
    ensures HoldsUnsigned(a, x)
  {
    LoadHolds(a);
    var x: nat :| HoldsUnsigned(a, x);
    x
  }

  /** The signed number with the bits of a, in two's complement. */
  ghost function Signed(a: Bytes): (x: int)
    requires |a| > 0
    ensures HoldsSigned(a, x)
  {
    SignedExists(a);
    var x :| HoldsSigned(a, x);
    x
  }

  lemma UnsignedIs(a: Bytes, x: int)
    requires HoldsUnsigned(a, x)
    ensures Unsigned(a) == x
  {
    forall k | 0 <= k < 8 * |a|
      ensures BitOf(Unsigned(a), k) == BitOf(x, k)
    {
      assert BitAt(a, k) == BitOf(x, k);
    }
    SameBits(Unsigned(a), x, 8 * |a|);
  }

  lemma SignedIs(a: Bytes, x: int)
    requires HoldsSigned(a, x)
    ensures Signed(a) == x
  {
    Wrapped(a, x);
    Wrapped(a, Signed(a));
  }

  /** What the bytes hold as an unsigned number, if they hold x as a signed one. */
  lemma Wrapped(a: Bytes, x: int)
    requires HoldsSigned(a, x)
    ensures Unsigned(a) == if x < 0 then x + Pow2(8 * |a|) else x
    ensures Pow2(8 * |a|) == 2 * Pow2(8 * |a| - 1)
  {
    var m := 8 * |a|;
    var u := if x < 0 then x + Pow2(m) else x;
    forall k | 0 <= k < m
      ensures BitAt(a, k) == BitOf(u, k)
    {
      BelowPow(x, m, k);
    }
    UnsignedIs(a, u);
  }

  lemma SignedExists(a: Bytes)
    requires |a| > 0
    ensures exists x :: HoldsSigned(a, x)
  {
    var m, u := 8 * |a|, Unsigned(a);
    var x := if u < Pow2(m - 1) then u else u - Pow2(m);
    assert Pow2(m) == 2 * Pow2(m - 1);
    forall k | 0 <= k < m
      ensures BitAt(a, k) == BitOf(x, k)
    {
      BelowPow(x, m, k);
    }
    assert HoldsSigned(a, x);
  }

  /** The word that a little-endian load gives is the number the bytes hold. */
  lemma LoadHolds(a: Bytes)
    ensures HoldsUnsigned(a, Load(a))
  {
    LoadBound(a);
    forall k | 0 <= k < 8 * |a|
      ensures BitOf(Load(a), k) == BitAt(a, k)
    {
      LoadBit(a, k);
    }
  }

  lemma {:induction false} LoadBound(a: Bytes)
    ensures Load(a) < Pow2(8 * |a|)
  {
    if a != [] {
      var n := 8 * |a|;
      LoadBound(a[1..]);
      ByteTimes(Load(a[1..]), n - 8);
      assert a[0] < Pow2(n) by { Pow2Mono(8, n); Pow2Values(); }
      OrBound(a[0], Shl(Load(a[1..]), 8), n);
    }
  }

  lemma ByteTimes(x: nat, m: nat)
    requires x < Pow2(m)
    ensures Shl(x, 8) < Pow2(m + 8)
  {
    ShlOne(8, x);
    Pow2Values();
    Pow2Byte(m);
  }

  lemma Pow2Byte(n: nat)
    ensures Pow2(n + 8) == 256 * Pow2(n)
  {
    assert Pow2(n + 4) == 16 * Pow2(n) by {
      assert Pow2(n + 4) == 2 * Pow2(n + 3) && Pow2(n + 3) == 2 * Pow2(n + 2) && Pow2(n + 2) == 2 * Pow2(n + 1);
    }
    assert Pow2(n + 8) == 2 * Pow2(n + 7) && Pow2(n + 7) == 2 * Pow2(n + 6) && Pow2(n + 6) == 2 * Pow2(n + 5);
  }

  /** The bits of the number held in some bytes are the bits of the bytes. */
  lemma UnsignedString(a: Bytes, n: nat)
    requires n <= 8 * |a|
    ensures BitString(Unsigned(a), n) == Slice(a, 0, n)
  {
  }

  lemma SignedString(a: Bytes, n: nat)
    requires 0 < |a| && n <= 8 * |a|
    ensures BitString(Signed(a), n) == BitString(Unsigned(a), n)
  {
  }

  /** A number that is stored keeps the bits that fit. */
  lemma StoredString(x: int, size: nat, n: nat)
    requires n <= 8 * size
    ensures BitString(Unsigned(Unload(x, size)), n) == BitString(x, n)
  {
    var a := Unload(x, size);
    forall k | 0 <= k < n
      ensures BitOf(Unsigned(a), k) == BitOf(x, k)
    {
      UnloadBit(x, size, k);
      assert BitAt(a, k) == BitOf(Unsigned(a), k);
    }
    SameStrings(Unsigned(a), x, n);
  }

  /** The two's complement round trip: an n-bit signed number, cut to n bits and sign-extended
      in its container, is the number again. */
  lemma SignExtensionRecovers(x: int, n: nat, a: Bytes)
    requires 1 <= n <= 8 * |a| && -(Pow2(n - 1) as int) <= x < Pow2(n - 1)
    requires forall k :: 0 <= k < 8 * |a| ==> BitAt(a, k) == BitOf(x, if k < n then k else n - 1)
    ensures Signed(a) == x
  {
    Pow2Mono(n - 1, 8 * |a| - 1);
    forall k | 0 <= k < 8 * |a|
      ensures BitAt(a, k) == BitOf(x, k)
    {
      if n <= k {
        SignBits(x, n - 1, k);
        SignBits(x, n - 1, n - 1);
      }
    }
    SignedIs(a, x);
  }
}
