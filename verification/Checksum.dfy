/** The FNV-1a hash that guards a saved address (calc_crc in src/serv_addr.c). */
module Checksum {
  import opened Bits

  const FNV_BASIS: nat := 2166136261
  const FNV_PRIME := 16777619
  const WORD := 0x1_0000_0000

  /** x ^ y */
  function Xor(x: nat, y: nat): nat {
    if x == 0 then y else if y == 0 then x
    else 2 * Xor(x / 2, y / 2) + (x + y) % 2
  }

  lemma XorHalves(x: nat, y: nat)
    ensures Xor(x, y) == 2 * Xor(x / 2, y / 2) + (x + y) % 2
  {
  }

  lemma LowBitOfSum(x: nat, y: nat, z: nat)
    requires z % 2 == (x + y) % 2
    ensures z % 2 == 1 <==> (x % 2 == 1) != (y % 2 == 1)
  {
  }

  lemma {:induction false} XorBit(x: nat, y: nat, k: nat)
    ensures BitOf(Xor(x, y), k) == (BitOf(x, k) != BitOf(y, k))
    decreases k
  {
    var z := Xor(x, y);
    XorHalves(x, y);
    assert z / 2 == Xor(x / 2, y / 2) && z % 2 == (x + y) % 2;
    if k == 0 { LowBitOfSum(x, y, z); } else { XorBit(x / 2, y / 2, k - 1); }
  }

  lemma {:induction false} XorBound(x: nat, y: nat, n: nat)
    requires x < Pow2(n) && y < Pow2(n)
    ensures Xor(x, y) < Pow2(n)
  {
    if x != 0 && y != 0 { XorBound(x / 2, y / 2, n - 1); }
  }

  lemma Parity(x: nat, y: nat, z: nat)
    requires z % 2 == (x + y) % 2
    ensures (z + y) % 2 == x % 2
  {
  }

  lemma {:induction false} XorUndone(x: nat, y: nat)
    ensures Xor(Xor(x, y), y) == x
    decreases x + y
  {
    if x == 0 {
      XorSelf(y);
    } else if y != 0 {
      XorUndone(x / 2, y / 2);
      var z := Xor(x, y);
      assert z / 2 == Xor(x / 2, y / 2) && z % 2 == (x + y) % 2;
      XorHalves(z, y);
      Parity(x, y, z);
    }
  }

  lemma {:induction false} XorSelf(y: nat)
    ensures Xor(y, y) == 0
  {
    if y != 0 { XorSelf(y / 2); }
  }

  lemma {:induction false} XorSymmetric(x: nat, y: nat)
    ensures Xor(x, y) == Xor(y, x)
  {
    if x != 0 && y != 0 { XorSymmetric(x / 2, y / 2); }
  }

  // ----- The hash -----

  /** h * 16777619 as a uint32_t */
  function Scaled(h: nat): (r: nat)
    ensures r < WORD
  {
    h * FNV_PRIME % WORD
  }

  function FnvStep(h: nat, b: byte): (r: nat)
    ensures r < WORD
  {
    Scaled(Xor(h, b))
  }

  /** A step with the numbers of FNV-1a: exclusive or first, then the product, in 32 bits. */
  lemma FnvStepIs(h: nat, b: byte, x: nat)
    requires h < WORD && x < WORD && forall k :: 0 <= k < 32 ==> BitOf(x, k) == (BitOf(h, k) != BitOf(b, k))
    ensures FnvStep(h, b) == x * 16777619 % 4294967296
  {
    Pow2Values();
    XorBound(h, b, 32);
    forall k | 0 <= k < 32
      ensures BitOf(Xor(h, b), k) == BitOf(x, k)
    {
      XorBit(h, b, k);
    }
    SameBits(Xor(h, b), x, 32);
  }

  function Fnv(h: nat, s: Bytes): (r: nat)
    ensures h < WORD ==> r < WORD
    decreases |s|
  {
    if s == [] then h else Fnv(FnvStep(h, s[0]), s[1..])
  }

  /** The bytes are taken from first to last. */
  lemma {:induction false} FnvAppend(h: nat, s: Bytes, b: byte)
    ensures Fnv(h, []) == h && Fnv(h, s + [b]) == FnvStep(Fnv(h, s), b)
    decreases |s|
  {
    if s == [] {
      assert Fnv(FnvStep(h, b), []) == FnvStep(h, b) && ([] + [b])[1..] == [];
    } else {
      assert (s + [b])[1..] == s[1..] + [b];
      FnvAppend(FnvStep(h, s[0]), s[1..], b);
    }
  }

  lemma WholeWords(r: int, x: nat, t: int)
    requires x < WORD && r == x + WORD * t
    ensures r % WORD == x
  {
  }

  /** The prime has an inverse modulo 2^32. */
  lemma ScaledUndone(x: nat)
    requires x < WORD
    ensures Scaled(x) * 899433627 % WORD == x
  {
    var q := x * FNV_PRIME / WORD;
    assert Scaled(x) == x * FNV_PRIME - WORD * q;
    WholeWords(Scaled(x) * 899433627, x, 3513497 * x - 899433627 * q);
  }

  lemma ScaledInjective(x: nat, y: nat)
    requires x < WORD && y < WORD && Scaled(x) == Scaled(y)
    ensures x == y
  {
    ScaledUndone(x);
    ScaledUndone(y);
  }

  lemma XorFits(h: nat, b: byte)
    requires h < WORD
    ensures Xor(h, b) < WORD
  {
    Pow2Values();
    XorBound(h, b, 32);
  }

  /** A step loses nothing: of the hash, for any byte; and of the byte, for any hash. */
  lemma StepInjective(g: nat, h: nat, a: byte, b: byte)
    requires g < WORD && h < WORD && FnvStep(g, a) == FnvStep(h, b)
    ensures (g == h) == (a == b)
  {
    XorFits(g, a);
    XorFits(h, b);
    ScaledInjective(Xor(g, a), Xor(h, b));
    XorUndone(g, a);
    XorUndone(h, b);
    XorSymmetric(g, a);
    XorSymmetric(h, b);
    XorUndone(a, g);
    XorUndone(b, h);
  }

  /** Hashing the same bytes keeps different hashes apart. */
  lemma {:induction false} FnvInjective(g: nat, h: nat, s: Bytes)
    requires g < WORD && h < WORD && Fnv(g, s) == Fnv(h, s)
    ensures g == h
    decreases |s|
  {
    if s != [] {
      FnvInjective(FnvStep(g, s[0]), FnvStep(h, s[0]), s[1..]);
      StepInjective(g, h, s[0], s[0]);
    }
  }

  lemma {:induction false} FnvJoin(h: nat, s: Bytes, t: Bytes)
    ensures Fnv(h, s + t) == Fnv(Fnv(h, s), t)
    decreases |s|
  {
    if s == [] {
      assert s + t == t;
    } else {
      assert (s + t)[1..] == s[1..] + t;
      FnvJoin(FnvStep(h, s[0]), s[1..], t);
    }
  }

  /** Two strings that differ in exactly one byte have different hashes. */
  lemma OneByteHash(s: Bytes, i: nat, b: byte)
    requires i < |s| && s[i] != b
    ensures Fnv(FNV_BASIS, s[i := b]) != Fnv(FNV_BASIS, s)
  {
    var front, back := s[..i], s[i + 1..];
    assert s == front + ([s[i]] + back);
    assert s[i := b] == front + ([b] + back);
    FnvJoin(FNV_BASIS, front, [s[i]] + back);
    FnvJoin(FNV_BASIS, front, [b] + back);
    var h := Fnv(FNV_BASIS, front);
    NextHash(h, s[i], back);
    NextHash(h, b, back);
    if Fnv(FNV_BASIS, s[i := b]) == Fnv(FNV_BASIS, s) {
      FnvInjective(FnvStep(h, s[i]), FnvStep(h, b), back);
      StepInjective(h, h, s[i], b);
    }
  }

  lemma NextHash(h: nat, b: byte, back: Bytes)
    ensures Fnv(h, [b] + back) == Fnv(FnvStep(h, b), back)
  {
    assert ([b] + back)[1..] == back;
  }

  /** calc_crc */
  method CalcCrc(addr: array<byte>) returns (h: nat)
    ensures h == Fnv(2166136261, addr[..]) && h < 0x1_0000_0000
  {
    h := FNV_BASIS;
    var i := 0;
    while i < addr.Length
      invariant i <= addr.Length && h < WORD
      invariant h == Fnv(FNV_BASIS, addr[..i])
    {
      FnvJoin(FNV_BASIS, addr[..i], [addr[i]]);
      NextHash(h, addr[i], []);
      assert addr[..i + 1] == addr[..i] + [addr[i]];
      h := Xor(h, addr[i]);
      h := Scaled(h);
      i := i + 1;
    }
    assert addr[..i] == addr[..];
  }
}
