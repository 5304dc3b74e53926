/** Strings in byte buffers: they end before the first NUL. */
module CStrings {
  import opened Bits

  /** The string that a buffer holds ends before its first NUL. */
  function CString(a: Bytes): (r: Bytes)
    ensures r <= a && 0 !in r
    ensures r != a ==> a[|r|] == 0
  {
    if a == [] || a[0] == 0 then [] else [a[0]] + CString(a[1..])
  }

  lemma {:induction false} CStringIs(a: Bytes, n: nat)
    requires n < |a| && a[n] == 0
    ensures CString(a) == CString(a[..n])
  {
    if n > 0 && a[0] != 0 {
      assert a[..n][1..] == a[1..][..n - 1];
      CStringIs(a[1..], n - 1);
    }
  }

  lemma {:induction false} NoNul(a: Bytes)
    requires 0 !in a
    ensures CString(a) == a
  {
    if a != [] { NoNul(a[1..]); }
  }

  lemma CStringOf(s: Bytes, rest: Bytes)
    requires 0 !in s && (rest == [] || rest[0] == 0)
    ensures CString(s + rest) == s
  {
    if rest == [] {
      assert s + rest == s;
    } else {
      assert (s + rest)[..|s|] == s;
      CStringIs(s + rest, |s|);
    }
    NoNul(s);
  }

  /** The string cut to n characters. */
  function Cut(s: Bytes, n: nat): Bytes {
    if |s| <= n then s else s[..n]
  }

  /** What strncpy(dst, src, n) writes: the string cut to n bytes, and NULs up to n. */
  function Padded(s: Bytes, n: nat): (r: Bytes)
    ensures |r| == n
  {
    Cut(s, n) + Zeros(n - |Cut(s, n)|)
  }

  lemma PaddedAt(s: Bytes, n: nat, k: nat)
    requires k < n
    ensures Padded(s, n)[k] == if k < |s| then s[k] else 0
  {
  }

  lemma PaddedString(s: Bytes, n: nat, rest: Bytes)
    requires 0 !in s && rest != [] && rest[0] == 0
    ensures CString(Padded(s, n) + rest) == Cut(s, n)
  {
    var c := Cut(s, n);
    assert Padded(s, n) + rest == c + (Zeros(n - |c|) + rest);
    CStringOf(c, Zeros(n - |c|) + rest);
  }

  lemma CharAt(a: Bytes, k: nat)
    requires k <= |CString(a)| && k < |a|
    ensures a[k] != 0 <==> k < |CString(a)|
  {
    if k < |CString(a)| { assert a[k] == CString(a)[k]; }
  }

  lemma StringEnds(a: Bytes)
    requires 0 in a
    ensures |CString(a)| < |a|
  {
    var k :| 0 <= k < |a| && a[k] == 0;
    CStringIs(a, k);
  }

  method StrLen(a: array<byte>) returns (n: nat)
    requires 0 in a[..]
    ensures n < a.Length && a[n] == 0 && CString(a[..]) == a[..n]
  {
    n := 0;
    ghost var text := CString(a[..]);
    StringEnds(a[..]);
    CharAt(a[..], 0);
    while a[n] != 0
      invariant n <= |text| < a.Length
      invariant a[n] != 0 <==> n < |text|
      decreases |text| - n
    {
      n := n + 1;
      CharAt(a[..], n);
    }
  }

  /** The first len bytes of src, and NULs up to n. */
  method CopyPadded(dst: array<byte>, src: array<byte>, len: nat, n: nat)
    requires dst != src && n <= dst.Length && len < src.Length
    modifies dst
    ensures dst[..n] == Padded(src[..len], n) && dst[n..] == old(dst[n..])
  {
    forall k | 0 <= k < n { dst[k] := if k < len then src[k] else 0; }
    forall k | 0 <= k < n
      ensures dst[k] == Padded(src[..len], n)[k]
    {
      PaddedAt(src[..len], n, k);
    }
  }

  /** strncpy from a terminated string */
  method Strncpy(dst: array<byte>, src: array<byte>, n: nat)
    requires dst != src && n <= dst.Length && 0 in src[..]
    modifies dst
    ensures dst[..n] == Padded(CString(src[..]), n) && dst[n..] == old(dst[n..])
  {
    var len := StrLen(src);
    CopyPadded(dst, src, len, n);
  }
}
