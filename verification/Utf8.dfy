/** Decoding UTF-8 one character at a time (utf8_decode_one in src/epd200x200.c). */
module Utf8 {
  import opened Bits

  const QUESTION_MARK := 0x3F

  // ----- Masks and shifts of bytes -----

  lemma {:induction false} ShlDoubles(x: nat, n: nat)
    requires n > 0
    ensures Shl(x, n) == 2 * Shl(x, n - 1)
    decreases n
  {
    if n > 1 { ShlDoubles(2 * x, n - 1); }
  }

  lemma {:induction false} AndLow(a: nat, b: nat, n: nat)
    requires b < Pow2(n)
    ensures And(Shl(a, n) + b, Pow2(n) - 1) == b
    decreases n
  {
    if n == 0 {
      AndZero(a);
    } else {
      assert (Pow2(n) - 1) / 2 == Pow2(n - 1) - 1;
      ShlDoubles(a, n);
      AndLow(a, b / 2, n - 1);
    }
  }

  /** A mask of the bits from n to m. */
  lemma {:induction false} AndHigh(a: nat, b: nat, n: nat, m: nat)
    requires b < Pow2(n) && n <= m && Shl(a, n) + b < Pow2(m)
    ensures And(Shl(a, n) + b, Pow2(m) - Pow2(n)) == Shl(a, n)
    decreases n
  {
    if n == 0 {
      ShlOne(m, 0);
      AndLow(0, a, m);
    } else {
      assert Pow2(m) - Pow2(n) == 2 * (Pow2(m - 1) - Pow2(n - 1));
      ShlDoubles(a, n);
      AndHigh(a, b / 2, n - 1, m - 1);
    }
  }

  lemma {:induction false} OrSum(h: nat, x: nat, y: nat, n: nat)
    requires y < Pow2(n) && h == x * Pow2(n)
    ensures Or(h, y) == h + y
    decreases n
  {
    if h != 0 && y != 0 {
      assert h == 2 * (x * Pow2(n - 1));
      OrSum(h / 2, x, y / 2, n - 1);
    }
  }

  lemma Mask(q: nat, r: nat, n: nat, p: nat)
    requires r < p && p == Pow2(n) && q * p + r < 256 && n <= 8 && Pow2(8) == 256
    ensures And(q * p + r, 256 - p) == q * p && And(q * p + r, p - 1) == r
  {
    ShlOne(n, q);
    AndHigh(q, r, n, 8);
    AndLow(q, r, n);
  }

  /** The masks of a byte as arithmetic. */
  lemma ByteMasks(b: byte)
    ensures And(b, 0x80) == b / 128 * 128 && And(b, 0xC0) == b / 64 * 64 && And(b, 0xE0) == b / 32 * 32
    ensures And(b, 0xF0) == b / 16 * 16 && And(b, 0xF8) == b / 8 * 8
    ensures And(b, 0x3F) == b % 64 && And(b, 0x1F) == b % 32 && And(b, 0x0F) == b % 16 && And(b, 0x07) == b % 8
  {
    SmallPowers();
    Mask(b / 128, b % 128, 7, 128);
    Mask(b / 64, b % 64, 6, 64);
    Mask(b / 32, b % 32, 5, 32);
    Mask(b / 16, b % 16, 4, 16);
    Mask(b / 8, b % 8, 3, 8);
  }

  lemma SmallPowers()
    ensures Pow2(3) == 8 && Pow2(4) == 16 && Pow2(5) == 32 && Pow2(6) == 64 && Pow2(7) == 128 && Pow2(8) == 256
    ensures Pow2(12) == 4096 && Pow2(18) == 262144
  {
    Pow2Values();
    assert Pow2(3) == 2 * Pow2(2) && Pow2(2) == 2 * Pow2(1) && Pow2(1) == 2 * Pow2(0);
    assert Pow2(7) == 2 * Pow2(6) && Pow2(6) == 2 * Pow2(5) && Pow2(5) == 2 * Pow2(4);
    assert Pow2(18) == 2 * Pow2(17) && Pow2(17) == 2 * Pow2(16);
  }

  // ----- The character at a position -----

  predicate Continuation(b: int) {
    128 <= b < 192
  }

  function Two(a: nat, b: nat): nat {
    a % 32 * 64 + b % 64
  }

  function Three(a: nat, b: nat, c: nat): nat {
    a % 16 * 4096 + b % 64 * 64 + c % 64
  }

  function Four(a: nat, b: nat, c: nat, d: nat): nat {
    a % 8 * 262144 + b % 64 * 4096 + c % 64 * 64 + d % 64
  }

  datatype Decoded = Decoded(cp: nat, next: nat)

  /** The character at p of a terminated text, and the position after it. */
  function Decode(text: Bytes, p: nat): (d: Decoded)
    requires p < |text| && 0 in text[p..]
    ensures text[p] != 0 ==> p < d.next && forall q :: p <= q < d.next ==> q < |text| && text[q] != 0
    ensures text[p] == 0 ==> d == Decoded(0, p)
  {
    var b := text[p];
    Ahead(text, p);
    if b == 0 then Decoded(0, p)
    else if b < 128 then Decoded(b, p + 1)
    else if 192 <= b < 224 && Continuation(text[p + 1]) then
      Decoded(Two(b, text[p + 1]), p + 2)
    else if 224 <= b < 240 && Continuation(text[p + 1]) && Continuation(text[p + 2]) then
      Decoded(Three(b, text[p + 1], text[p + 2]), p + 3)
    else if 240 <= b < 248 && Continuation(text[p + 1]) && Continuation(text[p + 2]) && Continuation(text[p + 3]) then
      Decoded(Four(b, text[p + 1], text[p + 2], text[p + 3]), p + 4)
    else Decoded(QUESTION_MARK, p + 1)
  }

  /** Where there is no NUL, there is a next byte before the end. */
  lemma Ahead(text: Bytes, p: nat)
    requires p < |text| && 0 in text[p..]
    ensures text[p] != 0 ==> p + 1 < |text| && 0 in text[p + 1..]
    ensures text[p] != 0 && text[p + 1] != 0 ==> p + 2 < |text| && 0 in text[p + 2..]
    ensures text[p] != 0 && text[p + 1] != 0 && text[p + 2] != 0 ==> p + 3 < |text| && 0 in text[p + 3..]
  {
    if text[p] != 0 {
      NulLater(text, p);
      if text[p + 1] != 0 {
        NulLater(text, p + 1);
        if text[p + 2] != 0 { NulLater(text, p + 2); }
      }
    }
  }

  lemma NulLater(text: Bytes, p: nat)
    requires p < |text| && 0 in text[p..] && text[p] != 0
    ensures p + 1 < |text| && 0 in text[p + 1..]
  {
    var k :| 0 <= k < |text[p..]| && text[p..][k] == 0;
    assert text[p + 1..][k - 1] == 0;
  }

  // ----- The encoding of section 3 of RFC 3629 -----

  function Tail(x: nat): byte {
    128 + x % 64
  }

  function Encode(cp: nat): (r: Bytes)
    requires cp < 0x20_0000
    ensures 1 <= |r| <= 4
  {
    if cp < 0x80 then [cp]
    else if cp < 0x800 then [192 + cp / 64, Tail(cp)]
    else if cp < 0x1_0000 then [224 + cp / 4096, Tail(cp / 64), Tail(cp)]
    else [240 + cp / 262144, Tail(cp / 4096), Tail(cp / 64), Tail(cp)]
  }

  /** The smallest number that needs n bytes. */
  function Smallest(n: nat): nat {
    if n <= 1 then 0 else if n == 2 then 0x80 else if n == 3 then 0x800 else 0x1_0000
  }

  lemma LastDigit(x: nat, q: nat, b: nat)
    requires Continuation(b)
    ensures b == Tail(x) && q == x / 64 <==> x == q * 64 + b % 64
  {
  }

  lemma TwoBytes(a: nat, b: nat, cp: nat)
    requires 192 <= a < 224 && Continuation(b)
    ensures a == 192 + cp / 64 && b == Tail(cp) <==> cp == Two(a, b)
    ensures Two(a, b) < 0x800
  {
    assert cp == cp / 64 * 64 + cp % 64;
  }

  lemma ThreeBytes(a: nat, b: nat, c: nat, cp: nat)
    requires 224 <= a < 240 && Continuation(b) && Continuation(c)
    ensures a == 224 + cp / 4096 && b == Tail(cp / 64) && c == Tail(cp) <==> cp == Three(a, b, c)
    ensures Three(a, b, c) < 0x1_0000
  {
    assert cp / 64 / 64 == cp / 4096;
    LastDigit(cp, a % 16 * 64 + b % 64, c);
    LastDigit(cp / 64, a % 16, b);
  }

  lemma FourBytes(a: nat, b: nat, c: nat, d: nat, cp: nat)
    requires 240 <= a < 248 && Continuation(b) && Continuation(c) && Continuation(d)
    ensures a == 240 + cp / 262144 && b == Tail(cp / 4096) && c == Tail(cp / 64) && d == Tail(cp)
      <==> cp == Four(a, b, c, d)
    ensures Four(a, b, c, d) < 0x20_0000
  {
    var y1 := a % 8 * 64 + b % 64;
    var y2 := y1 * 64 + c % 64;
    assert cp / 64 / 64 == cp / 4096 && cp / 64 / 64 / 64 == cp / 262144;
    LastDigit(cp, y2, d);
    LastDigit(cp / 64, y1, c);
    LastDigit(cp / 64 / 64, a % 8, b);
  }

  predicate AtPosition(text: Bytes, p: nat, bytes: Bytes) {
    p + |bytes| <= |text| && text[p..p + |bytes|] == bytes
  }

  /** Every encoded character but NUL, in whatever text it stands, is decoded to itself. */
  lemma DecodeInverts(text: Bytes, p: nat, cp: nat)
    requires 0 < cp < 0x20_0000 && AtPosition(text, p, Encode(cp)) && 0 in text[p..]
    ensures Decode(text, p) == Decoded(cp, p + |Encode(cp)|)
  {
    var e := Encode(cp);
    forall k | 0 <= k < |e|
      ensures text[p + k] == e[k]
    {
      assert text[p..p + |e|][k] == e[k];
    }
    if |e| == 2 {
      TwoBytes(e[0], e[1], cp);
    } else if |e| == 3 {
      ThreeBytes(e[0], e[1], e[2], cp);
    } else if |e| == 4 {
      FourBytes(e[0], e[1], e[2], e[3], cp);
    }
  }

  /** The forms are those of section 3 of RFC 3629, such as in the examples of its section 7. */
  lemma EncodeExamples()
    ensures Encode(0x41) == [0x41] && Encode(0x391) == [0xCE, 0x91] && Encode(0x2262) == [0xE2, 0x89, 0xA2]
    ensures Encode(0xD55C) == [0xED, 0x95, 0x9C] && Encode(0x65E5) == [0xE6, 0x97, 0xA5]
    ensures Encode(0x233B4) == [0xF0, 0xA3, 0x8E, 0xB4]
  {
  }

  /** They are no longer than needed. */
  lemma EncodeLength(cp: nat)
    requires cp < 0x20_0000
    ensures |Encode(cp)| == if cp < 0x80 then 1 else if cp < 0x800 then 2 else if cp < 0x1_0000 then 3 else 4
  {
  }

  function ByteAt(text: Bytes, q: nat): nat {
    if q < |text| then text[q] else 0
  }

  /** The n bytes at p are the form of cp that has as many, shortest or not. */
  ghost predicate HasForm(text: Bytes, p: nat, cp: nat, n: nat) {
    match n
    case 1 => cp < 0x80 && ByteAt(text, p) == cp
    case 2 => cp < 0x800 && ByteAt(text, p) == 0xC0 + cp / 64 && ByteAt(text, p + 1) == 0x80 + cp % 64
    case 3 =>
      && cp < 0x1_0000 && ByteAt(text, p) == 0xE0 + cp / 4096 && ByteAt(text, p + 1) == 0x80 + cp / 64 % 64
      && ByteAt(text, p + 2) == 0x80 + cp % 64
    case 4 =>
      && cp < 0x20_0000 && ByteAt(text, p) == 0xF0 + cp / 262144 && ByteAt(text, p + 1) == 0x80 + cp / 4096 % 64
      && ByteAt(text, p + 2) == 0x80 + cp / 64 % 64 && ByteAt(text, p + 3) == 0x80 + cp % 64
    case _ => false
  }

  /** The bytes of a form of n bytes, and the number they stand for. */
  ghost predicate Formed(text: Bytes, p: nat, n: nat) {
    var b := ByteAt(text, p);
    match n
    case 1 => b < 128
    case 2 => 192 <= b < 224 && Continuation(ByteAt(text, p + 1))
    case 3 => 224 <= b < 240 && Continuation(ByteAt(text, p + 1)) && Continuation(ByteAt(text, p + 2))
    case 4 =>
      && 240 <= b < 248 && Continuation(ByteAt(text, p + 1)) && Continuation(ByteAt(text, p + 2))
      && Continuation(ByteAt(text, p + 3))
    case _ => false
  }

  ghost function Number(text: Bytes, p: nat, n: nat): nat {
    var b := ByteAt(text, p);
    if n <= 1 then b
    else if n == 2 then Two(b, ByteAt(text, p + 1))
    else if n == 3 then Three(b, ByteAt(text, p + 1), ByteAt(text, p + 2))
    else Four(b, ByteAt(text, p + 1), ByteAt(text, p + 2), ByteAt(text, p + 3))
  }

  lemma FormIs(text: Bytes, p: nat, cp: nat, n: nat)
    ensures HasForm(text, p, cp, n) <==> Formed(text, p, n) && cp == Number(text, p, n)
  {
    var a, b, c, d := ByteAt(text, p), ByteAt(text, p + 1), ByteAt(text, p + 2), ByteAt(text, p + 3);
    if n == 2 {
      FormOfTwo(a, b, cp);
    } else if n == 3 {
      FormOfThree(a, b, c, cp);
    } else if n == 4 {
      FormOfFour(a, b, c, d, cp);
    }
  }

  lemma FormOfTwo(a: nat, b: nat, cp: nat)
    ensures cp < 0x800 && a == 0xC0 + cp / 64 && b == 0x80 + cp % 64
       <==> 192 <= a < 224 && Continuation(b) && cp == Two(a, b)
  {
    if 192 <= a < 224 && Continuation(b) { TwoBytes(a, b, cp); }
  }

  lemma FormOfThree(a: nat, b: nat, c: nat, cp: nat)
    ensures cp < 0x1_0000 && a == 0xE0 + cp / 4096 && b == 0x80 + cp / 64 % 64 && c == 0x80 + cp % 64
       <==> 224 <= a < 240 && Continuation(b) && Continuation(c) && cp == Three(a, b, c)
  {
    if 224 <= a < 240 && Continuation(b) && Continuation(c) { ThreeBytes(a, b, c, cp); }
  }

  lemma FormOfFour(a: nat, b: nat, c: nat, d: nat, cp: nat)
    ensures cp < 0x20_0000 && a == 0xF0 + cp / 262144 && b == 0x80 + cp / 4096 % 64 && c == 0x80 + cp / 64 % 64
            && d == 0x80 + cp % 64
       <==> 240 <= a < 248 && Continuation(b) && Continuation(c) && Continuation(d) && cp == Four(a, b, c, d)
  {
    if 240 <= a < 248 && Continuation(b) && Continuation(c) && Continuation(d) { FourBytes(a, b, c, d, cp); }
  }

  lemma DecodesForm(text: Bytes, p: nat, cp: nat, n: nat)
    requires p < |text| && 0 in text[p..] && text[p] != 0
    ensures Decode(text, p) == Decoded(cp, p + n) <==>
      || (Formed(text, p, n) && cp == Number(text, p, n))
      || (cp == 0x3F && n == 1 && !Formed(text, p, 1) && !Formed(text, p, 2) && !Formed(text, p, 3)
          && !Formed(text, p, 4))
  {
    Ahead(text, p);
  }

  lemma NoForm(text: Bytes, p: nat)
    ensures !Formed(text, p, 1) && !Formed(text, p, 2) && !Formed(text, p, 3) && !Formed(text, p, 4)
       <==> forall c: nat, m: nat :: !HasForm(text, p, c, m)
  {
    forall c: nat, m: nat
      ensures HasForm(text, p, c, m) <==> Formed(text, p, m) && c == Number(text, p, m)
    {
      FormIs(text, p, c, m);
    }
    assert forall m: nat :: HasForm(text, p, Number(text, p, m), m) <==> Formed(text, p, m);
  }

  /** Exactly what is decoded: a number that stands there in a form of one to four bytes, and these are
      left behind; or, if there is none in any form, a question mark for the one byte. */
  lemma DecodeIs(text: Bytes, p: nat, cp: nat, n: nat)
    requires p < |text| && 0 in text[p..] && text[p] != 0
    ensures Decode(text, p) == Decoded(cp, p + n) <==>
      || HasForm(text, p, cp, n)
      || (cp == 0x3F && n == 1 && forall c: nat, m: nat :: !HasForm(text, p, c, m))
  {
    FormIs(text, p, cp, n);
    NoForm(text, p);
    DecodesForm(text, p, cp, n);
  }

  /** What is decoded stood in its encoded form exactly when the form is not longer than needed
      and no byte was skipped as invalid. */
  lemma DecodedForm(text: Bytes, p: nat)
    requires p < |text| && 0 in text[p..] && text[p] != 0
    ensures var d := Decode(text, p);
      && d.cp < 0x20_0000
      && (text[p..d.next] == Encode(d.cp) <==> Smallest(d.next - p) <= d.cp && (d.next == p + 1 ==> text[p] < 128))
  {
    var d := Decode(text, p);
    var t, n := text[p..d.next], d.next - p;
    if n == 1 {
      assert t == [text[p]];
    } else if n == 2 {
      assert t == [text[p], text[p + 1]];
      TwoBytes(text[p], text[p + 1], d.cp);
    } else if n == 3 {
      assert t == [text[p], text[p + 1], text[p + 2]];
      ThreeBytes(text[p], text[p + 1], text[p + 2], d.cp);
    } else {
      assert t == [text[p], text[p + 1], text[p + 2], text[p + 3]];
      FourBytes(text[p], text[p + 1], text[p + 2], text[p + 3], d.cp);
    }
  }

  // ----- The decoder -----

  lemma Shifted(x: nat, n: nat, p: nat)
    requires p == Pow2(n)
    ensures Shl(x, n) == x * p
  {
    ShlOne(n, x);
  }

  lemma Joined(x: nat, y: nat, n: nat, p: nat)
    requires y < p && p == Pow2(n)
    ensures Or(x * p, y) == x * p + y
  {
    OrSum(x * p, x, y, n);
  }

  lemma JoinTwo(a: nat, b: nat)
    requires b < 64
    ensures Or(Shl(a, 6), b) == a * 64 + b
  {
    SmallPowers();
    Shifted(a, 6, 64);
    Joined(a, b, 6, 64);
  }

  lemma JoinThree(a: nat, b: nat, c: nat)
    requires b < 64 && c < 64
    ensures Or(Or(Shl(a, 12), Shl(b, 6)), c) == a * 4096 + b * 64 + c
  {
    SmallPowers();
    Shifted(a, 12, 4096);
    Shifted(b, 6, 64);
    Joined(a, b * 64, 12, 4096);
    Joined(a * 64 + b, c, 6, 64);
  }

  lemma JoinFour(a: nat, b: nat, c: nat, d: nat)
    requires b < 64 && c < 64 && d < 64
    ensures Or(Or(Or(Shl(a, 18), Shl(b, 12)), Shl(c, 6)), d) == a * 262144 + b * 4096 + c * 64 + d
  {
    SmallPowers();
    Shifted(a, 18, 262144);
    Shifted(b, 12, 4096);
    Shifted(c, 6, 64);
    Joined(a, b * 4096, 18, 262144);
    Joined(a * 64 + b, c * 64, 12, 4096);
    Joined(a * 4096 + b * 64 + c, d, 6, 64);
  }

  // The masks and shifts of the source; what they come to is in the postconditions.

  function Masked(b: byte, mask: nat): (r: nat)
    ensures mask == 0x80 ==> r == b / 128 * 128
    ensures mask == 0xC0 ==> r == b / 64 * 64
    ensures mask == 0xE0 ==> r == b / 32 * 32
    ensures mask == 0xF0 ==> r == b / 16 * 16
    ensures mask == 0xF8 ==> r == b / 8 * 8
    ensures mask == 0x3F ==> r == b % 64
    ensures mask == 0x1F ==> r == b % 32
    ensures mask == 0x0F ==> r == b % 16
    ensures mask == 0x07 ==> r == b % 8
  {
    ByteMasks(b);
    And(b, mask)
  }

  function AsTwo(a: byte, b: byte): (cp: nat)
    ensures cp == Two(a, b)
  {
    JoinTwo(Masked(a, 0x1F), Masked(b, 0x3F));
    Or(Shl(Masked(a, 0x1F), 6), Masked(b, 0x3F))
  }

  function AsThree(a: byte, b: byte, c: byte): (cp: nat)
    ensures cp == Three(a, b, c)
  {
    JoinThree(Masked(a, 0x0F), Masked(b, 0x3F), Masked(c, 0x3F));
    Or(Or(Shl(Masked(a, 0x0F), 12), Shl(Masked(b, 0x3F), 6)), Masked(c, 0x3F))
  }

  function AsFour(a: byte, b: byte, c: byte, d: byte): (cp: nat)
    ensures cp == Four(a, b, c, d)
  {
    JoinFour(Masked(a, 0x07), Masked(b, 0x3F), Masked(c, 0x3F), Masked(d, 0x3F));
    Or(Or(Or(Shl(Masked(a, 0x07), 18), Shl(Masked(b, 0x3F), 12)), Shl(Masked(c, 0x3F), 6)), Masked(d, 0x3F))
  }

  predicate SingleByte(b: byte)
    ensures SingleByte(b) == (b < 128)
  {
    Masked(b, 0x80) == 0
  }

  predicate TailByte(b: byte)
    ensures TailByte(b) == Continuation(b)
  {
    Masked(b, 0xC0) == 0x80
  }

  predicate LeadOfTwo(b: byte)
    ensures LeadOfTwo(b) == (192 <= b < 224)
  {
    Masked(b, 0xE0) == 0xC0
  }

  predicate LeadOfThree(b: byte)
    ensures LeadOfThree(b) == (224 <= b < 240)
  {
    Masked(b, 0xF0) == 0xE0
  }

  predicate LeadOfFour(b: byte)
    ensures LeadOfFour(b) == (240 <= b < 248)
  {
    Masked(b, 0xF8) == 0xF0
  }

  /** utf8_decode_one: the character at p, and where the text goes on. */
  method DecodeOne(text: array<byte>, p: nat) returns (cp: nat, next: nat)
    requires p < text.Length && 0 in text[..][p..]
    ensures Decoded(cp, next) == Decode(text[..], p)
  {
    Ahead(text[..], p);
    if text[p] == 0 { return 0, p; }
    if SingleByte(text[p]) { return text[p], p + 1; }
    if LeadOfTwo(text[p]) && TailByte(text[p + 1]) {
      return AsTwo(text[p], text[p + 1]), p + 2;
    }
    if LeadOfThree(text[p]) && TailByte(text[p + 1]) && TailByte(text[p + 2]) {
      return AsThree(text[p], text[p + 1], text[p + 2]), p + 3;
    }
    if LeadOfFour(text[p]) && TailByte(text[p + 1]) && TailByte(text[p + 2]) && TailByte(text[p + 3]) {
      return AsFour(text[p], text[p + 1], text[p + 2], text[p + 3]), p + 4;
    }
    return QUESTION_MARK, p + 1;
  }
}
