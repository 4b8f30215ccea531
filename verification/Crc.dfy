// CoreMark's bit-serial 16-bit CRC, its reading as polynomial division over
// GF(2), and the errors it is certain to detect.

module Crc {

  /** Bit `j` of a register; the register has none beyond 15. */
  predicate Bit(x: bv16, j: nat) {
    if j == 0 then x & 0x0001 != 0 else
    if j == 1 then x & 0x0002 != 0 else
    if j == 2 then x & 0x0004 != 0 else
    if j == 3 then x & 0x0008 != 0 else
    if j == 4 then x & 0x0010 != 0 else
    if j == 5 then x & 0x0020 != 0 else
    if j == 6 then x & 0x0040 != 0 else
    if j == 7 then x & 0x0080 != 0 else
    if j == 8 then x & 0x0100 != 0 else
    if j == 9 then x & 0x0200 != 0 else
    if j == 10 then x & 0x0400 != 0 else
    if j == 11 then x & 0x0800 != 0 else
    if j == 12 then x & 0x1000 != 0 else
    if j == 13 then x & 0x2000 != 0 else
    if j == 14 then x & 0x4000 != 0 else
    if j == 15 then x & 0x8000 != 0 else false
  }

  /** The bits of a word, lowest first. */
  function BitsOf(v: bv16): (bits: seq<bool>)
    ensures |bits| == 16 && forall j :: 0 <= j < 16 ==> bits[j] == Bit(v, j)
  {
    seq(16, j requires 0 <= j => Bit(v, j))
  }

  /** The number bits stand for, lowest first. */
  function Number(bits: seq<bool>): nat {
    if bits == [] then 0 else (if bits[0] then 1 else 0) + 2 * Number(bits[1..])
  }

  // ----- The code -----

  /** One round of the loop: take in bit `b`, shift right, feed back 0xA001. */
  function Step(b: bool, crc: bv16): bv16 {
    if b != (crc & 1 == 1) then ((crc ^ 0x4002) >> 1) | 0x8000 else (crc >> 1) & 0x7fff
  }

  /** The register after the bits of `msg`, first bit first. */
  function Feed(msg: seq<bool>, crc: bv16): bv16
    decreases |msg|
  {
    if msg == [] then crc else Feed(msg[1..], Step(msg[0], crc))
  }

  /** The low `n` bits of `d` in the order the loop consumes them. */
  function Bits(d: bv8, n: nat): (bits: seq<bool>)
    ensures |bits| == n
  {
    if n == 0 then [] else [d & 1 == 1] + Bits(d >> 1, n - 1)
  }

  lemma FeedAppend(a: seq<bool>, b: seq<bool>, crc: bv16)
    ensures Feed(a + b, crc) == Feed(b, Feed(a, crc))
    decreases |a|
  {
    if a == [] {
      assert a + b == b;
    } else {
      assert (a + b)[1..] == a[1..] + b;
      FeedAppend(a[1..], b, Step(a[0], crc));
    }
  }

  lemma FeedFirstBit(d: bv8, n: nat, crc: bv16)
    requires n > 0
    ensures Feed(Bits(d, n), crc) == Feed(Bits(d >> 1, n - 1), Step(d & 1 == 1, crc))
  {
    assert Bits(d, n)[1..] == Bits(d >> 1, n - 1);
  }

  method CrcU8(data: bv8, crc: bv16) returns (r: bv16)
    ensures r == Feed(Bits(data, 8), crc) == Feed(BitsOf(data as bv16)[..8], crc)
  {
    ByteBits(data);
    r := crc;
    var d := data;
    for i := 0 to 8
      invariant Feed(Bits(data, 8), crc) == Feed(Bits(d, 8 - i), r)
    {
      FeedFirstBit(d, 8 - i, r);
      var x16 := (d & 1 == 1) != (r & 1 == 1);
      r := Shift(x16, r);
      d := d >> 1;
    }
  }

  /** The register half of a round. */
  method Shift(x16: bool, crc: bv16) returns (r: bv16)
    ensures r == Step(x16 != (crc & 1 == 1), crc)
  {
    r := crc;
    var carry: bool;
    if x16 {
      r := r ^ 0x4002;
      carry := true;
    } else {
      carry := false;
    }
    r := r >> 1;
    if carry {
      r := r | 0x8000;
    } else {
      r := r & 0x7fff;
    }
  }

  function BytesBits(bytes: seq<bv8>): (bits: seq<bool>)
    ensures |bits| == 8 * |bytes|
  {
    if bytes == [] then [] else Bits(bytes[0], 8) + BytesBits(bytes[1..])
  }

  /** `crcu8` folded over a byte sequence. */
  function Fold(bytes: seq<bv8>, crc: bv16): bv16
    decreases |bytes|
  {
    if bytes == [] then crc else Fold(bytes[1..], Feed(Bits(bytes[0], 8), crc))
  }

  lemma {:induction false} FoldIsFeed(bytes: seq<bv8>, crc: bv16)
    ensures Fold(bytes, crc) == Feed(BytesBits(bytes), crc)
    decreases |bytes|
  {
    if bytes != [] {
      FeedAppend(Bits(bytes[0], 8), BytesBits(bytes[1..]), crc);
      FoldIsFeed(bytes[1..], Feed(Bits(bytes[0], 8), crc));
    }
  }

  function LittleEndian16(v: bv16): seq<bv8> {
    [(v & 0xff) as bv8, (v >> 8) as bv8]
  }

  function LittleEndian32(v: bv32): seq<bv8> {
    LittleEndian16((v & 0xffff) as bv16) + LittleEndian16((v >> 16) as bv16)
  }

  function Crc16(v: bv16, crc: bv16): bv16 {
    Fold(LittleEndian16(v), crc)
  }

  lemma FoldTwo(a: bv8, b: bv8, crc: bv16)
    ensures Fold([a, b], crc) == Feed(Bits(b, 8), Feed(Bits(a, 8), crc))
  {
    assert [a, b][1..] == [b];
    assert Fold([b], Feed(Bits(a, 8), crc)) == Fold([b][1..], Feed(Bits(b, 8), Feed(Bits(a, 8), crc)));
  }

  method CrcU16(newval: bv16, crc: bv16) returns (r: bv16)
    ensures r == Fold(LittleEndian16(newval), crc) == Feed(BitsOf(newval), crc)
  {
    WordFed(newval, crc);
    r := CrcU8((newval & 0xff) as bv8, crc);
    r := CrcU8((newval >> 8) as bv8, r);
    FoldTwo((newval & 0xff) as bv8, (newval >> 8) as bv8, crc);
  }

  lemma FoldAppend(a: seq<bv8>, b: seq<bv8>, crc: bv16)
    ensures Fold(a + b, crc) == Fold(b, Fold(a, crc))
    decreases |a|
  {
    if a == [] {
      assert a + b == b;
    } else {
      assert (a + b)[1..] == a[1..] + b;
      FoldAppend(a[1..], b, Feed(Bits(a[0], 8), crc));
    }
  }

  method CrcU32(newval: bv32, crc: bv16) returns (r: bv16)
    ensures r == Fold(LittleEndian32(newval), crc)
              == Feed(BitsOf((newval & 0xffff) as bv16) + BitsOf((newval >> 16) as bv16), crc)
  {
    LongFed(newval, crc);
    r := CrcU16((newval & 0xffff) as bv16, crc);
    r := CrcU16((newval >> 16) as bv16, r);
    FoldAppend(LittleEndian16((newval & 0xffff) as bv16), LittleEndian16((newval >> 16) as bv16), crc);
  }

  // ----- Bit by bit, lowest first -----

  lemma FirstBit(d: bv8, n: nat)
    requires n > 0
    ensures Bits(d, n) == [d & 1 == 1] + Bits(d >> 1, n - 1)
  {
  }

  lemma FourBits(d: bv8, n: nat)
    requires n >= 4
    ensures Bits(d, n) == [d & 0x01 != 0, d & 0x02 != 0, d & 0x04 != 0, d & 0x08 != 0] + Bits(d >> 4, n - 4)
  {
    hide Bits;
    ShiftedDown(d);
    FirstBit(d, n);
    FirstBit(d >> 1, n - 1);
    FirstBit(d >> 2, n - 2);
    FirstBit(d >> 3, n - 3);
  }

  lemma BitsUnrolled(d: bv8)
    ensures Bits(d, 8) == [d & 0x01 != 0, d & 0x02 != 0, d & 0x04 != 0, d & 0x08 != 0,
                           d & 0x10 != 0, d & 0x20 != 0, d & 0x40 != 0, d & 0x80 != 0]
  {
    assert Bits(0, 0) == [];
    hide Bits;
    FourBits(d, 8);
    FourBits(d >> 4, 4);
    HighNibble(d);
  }

  lemma HighNibble(d: bv8)
    ensures var h := d >> 4;
            && (h & 0x01 != 0 <==> d & 0x10 != 0) && (h & 0x02 != 0 <==> d & 0x20 != 0)
            && (h & 0x04 != 0 <==> d & 0x40 != 0) && (h & 0x08 != 0 <==> d & 0x80 != 0) && h >> 4 == 0
  {
  }

  lemma ShiftedDown(d: bv8)
    ensures (d >> 1) >> 1 == d >> 2 && (d >> 2) >> 1 == d >> 3 && (d >> 3) >> 1 == d >> 4
    ensures (d & 1 == 1 <==> d & 0x01 != 0) && ((d >> 1) & 1 == 1 <==> d & 0x02 != 0)
    ensures ((d >> 2) & 1 == 1 <==> d & 0x04 != 0) && ((d >> 3) & 1 == 1 <==> d & 0x08 != 0)
  {
  }

  /** The eight bits of a byte, lowest first. */
  lemma ByteBits(d: bv8)
    ensures Bits(d, 8) == BitsOf(d as bv16)[..8]
  {
    BitsUnrolled(d);
    Widened(d);
  }

  lemma Widened(d: bv8)
    ensures var v := d as bv16;
            && (v & 0x0001 != 0 <==> d & 0x01 != 0) && (v & 0x0002 != 0 <==> d & 0x02 != 0)
            && (v & 0x0004 != 0 <==> d & 0x04 != 0) && (v & 0x0008 != 0 <==> d & 0x08 != 0)
            && (v & 0x0010 != 0 <==> d & 0x10 != 0) && (v & 0x0020 != 0 <==> d & 0x20 != 0)
            && (v & 0x0040 != 0 <==> d & 0x40 != 0) && (v & 0x0080 != 0 <==> d & 0x80 != 0)
  {
  }

  lemma LowHalf(v: bv16)
    ensures var d := (v & 0xff) as bv8;
            && (v & 0x0001 != 0 <==> d & 0x01 != 0) && (v & 0x0002 != 0 <==> d & 0x02 != 0)
            && (v & 0x0004 != 0 <==> d & 0x04 != 0) && (v & 0x0008 != 0 <==> d & 0x08 != 0)
            && (v & 0x0010 != 0 <==> d & 0x10 != 0) && (v & 0x0020 != 0 <==> d & 0x20 != 0)
            && (v & 0x0040 != 0 <==> d & 0x40 != 0) && (v & 0x0080 != 0 <==> d & 0x80 != 0)
  {
  }

  lemma HighHalf(v: bv16)
    ensures var d := (v >> 8) as bv8;
            && (v & 0x0100 != 0 <==> d & 0x01 != 0) && (v & 0x0200 != 0 <==> d & 0x02 != 0)
            && (v & 0x0400 != 0 <==> d & 0x04 != 0) && (v & 0x0800 != 0 <==> d & 0x08 != 0)
            && (v & 0x1000 != 0 <==> d & 0x10 != 0) && (v & 0x2000 != 0 <==> d & 0x20 != 0)
            && (v & 0x4000 != 0 <==> d & 0x40 != 0) && (v & 0x8000 != 0 <==> d & 0x80 != 0)
  {
  }

  /** The message a 16-bit word is fed as is its bits, lowest first. */
  lemma WordBits(v: bv16)
    ensures BytesBits(LittleEndian16(v)) == BitsOf(v)
  {
    var a, b := (v & 0xff) as bv8, (v >> 8) as bv8;
    TwoBytes(a, b);
    LowByte(v);
    HighByte(v);
    hide Bits, BytesBits, Bit;
    assert BitsOf(v) == BitsOf(v)[..8] + BitsOf(v)[8..];
  }

  lemma TwoBytes(a: bv8, b: bv8)
    ensures BytesBits([a, b]) == Bits(a, 8) + Bits(b, 8)
  {
    hide Bits;
    assert [a, b][1..] == [b] && BytesBits([b]) == Bits(b, 8) + [];
  }

  lemma LowByte(v: bv16)
    ensures Bits((v & 0xff) as bv8, 8) == BitsOf(v)[..8]
  {
    hide Bits;
    BitsUnrolled((v & 0xff) as bv8);
    LowHalf(v);
  }

  lemma HighByte(v: bv16)
    ensures Bits((v >> 8) as bv8, 8) == BitsOf(v)[8..]
  {
    hide Bits;
    BitsUnrolled((v >> 8) as bv8);
    HighHalf(v);
  }

  lemma {:induction false} BytesAppend(a: seq<bv8>, b: seq<bv8>)
    ensures BytesBits(a + b) == BytesBits(a) + BytesBits(b)
  {
    if a == [] {
      assert a + b == b;
    } else {
      assert (a + b)[1..] == a[1..] + b;
      BytesAppend(a[1..], b);
    }
  }

  lemma WordFed(v: bv16, crc: bv16)
    ensures Fold(LittleEndian16(v), crc) == Feed(BitsOf(v), crc)
  {
    FoldIsFeed(LittleEndian16(v), crc);
    WordBits(v);
  }

  lemma LongFed(v: bv32, crc: bv16)
    ensures Fold(LittleEndian32(v), crc)
         == Feed(BitsOf((v & 0xffff) as bv16) + BitsOf((v >> 16) as bv16), crc)
  {
    hide LittleEndian16, BitsOf;
    var lo, hi := (v & 0xffff) as bv16, (v >> 16) as bv16;
    FoldIsFeed(LittleEndian32(v), crc);
    BytesAppend(LittleEndian16(lo), LittleEndian16(hi));
    WordBits(lo);
    WordBits(hi);
  }

  /** A word is the number its bits stand for. */
  lemma WordNumber(v: bv16)
    ensures Number(BitsOf(v)) == v as int
  {
    hide Bits, BitsOf, Number, TwoTo;
    LowByte(v);
    HighByte(v);
    HalvesNumber(v);
    ByteNumber((v & 0xff) as bv8);
    ByteNumber((v >> 8) as bv8);
    var bits := BitsOf(v);
    NumberAppend(bits[..8], bits[8..]);
    assert bits == bits[..8] + bits[8..];
  }

  lemma HalvesNumber(v: bv16)
    ensures v as int == ((v & 0xff) as bv8) as int + 256 * (((v >> 8) as bv8) as int)
  {
  }

  lemma LowestNumber(d: bv8)
    ensures d as int == (if d & 1 == 1 then 1 else 0) + 2 * ((d >> 1) as int)
  {
  }

  function TwoTo(n: nat): nat {
    if n == 0 then 1 else 2 * TwoTo(n - 1)
  }

  lemma NumberFirst(x: bool, bits: seq<bool>)
    ensures Number([x] + bits) == (if x then 1 else 0) + 2 * Number(bits)
  {
    assert ([x] + bits)[1..] == bits;
  }

  lemma TwoToMore(n: nat)
    ensures TwoTo(n + 1) == 2 * TwoTo(n)
  {
  }

  lemma {:induction false} NumberAppend(a: seq<bool>, b: seq<bool>)
    ensures Number(a + b) == Number(a) + TwoTo(|a|) * Number(b)
  {
    if a == [] {
      assert a + b == b;
    } else {
      var x, rest := a[0], a[1..];
      assert a == [x] + rest && a + b == [x] + (rest + b);
      NumberAppend(rest, b);
      hide Number, TwoTo;
      NumberFirst(x, rest);
      NumberFirst(x, rest + b);
      TwoToMore(|rest|);
      Doubled(TwoTo(|rest|), Number(b));
    }
  }

  lemma Doubled(t: nat, n: nat)
    ensures 2 * (t * n) == 2 * t * n
  {
  }

  lemma HalfBelow(d: bv8, n: nat)
    requires n > 0 && d as int < TwoTo(n)
    ensures (d >> 1) as int < TwoTo(n - 1)
  {
    LowestNumber(d);
    TwoToMore(n - 1);
  }

  lemma {:induction false} BitsNumber(d: bv8, n: nat)
    requires d as int < TwoTo(n)
    ensures Number(Bits(d, n)) == d as int
  {
    if n > 0 {
      HalfBelow(d, n);
      BitsNumber(d >> 1, n - 1);
      hide Bits, Number, TwoTo;
      FirstBit(d, n);
      LowestNumber(d);
      NumberFirst(d & 1 == 1, Bits(d >> 1, n - 1));
    }
  }

  lemma ByteNumber(d: bv8)
    ensures Number(Bits(d, 8)) == d as int && TwoTo(8) == 256
  {
    assert TwoTo(8) == 4 * TwoTo(6) == 256 by {
      assert TwoTo(6) == 4 * TwoTo(4);
      assert TwoTo(4) == 16;
    }
    BitsNumber(d, 8);
  }

  lemma NextDigit(d: int, x: int, v: int)
    requires d * x == v && -d < v < 2 * d
    ensures 0 <= x <= 1
  {
    assert x >= 2 ==> d * x >= 2 * d;
    assert x < 0 ==> d * x <= -d;
  }

  lemma DivMod(n: nat, d: nat)
    requires d > 0
    ensures n == d * (n / d) + n % d && 0 <= n % d < d
  {
  }

  lemma Halved(n: nat, d: nat)
    requires d > 0
    ensures n / d == 2 * (n / (2 * d)) + n / d % 2
  {
    var q, h := n / d, n / (2 * d);
    DivMod(n, d);
    DivMod(n, 2 * d);
    assert d * (q - 2 * h) == d * q - 2 * d * h;
    NextDigit(d, q - 2 * h, n % (2 * d) - n % d);
  }

  lemma Halvings(n: nat)
    ensures n == 2 * (n / 0x2) + n % 2
    ensures n / 0x2 == 2 * (n / 0x4) + n / 0x2 % 2
    ensures n / 0x4 == 2 * (n / 0x8) + n / 0x4 % 2
    ensures n / 0x8 == 2 * (n / 0x10) + n / 0x8 % 2
    ensures n / 0x10 == 2 * (n / 0x20) + n / 0x10 % 2
    ensures n / 0x20 == 2 * (n / 0x40) + n / 0x20 % 2
    ensures n / 0x40 == 2 * (n / 0x80) + n / 0x40 % 2
    ensures n / 0x80 == 2 * (n / 0x100) + n / 0x80 % 2
    ensures n / 0x100 == 2 * (n / 0x200) + n / 0x100 % 2
    ensures n / 0x200 == 2 * (n / 0x400) + n / 0x200 % 2
    ensures n / 0x400 == 2 * (n / 0x800) + n / 0x400 % 2
    ensures n / 0x800 == 2 * (n / 0x1000) + n / 0x800 % 2
    ensures n / 0x1000 == 2 * (n / 0x2000) + n / 0x1000 % 2
    ensures n / 0x2000 == 2 * (n / 0x4000) + n / 0x2000 % 2
    ensures n / 0x4000 == 2 * (n / 0x8000) + n / 0x4000 % 2
    ensures n / 0x8000 == 2 * (n / 0x1_0000) + n / 0x8000 % 2
    ensures n < 0x1_0000 ==> n / 0x1_0000 == 0
  {
    Halved(n, 0x1);
    Halved(n, 0x2);
    Halved(n, 0x4);
    Halved(n, 0x8);
    Halved(n, 0x10);
    Halved(n, 0x20);
    Halved(n, 0x40);
    Halved(n, 0x80);
    Halved(n, 0x100);
    Halved(n, 0x200);
    Halved(n, 0x400);
    Halved(n, 0x800);
    Halved(n, 0x1000);
    Halved(n, 0x2000);
    Halved(n, 0x4000);
    Halved(n, 0x8000);
  }

  lemma CastBack(n: nat)
    requires n < 0x1_0000
    ensures (n as bv16) as int == n
  {
    Halvings(n);
  }

  /** A number of 16 bits, cast to a word, has the bits that stand for it. */
  lemma CastBits(n: nat, bits: seq<bool>)
    requires n < 0x1_0000 && |bits| == 16 && Number(bits) == n
    ensures BitsOf(n as bv16) == bits
  {
    hide Number, Bit;
    CastBack(n);
    WordNumber(n as bv16);
    NumberInjective(bits, BitsOf(n as bv16));
  }

  /** The CRC of a 16-bit word is the remainder of its bits, lowest first, and two words have it only if they are equal. */
  lemma WordCrc(v: bv16, w: bv16, crc: bv16)
    ensures IsRemainder(Dividend(BitsOf(v), Poly(crc)), Poly(Crc16(v, crc)))
    ensures Number(BitsOf(v)) == v as int
    ensures Crc16(v, crc) == Crc16(w, crc) <==> v as int == w as int
  {
    hide Feed, IsRemainder, Fold, LittleEndian16, Number, Poly, Bit;
    WordFed(v, crc);
    WordFed(w, crc);
    WordNumber(v);
    WordNumber(w);
    CrcIsRemainder(BitsOf(v), crc, Poly(Crc16(v, crc)));
    BurstDetected([], BitsOf(v), BitsOf(w), [], crc);
    assert [] + BitsOf(v) + [] == BitsOf(v) && [] + BitsOf(w) + [] == BitsOf(w);
    if v as int == w as int {
      NumberInjective(BitsOf(v), BitsOf(w));
    }
  }

  lemma {:induction false} NumberInjective(a: seq<bool>, b: seq<bool>)
    requires |a| == |b| && Number(a) == Number(b)
    ensures a == b
  {
    if a != [] {
      NumberInjective(a[1..], b[1..]);
      assert a == [a[0]] + a[1..] && b == [b[0]] + b[1..];
    }
  }

  // ----- Polynomials over GF(2), coefficients listed from the highest degree down -----

  /** x^16 + x^15 + x^2 + 1. */
  const GENERATOR: seq<bool> :=
    [true, true, false, false, false, false, false, false, false,
     false, false, false, false, false, true, false, true]

  function Zeros(n: nat): (z: seq<bool>)
    ensures |z| == n && forall i :: 0 <= i < n ==> !z[i]
  {
    seq(n, i => false)
  }

  /** Sum of two polynomials written with the same number of coefficients. */
  function Xor(a: seq<bool>, b: seq<bool>): (c: seq<bool>)
    requires |a| == |b|
    ensures |c| == |a| && forall i :: 0 <= i < |c| ==> c[i] == (a[i] != b[i])
  {
    seq(|a|, i requires 0 <= i < |a| => a[i] != b[i])
  }

  /** The product of `q` and the generator, by Horner's rule. */
  function TimesGenerator(q: seq<bool>): (p: seq<bool>)
    ensures |p| == |q| + 16
  {
    if q == [] then Zeros(16)
    else
      var n := |q| - 1;
      Xor(TimesGenerator(q[..n]) + [false], Zeros(n) + if q[n] then GENERATOR else Zeros(17))
  }

  /** The register read as a polynomial: bit j is the coefficient of x^(15-j). */
  function Poly(crc: bv16): (p: seq<bool>)
    ensures |p| == 16
  {
    seq(16, j requires 0 <= j => Bit(crc, j))
  }

  /** Multiply by x, add `b` at x^16, and subtract the generator if x^16 is set. */
  function Reduce(b: bool, p: seq<bool>): (r: seq<bool>)
    requires |p| == 16
    ensures |r| == 16
  {
    Xor(p[1..] + [false], if p[0] != b then GENERATOR[1..] else Zeros(16))
  }

  function ReduceAll(msg: seq<bool>, p: seq<bool>): (r: seq<bool>)
    requires |p| == 16
    ensures |r| == 16
    decreases |msg|
  {
    if msg == [] then p else ReduceAll(msg[1..], Reduce(msg[0], p))
  }

  lemma FedBackBits(x: bv16)
    ensures var s := ((x ^ 0x4002) >> 1) | 0x8000;
            && (s & 0x0001 != 0 <==> !(x & 0x0002 != 0))
            && (s & 0x0002 != 0 <==> x & 0x0004 != 0)
            && (s & 0x0004 != 0 <==> x & 0x0008 != 0)
            && (s & 0x0008 != 0 <==> x & 0x0010 != 0)
            && (s & 0x0010 != 0 <==> x & 0x0020 != 0)
            && (s & 0x0020 != 0 <==> x & 0x0040 != 0)
            && (s & 0x0040 != 0 <==> x & 0x0080 != 0)
            && (s & 0x0080 != 0 <==> x & 0x0100 != 0)
            && (s & 0x0100 != 0 <==> x & 0x0200 != 0)
            && (s & 0x0200 != 0 <==> x & 0x0400 != 0)
            && (s & 0x0400 != 0 <==> x & 0x0800 != 0)
            && (s & 0x0800 != 0 <==> x & 0x1000 != 0)
            && (s & 0x1000 != 0 <==> x & 0x2000 != 0)
            && (s & 0x2000 != 0 <==> !(x & 0x4000 != 0))
            && (s & 0x4000 != 0 <==> x & 0x8000 != 0)
            && (s & 0x8000 != 0 <==> !(false))
  {
  }

  lemma FedBackBit(x: bv16, s: bv16, j: nat)
    requires j < 16
    requires s == ((x ^ 0x4002) >> 1) | 0x8000
    ensures Bit(s, j) == (Bit(x, j + 1) != (j == 0 || j == 13 || j == 15))
  {
    FedBackBits(x);
    if j < 8 {
      if j < 4 {
        assert j == 0 || j == 1 || j == 2 || j == 3;
      } else {
        assert j == 4 || j == 5 || j == 6 || j == 7;
      }
    } else {
    }
  }

  lemma ShiftedBits(x: bv16)
    ensures var s := (x >> 1) & 0x7fff;
            && (s & 0x0001 != 0 <==> x & 0x0002 != 0)
            && (s & 0x0002 != 0 <==> x & 0x0004 != 0)
            && (s & 0x0004 != 0 <==> x & 0x0008 != 0)
            && (s & 0x0008 != 0 <==> x & 0x0010 != 0)
            && (s & 0x0010 != 0 <==> x & 0x0020 != 0)
            && (s & 0x0020 != 0 <==> x & 0x0040 != 0)
            && (s & 0x0040 != 0 <==> x & 0x0080 != 0)
            && (s & 0x0080 != 0 <==> x & 0x0100 != 0)
            && (s & 0x0100 != 0 <==> x & 0x0200 != 0)
            && (s & 0x0200 != 0 <==> x & 0x0400 != 0)
            && (s & 0x0400 != 0 <==> x & 0x0800 != 0)
            && (s & 0x0800 != 0 <==> x & 0x1000 != 0)
            && (s & 0x1000 != 0 <==> x & 0x2000 != 0)
            && (s & 0x2000 != 0 <==> x & 0x4000 != 0)
            && (s & 0x4000 != 0 <==> x & 0x8000 != 0)
            && (s & 0x8000 != 0 <==> false)
  {
  }

  lemma ShiftedBit(x: bv16, s: bv16, j: nat)
    requires j < 16
    requires s == (x >> 1) & 0x7fff
    ensures Bit(s, j) == Bit(x, j + 1)
  {
    ShiftedBits(x);
    if j < 8 {
      if j < 4 {
        assert j == 0 || j == 1 || j == 2 || j == 3;
      } else {
        assert j == 4 || j == 5 || j == 6 || j == 7;
      }
    } else {
    }
  }

  lemma ReducedAt(b: bool, p: seq<bool>, j: nat)
    requires |p| == 16 && j < 16
    ensures Reduce(b, p)[j] == ((j < 15 && p[j + 1]) != (p[0] != b && (j == 0 || j == 13 || j == 15)))
  {
    assert GENERATOR[j + 1] == (j == 0 || j == 13 || j == 15);
  }

  /** The code's round is the polynomial round: times x, plus the new bit at x^16, reduced. */
  lemma StepIsReduction(b: bool, crc: bv16)
    ensures Poly(Step(b, crc)) == Reduce(b, Poly(crc))
  {
    var s := Step(b, crc);
    var r := Reduce(b, Poly(crc));
    var t := b != (crc & 1 == 1);
    LowBit(crc);
    BitBeyond(crc);
    forall j | 0 <= j < 16
      ensures Bit(s, j) == r[j]
    {
      ReducedAt(b, Poly(crc), j);
      if t {
        FedBackBit(crc, s, j);
      } else {
        ShiftedBit(crc, s, j);
      }
      hide Bit;
      assert j < 15 ==> Poly(crc)[j + 1] == Bit(crc, j + 1);
    }
  }

  lemma LowBit(x: bv16)
    ensures Poly(x)[0] == (x & 1 == 1)
  {
  }

  lemma BitBeyond(x: bv16)
    ensures !Bit(x, 16)
  {
  }

  lemma {:induction false} FeedIsReduction(msg: seq<bool>, crc: bv16)
    ensures Poly(Feed(msg, crc)) == ReduceAll(msg, Poly(crc))
    decreases |msg|
  {
    if msg != [] {
      StepIsReduction(msg[0], crc);
      FeedIsReduction(msg[1..], Step(msg[0], crc));
    }
  }

  lemma ReduceAllAppend(a: seq<bool>, b: seq<bool>, p: seq<bool>)
    requires |p| == 16
    ensures ReduceAll(a + b, p) == ReduceAll(b, ReduceAll(a, p))
    decreases |a|
  {
    if a == [] {
      assert a + b == b;
    } else {
      assert (a + b)[1..] == a[1..] + b;
      ReduceAllAppend(a[1..], b, Reduce(a[0], p));
    }
  }

  // ----- The CRC is a remainder -----

  /** msg * x^16, plus the initial register over the leading coefficients. */
  function Dividend(msg: seq<bool>, init: seq<bool>): (d: seq<bool>)
    requires |init| == 16
    ensures |d| == |msg| + 16
  {
    Xor(msg + Zeros(16), init + Zeros(|msg|))
  }

  ghost predicate DividesWith(d: seq<bool>, q: seq<bool>, r: seq<bool>) {
    && |d| == |q| + 16
    && |r| == 16
    && d == Xor(TimesGenerator(q), Zeros(|q|) + r)
  }

  /** `d` = q * generator + `r` for some q, with `r` of degree below 16. */
  ghost predicate IsRemainder(d: seq<bool>, r: seq<bool>) {
    exists q :: DividesWith(d, q, r)
  }

  lemma TimesGeneratorOneMore(q: seq<bool>, t: bool, i: nat)
    requires i < |q| + 17
    ensures TimesGenerator(q + [t])[i]
            == ((i < |q| + 16 && TimesGenerator(q)[i]) != (t && i >= |q| && GENERATOR[i - |q|]))
  {
    assert (q + [t])[..|q|] == q;
  }

  lemma DividendMore(msg: seq<bool>, b: bool, init: seq<bool>, i: nat)
    requires |init| == 16 && i < |msg| + 17
    ensures Dividend(msg + [b], init)[i] == (i < |msg| + 16 && Dividend(msg, init)[i] != (i == |msg| && b))
  {
  }

  lemma DividedAt(d: seq<bool>, q: seq<bool>, p: seq<bool>, i: nat)
    requires DividesWith(d, q, p) && i < |q| + 16
    ensures d[i] == (TimesGenerator(q)[i] != (i >= |q| && p[i - |q|]))
  {
  }

  /** Appending a bit to the message extends the quotient by the bit fed back. */
  lemma DivideOneMore(msg: seq<bool>, b: bool, init: seq<bool>, q: seq<bool>, p: seq<bool>)
    requires |init| == 16
    requires DividesWith(Dividend(msg, init), q, p)
    ensures DividesWith(Dividend(msg + [b], init), q + [p[0] != b], Reduce(b, p))
  {
    var n := |msg|;
    var t := p[0] != b;
    var d, d' := Dividend(msg, init), Dividend(msg + [b], init);
    var r := Reduce(b, p);
    var rhs := Xor(TimesGenerator(q + [t]), Zeros(n + 1) + r);
    forall i | 0 <= i < n + 17
      ensures d'[i] == rhs[i]
    {
      hide Dividend, TimesGenerator, DividesWith;
      TimesGeneratorOneMore(q, t, i);
      DividendMore(msg, b, init, i);
      if i < n + 16 {
        DividedAt(d, q, p, i);
      }
    }
    assert d' == rhs;
  }

  lemma {:induction false} QuotientExists(msg: seq<bool>, init: seq<bool>) returns (q: seq<bool>)
    requires |init| == 16
    ensures DividesWith(Dividend(msg, init), q, ReduceAll(msg, init))
    decreases |msg|
  {
    if msg == [] {
      q := [];
      assert Dividend([], init) == Xor(TimesGenerator([]), Zeros(0) + init);
    } else {
      var n := |msg| - 1;
      var q' := QuotientExists(msg[..n], init);
      var p := ReduceAll(msg[..n], init);
      assert msg == msg[..n] + [msg[n]];
      DivideOneMore(msg[..n], msg[n], init, q', p);
      q := q' + [p[0] != msg[n]];
      ReduceAllAppend(msg[..n], [msg[n]], init);
      assert ReduceAll([msg[n]], p) == Reduce(msg[n], p);
    }
  }

  /** The leading coefficients of a multiple of the generator determine the cofactor. */
  lemma {:induction false} QuotientUnique(a: seq<bool>, b: seq<bool>)
    requires |a| == |b|
    requires forall i :: 0 <= i < |a| ==> TimesGenerator(a)[i] == TimesGenerator(b)[i]
    ensures a == b
    decreases |a|
  {
    if a != [] {
      var n := |a| - 1;
      var pa, pb := TimesGenerator(a), TimesGenerator(b);
      var pa', pb' := TimesGenerator(a[..n]), TimesGenerator(b[..n]);
      forall i | 0 <= i < n
        ensures pa'[i] == pb'[i]
      {
        assert pa[i] == pa'[i] && pb[i] == pb'[i];
      }
      QuotientUnique(a[..n], b[..n]);
      assert pa[n] == (pa'[n] != a[n]) && pb[n] == (pb'[n] != b[n]);
      assert a == a[..n] + [a[n]] && b == b[..n] + [b[n]];
    }
  }

  lemma {:induction false} RemainderUnique(d: seq<bool>, q: seq<bool>, r: seq<bool>, q': seq<bool>, r': seq<bool>)
    requires DividesWith(d, q, r) && DividesWith(d, q', r')
    ensures r == r'
  {
    var n := |q|;
    forall i | 0 <= i < n
      ensures TimesGenerator(q)[i] == TimesGenerator(q')[i]
    {
      assert d[i] == TimesGenerator(q)[i] && d[i] == TimesGenerator(q')[i];
    }
    QuotientUnique(q, q');
    forall i | 0 <= i < 16
      ensures r[i] == r'[i]
    {
      assert d[n + i] == (TimesGenerator(q)[n + i] != r[i]);
      assert d[n + i] == (TimesGenerator(q)[n + i] != r'[i]);
    }
  }

  /** The CRC is the remainder of the message polynomial modulo x^16 + x^15 + x^2 + 1, and nothing else is. */
  lemma CrcIsRemainder(msg: seq<bool>, init: bv16, r: seq<bool>)
    ensures IsRemainder(Dividend(msg, Poly(init)), r) <==> r == Poly(Feed(msg, init))
  {
    var d := Dividend(msg, Poly(init));
    var q := QuotientExists(msg, Poly(init));
    FeedIsReduction(msg, init);
    if IsRemainder(d, r) {
      var q' :| DividesWith(d, q', r);
      RemainderUnique(d, q, Poly(Feed(msg, init)), q', r);
    }
  }

  // ----- Errors that cannot go unnoticed -----

  lemma ReduceInjective(b: bool, p: seq<bool>, q: seq<bool>)
    requires |p| == |q| == 16
    requires Reduce(b, p) == Reduce(b, q)
    ensures p == q
  {
    assert Reduce(b, p)[15] == (p[0] != b) && Reduce(b, q)[15] == (q[0] != b);
    var g := if p[0] != b then GENERATOR[1..] else Zeros(16);
    forall i | 1 <= i < 16
      ensures p[i] == q[i]
    {
      assert Reduce(b, p)[i - 1] == (p[i] != g[i - 1]);
      assert Reduce(b, q)[i - 1] == (q[i] != g[i - 1]);
    }
  }

  lemma {:induction false} ReduceAllInjective(msg: seq<bool>, p: seq<bool>, q: seq<bool>)
    requires |p| == |q| == 16
    requires ReduceAll(msg, p) == ReduceAll(msg, q)
    ensures p == q
    decreases |msg|
  {
    if msg != [] {
      ReduceAllInjective(msg[1..], Reduce(msg[0], p), Reduce(msg[0], q));
      ReduceInjective(msg[0], p, q);
    }
  }

  /** A window of bits laid over the leading coefficients. */
  function Over(w: seq<bool>): (p: seq<bool>)
    requires |w| <= 16
    ensures |p| == 16
  {
    w + Zeros(16 - |w|)
  }

  lemma FirstReduced(w: seq<bool>, p: seq<bool>)
    requires 0 < |w| <= 16 && |p| == 16
    ensures Xor(Reduce(w[0], p), Over(w[1..])) == Reduce(false, Xor(p, Over(w)))
  {
    forall j | 0 <= j < 16
      ensures Xor(Reduce(w[0], p), Over(w[1..]))[j] == Reduce(false, Xor(p, Over(w)))[j]
    {
      ReducedAt(w[0], p, j);
      ReducedAt(false, Xor(p, Over(w)), j);
      hide Reduce;
      assert j < 15 ==> Over(w)[j + 1] == Over(w[1..])[j];
    }
  }

  /** Feeding a window of at most 16 bits is adding it to the register and feeding zeros. */
  lemma {:induction false} ReduceWindow(w: seq<bool>, p: seq<bool>)
    requires |w| <= 16 && |p| == 16
    ensures ReduceAll(w, p) == ReduceAll(Zeros(|w|), Xor(p, Over(w)))
    decreases |w|
  {
    hide Reduce, Xor, Over, ReduceAll;
    if w == [] {
      NoWindow(p);
    } else {
      ReduceWindow(w[1..], Reduce(w[0], p));
      FirstReduced(w, p);
      ReducedFirst(w, p);
      ReducedFirst(Zeros(|w|), Xor(p, Over(w)));
      assert Zeros(|w|)[1..] == Zeros(|w| - 1);
    }
  }

  lemma NoWindow(p: seq<bool>)
    requires |p| == 16
    ensures Xor(p, Over([])) == p && Zeros(0) == []
  {
  }

  lemma ReducedFirst(msg: seq<bool>, p: seq<bool>)
    requires msg != [] && |p| == 16
    ensures ReduceAll(msg, p) == ReduceAll(msg[1..], Reduce(msg[0], p))
  {
    hide Reduce;
  }

  lemma {:induction false} BurstReduced(pre: seq<bool>, v: seq<bool>, w: seq<bool>, post: seq<bool>, init: seq<bool>)
    requires |v| == |w| <= 16 && |init| == 16
    requires ReduceAll(pre + v + post, init) == ReduceAll(pre + w + post, init)
    ensures v == w
  {
    var p := ReduceAll(pre, init);
    ReduceAllAppend(pre + v, post, init);
    ReduceAllAppend(pre, v, init);
    ReduceAllAppend(pre + w, post, init);
    ReduceAllAppend(pre, w, init);
    ReduceAllInjective(post, ReduceAll(v, p), ReduceAll(w, p));
    ReduceWindow(v, p);
    ReduceWindow(w, p);
    ReduceAllInjective(Zeros(|v|), Xor(p, Over(v)), Xor(p, Over(w)));
    forall i | 0 <= i < |v|
      ensures v[i] == w[i]
    {
      assert Xor(p, Over(v))[i] == (p[i] != v[i]) && Xor(p, Over(w))[i] == (p[i] != w[i]);
    }
  }

  /** Two messages of equal length that agree outside some 16 consecutive bits get equal CRCs only if they are equal. */
  lemma BurstDetected(pre: seq<bool>, v: seq<bool>, w: seq<bool>, post: seq<bool>, init: bv16)
    requires |v| == |w| <= 16
    ensures Feed(pre + v + post, init) == Feed(pre + w + post, init) <==> v == w
  {
    if Feed(pre + v + post, init) == Feed(pre + w + post, init) {
      FeedIsReduction(pre + v + post, init);
      FeedIsReduction(pre + w + post, init);
      BurstReduced(pre, v, w, post, Poly(init));
    }
  }
}
