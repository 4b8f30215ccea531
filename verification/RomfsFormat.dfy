// The bytes of a ROMFS image: big-endian words, checksums, file headers.

module RomfsFormat {
  type Byte = x: int | 0 <= x < 0x100
  type Word = x: int | 0 <= x < 0x1_0000_0000

  const ROMFH_HRD := 0
  const ROMFH_DIR := 1
  const ROMFH_REG := 2
  const ROMFH_EXEC := 8

  // ----- Words -----

  /** The bytes `__htonl` leaves in memory on a little-endian host. */
  function Be32(x: Word): (s: seq<Byte>)
    ensures |s| == 4
  {
    [x / 0x100_0000, x / 0x1_0000 % 0x100, x / 0x100 % 0x100, x % 0x100]
  }

  function FromBe32(s: seq<Byte>): Word
    requires |s| >= 4
  {
    0x100_0000 * s[0] as int + 0x1_0000 * s[1] as int + 0x100 * s[2] as int + s[3] as int
  }

  lemma Be32RoundTrip(x: Word)
    ensures FromBe32(Be32(x)) == x
  {
    assert x == 0x100 * (x / 0x100) + x % 0x100;
    var y := x / 0x100;
    assert y == 0x100 * (y / 0x100) + y % 0x100;
    assert x / 0x1_0000 == y / 0x100;
    var z := y / 0x100;
    assert z == 0x100 * (z / 0x100) + z % 0x100;
    assert x / 0x100_0000 == z / 0x100;
  }

  /** Byte strings in the order of a dictionary. */
  predicate Precedes(a: seq<Byte>, b: seq<Byte>) {
    a != [] && b != [] && (a[0] < b[0] || (a[0] == b[0] && Precedes(a[1..], b[1..])))
  }

  lemma PrecedesFour(a: seq<Byte>, b: seq<Byte>)
    requires |a| == |b| == 4
    ensures Precedes(a, b) <==>
              || a[0] < b[0]
              || (a[0] == b[0] && (a[1] < b[1] || (a[1] == b[1] && (a[2] < b[2] || (a[2] == b[2] && a[3] < b[3])))))
  {
    assert Precedes(a[1..], b[1..]) <==> a[1] < b[1] || (a[1] == b[1] && Precedes(a[1..][1..], b[1..][1..]));
    assert a[1..][1..] == a[2..] && b[1..][1..] == b[2..];
    assert Precedes(a[2..], b[2..]) <==> a[2] < b[2] || (a[2] == b[2] && Precedes(a[2..][1..], b[2..][1..]));
    assert a[2..][1..] == a[3..] && b[2..][1..] == b[3..];
    assert Precedes(a[3..], b[3..]) <==> a[3] < b[3] || (a[3] == b[3] && Precedes(a[3..][1..], b[3..][1..]));
  }

  lemma FourDigits(a: seq<Byte>, b: seq<Byte>)
    requires |a| == |b| == 4
    ensures FromBe32(a) < FromBe32(b) <==>
              || a[0] < b[0]
              || (a[0] == b[0] && (a[1] < b[1] || (a[1] == b[1] && (a[2] < b[2] || (a[2] == b[2] && a[3] < b[3])))))
  {
  }

  /** Words are stored most significant byte first: their bytes are in the order they are in. */
  lemma BigEndian(x: Word, y: Word)
    ensures x < y <==> Precedes(Be32(x), Be32(y))
  {
    Be32RoundTrip(x);
    Be32RoundTrip(y);
    hide Be32, FromBe32, Precedes;
    PrecedesFour(Be32(x), Be32(y));
    FourDigits(Be32(x), Be32(y));
  }

  // ----- Bit operations -----

  /** Bitwise or. */
  function Or(a: nat, b: nat): nat {
    if a == 0 && b == 0 then 0
    else 2 * Or(a / 2, b / 2) + (if a % 2 == 1 || b % 2 == 1 then 1 else 0)
  }

  /** The bits of `a` that are not bits of `b`. */
  function AndNot(a: nat, b: nat): nat {
    if a == 0 then 0
    else 2 * AndNot(a / 2, b / 2) + (if a % 2 == 1 && b % 2 == 0 then 1 else 0)
  }

  lemma {:induction false} OrZero(a: nat)
    ensures Or(a, 0) == a
    decreases a
  {
    if a > 0 {
      OrZero(a / 2);
    }
  }

  lemma {:induction false} AndNotZero(a: nat)
    ensures AndNot(a, 0) == a
    decreases a
  {
    if a > 0 {
      AndNotZero(a / 2);
    }
  }

  lemma OrDouble(m: nat, b: nat, f: nat)
    requires Or(m + b / 2, f / 2) == m + Or(b / 2, f / 2)
    ensures Or(2 * m + b, f) == 2 * m + Or(b, f)
  {
    assert (2 * m + b) / 2 == m + b / 2 && (2 * m + b) % 2 == b % 2;
    if b == 0 && f == 0 {
      OrZero(2 * m);
    }
  }

  lemma OrTwo(m: nat, b: nat, f: nat)
    requires b < 2 && f < 2
    ensures Or(2 * m + b, f) == 2 * m + Or(b, f)
  {
    OrZero(m);
    OrZero(0);
    OrDouble(m, b, f);
  }

  lemma OrFour(m: nat, b: nat, f: nat)
    requires b < 4 && f < 4
    ensures Or(4 * m + b, f) == 4 * m + Or(b, f)
  {
    OrTwo(m, b / 2, f / 2);
    OrDouble(2 * m, b, f);
  }

  lemma OrEight(m: nat, b: nat, f: nat)
    requires b < 8 && f < 8
    ensures Or(8 * m + b, f) == 8 * m + Or(b, f)
  {
    OrFour(m, b / 2, f / 2);
    OrDouble(4 * m, b, f);
  }

  /** Flags below 16 never touch a 16-byte aligned offset. */
  lemma OrFlags(m: nat, b: nat, f: nat)
    requires b < 16 && f < 16
    ensures Or(16 * m + b, f) == 16 * m + Or(b, f)
  {
    OrEight(m, b / 2, f / 2);
    OrDouble(8 * m, b, f);
  }

  lemma AndNotOne(m: nat, b: nat)
    requires b < 2
    ensures AndNot(2 * m + b, 1) == 2 * m
  {
    assert (2 * m + b) / 2 == m;
    AndNotZero(m);
  }

  lemma AndNotTwo(m: nat, b: nat)
    requires b < 2
    ensures AndNot(4 * m + 2 * b, 2) == 4 * m
  {
    assert (4 * m + 2 * b) / 2 == 2 * m + b;
    AndNotOne(m, b);
  }

  lemma AndNotFour(m: nat, b: nat)
    requires b < 2
    ensures AndNot(8 * m + 4 * b, 4) == 8 * m
  {
    assert (8 * m + 4 * b) / 2 == 4 * m + 2 * b;
    AndNotTwo(m, b);
  }

  lemma AndNotExec(m: nat, b: nat)
    requires b < 2
    ensures AndNot(16 * m + ROMFH_EXEC * b, ROMFH_EXEC) == 16 * m
  {
    assert (16 * m + 8 * b) / 2 == 8 * m + 4 * b;
    AndNotFour(m, b);
  }

  // ----- The low bits of a next pointer -----

  datatype Kind = Link | Directory | Regular | Special

  /** The next pointer of a header: the sibling's offset with type and exec bits or-ed in. */
  function NextField(next: nat, kind: Kind, exec: bool): nat {
    var n := if exec && kind != Special then Or(next, ROMFH_EXEC) else next;
    match kind
    case Link => AndNot(Or(n, ROMFH_HRD), ROMFH_EXEC)
    case Directory => Or(n, ROMFH_DIR)
    case Regular => Or(n, ROMFH_REG)
    case Special => n
  }

  lemma OrNext(m: nat)
    ensures Or(16 * m, ROMFH_EXEC) == 16 * m + ROMFH_EXEC
    ensures Or(16 * m, ROMFH_DIR) == 16 * m + ROMFH_DIR
    ensures Or(16 * m, ROMFH_REG) == 16 * m + ROMFH_REG
    ensures Or(16 * m + ROMFH_EXEC, ROMFH_DIR) == 16 * m + ROMFH_EXEC + ROMFH_DIR
    ensures Or(16 * m + ROMFH_EXEC, ROMFH_REG) == 16 * m + ROMFH_EXEC + ROMFH_REG
  {
    OrFlags(m, 0, ROMFH_EXEC);
    OrFlags(m, 0, ROMFH_DIR);
    OrFlags(m, 0, ROMFH_REG);
    OrFlags(m, ROMFH_EXEC, ROMFH_DIR);
    OrFlags(m, ROMFH_EXEC, ROMFH_REG);
    assert Or(0, 8) == 8 && Or(0, 1) == 1 && Or(0, 2) == 2 && Or(8, 1) == 9 && Or(8, 2) == 10;
  }

  function TypeBits(kind: Kind): nat {
    match kind
    case Link => ROMFH_HRD
    case Directory => ROMFH_DIR
    case _ => ROMFH_REG
  }

  function ExecBit(kind: Kind, exec: bool): nat {
    if exec && kind != Link then 1 else 0
  }

  lemma NextFieldValue(next: nat, kind: Kind, exec: bool)
    requires next % 16 == 0 && kind != Special
    ensures NextField(next, kind, exec) == next + TypeBits(kind) + 8 * ExecBit(kind, exec)
  {
    var m := next / 16;
    assert next == 16 * m;
    OrNext(m);
    OrZero(next);
    OrZero(next + ROMFH_EXEC);
    AndNotExec(m, 0);
    AndNotExec(m, 1);
  }

  lemma DigitParts(m: nat, t: nat, e: nat)
    requires t < 8 && e < 2
    ensures (16 * m + t + 8 * e) / 16 == m && (16 * m + t + 8 * e) % 8 == t && (16 * m + t + 8 * e) / 8 == 2 * m + e
  {
  }

  lemma SmallBits(kind: Kind, exec: bool)
    ensures TypeBits(kind) < 8 && ExecBit(kind, exec) < 2
  {
  }

  /** Offset, type and exec bit of a next pointer never mix; hard links lose the exec bit. */
  lemma NextFieldParts(next: nat, kind: Kind, exec: bool)
    requires next % 16 == 0 && kind != Special
    ensures var f := NextField(next, kind, exec);
            && f / 16 * 16 == next && f % 8 == TypeBits(kind) && f / 8 % 2 == ExecBit(kind, exec)
  {
    NextFieldValue(next, kind, exec);
    SmallBits(kind, exec);
    hide NextField, TypeBits, ExecBit;
    DigitParts(next / 16, TypeBits(kind), ExecBit(kind, exec));
  }

  // ----- Sizes -----

  function Align16(x: nat): (r: nat)
    ensures r % 16 == 0 && x <= r < x + 16
  {
    (x + 15) / 16 * 16
  }

  function Zeros(n: nat): (z: seq<Byte>)
    ensures |z| == n && forall i :: 0 <= i < n ==> z[i] == 0
  {
    seq(n, i => 0)
  }

  /** A name with its terminator, filled up to a multiple of 16. */
  function PaddedName(name: seq<Byte>): (s: seq<Byte>)
    ensures |s| == Align16(|name| + 1)
  {
    name + Zeros(Align16(|name| + 1) - |name|)
  }

  // ----- Checksums -----

  /** The sum of the big-endian words of `s`; bytes beyond the last whole word do not count. */
  function WordSum(s: seq<Byte>): nat {
    if |s| < 4 then 0 else FromBe32(s) + WordSum(s[4..])
  }

  /** The two's complement negation of a 32-bit sum. */
  function Negated(sum: nat): Word {
    (0x1_0000_0000 - sum % 0x1_0000_0000) % 0x1_0000_0000
  }

  ghost predicate SumsToZero(s: seq<Byte>) {
    WordSum(s) % 0x1_0000_0000 == 0
  }

  /** `fixsum`: the word at 12 replaced so that the first `n` bytes sum to zero. */
  function FixSum(s: seq<Byte>, n: nat): (r: seq<Byte>)
    requires 16 <= |s| && n <= |s|
    ensures |r| == |s| && r[..12] == s[..12] && r[16..] == s[16..]
  {
    s[..12] + Be32(Negated(WordSum((s[..12] + Be32(0) + s[16..])[..n]))) + s[16..]
  }

  lemma {:induction false} WordSumAppend(a: seq<Byte>, b: seq<Byte>)
    requires |a| % 4 == 0
    ensures WordSum(a + b) == WordSum(a) + WordSum(b)
    decreases |a|
  {
    if a == [] {
      assert a + b == b;
    } else {
      assert (a + b)[4..] == a[4..] + b;
      WordSumAppend(a[4..], b);
    }
  }

  function Words(ws: seq<Word>): (s: seq<Byte>)
    ensures |s| == 4 * |ws|
  {
    if ws == [] then [] else Be32(ws[0]) + Words(ws[1..])
  }

  function Sum(ws: seq<Word>): nat {
    if ws == [] then 0 else ws[0] as int + Sum(ws[1..])
  }

  /** The checksum of stored words is their sum, whatever odd bytes come behind. */
  lemma {:induction false} WordsSum(ws: seq<Word>, odd: seq<Byte>)
    requires |odd| < 4
    ensures WordSum(Words(ws) + odd) == Sum(ws)
  {
    if ws == [] {
      assert Words(ws) + odd == odd;
    } else {
      WordsSum(ws[1..], odd);
      WordFirst(ws[0], Words(ws[1..]) + odd);
      assert Words(ws) + odd == Be32(ws[0]) + (Words(ws[1..]) + odd);
    }
  }

  lemma WordFirst(w: Word, rest: seq<Byte>)
    ensures WordSum(Be32(w) + rest) == w as int + WordSum(rest)
  {
    Be32RoundTrip(w);
    hide Be32;
    assert (Be32(w) + rest)[4..] == rest;
    assert FromBe32(Be32(w) + rest) == FromBe32(Be32(w));
  }

  lemma NegatedCancels(sum: nat)
    ensures (sum + Negated(sum)) % 0x1_0000_0000 == 0
  {
  }

  lemma FixSumZero(s: seq<Byte>, n: nat)
    requires 16 <= n <= |s|
    ensures SumsToZero(FixSum(s, n)[..n])
  {
    var pre, post := s[..12], s[16..n];
    var sum := WordSum(pre + Be32(0) + post);
    var ck := Be32(Negated(sum));
    assert (s[..12] + Be32(0) + s[16..])[..n] == pre + Be32(0) + post;
    assert FixSum(s, n)[..n] == pre + ck + post;
    forall w: seq<Byte> | |w| == 4
      ensures WordSum(pre + w + post) == WordSum(pre) + FromBe32(w) + WordSum(post)
    {
      WordSumAppend(pre + w, post);
      WordSumAppend(pre, w);
      assert WordSum(w) == FromBe32(w) + WordSum(w[4..]);
    }
    Be32RoundTrip(Negated(sum));
    NegatedCancels(sum);
  }

  // ----- Headers -----

  /** The four words and the name as they are before the checksum is fixed. */
  function RawHeader(nextfh: Word, spec: Word, size: Word, name: seq<Byte>): (s: seq<Byte>)
    ensures |s| == 16 + Align16(|name| + 1)
  {
    Be32(nextfh) + Be32(spec) + Be32(size) + Be32(0x5555_5555) + PaddedName(name)
  }

  /** A file header, checksum and all. */
  function Header(nextfh: Word, spec: Word, size: Word, name: seq<Byte>): (s: seq<Byte>)
    ensures |s| == 16 + Align16(|name| + 1)
  {
    FixSum(RawHeader(nextfh, spec, size, name), 16 + Align16(|name| + 1))
  }
}
