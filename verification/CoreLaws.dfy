// What the functions the list and state kernels are measured by come to,
// place by place and bit by bit.

module CoreLaws {
  import opened Common
  import opened CoreList
  import opened CoreBench
  import opened CoreInit
  import Crc

  // ----- The rounds of the search loop -----

  /** What round `i` searches for: the idx goes up with every round, and wraps into the range where the low byte counts. */
  function SoughtIdx(idx: S16, i: nat): S16 {
    if idx < 0 then idx else if idx + i < 0x8000 then idx + i else -0x8000
  }

  predicate Hit(l: Look, idx: S16, byte: nat) {
    if idx >= 0 then l.idx == idx else l.data.lo == byte
  }

  /** The first node of an order that a search hits, or none. */
  predicate FirstHit<T>(order: seq<T>, look: map<T, Look>, idx: S16, byte: nat, k: nat) {
    && k <= |order| && (forall a :: 0 <= a < |order| ==> order[a] in look)
    && (k < |order| ==> Hit(look[order[k]], idx, byte))
    && forall a :: 0 <= a < k ==> !Hit(look[order[a]], idx, byte)
  }

  lemma {:induction false} SoughtIs(idx: S16, i: nat)
    ensures SoughtIn(idx, i) == Sought(SoughtIdx(idx, i), i % 0x100)
    ensures SoughtAfter(idx, i) == Sought(SoughtIdx(idx, i), if i == 0 then 0 else (i - 1) % 0x100)
  {
    if i > 0 {
      SoughtIs(idx, i - 1);
    }
  }

  lemma FirstHitIs<T>(order: seq<T>, look: map<T, Look>, idx: S16, byte: U8, k: nat)
    requires FirstHit(order, look, idx, byte, k)
    ensures FirstAnswer(order, look, Sought(idx, byte)) == k
  {
    FirstAnswerIs(order, look, Sought(idx, byte), k);
  }

  /** Where in the order before the round the node at place `a` was, if the search hit at `k` of `n`. */
  function CameFrom(n: nat, k: nat, a: nat): int {
    if k == 0 || k == n then n - 1 - a
    else if a == 0 then n - 1 else if a == 1 then k - 1 else if a <= n - k then n - a else n - 1 - a
  }

  lemma MovedFrom<T>(s: seq<T>, k: nat, a: nat)
    requires k <= |s| && a < |s|
    ensures var after := if 0 < k < |s| then MovedBehindFirst(Reversed(s), |s| - k) else Reversed(s);
            0 <= CameFrom(|s|, k, a) < |s| == |after| && after[a] == s[CameFrom(|s|, k, a)]
  {
    hide MovedBehindFirst;
    if 0 < k < |s| {
      MovedAt(Reversed(s), |s| - k, a);
    }
  }

  lemma OneRoundMore<T>(s: seq<T>, look: map<T, Look>, idx: S16, i: nat, k: nat)
    requires FirstHit(Arranged(s, look, idx, i), look, SoughtIdx(idx, i), i % 0x100, k)
    ensures k <= |s| && Arranged(s, look, idx, 0) == s
    ensures var before := Arranged(s, look, idx, i);
            && Arranged(s, look, idx, i + 1)
               == (if 0 < k < |s| then MovedBehindFirst(Reversed(before), |s| - k) else Reversed(before))
            && (|s| >= 2 ==>
                  Score(s, look, idx, i + 1)
                  == Score(s, look, idx, i) + RoundBit(before, look, SoughtIn(idx, i)) + (if k < |s| then 4 else -1))
            && FirstAnswer(before, look, SoughtIn(idx, i)) == k
  {
    hide Reversed, FirstAnswer, MovedBehindFirst, SoughtIn, RoundBit;
    SoughtIs(idx, i);
    FirstHitIs(Arranged(s, look, idx, i), look, SoughtIdx(idx, i), i % 0x100, k);
  }

  /** The list is reversed, and the node that then is behind the one found is moved behind the head. */
  lemma RoundMoves<T>(s: seq<T>, look: map<T, Look>, idx: S16, i: nat, k: nat)
    requires FirstHit(Arranged(s, look, idx, i), look, SoughtIdx(idx, i), i % 0x100, k)
    ensures Arranged(s, look, idx, 0) == s
    ensures var before, after := Arranged(s, look, idx, i), Arranged(s, look, idx, i + 1);
            forall a :: 0 <= a < |s| ==> 0 <= CameFrom(|s|, k, a) < |s| && after[a] == before[CameFrom(|s|, k, a)]
  {
    hide *;
    OneRoundMore(s, look, idx, i, k);
    forall a | 0 <= a < |s|
      ensures 0 <= CameFrom(|s|, k, a) < |s|
      ensures Arranged(s, look, idx, i + 1)[a] == Arranged(s, look, idx, i)[CameFrom(|s|, k, a)]
    {
      MovedFrom(Arranged(s, look, idx, i), k, a);
    }
  }

  lemma ValueBits(w: Word)
    ensures var value := 0x100 * w.hi + w.lo;
            value / 0x100 % 2 == w.hi % 2 && value % 2 == w.lo % 2 && value / 0x200 % 2 == w.hi / 2 % 2
  {
  }

  lemma BitScored<T>(before: seq<T>, look: map<T, Look>, info: Sought)
    requires |before| >= 2 && forall a :: 0 <= a < |before| ==> before[a] in look
    ensures var k := FirstAnswer(before, look, info);
            var w := look[before[if k < |before| then k else |before| - 2]].data;
            var value := 0x100 * w.hi + w.lo;
            RoundBit(before, look, info)
            == if k == |before| then value / 0x100 % 2 else if value % 2 == 1 then value / 0x200 % 2 else 0
  {
    hide FirstAnswer;
    var k := FirstAnswer(before, look, info);
    ValueBits(look[before[if k < |before| then k else |before| - 2]].data);
  }

  /**
   * A miss costs one and adds bit 8 of the second node of the reversed list; a hit brings four and, if the value found
   * is odd, its bit 9.
   */
  lemma RoundScores<T>(s: seq<T>, look: map<T, Look>, idx: S16, i: nat, k: nat)
    requires |s| >= 2 && FirstHit(Arranged(s, look, idx, i), look, SoughtIdx(idx, i), i % 0x100, k)
    ensures Score(s, look, idx, 0) == 0
    ensures var before := Arranged(s, look, idx, i);
            var w := look[before[if k < |s| then k else |s| - 2]].data;
            var value := 0x100 * w.hi + w.lo;
            Score(s, look, idx, i + 1) - Score(s, look, idx, i)
            == if k == |s| then value / 0x100 % 2 - 1 else if value % 2 == 1 then value / 0x200 % 2 + 4 else 4
  {
    NoRounds(s, look, idx);
    var before := Arranged(s, look, idx, i);
    assert FirstHit(before, look, SoughtIdx(idx, i), i % 0x100, k);
    hide Arranged, SoughtIn, FirstAnswer, Score, Hit, RoundBit, Reversed, MovedBehindFirst;
    OneRoundMore(s, look, idx, i, k);
    BitScored(before, look, SoughtIn(idx, i));
  }

  // ----- The CRC of a pass -----

  function Times(bits: seq<bool>, n: nat): seq<bool> {
    if n == 0 then [] else bits + Times(bits, n - 1)
  }

  lemma NumberFed(v: U16, bits: seq<bool>, crc: bv16)
    requires |bits| == 16 && Crc.Number(bits) == v
    ensures Crc.Crc16(v as bv16, crc) == Crc.Feed(bits, crc)
  {
    hide Crc.Feed, Crc.Fold, Crc.BitsOf, Crc.Number, Crc.LittleEndian16, Crc.Bit;
    Crc.CastBits(v, bits);
    Crc.WordFed(v as bv16, crc);
  }

  lemma RepeatedOnce(w: Word, n: nat, crc: bv16)
    ensures CrcRepeated(w, 0, crc) == crc
    ensures n > 0 ==> CrcRepeated(w, n, crc) == CrcRepeated(w, n - 1, Crc.Crc16(Value(w) as bv16, crc))
  {
    hide Crc.Crc16, Value;
  }

  /** The CRC over a word `n` times is that of its bits, lowest first, `n` times over. */
  lemma {:induction false} CrcRepeatedIs(w: Word, bits: seq<bool>, n: nat, crc: bv16)
    requires |bits| == 16 && Crc.Number(bits) == 0x100 * w.hi + w.lo
    ensures CrcRepeated(w, n, crc) == Crc.Feed(Times(bits, n), crc)
  {
    assert Value(w) == 0x100 * w.hi + w.lo;
    hide CrcRepeated, Crc.Feed, Crc.Crc16, Crc.Number, Value;
    RepeatedOnce(w, n, crc);
    if n == 0 {
      NothingFed(crc);
    } else {
      NumberFed(Value(w), bits, crc);
      Crc.FeedAppend(bits, Times(bits, n - 1), crc);
      CrcRepeatedIs(w, bits, n - 1, Crc.Feed(bits, crc));
    }
  }

  lemma NothingFed(crc: bv16)
    ensures Crc.Feed([], crc) == crc
  {
  }

  /** What a computation leaves in the record: the CRC goes over its value, and the first nonzero one of each kernel stays. */
  lemma RecordIs(k: Kernel, data: Word, res: Results, v: U16, bits: seq<bool>)
    requires data.lo < 0x80 && |bits| == 16 && Crc.Number(bits) == v
    requires var step := 17 * (data.lo / 8);
             && (data.lo % 8 == 0 ==> v == res.benchState(if step < 34 then 34 else step, k.crc))
             && (data.lo % 8 == 1 ==> v == res.benchMatrix(step, k.crc))
             && (data.lo % 8 >= 2 ==> v == 0x100 * data.hi + data.lo)
    ensures Computed(k, data, res)
         == Kernel(Crc.Feed(bits, k.crc), if data.lo % 8 == 0 && k.crcstate == 0 then v else k.crcstate,
                   if data.lo % 8 == 1 && k.crcmatrix == 0 then v else k.crcmatrix)
  {
    hide Crc.Feed, Crc.Number, Crc.Crc16, Crc.Bit, CalcValue;
    CalcLaw(data, k.crc, res);
    ComputedIs(k, data, res);
    NumberFed(v, bits, k.crc);
  }

  /** What a node shows in the middle of a pass: its low byte is the key of the data sort, if there was one. */
  predicate SortedLook<T>(look: map<T, Look>, shown: map<T, Look>, was: seq<T>, finderIdx: S16, keys: map<T, int>) {
    forall a :: 0 <= a < |was| ==>
      && was[a] in look && was[a] in shown
      && if finderIdx <= 0 then shown[was[a]] == look[was[a]]
         else was[a] in keys && 0 <= keys[was[a]] < 0x80
              && shown[was[a]] == Look(look[was[a]].idx, Word(look[was[a]].data.hi, 0x80 + keys[was[a]]))
  }

  lemma KeyedShows<T>(look: map<T, Look>, shown: map<T, Look>, was: seq<T>, finderIdx: S16, keys: map<T, int>)
    requires SortedLook(look, shown, was, finderIdx, keys)
    ensures forall a :: 0 <= a < |was| ==>
              was[a] in Keyed(look, keys, finderIdx) && Keyed(look, keys, finderIdx)[was[a]] == shown[was[a]]
  {
  }

  lemma MiddleCounted<T>(was: seq<T>, keyed: map<T, Look>, idx: S16, byte: U8, crc: bv16, k: nat)
    requires |was| >= 3 && was[0] in keyed && FirstHit([was[0]] + was[2..], keyed, idx, byte, k)
    ensures MiddleCrc(was, keyed, Sought(idx, byte), crc)
         == CrcRepeated(keyed[was[0]].data, if k == |was| - 1 then |was| - 2 else |was| - 1 - k, crc)
  {
    FirstHitIs([was[0]] + was[2..], keyed, idx, byte, k);
    hide CrcRepeated, FirstAnswer, FirstHit;
  }

  lemma ShownHit<T>(was: seq<T>, look: map<T, Look>, shown: map<T, Look>, finderIdx: S16, keys: map<T, int>, idx: S16,
                    byte: U8, k: nat)
    requires |was| >= 3 && SortedLook(look, shown, was, finderIdx, keys)
    requires FirstHit([was[0]] + was[2..], shown, idx, byte, k)
    ensures FirstHit([was[0]] + was[2..], Keyed(look, keys, finderIdx), idx, byte, k)
    ensures was[0] in shown && was[0] in Keyed(look, keys, finderIdx)
    ensures Keyed(look, keys, finderIdx)[was[0]] == shown[was[0]]
  {
    hide Keyed, SortedLook, Hit;
    KeyedShows(look, shown, was, finderIdx, keys);
    assert was[0] in shown by { assert ([was[0]] + was[2..])[0] == was[0]; }
    var order := [was[0]] + was[2..];
    assert forall a :: 0 <= a < |order| ==> order[a] == was[if a == 0 then 0 else a + 1];
  }

  /**
   * From the score of the searches on, the CRC takes the head's data once for every node from the one the last search
   * hits, the second item left out, or for all behind the head if it hits none.
   */
  lemma MiddleOfPass<T>(nodes: seq<T>, look: map<T, Look>, shown: map<T, Look>, finderIdx: S16, rounds: nat, was: seq<T>,
                        keys: map<T, int>, k: nat)
    requires |nodes| >= 2 && |was| >= 3 && SortedLook(look, shown, was, finderIdx, keys)
    requires FirstHit([was[0]] + was[2..], shown, SoughtIdx(finderIdx, rounds),
                      if rounds == 0 then 0 else (rounds - 1) % 0x100, k)
    ensures was[0] in shown
    ensures ShuffleCrc(nodes, look, finderIdx, rounds, was, keys)
         == CrcRepeated(shown[was[0]].data, if k == |was| - 1 then |was| - 2 else |was| - 1 - k,
                        (Score(nodes, look, finderIdx, rounds) % 0x1_0000) as bv16)
  {
    hide *;
    var byte := if rounds == 0 then 0 else (rounds - 1) % 0x100;
    ShownHit(was, look, shown, finderIdx, keys, SoughtIdx(finderIdx, rounds), byte, k);
    SoughtIs(finderIdx, rounds);
    ShuffleCrcIs(nodes, look, finderIdx, rounds, was, keys);
    MiddleCounted(was, Keyed(look, keys, finderIdx), SoughtIdx(finderIdx, rounds), byte,
                  (Score(nodes, look, finderIdx, rounds) % 0x1_0000) as bv16, k);
  }

  // ----- The items of a list -----

  /** Bits as they are mixed: those of the place and the seed, differing, and in the middle three of the next place. */
  function MixedBits(own: seq<bool>, more: seq<bool>, seeds: seq<bool>): (bits: seq<bool>)
    requires |own| == |more| == |seeds| == 16
    ensures |bits| == 16
  {
    seq(16, b requires 0 <= b < 16 => b < 14 && (own[b] != seeds[b] || (8 <= b < 11 && more[b - 8])))
  }

  lemma LowBitsMixed(i: bv16, next: bv16, seed: bv16)
    ensures forall b: nat | b < 8 :: Crc.Bit(Mixed(i, next, seed), b) == (Crc.Bit(i, b) != Crc.Bit(seed, b))
  {
  }

  lemma MiddleBitsMixed(i: bv16, next: bv16, seed: bv16)
    ensures Crc.Bit(Mixed(i, next, seed), 8) == (Crc.Bit(i, 8) != Crc.Bit(seed, 8) || Crc.Bit(next, 0))
    ensures Crc.Bit(Mixed(i, next, seed), 9) == (Crc.Bit(i, 9) != Crc.Bit(seed, 9) || Crc.Bit(next, 1))
    ensures Crc.Bit(Mixed(i, next, seed), 10) == (Crc.Bit(i, 10) != Crc.Bit(seed, 10) || Crc.Bit(next, 2))
  {
  }

  lemma HighMasksMixed(i: bv16, next: bv16, seed: bv16)
    ensures (Mixed(i, next, seed) & 0x0800 != 0) == ((i & 0x0800 != 0) != (seed & 0x0800 != 0))
    ensures (Mixed(i, next, seed) & 0x1000 != 0) == ((i & 0x1000 != 0) != (seed & 0x1000 != 0))
    ensures (Mixed(i, next, seed) & 0x2000 != 0) == ((i & 0x2000 != 0) != (seed & 0x2000 != 0))
  {
  }

  lemma HighBitsMixed(i: bv16, next: bv16, seed: bv16)
    ensures Crc.Bit(Mixed(i, next, seed), 11) == (Crc.Bit(i, 11) != Crc.Bit(seed, 11))
    ensures Crc.Bit(Mixed(i, next, seed), 12) == (Crc.Bit(i, 12) != Crc.Bit(seed, 12))
    ensures Crc.Bit(Mixed(i, next, seed), 13) == (Crc.Bit(i, 13) != Crc.Bit(seed, 13))
  {
    hide Mixed;
    HighMasksMixed(i, next, seed);
  }

  lemma NoTopBits(y: bv16)
    requires y <= 0x3fff
    ensures !Crc.Bit(y, 14) && !Crc.Bit(y, 15)
  {
  }

  lemma WordMixed(i: bv16, next: bv16, seed: bv16)
    ensures Crc.BitsOf(Mixed(i, next, seed)) == MixedBits(Crc.BitsOf(i), Crc.BitsOf(next), Crc.BitsOf(seed))
  {
    hide Mixed, Crc.Bit;
    LowBitsMixed(i, next, seed);
    MiddleBitsMixed(i, next, seed);
    HighBitsMixed(i, next, seed);
    MixedSmall(i, next, seed);
    NoTopBits(Mixed(i, next, seed));
  }

  lemma MixedNumber(i: bv16, next: bv16, seed: bv16, own: seq<bool>, more: seq<bool>, seeds: seq<bool>)
    requires own == Crc.BitsOf(i) && more == Crc.BitsOf(next) && seeds == Crc.BitsOf(seed)
    ensures Mixed(i, next, seed) as int == Crc.Number(MixedBits(own, more, seeds))
  {
    hide *;
    WordMixed(i, next, seed);
    Crc.WordNumber(Mixed(i, next, seed));
  }

  lemma SeedBits(seed: bv16, seeds: seq<bool>)
    requires |seeds| == 16 && Crc.Number(seeds) == seed as int
    ensures seeds == Crc.BitsOf(seed)
  {
    hide Crc.Number, Crc.Bit;
    Crc.WordNumber(seed);
    Crc.NumberInjective(seeds, Crc.BitsOf(seed));
  }

  lemma IdxByPlace(i: nat, size: nat, seed: bv16)
    ensures i < size / 5 ==> (ItemIdx(i, size, seed) - i) % 0x1_0000 == 0
    ensures i >= size / 5 ==>
              ItemIdx(i, size, seed) == Mixed((i % 0x1_0000) as bv16, ((i + 1) % 0x1_0000) as bv16, seed) as int
  {
    hide Mixed;
  }

  /** An item of the first fifth has its place for an index; the others have it mixed with the next place and the seed. */
  lemma IndexOfItem(i: nat, size: nat, seed: bv16, own: seq<bool>, more: seq<bool>, seeds: seq<bool>)
    requires |own| == |more| == |seeds| == 16
    requires Crc.Number(own) == i % 0x1_0000 && Crc.Number(more) == (i + 1) % 0x1_0000 && Crc.Number(seeds) == seed as int
    ensures if i < size / 5 then (ItemIdx(i, size, seed) - i) % 0x1_0000 == 0
            else ItemIdx(i, size, seed) == Crc.Number(MixedBits(own, more, seeds))
  {
    hide *;
    Crc.CastBits(i % 0x1_0000, own);
    Crc.CastBits((i + 1) % 0x1_0000, more);
    SeedBits(seed, seeds);
    IdxByPlace(i, size, seed);
    MixedNumber((i % 0x1_0000) as bv16, ((i + 1) % 0x1_0000) as bv16, seed, own, more, seeds);
  }

  lemma FourBitsDiffer(x: bv16, seed: bv16)
    ensures Crc.BitsOf((seed ^ x) & 0xf)
         == seq(4, b requires 0 <= b < 4 => Crc.BitsOf(x)[b] != Crc.BitsOf(seed)[b]) + seq(12, b => false)
  {
    hide Crc.Bit;
    BitsDiffer(x, seed);
    FourBits(seed ^ x);
    NoHighBits((seed ^ x) & 0xf);
    var s := Crc.BitsOf((seed ^ x) & 0xf);
    forall b | 0 <= b < 4 ensures s[b] == (Crc.BitsOf(x)[b] != Crc.BitsOf(seed)[b]) {
      assert b == 0 || b == 1 || b == 2 || b == 3;
    }
    assert s[..4] == seq(4, b requires 0 <= b < 4 => Crc.BitsOf(x)[b] != Crc.BitsOf(seed)[b]);
    assert s[4..] == seq(12, b => false);
    assert s == s[..4] + s[4..];
  }

  lemma BitsDiffer(x: bv16, seed: bv16)
    ensures Crc.Bit((seed ^ x) & 0xf, 0) == (Crc.Bit(x, 0) != Crc.Bit(seed, 0))
    ensures Crc.Bit((seed ^ x) & 0xf, 1) == (Crc.Bit(x, 1) != Crc.Bit(seed, 1))
    ensures Crc.Bit((seed ^ x) & 0xf, 2) == (Crc.Bit(x, 2) != Crc.Bit(seed, 2))
    ensures Crc.Bit((seed ^ x) & 0xf, 3) == (Crc.Bit(x, 3) != Crc.Bit(seed, 3))
  {
  }

  lemma NoHighBits(y: bv16)
    requires y <= 0xf
    ensures forall b: nat | 4 <= b < 16 :: !Crc.Bit(y, b)
  {
  }

  lemma {:induction false} ZeroBits(n: nat)
    ensures Crc.Number(seq(n, b => false)) == 0
  {
    if n > 0 {
      assert seq(n, b => false)[1..] == seq(n - 1, b => false);
      ZeroBits(n - 1);
    }
  }

  lemma LowBits(y: bv16, four: seq<bool>)
    requires Crc.BitsOf(y) == four + seq(12, b => false)
    ensures y as int == Crc.Number(four)
  {
    hide *;
    Crc.WordNumber(y);
    ZeroBits(12);
    Crc.NumberAppend(four, seq(12, b => false));
  }

  lemma FourNumber(word: bv16, seed: bv16, own: seq<bool>, seeds: seq<bool>)
    requires own == Crc.BitsOf(word) && seeds == Crc.BitsOf(seed)
    ensures ((seed ^ word) & 0xf) as int == Crc.Number(seq(4, b requires 0 <= b < 4 => own[b] != seeds[b]))
  {
    hide Crc.Number, Crc.Bit;
    FourBitsDiffer(word, seed);
    LowBits((seed ^ word) & 0xf, seq(4, b requires 0 <= b < 4 => own[b] != seeds[b]));
  }

  lemma DataByNumber(i: nat, seed: bv16)
    ensures ItemData(seed, i).hi == ItemData(seed, i).lo
            == i % 8 + 8 * (((seed ^ ((i % 0x1_0000) as bv16)) & 0xf) as int)
  {
  }

  /** Both bytes of an item: the low three bits of its number, and its low four against those of the seed. */
  lemma DataOfItem(i: nat, seed: bv16, own: seq<bool>, seeds: seq<bool>)
    requires |own| == |seeds| == 16 && Crc.Number(own) == i % 0x1_0000 && Crc.Number(seeds) == seed as int
    ensures var four := seq(4, b requires 0 <= b < 4 => own[b] != seeds[b]);
            ItemData(seed, i).hi == ItemData(seed, i).lo == i % 8 + 8 * Crc.Number(four)
  {
    hide *;
    Crc.CastBits(i % 0x1_0000, own);
    SeedBits(seed, seeds);
    DataByNumber(i, seed);
    FourNumber((i % 0x1_0000) as bv16, seed, own, seeds);
  }

  /** Head and tail have made-up items; the item that went in last is next to the head. */
  lemma PlacesOfItems(j: nat, n: nat, size: nat, seed: bv16)
    requires j < n && n >= 2
    ensures PlaceData(j, n, seed)
         == if j == 0 then Word(0x80, 0x80) else if j == n - 1 then Word(0xff, 0xff) else ItemData(seed, n - 2 - j)
    ensures PlaceIdx(j, n, size, seed) == if j == 0 then 0 else if j == n - 1 then 0x7fff else ItemIdx(j, size, seed)
  {
    hide ItemData, ItemIdx;
  }
}
