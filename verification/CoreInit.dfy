// How the benchmark's list comes about: nodes taken from a block one after the
// other, inserted behind the head, indexed and sorted.

module CoreInit {
  import opened StableMerge
  import opened CoreList
  import opened CoreBench

  const TAIL_IDX: S16 := 0x7fff

  // ----- Data and indices -----

  function Low16(i: nat): bv16 {
    (i % 0x1_0000) as bv16
  }

  function AsS16(i: nat): S16 {
    (i + 0x8000) % 0x1_0000 - 0x8000
  }

  lemma FourBits(x: bv16)
    ensures x & 0xf <= 0xf
  {
  }

  lemma FourteenBits(x: bv16)
    ensures x & 0x3fff <= 0x3fff
  {
  }

  /** Both bytes the same seven bits: a pattern from the seed, and which algorithm it is for. */
  function ItemData(seed: bv16, i: nat): (w: Word)
    ensures w.hi == w.lo < 0x80 && w.lo % 8 == i % 8
  {
    FourBits(seed ^ Low16(i));
    var dat := ((seed ^ Low16(i)) & 0xf) as int * 8 + i % 8;
    Word(dat, dat)
  }

  /** "get a pseudo random number" and keep it to 14 bits. */
  function Mixed(i: bv16, next: bv16, seed: bv16): bv16 {
    (((next & 7) << 8) | (i ^ seed)) & 0x3fff
  }

  lemma MixedSmall(i: bv16, next: bv16, seed: bv16)
    ensures Mixed(i, next, seed) <= 0x3fff
  {
    FourteenBits(((next & 7) << 8) | (i ^ seed));
  }

  /** The index of the i-th item behind the head: the first fifth in order, the rest mixed. */
  function ItemIdx(i: nat, size: nat, seed: bv16): (idx: S16) {
    if i < size / 5 then AsS16(i)
    else
      MixedSmall(Low16(i), Low16(i + 1), seed);
      Mixed(Low16(i), Low16(i + 1), seed) as int
  }

  /** The index at each place of the list, the two made-up items at its ends included. */
  function PlaceIdx(j: nat, n: nat, size: nat, seed: bv16): S16 {
    if j == 0 then 0 else if j == n - 1 then TAIL_IDX else ItemIdx(j, size, seed)
  }

  /** The data of the k-th node taken from the block: the head's, the tail's, then those of the items. */
  function NodeData(k: nat, seed: bv16): (w: Word)
    ensures w.hi == w.lo
  {
    if k == 0 then Word(0x80, 0x80) else if k == 1 then Word(0xff, 0xff) else ItemData(seed, k - 2)
  }

  /** The data at each place of the list. */
  function PlaceData(j: nat, n: nat, seed: bv16): (w: Word)
    requires j < n
    ensures w.hi == w.lo
  {
    NodeData(Place(j, n), seed)
  }

  /** Where in the block the j-th node of the list is. */
  function Place(j: nat, m: nat): nat
    requires j < m
  {
    if j == 0 then 0 else m - j
  }

  predicate IndicesDistinct(n: nat, size: nat, seed: bv16) {
    forall a, b :: 0 <= a < b < n ==> PlaceIdx(a, n, size, seed) != PlaceIdx(b, n, size, seed)
  }

  /** With seed 7 and room for 18 items, the seventh item gets the index of the head. */
  lemma SeedSevenRepeats()
    ensures !IndicesDistinct(17, 18, 7)
  {
    SeventhItem();
    hide ItemIdx;
    assert PlaceIdx(7, 17, 18, 7) == 0 == PlaceIdx(0, 17, 18, 7);
  }

  lemma SeventhItem()
    ensures ItemIdx(7, 18, 7) == 0
  {
    hide Mixed, Low16;
    SevenAndEight();
    MixedZero();
    ZeroAsInt(Mixed(Low16(7), Low16(8), 7));
  }

  lemma SevenAndEight()
    ensures Low16(7) == 7 && Low16(8) == 8
  {
    assert 7 % 0x1_0000 == 7 && 8 % 0x1_0000 == 8;
  }

  lemma ZeroAsInt(x: bv16)
    requires x == 0
    ensures x as int == 0
  {
  }

  lemma MixedZero()
    ensures Mixed(7, 8, 7) == 0
  {
  }

  // ----- The list as it grows -----

  ghost predicate AllDifferent<T>(s: seq<T>) {
    forall i, j :: 0 <= i < j < |s| ==> s[i] != s[j]
  }

  /** The first `m` nodes of the block: the head, then the others from the last one taken to the first. */
  ghost predicate Grown(heads: seq<ListHead>, datas: seq<ListData>, m: nat, seed: bv16)
    requires 1 <= m <= |heads| && m <= |datas|
    reads heads, datas
  {
    && heads[0].next == (if m > 1 then heads[m - 1] else null)
    && (m > 1 ==> heads[1].next == null)
    && (forall k :: 1 < k < m ==> heads[k].next == heads[k - 1])
    && (forall k :: 0 <= k < m ==> heads[k].info == datas[k] && datas[k].data16 == NodeData(k, seed))
    && datas[0].idx == 0
    && (forall k :: 0 < k < m ==> datas[k].idx == TAIL_IDX)
  }

  /** `core_list_insert_new`: a node behind `insertPoint`, if there is room for one. */
  method InsertNew(insertPoint: ListHead, idx: S16, data16: Word, heads: seq<ListHead>, datas: seq<ListData>,
                   memblock: nat, datablock: nat, end: nat)
    returns (newitem: ListHead?, memblock': nat, datablock': nat)
    requires end <= |heads| && end <= |datas| && (memblock < end ==> insertPoint != heads[memblock])
    modifies insertPoint`next, if memblock < end then {heads[memblock]} else {},
      if datablock < end then {datas[datablock]} else {}
    ensures memblock + 1 >= end || datablock + 1 >= end ==>
              newitem == null && memblock' == memblock && datablock' == datablock
    ensures memblock + 1 >= end || datablock + 1 >= end ==>
              insertPoint.next == old(insertPoint.next)
              && (memblock < end ==> heads[memblock].next == old(heads[memblock].next)
                                     && heads[memblock].info == old(heads[memblock].info))
              && (datablock < end ==> datas[datablock].idx == old(datas[datablock].idx)
                                      && datas[datablock].data16 == old(datas[datablock].data16))
    ensures memblock + 1 < end && datablock + 1 < end ==>
              && newitem == heads[memblock] && memblock' == memblock + 1 && datablock' == datablock + 1
              && insertPoint.next == newitem && heads[memblock].next == old(insertPoint.next)
              && heads[memblock].info == datas[datablock]
              && datas[datablock].idx == idx && datas[datablock].data16 == data16
  {
    newitem, memblock', datablock' := null, memblock, datablock;
    if memblock + 1 >= end {
      return;
    }
    if datablock + 1 >= end {
      return;
    }
    newitem := heads[memblock];
    memblock' := memblock + 1;
    newitem.next := insertPoint.next;
    insertPoint.next := newitem;
    newitem.info := datas[datablock];
    datablock' := datablock + 1;
    newitem.info.idx := idx;
    newitem.info.data16 := data16;
  }

  /** One more node behind the head. */
  method Grow(heads: seq<ListHead>, datas: seq<ListData>, m: nat, end: nat, data16: Word, ghost seed: bv16)
    returns (m': nat, d': nat)
    requires 1 <= m < end <= |heads| && end <= |datas| && AllDifferent(heads) && AllDifferent(datas)
    requires Grown(heads, datas, m, seed) && (m + 1 < end ==> data16 == NodeData(m, seed))
    modifies heads, datas
    ensures m' == d' == (if m + 1 < end then m + 1 else m) && Grown(heads, datas, m', seed)
  {
    hide AllDifferent, NodeData;
    Different(heads, m);
    Different(datas, m);
    var item;
    item, m', d' := InsertNew(heads[0], TAIL_IDX, data16, heads, datas, m, m, end);
    assert forall k :: 0 < k < m ==> heads[k].next == old(heads[k].next) && heads[k].info == old(heads[k].info);
    assert heads[0].info == old(heads[0].info);
    assert forall k :: 0 <= k < m ==> datas[k].data16 == old(datas[k].data16) && datas[k].idx == old(datas[k].idx);
  }

  lemma Different<T>(s: seq<T>, m: nat)
    requires AllDifferent(s) && 0 < m < |s|
    ensures forall k :: 0 <= k < m ==> s[k] != s[m]
    ensures forall k :: 0 < k < m ==> s[0] != s[k]
  {
  }

  /** The head, the tail and as many items as there is room for. */
  method Build(heads: seq<ListHead>, datas: seq<ListData>, size: nat, seed: bv16) returns (ghost m: nat)
    requires 3 <= size <= |heads| && size <= |datas| && AllDifferent(heads) && AllDifferent(datas)
    modifies heads, datas
    ensures m == size - 1 && Grown(heads, datas, m, seed)
  {
    hide AllDifferent;
    var list := heads[0];
    list.next := null;
    list.info := datas[0];
    list.info.idx := 0;
    list.info.data16 := Word(0x80, 0x80);
    assert Grown(heads, datas, 1, seed);
    var memblock, datablock := Grow(heads, datas, 1, size, Word(0xff, 0xff), seed);
    hide Grown;
    for i := 0 to size
      invariant memblock == datablock == (if 2 + i < size - 1 then 2 + i else size - 1)
      invariant Grown(heads, datas, memblock, seed)
    {
      memblock, datablock := Grow(heads, datas, memblock, size, ItemData(seed, i), seed);
    }
    m := memblock;
  }

  /** The nodes in list order. */
  function InOrder<T>(heads: seq<T>, m: nat): (s: seq<T>)
    requires 1 <= m <= |heads|
    ensures |s| == m && s[0] == heads[0] && forall j :: 0 < j < m ==> s[j] == heads[m - j]
  {
    seq(m, j requires 0 <= j < m => if j == 0 then heads[0] else heads[m - j])
  }

  /** The first `i - 1` places behind the head have their index. */
  ghost predicate Indexed(datas: seq<ListData>, m: nat, i: nat, size: nat, seed: bv16)
    requires 1 <= i <= m <= |datas|
    reads datas
  {
    && datas[0].idx == 0
    && (forall k :: 0 < k <= m - i ==> datas[k].idx == TAIL_IDX)
    && (forall k :: m - i < k < m ==> datas[k].idx == ItemIdx(m - k, size, seed))
  }

  method IndexOne(d: ListData, i: nat, ghost datas: seq<ListData>, ghost m: nat, size: nat, seed: bv16)
    requires 1 <= i < m <= |datas| && AllDifferent(datas) && d == datas[m - i] && Indexed(datas, m, i, size, seed)
    modifies d`idx
    ensures Indexed(datas, m, i + 1, size, seed)
  {
    hide ItemIdx;
    assert forall k :: 0 <= k < m && k != m - i ==> datas[k] != d;
    d.idx := ItemIdx(i, size, seed);
  }

  /** "and now index the list": every node between head and tail, in list order. */
  method Index(heads: seq<ListHead>, ghost datas: seq<ListData>, ghost m: nat, size: nat, seed: bv16)
    requires 3 <= size <= |heads| && size <= |datas| && m == size - 1 && AllDifferent(datas)
    requires Grown(heads, datas, m, seed)
    modifies (set d | d in datas)`idx
    ensures forall k :: 0 <= k < m ==> datas[k].idx == PlaceIdx(if k == 0 then 0 else m - k, m, size, seed)
  {
    assert Indexed(datas, m, 1, size, seed);
    GrownLinks(heads, datas, m, seed);
    hide AllDifferent, Indexed, Grown, PlaceIdx;
    var finder := heads[0].next;
    var i := 1;
    while finder.next != null
      invariant 1 <= i <= m - 1 && finder == heads[m - i]
      invariant finder.next == if m - i > 1 then heads[m - i - 1] else null
      invariant Indexed(datas, m, i, size, seed)
      decreases m - i
    {
      IndexOne(finder.info, i, datas, m, size, seed);
      i := i + 1;
      finder := finder.next;
    }
    AllIndexed(datas, m, size, seed);
  }

  lemma GrownLinks(heads: seq<ListHead>, datas: seq<ListData>, m: nat, seed: bv16)
    requires 2 <= m <= |heads| && m <= |datas| && Grown(heads, datas, m, seed)
    ensures heads[0].next == heads[m - 1] && heads[0].info == datas[0]
    ensures forall k :: 0 < k < m ==> heads[k].next == (if k > 1 then heads[k - 1] else null) && heads[k].info == datas[k]
  {
  }

  lemma AllIndexed(datas: seq<ListData>, m: nat, size: nat, seed: bv16)
    requires 2 <= m <= |datas| && Indexed(datas, m, m - 1, size, seed)
    ensures forall k :: 0 <= k < m ==> datas[k].idx == PlaceIdx(if k == 0 then 0 else m - k, m, size, seed)
  {
    hide ItemIdx;
  }

  /** The nodes form a list, each with a cell of its own. */
  lemma GrownList(heads: seq<ListHead>, datas: seq<ListData>, m: nat, seed: bv16)
    requires 2 <= m <= |heads| && m <= |datas| && AllDifferent(heads) && AllDifferent(datas)
    requires Grown(heads, datas, m, seed)
    ensures var s := InOrder(heads, m);
            IsList(heads[0], s, Nodes(s)) && Distinct(multiset(s)) && OwnCells(Nodes(s), Cells(s))
  {
    var s := InOrder(heads, m);
    forall i, j | 0 <= i < j < m ensures s[i] != s[j] && s[i].info != s[j].info {
      assert heads[Place(i, m)] == s[i] && heads[Place(j, m)] == s[j] && Place(i, m) != Place(j, m);
    }
    DistinctItems(s);
    forall j | 0 <= j < m - 1 ensures s[j].next == s[j + 1] {
      if j > 0 {
        assert heads[m - j].next == heads[m - j - 1];
      }
    }
    forall x, y | x in Nodes(s) && y in Nodes(s) && x != y ensures x.info != y.info {
      var i :| 0 <= i < m && s[i] == x;
      var j :| 0 <= j < m && s[j] == y;
    }
  }

  lemma {:induction false} DistinctItems<T>(s: seq<T>)
    requires AllDifferent(s)
    ensures Distinct(multiset(s))
  {
    if s != [] {
      var n := |s| - 1;
      assert s == s[..n] + [s[n]];
      DistinctItems(s[..n]);
      assert s[n] !in s[..n];
    }
  }

  lemma {:induction false} ItemsDifferent<T>(s: seq<T>, i: nat, j: nat)
    requires Distinct(multiset(s)) && i < j < |s|
    ensures s[i] != s[j]
  {
    DistinctIndices(s, i, j);
  }

  /** Sorted nodes have strictly increasing indices exactly if no two of them have the same. */
  lemma StrictIff(out: seq<ListHead>, s: seq<ListHead>)
    requires multiset(out) == multiset(s) && Distinct(multiset(s))
    requires forall i, j :: 0 <= i < j < |out| ==> Before(CmpIdx, out[i], out[j], s)
    ensures StrictIdx(out) <==> forall a, b :: 0 <= a < b < |s| ==> s[a].info.idx != s[b].info.idx
  {
    if StrictIdx(out) {
      forall a, b | 0 <= a < b < |s| ensures s[a].info.idx != s[b].info.idx {
        ItemsDifferent(s, a, b);
        assert s[a] in multiset(s) && s[b] in multiset(s);
        assert s[a] in multiset(out) && s[b] in multiset(out);
        var i :| 0 <= i < |out| && out[i] == s[a];
        var j :| 0 <= j < |out| && out[j] == s[b];
      }
    }
    if forall a, b :: 0 <= a < b < |s| ==> s[a].info.idx != s[b].info.idx {
      forall i, j | 0 <= i < j < |out| ensures out[i].info.idx < out[j].info.idx {
        ItemsDifferent(out, i, j);
        assert out[i] in multiset(out) && out[j] in multiset(out);
        assert out[i] in multiset(s) && out[j] in multiset(s);
        var a :| 0 <= a < |s| && s[a] == out[i];
        var b :| 0 <= b < |s| && s[b] == out[j];
        assert Before(CmpIdx, out[i], out[j], s);
      }
    }
  }

  lemma IndexedPlaces(heads: seq<ListHead>, datas: seq<ListData>, m: nat, size: nat, seed: bv16)
    requires 1 <= m <= |heads| && m <= |datas| && forall k :: 0 <= k < m ==> heads[k].info == datas[k]
    requires forall k :: 0 <= k < m ==> datas[k].idx == PlaceIdx(if k == 0 then 0 else m - k, m, size, seed)
    ensures forall j :: 0 <= j < m ==> InOrder(heads, m)[j].info.idx == PlaceIdx(j, m, size, seed)
  {
    var s := InOrder(heads, m);
    forall j | 0 <= j < m ensures s[j].info.idx == PlaceIdx(j, m, size, seed) {
      assert s[j] == heads[Place(j, m)] && datas[Place(j, m)] == s[j].info;
    }
  }

  /** Everything before the sort. */
  method Prepare(size: nat, heads: seq<ListHead>, datas: seq<ListData>, seed: bv16) returns (ghost s: seq<ListHead>)
    requires 3 <= size <= |heads| && size <= |datas| && AllDifferent(heads) && AllDifferent(datas)
    modifies heads, datas
    ensures |s| == size - 1 && s[0] == heads[0] && (forall n :: n in s ==> n in heads)
    ensures forall n :: n in s ==> n.info in datas
    ensures IsList(heads[0], s, Nodes(s)) && Distinct(multiset(s)) && OwnCells(Nodes(s), Cells(s))
    ensures forall j :: 0 <= j < |s| ==> s[j].info.idx == PlaceIdx(j, |s|, size, seed)
    ensures forall j :: 0 <= j < |s| ==> s[j].info.data16 == PlaceData(j, |s|, seed)
  {
    hide AllDifferent, IsList, OwnCells, Distinct, PlaceIdx, PlaceData, Grown, InOrder;
    ghost var m := Build(heads, datas, size, seed);
    s := InOrder(heads, m);
    GrownList(heads, datas, m, seed);
    GrownItems(heads, datas, m, seed);
    IndexInOrder(heads, datas, s, m, size, seed);
  }

  /** Indexing leaves the list and its data alone. */
  method IndexInOrder(heads: seq<ListHead>, ghost datas: seq<ListData>, ghost s: seq<ListHead>, ghost m: nat,
                      size: nat, seed: bv16)
    requires 3 <= size <= |heads| && size <= |datas| && m == size - 1 && AllDifferent(datas)
    requires Grown(heads, datas, m, seed) && s == InOrder(heads, m)
    modifies (set d | d in datas)`idx
    ensures forall j :: 0 <= j < |s| ==> s[j].info.idx == PlaceIdx(j, |s|, size, seed)
  {
    hide AllDifferent, PlaceIdx, Grown, InOrder;
    GrownLinks(heads, datas, m, seed);
    Index(heads, datas, m, size, seed);
    IndexedPlaces(heads, datas, m, size, seed);
  }

  lemma GrownItems(heads: seq<ListHead>, datas: seq<ListData>, m: nat, seed: bv16)
    requires 1 <= m <= |heads| && m <= |datas| && Grown(heads, datas, m, seed)
    ensures var s := InOrder(heads, m);
            && (forall n :: n in s ==> n in heads && n.info in datas)
            && forall j :: 0 <= j < m ==> s[j].info.data16 == PlaceData(j, m, seed)
    ensures forall k :: 0 <= k < m ==> heads[k].info == datas[k]
  {
    PlacesIn(heads, m);
    var s := InOrder(heads, m);
    forall n | n in s ensures n in heads && n.info in datas {
      var k :| 0 <= k < m && heads[..m][k] == n;
      assert heads[k] == n;
    }
    forall j | 0 <= j < m ensures s[j].info.data16 == PlaceData(j, m, seed) {
      assert s[j] == heads[Place(j, m)];
    }
  }

  lemma PlacesIn<T>(heads: seq<T>, m: nat)
    requires 1 <= m <= |heads|
    ensures forall n :: n in InOrder(heads, m) ==> n in heads[..m]
  {
    var s := InOrder(heads, m);
    forall n | n in s ensures n in heads[..m] {
      var j :| 0 <= j < m && s[j] == n;
      assert heads[..m][Place(j, m)] == n;
    }
  }

  /**
   * `core_list_init`: a sorted list of all nodes there is room for but one, fit for the benchmark; its indices are
   * strictly increasing, as one benchmark pass needs to restore it, exactly if no two of them coincide.
   */
  method CoreListInit(blksize: nat, heads: seq<ListHead>, datas: seq<ListData>, seed: bv16)
    returns (list: ListHead, ghost out: seq<ListHead>, ghost built: seq<ListHead>)
    requires blksize / 20 >= 5 && blksize / 20 - 2 <= |heads| && blksize / 20 - 2 <= |datas|
    requires AllDifferent(heads) && AllDifferent(datas)
    modifies heads, datas
    ensures |out| == blksize / 20 - 3 && (forall n :: n in out ==> n in heads && n.info in datas)
    ensures IsList(list, out, Nodes(out)) && Distinct(multiset(out)) && OwnCells(Nodes(out), Cells(out))
    ensures |built| == |out| && multiset(built) == multiset(out)
    ensures forall j :: 0 <= j < |built| ==> built[j].info.idx == PlaceIdx(j, |built|, blksize / 20 - 2, seed)
    ensures forall j :: 0 <= j < |built| ==> built[j].info.data16 == PlaceData(j, |built|, seed)
    ensures forall i, j :: 0 <= i < j < |out| ==> Before(CmpIdx, out[i], out[j], built)
    ensures StrictIdx(out) <==> IndicesDistinct(|out|, blksize / 20 - 2, seed)
  {
    hide AllDifferent, IsList, OwnCells, Distinct, PlaceIdx, PlaceData, StrictIdx, Before, IndicesDistinct;
    var size := blksize / 20 - 2;
    built := Prepare(size, heads, datas, seed);
    list, out := SortBuilt(heads[0], built);
    PlacesDistinct(built, size, seed);
    StrictIff(out, built);
  }

  /** The sort at the end: nothing changes but the order. */
  method SortBuilt(list0: ListHead, ghost built: seq<ListHead>) returns (list: ListHead, ghost out: seq<ListHead>)
    requires IsList(list0, built, Nodes(built)) && Distinct(multiset(built)) && OwnCells(Nodes(built), Cells(built))
    requires forall j :: 0 <= j < |built| ==> built[j].info.data16.hi == built[j].info.data16.lo
    modifies Nodes(built)`next, Cells(built)`data16
    ensures IsList(list, out, Nodes(out)) && multiset(out) == multiset(built) && |out| == |built|
    ensures OwnCells(Nodes(out), Cells(out)) && forall n :: n in out <==> n in built
    ensures forall i, j :: 0 <= i < j < |out| ==> Before(CmpIdx, out[i], out[j], built)
    ensures forall j :: 0 <= j < |built| ==> built[j].info.data16 == old(built[j].info.data16)
  {
    hide IsList, OwnCells, Distinct, Before;
    ghost var passes, comps;
    list, out, passes, comps := Mergesort(list0, CmpIdx, null, built, Nodes(built), Cells(built));
    SameItems(out, built);
  }

  lemma SameItems(out: seq<ListHead>, s: seq<ListHead>)
    requires multiset(out) == multiset(s) && OwnCells(Nodes(s), Cells(s))
    ensures Nodes(out) == Nodes(s) && |out| == |s| && OwnCells(Nodes(out), Cells(out))
    ensures forall n :: n in out <==> n in s
  {
    SameNodes(out, s);
    assert forall n :: n in out <==> n in Nodes(out);
    assert forall n :: n in s <==> n in Nodes(s);
  }

  lemma PlacesDistinct(s: seq<ListHead>, size: nat, seed: bv16)
    requires forall j :: 0 <= j < |s| ==> s[j].info.idx == PlaceIdx(j, |s|, size, seed)
    ensures (forall a, b :: 0 <= a < b < |s| ==> s[a].info.idx != s[b].info.idx) <==> IndicesDistinct(|s|, size, seed)
  {
    hide PlaceIdx;
  }

  // ----- A pass that fails -----

  /** With seed 7, no item has a low byte of zero. */
  lemma NoZeroByte(i: nat)
    requires i < 15
    ensures ItemData(7, i).lo != 0
  {
    if i == 8 {
      assert Low16(8) == 8;
      assert ((7 as bv16 ^ 8) & 0xf) == 15;
    } else if i == 0 {
      assert Low16(0) == 0;
      assert ((7 as bv16 ^ 0) & 0xf) == 7;
    }
  }

  /**
   * The list of seed 7 and 400 bytes, searched once for a low byte of zero: the two nodes of index 0 come back in
   * the wrong order.
   */
  method SeedSevenPass(heads: seq<ListHead>, datas: seq<ListData>, benchState: (U16, bv16) -> U16,
                       benchMatrix: (U16, bv16) -> U16)
    returns (ghost before: seq<ListHead>, ghost after: seq<ListHead>)
    requires 18 <= |heads| && 18 <= |datas| && AllDifferent(heads) && AllDifferent(datas)
    modifies heads, datas
    ensures |before| == 17 && multiset(after) == multiset(before) && after != before
  {
    hide AllDifferent, IsList, OwnCells, Distinct, Before, StrictIdx, PlaceIdx, PlaceData, IndicesDistinct, Arranged,
      KeepsOrder, StableBy, SevenBits, Seen, IdxSeen, Occurs;
    SeedSevenRepeats();
    var list;
    ghost var built;
    list, before, built := CoreListInit(400, heads, datas, 7);
    var res := new Results(list, 1, benchState, benchMatrix);
    NothingFound(before, built);
    var crc, end;
    ghost var was, keys, cached;
    crc, end, after, was, keys, cached := CoreBenchList(res, -1, before);
  }

  lemma NothingFound(out: seq<ListHead>, built: seq<ListHead>)
    requires multiset(out) == multiset(built) && |built| == 17
    requires forall j :: 0 <= j < 17 ==> built[j].info.data16 == PlaceData(j, 17, 7)
    ensures !Occurs(Sought(-1, 0), out)
  {
    forall i | 0 <= i < |out| ensures !Matches(out[i].info, Sought(-1, 0)) {
      assert out[i] in multiset(out) && out[i] in multiset(built);
      var j :| 0 <= j < 17 && built[j] == out[i];
      if 2 <= Place(j, 17) {
        NoZeroByte(Place(j, 17) - 2);
      }
    }
  }
}
