// One pass of CoreMark's list benchmark: searches that shuffle the list, a sort
// by data, a removal undone, and the sort by idx that must put everything back.

module CoreBench {
  import opened Common
  import opened StableMerge
  import opened CoreList
  import Crc

  // ----- Searching -----

  /** What a search looks for: an idx, or a low byte when idx is negative. */
  datatype Sought = Sought(idx: S16, data16: U8)

  predicate Matches(d: ListData, info: Sought)
    reads d
  {
    if info.idx >= 0 then d.idx == info.idx else d.data16.lo == info.data16
  }

  ghost predicate Occurs(info: Sought, s: seq<ListHead>)
    reads Nodes(s)`info, Cells(s)
  {
    exists i :: 0 <= i < |s| && Matches(s[i].info, info)
  }

  method CoreListFind(list: ListHead?, info: Sought, ghost s: seq<ListHead>, ghost region: set<ListHead>)
    returns (r: ListHead?, ghost k: nat)
    requires IsList(list, s, region)
    ensures k <= |s| && r == First(s[k..])
    ensures k < |s| ==> Matches(s[k].info, info)
    ensures forall j :: 0 <= j < k ==> !Matches(s[j].info, info)
    ensures r != null ==> r in s && Matches(r.info, info)
    ensures r == null <==> !Occurs(info, s)
  {
    r := list;
    k := 0;
    if info.idx >= 0 {
      while r != null && r.info.idx != info.idx
        invariant k <= |s| && r == First(s[k..])
        invariant forall j :: 0 <= j < k ==> !Matches(s[j].info, info)
        decreases |s| - k
      {
        r := r.next;
        k := k + 1;
      }
    } else {
      while r != null && r.info.data16.lo != info.data16
        invariant k <= |s| && r == First(s[k..])
        invariant forall j :: 0 <= j < k ==> !Matches(s[j].info, info)
        decreases |s| - k
      {
        r := r.next;
        k := k + 1;
      }
    }
  }

  // ----- Reversing and splicing -----

  lemma {:induction false} ReversedItems<T>(s: seq<T>)
    ensures multiset(Reversed(s)) == multiset(s)
    decreases |s|
  {
    if s != [] {
      assert Reversed(s) == Reversed(s[1..]) + [s[0]];
      ReversedItems(s[1..]);
      assert s == [s[0]] + s[1..];
    } else {
      assert Reversed(s) == s;
    }
  }

  method CoreListReverse(list0: ListHead, ghost s: seq<ListHead>, ghost region: set<ListHead>)
    returns (r: ListHead)
    requires IsList(list0, s, region) && Distinct(multiset(s))
    modifies region`next
    ensures IsList(r, Reversed(s), region)
  {
    var list: ListHead?, next: ListHead? := list0, null;
    ghost var k := 0;
    assert forall i, j :: 0 <= i < j < |s| ==> s[i] != s[j] by {
      forall i, j | 0 <= i < j < |s|
        ensures s[i] != s[j]
      {
        DistinctIndices(s, i, j);
      }
    }
    while list != null
      invariant 0 <= k <= |s| && list == First(s[k..])
      invariant next == if k == 0 then null else s[k - 1]
      invariant forall i :: k <= i < |s| - 1 ==> s[i].next == s[i + 1]
      invariant k < |s| ==> s[|s| - 1].next == null
      invariant forall i :: 0 < i < k ==> s[i].next == s[i - 1]
      invariant k > 0 ==> s[0].next == null
      decreases |s| - k
    {
      var tmp := list.next;
      list.next := next;
      next := list;
      list := tmp;
      k := k + 1;
    }
    r := next;
  }

  /** Item `k` taken out and put back right behind the first. */
  function MovedBehindFirst<T>(s: seq<T>, k: nat): seq<T>
    requires 0 < k < |s|
  {
    [s[0], s[k]] + s[1..k] + s[k + 1..]
  }

  lemma MovedAt<T>(s: seq<T>, k: nat, i: nat)
    requires 0 < k < |s| && i < |s|
    ensures |MovedBehindFirst(s, k)| == |s|
    ensures MovedBehindFirst(s, k)[i] == s[if i == 0 then 0 else if i == 1 then k else if i <= k then i - 1 else i]
  {
    var a, b, c := [s[0], s[k]], s[1..k], s[k + 1..];
    assert |a + b| == k + 1;
  }

  lemma MovedItems<T>(s: seq<T>, k: nat)
    requires 0 < k < |s|
    ensures multiset(MovedBehindFirst(s, k)) == multiset(s)
  {
    assert s == [s[0]] + s[1..k] + [s[k]] + s[k + 1..];
  }

  /** Cache the item after the found one at the head of the list, if there is one. */
  method CacheNext(list: ListHead, found: ListHead, ghost s: seq<ListHead>, ghost k: nat, ghost region: set<ListHead>)
    requires IsList(list, s, region) && Distinct(multiset(s))
    requires k < |s| && found == s[k]
    modifies region`next
    ensures IsList(list, if k + 1 < |s| then MovedBehindFirst(s, k + 1) else s, region)
  {
    if found.next != null {
      assert k + 1 < |s| && found.next == s[k + 1];
      ghost var t := MovedBehindFirst(s, k + 1);
      forall i, j | 0 <= i < j < |s|
        ensures s[i] != s[j]
      {
        DistinctIndices(s, i, j);
      }
      var finder := found.next;
      found.next := finder.next;
      finder.next := list.next;
      list.next := finder;
      hide MovedBehindFirst;
      MovedAt(s, k + 1, |s| - 1);
      forall i | 0 <= i < |s| - 1
        ensures t[i].next == t[i + 1]
      {
        MovedAt(s, k + 1, i);
        MovedAt(s, k + 1, i + 1);
      }
    }
  }

  // ----- Removing and undoing it -----

  /** Remove the item by moving the next one's data into it and unlinking the next one. */
  method CoreListRemove(item: ListHead, ghost s: seq<ListHead>, ghost k: nat, ghost region: set<ListHead>)
    returns (ret: ListHead)
    requires Terminated(s, region) && Distinct(multiset(s))
    requires k + 1 < |s| && item == s[k]
    modifies region
    ensures Terminated(s[..k + 1] + s[k + 2..], region)
    ensures ret == s[k + 1] && ret.next == null && item.next == old(ret.next)
    ensures item.info == old(ret.info) && ret.info == old(item.info)
    ensures forall n :: n in region && n != item && n != ret ==> n.info == old(n.info) && n.next == old(n.next)
  {
    forall i, j | 0 <= i < j < |s|
      ensures s[i] != s[j]
    {
      DistinctIndices(s, i, j);
    }
    ghost var t := s[..k + 1] + s[k + 2..];
    assert item.next == s[k + 1] && (k + 2 < |s| ==> s[k + 1].next == s[k + 2]);
    ret := item.next;
    var tmp := item.info;
    item.info := ret.info;
    ret.info := tmp;
    item.next := item.next.next;
    ret.next := null;
    forall i | 0 <= i < |t| - 1
      ensures t[i].next == t[i + 1]
    {
      assert t[i] == s[if i <= k then i else i + 1] && t[i + 1] == s[if i + 1 <= k then i + 1 else i + 2];
    }
  }

  /** Link the removed item back in behind the modified one, and swap the data again. */
  method CoreListUndoRemove(removed: ListHead, modified: ListHead) returns (r: ListHead)
    requires removed != modified
    modifies removed, modified
    ensures r == removed
    ensures removed.info == old(modified.info) && modified.info == old(removed.info)
    ensures removed.next == old(modified.next) && modified.next == removed
  {
    var tmp := removed.info;
    removed.info := modified.info;
    modified.info := tmp;
    removed.next := modified.next;
    modified.next := removed;
    return removed;
  }

  // ----- The running value -----

  /** The CRC of the same word fed `n` times. */
  function CrcRepeated(w: Word, n: nat, crc: bv16): bv16 {
    if n == 0 then crc else CrcRepeated(w, n - 1, Crc.Crc16(Value(w) as bv16, crc))
  }

  /** The code's loop moves `finder` along but reads the head's data every time. */
  method CrcFrom(list: ListHead, finder0: ListHead?, retval0: bv16,
                 ghost s: seq<ListHead>, ghost k: nat, ghost region: set<ListHead>)
    returns (retval: bv16)
    requires Terminated(s, region) && k <= |s| && finder0 == First(s[k..])
    ensures retval == CrcRepeated(list.info.data16, |s| - k, retval0)
  {
    var finder := finder0;
    retval := retval0;
    ghost var i := k;
    while finder != null
      invariant k <= i <= |s| && finder == First(s[i..])
      invariant CrcRepeated(list.info.data16, |s| - i, retval) == CrcRepeated(list.info.data16, |s| - k, retval0)
      decreases |s| - i
    {
      retval := Crc.CrcU16(Value(list.info.data16) as bv16, retval);
      finder := finder.next;
      i := i + 1;
    }
  }

  // ----- The pass -----

  /** A signed 16-bit increment. */
  function Next16(x: S16): S16 {
    if x == 0x7fff then -0x8000 else x + 1
  }

  /** What the searches see of a node. */
  datatype Look = Look(idx: S16, data: Word)

  predicate Answers(l: Look, info: Sought) {
    if info.idx >= 0 then l.idx == info.idx else l.data.lo == info.data16
  }

  ghost predicate Seen(look: map<ListHead, Look>, s: seq<ListHead>)
    reads Nodes(s)`info, Cells(s)
  {
    forall i :: 0 <= i < |s| ==> s[i] in look && look[s[i]] == Look(s[i].info.idx, s[i].info.data16)
  }

  /** Where the first node is that a search finds, or the length. */
  function FirstAnswer<T>(s: seq<T>, look: map<T, Look>, info: Sought): (k: nat)
    ensures k <= |s|
  {
    if s == [] || (s[0] in look && Answers(look[s[0]], info)) then 0 else 1 + FirstAnswer(s[1..], look, info)
  }

  /** The order a round leaves: reversed, and the node behind the found one moved behind the head. */
  function RoundOrder<T>(s: seq<T>, look: map<T, Look>, info: Sought): (r: seq<T>)
    ensures |r| == |s|
  {
    var k := FirstAnswer(s, look, info);
    if 0 < k < |s| then MovedBehindFirst(Reversed(s), |s| - k) else Reversed(s)
  }

  /** What round `i` searches for, if the first searches for `idx`. */
  function SoughtIn(idx: S16, i: nat): Sought {
    Sought(if i == 0 then idx else var before := SoughtIn(idx, i - 1).idx; if before >= 0 then Next16(before) else before,
           i % 0x100)
  }

  /** What the last of `n` rounds searched for, with the idx the next one would search for. */
  function SoughtAfter(idx: S16, n: nat): Sought {
    Sought(SoughtIn(idx, n).idx, if n == 0 then 0 else (n - 1) % 0x100)
  }

  /** What a round adds to the result: a bit of the second node of the reversed list, or of the node found. */
  function RoundBit<T>(s: seq<T>, look: map<T, Look>, info: Sought): nat
    requires |s| >= 2
  {
    var k := FirstAnswer(s, look, info);
    var n := if k < |s| then s[k] else s[|s| - 2];
    if n !in look then 0
    else
      var hi := look[n].data.hi;
      if k == |s| then hi % 2 else if look[n].data.lo % 2 == 1 then hi / 2 % 2 else 0
  }

  /** The result of `n` rounds: their bits, four for each hit, and one off for each miss. */
  function Score<T>(s: seq<T>, look: map<T, Look>, idx: S16, n: nat): int
    requires |s| >= 2
  {
    if n == 0 then 0
    else
      var order, info := Arranged(s, look, idx, n - 1), SoughtIn(idx, n - 1);
      Score(s, look, idx, n - 1) + RoundBit(order, look, info) + (if FirstAnswer(order, look, info) < |s| then 4 else -1)
  }

  /** The order `n` rounds leave. */
  function Arranged<T>(s: seq<T>, look: map<T, Look>, idx: S16, n: nat): (r: seq<T>)
    ensures |r| == |s|
  {
    if n == 0 then s else RoundOrder(Arranged(s, look, idx, n - 1), look, SoughtIn(idx, n - 1))
  }

  lemma {:induction false} FirstAnswerIs<T>(s: seq<T>, look: map<T, Look>, info: Sought, k: nat)
    requires k <= |s| && (k < |s| ==> s[k] in look && Answers(look[s[k]], info))
    requires forall j :: 0 <= j < k ==> s[j] !in look || !Answers(look[s[j]], info)
    ensures FirstAnswer(s, look, info) == k
  {
    if k > 0 {
      assert s[0] !in look || !Answers(look[s[0]], info);
      FirstAnswerIs(s[1..], look, info, k - 1);
    }
  }

  lemma FirstMatch(s: seq<ListHead>, look: map<ListHead, Look>, info: Sought, k: nat)
    requires Seen(look, s) && k <= |s| && (k < |s| ==> Matches(s[k].info, info))
    requires forall j :: 0 <= j < k ==> !Matches(s[j].info, info)
    ensures FirstAnswer(s, look, info) == k
  {
    forall j | 0 <= j < k ensures !Answers(look[s[j]], info) {
      assert !Matches(s[j].info, info);
    }
    FirstAnswerIs(s, look, info, k);
  }

  lemma RoundItems<T>(s: seq<T>, look: map<T, Look>, info: Sought)
    ensures multiset(RoundOrder(s, look, info)) == multiset(s)
  {
    var k := FirstAnswer(s, look, info);
    ReversedItems(s);
    if 0 < k < |s| {
      MovedItems(Reversed(s), |s| - k);
    }
  }

  lemma SeenAgain(look: map<ListHead, Look>, s: seq<ListHead>, t: seq<ListHead>)
    requires Seen(look, s) && multiset(t) == multiset(s)
    ensures Seen(look, t)
  {
    forall i | 0 <= i < |t| ensures t[i] in look && look[t[i]] == Look(t[i].info.idx, t[i].info.data16) {
      assert t[i] in multiset(t) && t[i] in multiset(s);
    }
  }

  ghost function Bit(second: ListHead, thisFind: ListHead?): nat
    reads second`info, second.info, Node(thisFind)`info, set n | n in Node(thisFind) :: n.info
  {
    if thisFind == null then second.info.data16.hi % 2
    else if thisFind.info.data16.lo % 2 == 1 then thisFind.info.data16.hi / 2 % 2
    else 0
  }

  lemma BitIs(s: seq<ListHead>, look: map<ListHead, Look>, info: Sought, thisFind: ListHead?)
    requires |s| >= 2 && Seen(look, s) && thisFind == First(s[FirstAnswer(s, look, info)..])
    ensures RoundBit(s, look, info) == Bit(s[|s| - 2], thisFind)
  {
    hide FirstAnswer;
  }

  lemma OrderIs<T>(s: seq<T>, look: map<T, Look>, info: Sought)
    ensures var k := FirstAnswer(s, look, info);
            RoundOrder(s, look, info) == if 0 < k < |s| then MovedBehindFirst(Reversed(s), |s| - k) else Reversed(s)
  {
    hide Reversed, FirstAnswer;
  }

  lemma FoundAt(s: seq<ListHead>, k: nat)
    requires k <= |s|
    ensures First(s[k..]) == null <==> k == |s|
    ensures k < |s| ==> Reversed(s)[|s| - 1 - k] == First(s[k..])
    ensures |s| >= 2 ==> Reversed(s)[1] == s[|s| - 2]
  {
  }

  lemma SecondNode(list: ListHead, s: seq<ListHead>, region: set<ListHead>)
    requires IsList(list, s, region) && |s| >= 2
    ensures list.next == s[1]
  {
  }

  /** One round: search, reverse the list, and if the search hit, move the next node behind the head. */
  method FindRound(list0: ListHead, info: Sought, retval0: U16, ghost s: seq<ListHead>, ghost region: set<ListHead>,
                   ghost look: map<ListHead, Look>)
    returns (list: ListHead, hit: bool, retval: U16)
    requires IsList(list0, s, region) && Distinct(multiset(s)) && |s| >= 2 && Seen(look, s)
    modifies region`next
    ensures IsList(list, RoundOrder(s, look, info), region)
    ensures hit <==> FirstAnswer(s, look, info) < |s|
    ensures retval == (retval0 + RoundBit(s, look, info)) % 0x1_0000
  {
    hide IsList, Distinct, Occurs, RoundOrder, RoundBit, FirstAnswer, Matches, MovedBehindFirst, Reversed, First;
    var thisFind, k := CoreListFind(list0, info, s, region);
    FirstMatch(s, look, info, k);
    BitIs(s, look, info, thisFind);
    OrderIs(s, look, info);
    list := CoreListReverse(list0, s, region);
    ReversedItems(s);
    SecondNode(list, Reversed(s), region);
    FoundAt(s, k);
    hit := thisFind != null;
    retval := AddBit(list.next, thisFind, retval0);
    if hit {
      CacheNext(list, thisFind, Reversed(s), |s| - 1 - k, region);
    }
  }

  /** The bit a round adds: of the second node if nothing was found, else of the node found, if its value is odd. */
  method AddBit(second: ListHead, thisFind: ListHead?, retval0: U16) returns (retval: U16)
    ensures retval == (retval0 + Bit(second, thisFind)) % 0x1_0000
  {
    retval := retval0;
    if thisFind == null {
      retval := (retval + second.info.data16.hi % 2) % 0x1_0000;
    } else if thisFind.info.data16.lo % 2 == 1 {
      retval := (retval + thisFind.info.data16.hi / 2 % 2) % 0x1_0000;
    }
  }

  lemma NoRounds<T>(s: seq<T>, look: map<T, Look>, idx: S16)
    requires |s| >= 2
    ensures Arranged(s, look, idx, 0) == s && SoughtAfter(idx, 0) == Sought(idx, 0) && Score(s, look, idx, 0) == 0
  {
  }

  lemma RoundMore<T>(s: seq<T>, look: map<T, Look>, idx: S16, i: nat)
    requires |s| >= 2
    ensures var order, info := Arranged(s, look, idx, i), SoughtAfter(idx, i).(data16 := i % 0x100);
            && Arranged(s, look, idx, i + 1) == RoundOrder(order, look, info)
            && SoughtAfter(idx, i + 1) == info.(idx := if info.idx >= 0 then Next16(info.idx) else info.idx)
            && Score(s, look, idx, i + 1)
               == Score(s, look, idx, i) + RoundBit(order, look, info)
                  + (if FirstAnswer(order, look, info) < |s| then 4 else -1)
  {
    hide RoundOrder, RoundBit, FirstAnswer;
  }

  /** 16-bit counters stand for the sums they are the remainders of. */
  predicate Counts(counter: U16, sum: int) {
    counter == sum % 0x1_0000
  }

  lemma CountsMore(counter: U16, sum: int, n: nat)
    requires Counts(counter, sum)
    ensures Counts((counter + n) % 0x1_0000, sum + n)
  {
  }

  lemma CountsTotal(retval: U16, found: U16, missed: U16, bits: int, hits: int, misses: int)
    requires Counts(retval, bits) && Counts(found, hits) && Counts(missed, misses)
    ensures (retval + found * 4 - missed) % 0x1_0000 == (bits + 4 * hits - misses) % 0x1_0000
  {
  }

  /** All the rounds of the search loop. */
  method FindAndShuffle(list0: ListHead, findNum: S16, finderIdx: S16, ghost s: seq<ListHead>, ghost region: set<ListHead>,
                        ghost look: map<ListHead, Look>)
    returns (list: ListHead, retval: U16, info: Sought)
    requires IsList(list0, s, region) && Distinct(multiset(s)) && |s| >= 2 && Seen(look, s)
    modifies region`next
    ensures IsList(list, Arranged(s, look, finderIdx, Rounds(findNum)), region)
    ensures multiset(Arranged(s, look, finderIdx, Rounds(findNum))) == multiset(s)
    ensures info == SoughtAfter(finderIdx, Rounds(findNum))
    ensures retval == Score(s, look, finderIdx, Rounds(findNum)) % 0x1_0000
  {
    hide RoundOrder, IsList, RoundBit, FirstAnswer, Arranged, Score, SoughtAfter, SoughtIn, Counts, Next16;
    var found: U16, missed: U16 := 0, 0;
    list, retval, info := list0, 0, Sought(finderIdx, 0);
    ghost var order, bits: int, hits: int, misses: int := s, 0, 0, 0;
    NoRounds(s, look, finderIdx);
    CountsNone();
    for i := 0 to Rounds(findNum)
      invariant order == Arranged(s, look, finderIdx, i) && multiset(order) == multiset(s)
      invariant IsList(list, order, region) && Seen(look, order)
      invariant info == SoughtAfter(finderIdx, i)
      invariant Counts(retval, bits) && Counts(found, hits) && Counts(missed, misses)
      invariant bits + 4 * hits - misses == Score(s, look, finderIdx, i)
    {
      RoundMore(s, look, finderIdx, i);
      info := info.(data16 := i % 0x100);
      ghost var bit := RoundBit(order, look, info);
      CountsMore(retval, bits, bit);
      CountsMore(found, hits, 1);
      CountsMore(missed, misses, 1);
      var hit;
      list, hit, retval := FindRound(list, info, retval, order, region, look);
      bits := bits + bit;
      RoundItems(order, look, info);
      SeenAgain(look, order, RoundOrder(order, look, info));
      order := RoundOrder(order, look, info);
      if hit {
        found, hits := (found + 1) % 0x1_0000, hits + 1;
      } else {
        missed, misses := (missed + 1) % 0x1_0000, misses + 1;
      }
      if info.idx >= 0 {
        info := info.(idx := Next16(info.idx));
      }
    }
    CountsTotal(retval, found, missed, bits, hits, misses);
    retval := (retval + found * 4 - missed) % 0x1_0000;
  }

  lemma CountsNone()
    ensures Counts(0, 0)
  {
  }

  /** How often the search loop runs. */
  function Rounds(findNum: S16): nat {
    if findNum < 0 then 0 else findNum
  }

  /** Where the CRC starts in a list without its second item: where the last search hits, or behind the head. */
  function CrcStart<T>(s: seq<T>, look: map<T, Look>, info: Sought): nat
    requires |s| >= 3
  {
    var k := FirstAnswer([s[0]] + s[2..], look, info);
    if k == |s| - 1 then 1 else k
  }

  /** The CRC in the middle of a pass: the head's data once for every node from there on. */
  function MiddleCrc<T>(s: seq<T>, look: map<T, Look>, info: Sought, crc: bv16): bv16 {
    if |s| < 3 || s[0] !in look then crc
    else CrcRepeated(look[s[0]].data, |s| - 1 - Min(CrcStart(s, look, info), |s| - 1), crc)
  }

  /** Node by node, `t` now shows what was seen of `u`. */
  ghost predicate Shows(t: seq<ListHead>, u: seq<ListHead>, look: map<ListHead, Look>)
    reads Nodes(t)`info, Cells(t)
  {
    |t| == |u| && forall i :: 0 <= i < |t| ==> u[i] in look && look[u[i]] == Look(t[i].info.idx, t[i].info.data16)
  }

  lemma FirstShown(t: seq<ListHead>, u: seq<ListHead>, look: map<ListHead, Look>, info: Sought, k: nat)
    requires Shows(t, u, look) && k <= |t| && (k < |t| ==> Matches(t[k].info, info))
    requires forall j :: 0 <= j < k ==> !Matches(t[j].info, info)
    ensures FirstAnswer(u, look, info) == k
  {
    forall j | 0 <= j < k ensures !Answers(look[u[j]], info) {
      assert !Matches(t[j].info, info);
    }
    FirstAnswerIs(u, look, info, k);
  }

  /** The CRC from where the last search hits, or from the second item on. */
  method CrcOfRest(list: ListHead, info: Sought, retval0: bv16, ghost t: seq<ListHead>, ghost region: set<ListHead>,
                   ghost s: seq<ListHead>, ghost look: map<ListHead, Look>)
    returns (retval: bv16)
    requires IsList(list, t, region) && |s| >= 3 && Shows(t, [s[0]] + s[2..], look)
    ensures retval == MiddleCrc(s, look, info, retval0)
  {
    hide FirstAnswer, Matches, Occurs;
    var finder, k := CoreListFind(list, info, t, region);
    FirstShown(t, [s[0]] + s[2..], look, info, k);
    if finder == null {
      finder := list.next;
      k := 1;
      assert t[1..][0] == list.next;
    }
    retval := CrcFrom(list, finder, retval0, t, k, region);
  }

  /** Remove the second item, run the CRC over what is left, and undo the removal. */
  method RemoveAndUndo(list: ListHead, info: Sought, retval0: bv16, ghost s: seq<ListHead>, ghost region: set<ListHead>,
                       ghost look: map<ListHead, Look>)
    returns (retval: bv16)
    requires IsList(list, s, region) && Distinct(multiset(s)) && |s| >= 3 && Seen(look, s)
    modifies region
    ensures IsList(list, s, region)
    ensures forall n :: n in region ==> n.info == old(n.info) && n.next == old(n.next)
    ensures retval == MiddleCrc(s, look, info, retval0)
  {
    hide MiddleCrc;
    var modified := list.next;
    forall i, j | 0 <= i < j < |s|
      ensures s[i] != s[j]
    {
      DistinctIndices(s, i, j);
    }
    assert list == s[0] && modified == s[1] && modified.next == s[2];
    ghost var t, u := s[..2] + s[3..], [s[0]] + s[2..];
    var remover := CoreListRemove(modified, s, 1, region);
    assert Shows(t, u, look) by {
      forall i | 0 <= i < |t| ensures u[i] in look && look[u[i]] == Look(t[i].info.idx, t[i].info.data16) {
        assert u[i] == s[if i == 0 then 0 else i + 1] && t[i] == s[if i < 2 then i else i + 1];
      }
    }
    retval := CrcOfRest(list, info, retval0, t, region, s, look);
    assert list.next == modified;
    var back := CoreListUndoRemove(remover, list.next);
    assert forall n :: n in region ==> n.info == old(n.info) && n.next == old(n.next);
  }

  // ----- The whole pass -----

  ghost function Nodes(s: seq<ListHead>): set<ListHead> {
    set n | n in s
  }

  ghost function Cells(nodes: seq<ListHead>): set<ListData>
    reads Nodes(nodes)`info
  {
    set n | n in nodes :: n.info
  }

  ghost predicate StrictIdx(nodes: seq<ListHead>)
    reads Nodes(nodes)`info, Cells(nodes)`idx
  {
    forall i, j :: 0 <= i < j < |nodes| ==> nodes[i].info.idx < nodes[j].info.idx
  }

  /** `order` is the stable sort of `was` by idx. */
  ghost predicate SortedByIdx(order: seq<ListHead>, was: seq<ListHead>)
    reads Nodes(order)`info, Cells(order)`idx, Cells(order)`data16
  {
    && multiset(order) == multiset(was)
    && forall i, j :: 0 <= i < j < |order| ==> Before(CmpIdx, order[i], order[j], was)
  }

  ghost predicate Ascending<T>(s: seq<T>, rank: map<T, int>) {
    && (forall i :: 0 <= i < |s| ==> s[i] in rank)
    && forall i, j {:trigger rank[s[i]], rank[s[j]]} :: 0 <= i < j < |s| ==> rank[s[i]] <= rank[s[j]]
  }

  ghost predicate Strict<T>(s: seq<T>, rank: map<T, int>) {
    && (forall i :: 0 <= i < |s| ==> s[i] in rank)
    && forall i, j {:trigger rank[s[i]], rank[s[j]]} :: 0 <= i < j < |s| ==> rank[s[i]] < rank[s[j]]
  }

  lemma SameHead<T>(a: seq<T>, b: seq<T>, rank: map<T, int>)
    requires multiset(a) == multiset(b) && a != [] && b != []
    requires Strict(a, rank) && Ascending(b, rank)
    ensures a[0] == b[0]
  {
    assert a[0] in multiset(b) && b[0] in multiset(a);
    var i :| 0 <= i < |b| && b[i] == a[0];
    var j :| 0 <= j < |a| && a[j] == b[0];
    assert rank[b[0]] <= rank[b[i]] && rank[a[0]] <= rank[a[j]];
  }

  lemma SameTailItems<T>(a: seq<T>, b: seq<T>)
    requires multiset(a) == multiset(b) && a != [] && b != [] && a[0] == b[0]
    ensures multiset(a[1..]) == multiset(b[1..])
  {
    assert a == [a[0]] + a[1..] && b == [b[0]] + b[1..];
    assert multiset(a[1..]) == multiset(a) - multiset{a[0]};
    assert multiset(b[1..]) == multiset(b) - multiset{a[0]};
  }

  /** A strictly ascending sequence is the only ascending arrangement of its items. */
  lemma {:induction false} OneStrictArrangement<T>(a: seq<T>, b: seq<T>, rank: map<T, int>)
    requires multiset(a) == multiset(b)
    requires Strict(a, rank) && Ascending(b, rank)
    ensures a == b
    decreases |a|
  {
    assert |multiset(a)| == |a| && |multiset(b)| == |b|;
    if a != [] {
      SameHead(a, b, rank);
      SameTailItems(a, b);
      OneStrictArrangement(a[1..], b[1..], rank);
    }
  }

  /** However the nodes were shuffled, sorting by idx restores a list in strictly increasing idx. */
  lemma SortRestores(nodes: seq<ListHead>, order: seq<ListHead>, was: seq<ListHead>)
    requires SortedByIdx(order, was) && multiset(was) == multiset(nodes)
    requires StrictIdx(nodes)
    ensures order == nodes
  {
    var idx := map n | n in nodes :: n.info.idx;
    forall i | 0 <= i < |order|
      ensures order[i] in idx
    {
      assert order[i] in multiset(order) && order[i] in multiset(nodes);
    }
    forall i, j | 0 <= i < j < |order|
      ensures idx[order[i]] <= idx[order[j]]
    {
      assert Before(CmpIdx, order[i], order[j], was);
    }
    OneStrictArrangement(nodes, order, idx);
  }

  /** Where an item of a list without repetition sits in the reversal. */
  lemma ReversedAt<T>(s: seq<T>, i: nat, a: nat)
    requires Distinct(multiset(s)) && i < |s| && a < |s| && Reversed(s)[a] == s[i]
    ensures a == |s| - 1 - i
  {
    var b := |s| - 1 - a;
    if b < i {
      DistinctIndices(s, b, i);
    } else if i < b {
      DistinctIndices(s, i, b);
    }
  }

  /** A list that was merely reversed comes back from the sort exactly when no idx occurs twice or out of order. */
  lemma ReversalRestoredIff(nodes: seq<ListHead>, order: seq<ListHead>)
    requires Distinct(multiset(nodes)) && SortedByIdx(order, Reversed(nodes))
    ensures order == nodes <==> StrictIdx(nodes)
  {
    ReversedItems(nodes);
    var was := Reversed(nodes);
    if StrictIdx(nodes) {
      SortRestores(nodes, order, was);
    }
    if order == nodes {
      forall i, j | 0 <= i < j < |nodes|
        ensures nodes[i].info.idx < nodes[j].info.idx
      {
        assert Before(CmpIdx, order[i], order[j], was);
        if nodes[i].info.idx == nodes[j].info.idx {
          var a, b :| 0 <= a < b < |was| && was[a] == nodes[i] && was[b] == nodes[j];
          ReversedAt(nodes, i, a);
          ReversedAt(nodes, j, b);
          assert false;
        }
      }
    }
  }

  /** Every node has its own cell back, with the low byte rebuilt from the high one. */
  twostate predicate NodesRestored(nodes: seq<ListHead>)
    reads Nodes(nodes)`info, Cells(nodes)`data16
  {
    forall n :: n in nodes ==> n.info == old(n.info) && n.info.data16 == Word(old(n.info.data16.hi), old(n.info.data16.hi))
  }

  lemma SameNodes(a: seq<ListHead>, b: seq<ListHead>)
    requires multiset(a) == multiset(b)
    ensures Nodes(a) == Nodes(b) && Cells(a) == Cells(b) && |a| == |b|
  {
    assert |multiset(a)| == |multiset(b)|;
    forall n
      ensures n in a <==> n in b
    {
      assert n in multiset(a) <==> n in multiset(b);
    }
  }

  /** The final sort: every cell takes part in a comparison, so every cell is regenerated. */
  method SortBack(list0: ListHead, ghost was: seq<ListHead>, ghost nodes: seq<ListHead>)
    returns (list: ListHead, ghost order: seq<ListHead>)
    requires IsList(list0, was, Nodes(nodes)) && multiset(was) == multiset(nodes)
    requires Distinct(multiset(nodes)) && |nodes| > 1 && OwnCells(Nodes(nodes), Cells(nodes))
    modifies Nodes(nodes)`next, Cells(nodes)`data16
    ensures IsList(list, order, Nodes(nodes)) && SortedByIdx(order, was)
    ensures NodesRestored(nodes)
  {
    hide IsList, OwnCells, Distinct, Before;
    ghost var passes, comps;
    SameNodes(was, nodes);
    list, order, passes, comps := Mergesort(list0, CmpIdx, null, was, Nodes(nodes), Cells(nodes));
    SameNodes(order, nodes);
    forall n | n in nodes
      ensures n.info.data16 == Word(old(n.info.data16.hi), old(n.info.data16.hi))
    {
      assert n in Nodes(order);
      var i :| 0 <= i < |order| && order[i] == n;
      assert Ready(CmpIdx, n.info.data16);
    }
  }

  /** Keys never decrease, and items of equal keys are in the order they are in in `was`. */
  ghost predicate StableBy<T>(order: seq<T>, key: map<T, int>, was: seq<T>) {
    && (forall i :: 0 <= i < |order| ==> order[i] in key)
    && forall i, j :: 0 <= i < j < |order| ==>
         || key[order[i]] < key[order[j]]
         || (key[order[i]] == key[order[j]] && exists a, b :: 0 <= a < b < |was| && was[a] == order[i] && was[b] == order[j])
  }

  lemma StableIs(order: seq<ListHead>, key: map<ListHead, int>, was: seq<ListHead>, cmp: Cmp)
    requires forall i :: 0 <= i < |order| ==> order[i] in key && key[order[i]] == Key(cmp, order[i].info.data16, order[i].info.idx)
    ensures StableBy(order, key, was)
       <==> forall i, j :: 0 <= i < j < |order| ==> Before(cmp, order[i], order[j], was)
  {
    forall i, j | 0 <= i < j < |order|
      ensures Before(cmp, order[i], order[j], was)
         <==> || key[order[i]] < key[order[j]]
              || (key[order[i]] == key[order[j]]
                  && exists a, b :: 0 <= a < b < |was| && was[a] == order[i] && was[b] == order[j])
    {
    }
  }

  ghost predicate SevenBits<T>(keys: map<T, int>) {
    forall n :: n in keys ==> 0 <= keys[n] < 0x80
  }

  /** What a search sees after the data sort: every low byte is the key with its top bit set. */
  function Keyed<T>(look: map<T, Look>, keys: map<T, int>, finderIdx: S16): map<T, Look> {
    if finderIdx <= 0 then look
    else map n | n in look && n in keys && 0 <= keys[n] < 0x80 :: look[n].(data := Word(look[n].data.hi, 0x80 + keys[n]))
  }

  /** The cells of the nodes. */
  ghost function Infos(nodes: seq<ListHead>): map<ListHead, ListData>
    reads Nodes(nodes)`info
  {
    map n | n in nodes :: n.info
  }

  /** The keys of a data sort are what its cells, each computed once on the running record, cached. */
  ghost predicate KeysCached(res: Results, log: seq<ListData>, before: map<ListData, Word>, cached: map<ListData, Word>,
                             k0: Kernel, k1: Kernel, infos: map<ListHead, ListData>, keys: map<ListHead, int>) {
    && Trace(res, log, before, cached, k0, k1)
    && forall n | n in infos ::
         && infos[n] in before && infos[n] in cached && IsCached(res, before[infos[n]], cached[infos[n]])
         && n in keys && keys[n] == cached[infos[n]].lo - 0x80
  }

  method SortByData(list0: ListHead, res: Results, finderIdx: S16, ghost s: seq<ListHead>, ghost nodes: seq<ListHead>,
                    ghost look: map<ListHead, Look>)
    returns (list: ListHead, ghost was: seq<ListHead>, ghost keys: map<ListHead, int>, ghost cached: map<ListData, Word>)
    requires IsList(list0, s, Nodes(nodes)) && multiset(s) == multiset(nodes) && |nodes| > 1 && Seen(look, nodes)
    requires Distinct(multiset(nodes)) && OwnCells(Nodes(nodes), Cells(nodes))
    modifies Nodes(nodes)`next, Cells(nodes)`data16, res`crc, res`crcstate, res`crcmatrix, res`log
    ensures IsList(list, was, Nodes(nodes)) && multiset(was) == multiset(nodes)
    ensures forall n :: n in nodes ==> n.info.data16.hi == old(n.info.data16.hi)
    ensures if finderIdx <= 0 then was == s else StableBy(was, keys, s) && SevenBits(keys)
    ensures Seen(Keyed(look, keys, finderIdx), was)
    ensures if finderIdx <= 0 then KernelOf(res) == old(KernelOf(res))
            else KeysCached(res, res.log, old(Words(Cells(nodes))), cached, old(KernelOf(res)), KernelOf(res),
                            old(Infos(nodes)), keys)
  {
    hide IsList, OwnCells, Distinct, StableBy, Before, Seen, Keyed, Key, HighSeen, Trace, IsCached, KeysCached;
    list, was, keys, cached := list0, s, map[], map[];
    if finderIdx > 0 {
      list, was := DataSort(list, res, s, nodes, look);
      SameNodes(was, nodes);
      keys := KeysNow(was);
      KeysStable(was, keys, s);
      KeyedSeen(was, nodes, look, keys, finderIdx);
      cached := Words(Cells(nodes));
      KeysAreCached(res, old(Words(Cells(nodes))), old(KernelOf(res)), nodes, was, keys);
    } else {
      SeenAgain(look, nodes, s);
      NothingKeyed(look, keys, finderIdx);
    }
  }

  lemma KeysAreCached(res: Results, before: map<ListData, Word>, k0: Kernel, nodes: seq<ListHead>, was: seq<ListHead>,
                      keys: map<ListHead, int>)
    requires Trace(res, res.log, before, Words(Cells(nodes)), k0, KernelOf(res))
    requires Nodes(was) == Nodes(nodes) && keys == KeysNow(was)
    requires forall i :: 0 <= i < |was| ==> Ready(CmpComplex, was[i].info.data16)
    requires forall n | n in nodes :: n.info in before && IsCached(res, before[n.info], n.info.data16)
    ensures KeysCached(res, res.log, before, Words(Cells(nodes)), k0, KernelOf(res), Infos(nodes), keys)
  {
    hide Trace, IsCached;
    forall n | n in nodes ensures n in keys && keys[n] == n.info.data16.lo - 0x80 {
      assert n in Nodes(was) && n in was;
      var i :| 0 <= i < |was| && was[i] == n;
      assert Ready(CmpComplex, was[i].info.data16);
    }
  }

  /** The sort by data, and what it does to the cells. */
  method DataSort(list0: ListHead, res: Results, ghost s: seq<ListHead>, ghost nodes: seq<ListHead>,
                  ghost look: map<ListHead, Look>)
    returns (list: ListHead, ghost was: seq<ListHead>)
    requires IsList(list0, s, Nodes(nodes)) && multiset(s) == multiset(nodes) && |nodes| > 1 && Seen(look, nodes)
    requires Distinct(multiset(nodes)) && OwnCells(Nodes(nodes), Cells(nodes))
    modifies Nodes(nodes)`next, Cells(nodes)`data16, res`crc, res`crcstate, res`crcmatrix, res`log
    ensures IsList(list, was, Nodes(nodes)) && multiset(was) == multiset(nodes) && HighSeen(look, nodes)
    ensures forall n :: n in nodes ==> n.info.data16.hi == old(n.info.data16.hi)
    ensures forall i, j :: 0 <= i < j < |was| ==> Before(CmpComplex, was[i], was[j], s)
    ensures forall i :: 0 <= i < |was| ==> Ready(CmpComplex, was[i].info.data16)
    ensures Trace(res, res.log, old(Words(Cells(nodes))), Words(Cells(nodes)), old(KernelOf(res)), KernelOf(res))
    ensures forall n :: n in nodes ==> IsCached(res, old(n.info.data16), n.info.data16)
  {
    hide IsList, OwnCells, Distinct, Before, Seen, Trace, IsCached;
    ghost var passes, comps;
    HighAtFirst(look, nodes);
    SameNodes(s, nodes);
    list, was, passes, comps := Mergesort(list0, CmpComplex, res, s, Nodes(nodes), Cells(nodes));
    SameNodes(s, nodes);
    forall n | n in nodes
      ensures n.info.data16.hi == old(n.info.data16.hi) && IsCached(res, old(n.info.data16), n.info.data16)
    {
      assert n in Nodes(nodes) && n in Nodes(s) && n in s;
    }
  }

  /** Idx and high byte of every node are still those in `look`. */
  ghost predicate HighSeen(look: map<ListHead, Look>, nodes: seq<ListHead>)
    reads Nodes(nodes)`info, Cells(nodes)
  {
    forall n | n in nodes :: n in look && look[n].idx == n.info.idx && look[n].data.hi == n.info.data16.hi
  }

  lemma HighAtFirst(look: map<ListHead, Look>, nodes: seq<ListHead>)
    requires Seen(look, nodes)
    ensures HighSeen(look, nodes)
  {
  }

  /** The keys the data sort leaves in the low bytes. */
  ghost function KeysNow(s: seq<ListHead>): map<ListHead, int>
    reads Nodes(s)`info, Cells(s)
  {
    map n | n in s :: n.info.data16.lo % 0x80
  }

  lemma KeysStable(was: seq<ListHead>, keys: map<ListHead, int>, s: seq<ListHead>)
    requires keys == KeysNow(was)
    requires forall i, j :: 0 <= i < j < |was| ==> Before(CmpComplex, was[i], was[j], s)
    ensures StableBy(was, keys, s) && SevenBits(keys)
  {
    StableIs(was, keys, s, CmpComplex);
  }

  lemma NothingKeyed(look: map<ListHead, Look>, keys: map<ListHead, int>, finderIdx: S16)
    requires finderIdx <= 0
    ensures Keyed(look, keys, finderIdx) == look
  {
  }

  lemma KeyedSeen(was: seq<ListHead>, nodes: seq<ListHead>, look: map<ListHead, Look>, keys: map<ListHead, int>,
                  finderIdx: S16)
    requires finderIdx > 0 && HighSeen(look, nodes) && Nodes(was) == Nodes(nodes)
    requires keys == KeysNow(was)
    requires forall i :: 0 <= i < |was| ==> Ready(CmpComplex, was[i].info.data16)
    ensures Seen(Keyed(look, keys, finderIdx), was)
  {
    var keyed := Keyed(look, keys, finderIdx);
    forall i | 0 <= i < |was|
      ensures was[i] in keyed && keyed[was[i]] == Look(was[i].info.idx, was[i].info.data16)
    {
      assert was[i] in Nodes(was) && was[i] in nodes;
    }
  }

  /** What the searches of a pass will see. */
  ghost function Looks(nodes: seq<ListHead>): (look: map<ListHead, Look>)
    reads Nodes(nodes)`info, Cells(nodes)
    ensures Seen(look, nodes) && IdxSeen(look, nodes)
  {
    map n | n in nodes :: Look(n.info.idx, n.info.data16)
  }

  /** The result before the final sort: the score of the searches, and the CRC over the list without its second item. */
  function ShuffleCrc<T>(nodes: seq<T>, look: map<T, Look>, finderIdx: S16, rounds: nat, was: seq<T>, keys: map<T, int>): bv16
    requires |nodes| >= 2
  {
    MiddleCrc(was, Keyed(look, keys, finderIdx), SoughtAfter(finderIdx, rounds),
              (Score(nodes, look, finderIdx, rounds) % 0x1_0000) as bv16)
  }

  lemma ShuffleCrcIs<T>(nodes: seq<T>, look: map<T, Look>, finderIdx: S16, rounds: nat, was: seq<T>, keys: map<T, int>)
    requires |nodes| >= 2
    ensures ShuffleCrc(nodes, look, finderIdx, rounds, was, keys)
         == MiddleCrc(was, Keyed(look, keys, finderIdx), SoughtAfter(finderIdx, rounds),
                      (Score(nodes, look, finderIdx, rounds) % 0x1_0000) as bv16)
  {
  }

  lemma IdxStill(look: map<ListHead, Look>, nodes: seq<ListHead>)
    requires forall n | n in nodes :: n in look && look[n].idx == n.info.idx
    ensures IdxSeen(look, nodes)
  {
  }

  /** Everything before the final sort: some arrangement of the same nodes, with no high byte changed. */
  method Shuffle(res: Results, finderIdx: S16, ghost nodes: seq<ListHead>)
    returns (retval: bv16, list: ListHead, ghost was: seq<ListHead>, ghost keys: map<ListHead, int>,
             ghost cached: map<ListData, Word>)
    requires IsList(res.list, nodes, Nodes(nodes)) && Distinct(multiset(nodes)) && |nodes| >= 3
    requires OwnCells(Nodes(nodes), Cells(nodes))
    modifies Nodes(nodes), Cells(nodes)`data16, res`crc, res`crcstate, res`crcmatrix, res`log
    ensures IsList(list, was, Nodes(nodes)) && multiset(was) == multiset(nodes)
    ensures forall n :: n in nodes ==> n.info == old(n.info) && n.info.data16.hi == old(n.info.data16.hi)
    ensures OwnCells(Nodes(nodes), Cells(nodes)) && Cells(nodes) == old(Cells(nodes))
    ensures var s := Arranged(nodes, old(Looks(nodes)), finderIdx, Rounds(res.seed3));
            if finderIdx <= 0 then was == s else StableBy(was, keys, s) && SevenBits(keys)
    ensures IdxSeen(old(Looks(nodes)), nodes)
    ensures retval == ShuffleCrc(nodes, old(Looks(nodes)), finderIdx, Rounds(res.seed3), was, keys)
    ensures if finderIdx <= 0 then KernelOf(res) == old(KernelOf(res))
            else KeysCached(res, res.log, old(Words(Cells(nodes))), cached, old(KernelOf(res)), KernelOf(res),
                            old(Infos(nodes)), keys)
  {
    hide Distinct, Occurs, IsList, OwnCells, Arranged, Seen, StableBy, SevenBits, MiddleCrc, Keyed, SoughtAfter, Score,
      ShuffleCrc, IdxSeen, HighSeen, KeysCached;
    ghost var look := Looks(nodes);
    var info;
    var score;
    list, score, info := FindAndShuffle(res.list, res.seed3, finderIdx, nodes, Nodes(nodes), look);
    was := Arranged(nodes, look, finderIdx, Rounds(res.seed3));
    list, was, keys, cached := SortByData(list, res, finderIdx, was, nodes, look);
    SameNodes(was, nodes);
    ShuffleCrcIs(nodes, look, finderIdx, Rounds(res.seed3), was, keys);
    retval := RemoveAndUndo(list, info, score as bv16, was, Nodes(nodes), Keyed(look, keys, finderIdx));
    IdxStill(look, nodes);
  }

  /** Idx never decreases, and nodes of equal idx are in `was` in the order they are in here. */
  ghost predicate KeepsOrder<T>(nodes: seq<T>, look: map<T, Look>, was: seq<T>) {
    StableBy(nodes, map n | n in look :: look[n].idx as int, was)
  }

  /** The searches' view of every idx is still right. */
  ghost predicate IdxSeen(look: map<ListHead, Look>, nodes: seq<ListHead>)
    reads Nodes(nodes)`info, Cells(nodes)`idx
  {
    forall i :: 0 <= i < |nodes| ==> nodes[i] in look && look[nodes[i]].idx == nodes[i].info.idx
  }

  lemma KeepsOrderIs(nodes: seq<ListHead>, look: map<ListHead, Look>, was: seq<ListHead>)
    requires IdxSeen(look, nodes)
    ensures KeepsOrder(nodes, look, was)
       <==> forall i, j :: 0 <= i < j < |nodes| ==> Before(CmpIdx, nodes[i], nodes[j], was)
  {
    hide StableBy, Before;
    StableIs(nodes, map n | n in look :: look[n].idx as int, was, CmpIdx);
  }

  lemma BeforeRank(a: ListHead, b: ListHead, was: seq<ListHead>, pos: map<ListHead, int>)
    requires Distinct(multiset(was)) && a in was && b in was && pos == Positions(was)
    ensures Before(CmpIdx, a, b, was) ==> a.info.idx * |was| + pos[a] < b.info.idx * |was| + pos[b]
  {
    if Before(CmpIdx, a, b, was) {
      if a.info.idx < b.info.idx {
        RankLess(a.info.idx, b.info.idx, |was|);
      } else {
        var i, j :| 0 <= i < j < |was| && was[i] == a && was[j] == b;
      }
    }
  }

  lemma RankLess(x: int, y: int, n: nat)
    requires x < y
    ensures x * n + n <= y * n
  {
    assert (x + 1) * n <= y * n;
  }

  /** There is only one stable arrangement by idx. */
  lemma OneStableArrangement(a: seq<ListHead>, b: seq<ListHead>, was: seq<ListHead>)
    requires SortedByIdx(a, was) && SortedByIdx(b, was) && Distinct(multiset(was))
    ensures a == b
  {
    var pos := Positions(was);
    var rank := map n | n in was :: n.info.idx * |was| + pos[n];
    StrictlyRanked(a, was, pos, rank);
    StrictlyRanked(b, was, pos, rank);
    OneStrictArrangement(a, b, rank);
  }

  lemma StrictlyRanked(a: seq<ListHead>, was: seq<ListHead>, pos: map<ListHead, int>, rank: map<ListHead, int>)
    requires SortedByIdx(a, was) && Distinct(multiset(was)) && pos == Positions(was)
    requires rank == map n | n in was :: n.info.idx * |was| + pos[n]
    ensures Strict(a, rank)
  {
    forall i | 0 <= i < |a| ensures a[i] in was {
      assert a[i] in multiset(a) && a[i] in multiset(was);
    }
    forall i, j | 0 <= i < j < |a| ensures rank[a[i]] < rank[a[j]] {
      assert Before(CmpIdx, a[i], a[j], was);
      BeforeRank(a[i], a[j], was, pos);
    }
  }

  /** What the pass leaves of the order its list was in. */
  lemma OrderRestored(nodes: seq<ListHead>, look: map<ListHead, Look>, was: seq<ListHead>, order: seq<ListHead>)
    requires IdxSeen(look, nodes)
    requires Distinct(multiset(nodes)) && SortedByIdx(order, was) && multiset(was) == multiset(nodes)
    ensures multiset(order) == multiset(nodes) && (StrictIdx(nodes) ==> order == nodes)
    ensures order == nodes <==> KeepsOrder(nodes, look, was)
    ensures was == Reversed(nodes) ==> (order == nodes <==> StrictIdx(nodes))
  {
    if StrictIdx(nodes) {
      SortRestores(nodes, order, was);
    }
    KeepsOrderIs(nodes, look, was);
    if KeepsOrder(nodes, look, was) {
      OneStableArrangement(order, nodes, was);
    }
    if was == Reversed(nodes) {
      ReversalRestoredIff(nodes, order);
    }
  }

  /** The CRC over all but the head of the restored list. */
  method CrcOfList(list: ListHead, retval0: bv16, ghost s: seq<ListHead>, ghost region: set<ListHead>)
    returns (retval: bv16)
    requires IsList(list, s, region)
    ensures retval == CrcRepeated(list.info.data16, |s| - 1, retval0)
  {
    assert |s| > 1 ==> list.next == s[1];
    retval := CrcFrom(list, list.next, retval0, s, 1, region);
  }

  lemma FirstNode(list: ListHead?, s: seq<ListHead>, region: set<ListHead>)
    requires IsList(list, s, region)
    ensures list == First(s)
  {
  }

  /** The end of the pass: sort by idx and run the CRC over the result. */
  method FinishPass(list0: ListHead, retval0: bv16, ghost was: seq<ListHead>, ghost nodes: seq<ListHead>,
                    ghost look: map<ListHead, Look>)
    returns (retval: bv16, list: ListHead, ghost order: seq<ListHead>)
    requires IdxSeen(look, nodes)
    requires IsList(list0, was, Nodes(nodes)) && multiset(was) == multiset(nodes)
    requires Distinct(multiset(nodes)) && |nodes| > 1 && OwnCells(Nodes(nodes), Cells(nodes))
    modifies Nodes(nodes)`next, Cells(nodes)`data16
    ensures IsList(list, order, Nodes(nodes)) && multiset(order) == multiset(nodes)
    ensures NodesRestored(nodes)
    ensures StrictIdx(nodes) ==> order == nodes && list == First(nodes)
    ensures order == nodes <==> KeepsOrder(nodes, look, was)
    ensures was == Reversed(nodes) ==> (order == nodes <==> StrictIdx(nodes))
    ensures retval == CrcRepeated(list.info.data16, |nodes| - 1, retval0)
  {
    hide StrictIdx, Distinct, KeepsOrder, IdxSeen, SortedByIdx, IsList;
    list, order := SortBack(list0, was, nodes);
    OrderRestored(nodes, look, was, order);
    FirstNode(list, order, Nodes(nodes));
    SameNodes(order, nodes);
    retval := CrcOfList(list, retval0, order, Nodes(nodes));
  }

  /**
   * The pass. Whatever the searches and the data sort did, the list ends sorted by idx with every cell rebuilt;
   * a list built in strictly increasing idx ends exactly as it was. In general it does so exactly if idx never
   * decreases and ties come out of the searches, and the stable sort by 7-bit keys if there was one, as they were.
   */
  method CoreBenchList(res: Results, finderIdx: S16, ghost nodes: seq<ListHead>)
    returns (retval: bv16, list: ListHead, ghost order: seq<ListHead>, ghost was: seq<ListHead>,
             ghost keys: map<ListHead, int>, ghost cached: map<ListData, Word>)
    requires IsList(res.list, nodes, Nodes(nodes)) && Distinct(multiset(nodes)) && |nodes| >= 3
    requires OwnCells(Nodes(nodes), Cells(nodes))
    modifies Nodes(nodes), Cells(nodes)`data16, res`crc, res`crcstate, res`crcmatrix, res`log
    ensures IsList(list, order, Nodes(nodes)) && multiset(order) == multiset(nodes)
    ensures NodesRestored(nodes)
    ensures StrictIdx(nodes) ==> order == nodes && list == res.list
    ensures order == nodes <==> KeepsOrder(nodes, old(Looks(nodes)), was)
    ensures var rounds := if res.seed3 > 0 then res.seed3 else 0;
            var s := Arranged(nodes, old(Looks(nodes)), finderIdx, rounds);
            if finderIdx <= 0 then was == s else StableBy(was, keys, s) && SevenBits(keys)
    ensures res.seed3 == 1 && finderIdx <= 0 && old(!Occurs(Sought(finderIdx, 0), nodes)) ==>
              (order == nodes <==> StrictIdx(nodes))
    ensures var rounds := if res.seed3 > 0 then res.seed3 else 0;
            retval == CrcRepeated(list.info.data16, |nodes| - 1,
                                  ShuffleCrc(nodes, old(Looks(nodes)), finderIdx, rounds, was, keys))
    ensures if finderIdx <= 0 then KernelOf(res) == old(KernelOf(res))
            else KeysCached(res, res.log, old(Words(Cells(nodes))), cached, old(KernelOf(res)), KernelOf(res),
                            old(Infos(nodes)), keys)
  {
    hide StrictIdx, Distinct, Occurs, IsList, OwnCells, Arranged, KeepsOrder, Reversed, Seen, IdxSeen, SoughtIn,
      StableBy, SevenBits, ShuffleCrc, CrcRepeated, KeysCached;
    FirstNode(res.list, nodes, Nodes(nodes));
    ghost var look := Looks(nodes);
    if res.seed3 == 1 {
      OneRound(nodes, look, res.seed3, finderIdx);
    }
    retval, list, was, keys, cached := Shuffle(res, finderIdx, nodes);
    retval, list, order := FinishPass(list, retval, was, nodes, look);
  }

  /** A single search that misses leaves the list reversed. */
  lemma OneRound(nodes: seq<ListHead>, look: map<ListHead, Look>, findNum: S16, finderIdx: S16)
    requires Seen(look, nodes) && findNum == 1
    ensures !Occurs(Sought(finderIdx, 0), nodes) ==> Arranged(nodes, look, finderIdx, Rounds(findNum)) == Reversed(nodes)
  {
    var info := SoughtIn(finderIdx, 0);
    assert Arranged(nodes, look, finderIdx, 0) == nodes;
    if !Occurs(info, nodes) {
      FirstMatch(nodes, look, info, |nodes|);
    }
  }
}
