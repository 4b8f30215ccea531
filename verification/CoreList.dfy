// CoreMark's linked-list kernel: comparators with side effects, the in-place
// merge sort, and the pass that must leave the list as it found it.

module CoreList {
  import opened Common
  import opened StableMerge
  import Crc

  type U8 = x: int | 0 <= x < 0x100
  type U16 = x: int | 0 <= x < 0x1_0000
  type S16 = x: int | -0x8000 <= x < 0x8000

  /** The 16 bits of a cell as its two bytes; nothing in this file uses their sign. */
  datatype Word = Word(hi: U8, lo: U8)

  function Value(w: Word): U16 {
    256 * w.hi + w.lo
  }

  class ListData {
    var data16: Word
    var idx: S16
  }

  class ListHead {
    var next: ListHead?
    var info: ListData

    constructor (info: ListData)
      ensures this.info == info && next == null
    {
      this.info := info;
      next := null;
    }
  }

  /** The part of the results record the list kernel uses. */
  class Results {
    const seed3: S16
    const benchState: (U16, bv16) -> U16   // core_bench_state on the step and the running CRC
    const benchMatrix: (U16, bv16) -> U16  // core_bench_matrix likewise
    var list: ListHead
    var crc: bv16
    var crcstate: U16
    var crcmatrix: U16
    ghost var log: seq<ListData>           // the cells computed by the sort that is running, in that order

    constructor (list: ListHead, seed3: S16, benchState: (U16, bv16) -> U16, benchMatrix: (U16, bv16) -> U16)
      ensures this.list == list && this.seed3 == seed3
      ensures this.benchState == benchState && this.benchMatrix == benchMatrix
    {
      this.list, this.seed3, this.benchState, this.benchMatrix := list, seed3, benchState, benchMatrix;
      crc, crcstate, crcmatrix, log := 0, 0, 0, [];
    }
  }

  // ----- Comparators -----

  /** Which of the two comparators a sort is given. */
  datatype Cmp = CmpComplex | CmpIdx

  /** Has the comparator already left its mark on the cell: key cached, or data regenerated? */
  predicate Ready(cmp: Cmp, data: Word) {
    match cmp
    case CmpComplex => data.lo >= 0x80
    case CmpIdx => data.lo == data.hi
  }

  /** What the comparator compares, once the cell is ready. */
  function Key(cmp: Cmp, data: Word, idx: S16): int {
    match cmp
    case CmpComplex => data.lo % 0x80
    case CmpIdx => idx
  }

  /** The high byte stays; a cell that was ready stays as it is. */
  predicate Kept(cmp: Cmp, before: Word, after: Word) {
    && after.hi == before.hi
    && (Ready(cmp, before) ==> after == before)
  }

  /** The 8-bit operand of the benchmark kernels: bits 3-6, twice. */
  function DType(data: Word): U16 {
    var d := data.lo / 8 % 16;
    d + 16 * d
  }

  /** The value `calc_func` computes for an uncached cell. */
  function CalcValue(data: Word, crc: bv16, res: Results): U16 {
    match data.lo % 8
    case 0 => res.benchState(if DType(data) < 0x22 then 0x22 else DType(data), crc)
    case 1 => res.benchMatrix(DType(data), crc)
    case _ => Value(data)
  }

  /** Bits 0 to 2 choose between the two kernels, with bits 3 to 6 twice as step, and the cell itself. */
  lemma CalcLaw(data: Word, crc: bv16, res: Results)
    requires data.lo < 0x80
    ensures var v, step := CalcValue(data, crc, res), 17 * (data.lo / 8);
            && (data.lo % 8 == 0 ==> v == res.benchState(if step < 34 then 34 else step, crc))
            && (data.lo % 8 == 1 ==> v == res.benchMatrix(step, crc))
            && (data.lo % 8 >= 2 ==> v == 256 * data.hi + data.lo && v % 0x80 == data.lo)
  {
    StepLaw(data);
    hide DType;
  }

  lemma StepLaw(data: Word)
    requires data.lo < 0x80
    ensures DType(data) == 17 * (data.lo / 8)
  {
  }

  /** What of the results record a computation depends on and changes. */
  datatype Kernel = Kernel(crc: bv16, crcstate: U16, crcmatrix: U16)

  /** The record after one cell more was computed. */
  function Computed(k: Kernel, data: Word, res: Results): Kernel {
    var v := CalcValue(data, k.crc, res);
    Kernel(Crc.Crc16(v as bv16, k.crc),
           if data.lo % 8 == 0 && k.crcstate == 0 then v else k.crcstate,
           if data.lo % 8 == 1 && k.crcmatrix == 0 then v else k.crcmatrix)
  }

  /** The record after the cells of `log`, from the first on. */
  function Through(k: Kernel, log: seq<ListData>, before: map<ListData, Word>, res: Results): Kernel
    requires forall d | d in log :: d in before
  {
    if log == [] then k
    else
      var n := |log| - 1;
      Computed(Through(k, log[..n], before, res), before[log[n]], res)
  }

  /**
   * The cells of `log`, none of them cached before and each only once, were computed in that order; what each of them
   * yielded is cached, and nothing else has changed.
   */
  ghost predicate Trace(res: Results, log: seq<ListData>, before: map<ListData, Word>, after: map<ListData, Word>,
                        k0: Kernel, k1: Kernel) {
    && before.Keys == after.Keys
    && (forall d | d in log :: d in before && before[d].lo < 0x80)
    && (forall i, j :: 0 <= i < j < |log| ==> log[i] != log[j])
    && k1 == Through(k0, log, before, res)
    && (forall i :: 0 <= i < |log| ==>
          after[log[i]] == Word(before[log[i]].hi,
                                0x80 + CalcValue(before[log[i]], Through(k0, log[..i], before, res).crc, res) % 0x80))
    && (forall d | d in before && d !in log :: after[d] == before[d])
  }

  lemma TraceNothing(res: Results, before: map<ListData, Word>, k: Kernel)
    ensures Trace(res, [], before, before, k, k)
  {
  }

  lemma TraceMore(res: Results, log: seq<ListData>, before: map<ListData, Word>, after: map<ListData, Word>,
                  k0: Kernel, k1: Kernel, d: ListData)
    requires Trace(res, log, before, after, k0, k1) && d in before && after[d].lo < 0x80
    ensures d !in log && after[d] == before[d]
    ensures Trace(res, log + [d], before,
                  after[d := Word(before[d].hi, 0x80 + CalcValue(before[d], k1.crc, res) % 0x80)],
                  k0, Computed(k1, before[d], res))
  {
    hide CalcValue, Computed, Through;
    assert d !in log;
    ThroughMore(k0, log, d, before, res);
    var more := log + [d];
    assert more[..|log|] == log && more[|log|] == d;
    forall i | 0 <= i < |log| ensures more[..i] == log[..i] && more[i] == log[i] {
    }
  }

  lemma ThroughMore(k: Kernel, log: seq<ListData>, d: ListData, before: map<ListData, Word>, res: Results)
    requires d in before && forall c | c in log :: c in before
    ensures Through(k, log + [d], before, res) == Computed(Through(k, log, before, res), before[d], res)
  {
    hide Computed;
    assert (log + [d])[..|log|] == log;
  }

  /** Some CRC makes the kernel yield a value with these seven low bits. */
  ghost predicate Yields(kernel: (U16, bv16) -> U16, step: U16, key: int) {
    exists crc: bv16 :: kernel(step, crc) % 0x80 == key
  }

  /** What a cell has cached, said of the kernels themselves. */
  ghost predicate IsCached(res: Results, before: Word, after: Word) {
    if before.lo >= 0x80 then after == before
    else
      && after.hi == before.hi && after.lo >= 0x80
      && var step := 17 * (before.lo / 8);
         && (before.lo % 8 == 0 ==> Yields(res.benchState, if step < 34 then 34 else step, after.lo - 0x80))
         && (before.lo % 8 == 1 ==> Yields(res.benchMatrix, step, after.lo - 0x80))
         && (before.lo % 8 >= 2 ==> after.lo - 0x80 == before.lo)
  }

  /** A cell that ends cached ends with its own key. */
  lemma TraceCached(res: Results, log: seq<ListData>, before: map<ListData, Word>, after: map<ListData, Word>,
                    k0: Kernel, k1: Kernel, d: ListData)
    requires Trace(res, log, before, after, k0, k1) && d in before && after[d].lo >= 0x80
    ensures IsCached(res, before[d], after[d])
  {
    hide CalcValue, Computed, Through;
    if d in log {
      var i :| 0 <= i < |log| && log[i] == d;
      CalcLaw(before[d], Through(k0, log[..i], before, res).crc, res);
    }
  }

  /** The switch of `calc_func`: run the kernel the cell asks for and note its first nonzero result. */
  method Calculate(data: Word, res: Results) returns (retval: U16)
    modifies res`crcstate, res`crcmatrix
    ensures retval == CalcValue(data, res.crc, res)
    ensures res.crcstate == if data.lo % 8 == 0 && old(res.crcstate) == 0 then retval else old(res.crcstate)
    ensures res.crcmatrix == if data.lo % 8 == 1 && old(res.crcmatrix) == 0 then retval else old(res.crcmatrix)
  {
    var flag := data.lo % 8;
    var dtype := data.lo / 8 % 16;
    dtype := dtype + 16 * dtype;
    match flag {
      case 0 =>
        if dtype < 0x22 {
          dtype := 0x22;
        }
        retval := res.benchState(dtype, res.crc);
        if res.crcstate == 0 {
          res.crcstate := retval;
        }
      case 1 =>
        retval := res.benchMatrix(dtype, res.crc);
        if res.crcmatrix == 0 {
          res.crcmatrix := retval;
        }
      case _ =>
        retval := Value(data);
    }
  }

  ghost function KernelOf(res: Results): Kernel
    reads res`crc, res`crcstate, res`crcmatrix
  {
    Kernel(res.crc, res.crcstate, res.crcmatrix)
  }

  /** What one call of `calc_func` does to a word and the record, if it computes it. */
  predicate CalcStep(res: Results, word: Word, after: Word, k: Kernel, k': Kernel) {
    var v := CalcValue(word, k.crc, res);
    && after.hi == word.hi && after.lo >= 0x80 && after.lo % 0x80 == v % 0x80
    && k' == Kernel(Crc.Crc16(v as bv16, k.crc), if word.lo % 8 == 0 && k.crcstate == 0 then v else k.crcstate,
                    if word.lo % 8 == 1 && k.crcmatrix == 0 then v else k.crcmatrix)
  }

  method CalcFunc(d: ListData, res: Results) returns (r: U16)
    modifies d`data16, res`crc, res`crcstate, res`crcmatrix, res`log
    ensures res.log == old(res.log) + if old(Ready(CmpComplex, d.data16)) then [] else [d]
    ensures Ready(CmpComplex, d.data16) && Kept(CmpComplex, old(d.data16), d.data16)
    ensures r == d.data16.lo % 0x80
    ensures old(Ready(CmpComplex, d.data16)) ==>
              res.crc == old(res.crc) && res.crcstate == old(res.crcstate) && res.crcmatrix == old(res.crcmatrix)
    ensures old(!Ready(CmpComplex, d.data16)) ==>
              CalcStep(res, old(d.data16), d.data16, old(KernelOf(res)), KernelOf(res))
  {
    hide CalcValue, Crc.Feed, Crc.Fold, Crc.BitsOf, Crc.LittleEndian16, Crc.Bit;
    var data := d.data16;
    var optype := data.lo / 0x80;
    if optype == 1 {
      return data.lo % 0x80;
    }
    var retval := Calculate(data, res);
    res.crc := Crc.CrcU16(retval as bv16, res.crc);
    retval := retval % 0x80;
    d.data16 := Word(data.hi, 0x80 + retval);
    res.log := res.log + [d];
    return retval;
  }

  /** Where a sort started: the cells, and the record it is given. */
  datatype Start = Start(words: map<ListData, Word>, res: Results?, record: set<Results>, kernel: Kernel)

  ghost function Words(cells: set<ListData>): map<ListData, Word>
    reads cells`data16
  {
    map d | d in cells :: d.data16
  }

  /** Since the start, the cells of the log were computed. */
  ghost predicate Logged(start: Start, cells: set<ListData>)
    reads cells`data16, start.record`crc, start.record`crcstate, start.record`crcmatrix, start.record`log
  {
    start.res != null ==>
      start.res in start.record
      && Trace(start.res, start.res.log, start.words, Words(cells), start.kernel, KernelOf(start.res))
  }

  lemma ComputedIs(k: Kernel, data: Word, res: Results)
    ensures var v := CalcValue(data, k.crc, res);
            && Computed(k, data, res).crc == Crc.Crc16(v as bv16, k.crc)
            && Computed(k, data, res).crcstate == (if data.lo % 8 == 0 && k.crcstate == 0 then v else k.crcstate)
            && Computed(k, data, res).crcmatrix == (if data.lo % 8 == 1 && k.crcmatrix == 0 then v else k.crcmatrix)
  {
    hide CalcValue, Crc.Crc16;
  }

  lemma TraceStep(res: Results, log: seq<ListData>, before: map<ListData, Word>, words: map<ListData, Word>,
                  k0: Kernel, k: Kernel, d: ListData, after: Word, k': Kernel)
    requires Trace(res, log, before, words, k0, k) && d in words && words[d].lo < 0x80
    requires CalcStep(res, words[d], after, k, k')
    ensures Trace(res, log + [d], before, words[d := after], k0, k')
  {
    hide *;
    TraceKeys(res, log, before, words, k0, k);
    TraceMore(res, log, before, words, k0, k, d);
    StepIs(res, words[d], after, k, k');
  }

  lemma StepIs(res: Results, word: Word, after: Word, k: Kernel, k': Kernel)
    requires CalcStep(res, word, after, k, k')
    ensures after == Word(word.hi, 0x80 + CalcValue(word, k.crc, res) % 0x80) && k' == Computed(k, word, res)
  {
    ComputedIs(k, word, res);
    SevenLow(after.lo);
    hide CalcValue, Crc.Crc16, Computed;
  }

  lemma SevenLow(lo: U8)
    ensures lo >= 0x80 ==> lo == 0x80 + lo % 0x80
  {
  }

  /** `calc_func`, logged. */
  method CalcLogged(d: ListData, res: Results, ghost cells: set<ListData>, ghost start: Start) returns (r: U16)
    requires start.res == res && start.record == Record(res) && d in cells && Logged(start, cells)
    modifies d`data16, res`crc, res`crcstate, res`crcmatrix, res`log
    ensures Ready(CmpComplex, d.data16) && Kept(CmpComplex, old(d.data16), d.data16)
    ensures r == d.data16.lo % 0x80 && Logged(start, cells)
  {
    hide CalcValue, Trace, Crc.Crc16, Through, Computed, CalcStep, Crc.Feed, Crc.Fold, Crc.BitsOf, Crc.Bit;
    ghost var words, k, word, log := Words(cells), KernelOf(res), d.data16, res.log;
    r := CalcFunc(d, res);
    assert Words(cells) == words[d := d.data16];
    if word.lo < 0x80 {
      TraceStep(res, log, start.words, words, start.kernel, k, d, d.data16, KernelOf(res));
    } else {
      assert words[d := word] == words && log + [] == log && d.data16 == word && KernelOf(res) == k;
    }
  }

  lemma TraceKeys(res: Results, log: seq<ListData>, before: map<ListData, Word>, after: map<ListData, Word>,
                  k0: Kernel, k1: Kernel)
    requires Trace(res, log, before, after, k0, k1)
    ensures before.Keys == after.Keys
  {
  }

  method CmpComplexInfo(a: ListData, b: ListData, res: Results, ghost cells: set<ListData>, ghost start: Start)
    returns (c: int)
    requires start.res == res && start.record == Record(res) && a in cells && b in cells && Logged(start, cells)
    modifies a`data16, b`data16, res`crc, res`crcstate, res`crcmatrix, res`log
    ensures Ready(CmpComplex, a.data16) && Kept(CmpComplex, old(a.data16), a.data16)
    ensures Ready(CmpComplex, b.data16) && Kept(CmpComplex, old(b.data16), b.data16)
    ensures c == Key(CmpComplex, a.data16, a.idx) - Key(CmpComplex, b.data16, b.idx) && Logged(start, cells)
  {
    hide Logged;
    var val1 := CalcLogged(a, res, cells, start);
    var val2 := CalcLogged(b, res, cells, start);
    c := val1 as int - val2 as int;
  }

  /** A cell with its low byte rebuilt from the copy in its high byte. */
  function Regenerated(data: Word): Word {
    Word(data.hi, data.hi)
  }

  method CmpIdxInfo(a: ListData, b: ListData, res: Results?) returns (c: int)
    modifies a`data16, b`data16
    ensures c == a.idx - b.idx
    ensures res == null ==> a.data16 == Regenerated(old(a.data16)) && b.data16 == Regenerated(old(b.data16))
    ensures res != null ==> a.data16 == old(a.data16) && b.data16 == old(b.data16)
  {
    if res == null {
      a.data16 := Word(a.data16.hi, a.data16.hi);
      b.data16 := Word(b.data16.hi, b.data16.hi);
    }
    return a.idx - b.idx;
  }

  ghost function Record(res: Results?): set<Results> {
    if res == null then {} else {res}
  }

  /** The call through the comparator argument; the list kernel sorts by idx only with a null record. */
  method Compare(cmp: Cmp, a: ListData, b: ListData, res: Results?, ghost cells: set<ListData>, ghost start: Start)
    returns (c: int)
    requires cmp == CmpIdx <==> res == null
    requires start.res == res && start.record == Record(res) && a in cells && b in cells && Logged(start, cells)
    modifies a`data16, b`data16, Record(res)`crc, Record(res)`crcstate, Record(res)`crcmatrix, Record(res)`log
    ensures Ready(cmp, a.data16) && Kept(cmp, old(a.data16), a.data16)
    ensures Ready(cmp, b.data16) && Kept(cmp, old(b.data16), b.data16)
    ensures c == Key(cmp, a.data16, a.idx) - Key(cmp, b.data16, b.idx) && Logged(start, cells)
  {
    match cmp {
      case CmpComplex => c := CmpComplexInfo(a, b, res, cells, start);
      case CmpIdx => c := CmpIdxInfo(a, b, res);
    }
  }

  // ----- Lists -----

  ghost predicate Within(s: seq<ListHead>, region: set<ListHead>) {
    forall i :: 0 <= i < |s| ==> s[i] in region
  }

  /** Consecutive nodes point to each other. */
  ghost predicate Linked(s: seq<ListHead>, region: set<ListHead>)
    reads region`next
  {
    && Within(s, region)
    && forall i :: 0 <= i < |s| - 1 ==> s[i].next == s[i + 1]
  }

  /** A null-terminated list: the last node, if any, has no successor. */
  ghost predicate Terminated(s: seq<ListHead>, region: set<ListHead>)
    reads region`next
  {
    Linked(s, region) && (s != [] ==> s[|s| - 1].next == null)
  }

  function First(s: seq<ListHead>): ListHead? {
    if s == [] then null else s[0]
  }

  function Last(s: seq<ListHead>): ListHead? {
    if s == [] then null else s[|s| - 1]
  }

  /** Every node of the region has its own cell, inside the data region. */
  ghost predicate OwnCells(region: set<ListHead>, cells: set<ListData>)
    reads region`info
  {
    && (forall n :: n in region ==> n.info in cells)
    && (forall m, n :: m in region && n in region && m != n ==> m.info != n.info)
  }

  /** `key` records the keys of nodes whose cells are ready, and only those. */
  ghost predicate Recorded(key: map<ListHead, int>, cmp: Cmp, region: set<ListHead>, cells: set<ListData>)
    reads region`info, cells`data16, cells`idx
  {
    forall n :: n in key ==>
      && n in region && n.info in cells
      && Ready(cmp, n.info.data16)
      && key[n] == Key(cmp, n.info.data16, n.info.idx)
  }

  /** Every cell is a kept version of what it was at the `start`. */
  ghost predicate KeptSince(start: map<ListData, Word>, cmp: Cmp, cells: set<ListData>)
    reads cells`data16
  {
    forall d :: d in cells ==> d in start && Kept(cmp, start[d], d.data16)
  }

  /** What the sort knows of the cells: who owns which, whose key is known, how they have changed. */
  ghost predicate CellsKnown(key: map<ListHead, int>, cmp: Cmp, region: set<ListHead>, cells: set<ListData>,
                             start: Start)
    reads region`info, cells`data16, cells`idx
    reads start.record`crc, start.record`crcstate, start.record`crcmatrix, start.record`log
  {
    && OwnCells(region, cells) && Recorded(key, cmp, region, cells) && KeptSince(start.words, cmp, cells)
    && Logged(start, cells)
  }

  lemma KeptTwice(cmp: Cmp, a: Word, b: Word, c: Word)
    ensures Kept(cmp, a, b) && Kept(cmp, b, c) ==> Kept(cmp, a, c)
    ensures Kept(cmp, b, c) && Ready(cmp, b) ==> c == b
    ensures Kept(cmp, c, c)
  {
  }

  /** Comparing two nodes records both keys and disturbs no key already recorded. */
  method CompareNodes(cmp: Cmp, p: ListHead, q: ListHead, res: Results?,
                      ghost region: set<ListHead>, ghost cells: set<ListData>, ghost start: Start,
                      ghost key0: map<ListHead, int>)
    returns (c: int, ghost key: map<ListHead, int>)
    requires (cmp == CmpIdx <==> res == null) && start.res == res && start.record == Record(res)
    requires p in region && q in region
    requires CellsKnown(key0, cmp, region, cells, start)
    modifies cells`data16, Record(res)`crc, Record(res)`crcstate, Record(res)`crcmatrix, Record(res)`log
    ensures CellsKnown(key, cmp, region, cells, start) && Extends(key0, key)
    ensures p in key && q in key && c == key[p] - key[q]
  {
    hide Logged, Key, Ready, Kept;
    c := Compare(cmp, p.info, q.info, res, cells, start);
    forall d | d in cells
      ensures Kept(cmp, start.words[d], d.data16) && (old(Ready(cmp, d.data16)) ==> d.data16 == old(d.data16))
    {
      KeptTwice(cmp, start.words[d], old(d.data16), d.data16);
    }
    key := key0[p := Key(cmp, p.info.data16, p.info.idx)][q := Key(cmp, q.info.data16, q.info.idx)];
    forall n | n in key0
      ensures n.info.data16 == old(n.info.data16) && key[n] == key0[n]
    {
    }
  }

  // ----- Merge sort -----

  ghost function Node(n: ListHead?): set<ListHead> {
    if n == null then {} else {n}
  }

  /** `list` and `tail` are the ends of what has been merged. */
  ghost predicate Merged(out: seq<ListHead>, list: ListHead?, tail: ListHead?, region: set<ListHead>)
    reads region`next
  {
    list == First(out) && tail == Last(out) && Linked(out, region)
  }

  /** `p` and `q` are at the heads of what is left of the two runs. */
  ghost predicate Waiting(v: Progress<ListHead>, p: ListHead?, psize: nat, q: ListHead?, qsize: nat,
                          region: set<ListHead>)
    reads region`next
  {
    && psize == |v.ps| && (v.ps != [] ==> p == v.ps[0])
    && q == First(v.qs) && v.n == Min(qsize, |v.qs|)
    && Linked(v.ps, region) && Terminated(v.qs, region)
  }

  /** Add the next element to the merged list; what is still waiting is not disturbed. */
  method AddToMerged(list0: ListHead?, tail0: ListHead?, e: ListHead,
                     ghost out: seq<ListHead>, ghost ps: seq<ListHead>, ghost qs: seq<ListHead>,
                     ghost key: map<ListHead, int>, ghost cmp: Cmp,
                     ghost region: set<ListHead>, ghost cells: set<ListData>, ghost start: Start)
    returns (list: ListHead, tail: ListHead)
    requires CellsKnown(key, cmp, region, cells, start)
    requires Merged(out, list0, tail0, region) && e in region
    requires LastAlone(out, ps, qs)
    requires Linked(ps, region) && Terminated(qs, region)
    modifies Node(tail0)`next
    ensures CellsKnown(key, cmp, region, cells, start)
    ensures Merged(out + [e], list, tail, region)
    ensures Linked(ps, region) && Terminated(qs, region)
  {
    hide CellsKnown;
    if tail0 != null {
      tail0.next := e;
      list := list0;
    } else {
      list := e;
    }
    tail := e;
  }

  /** Take the chosen element off its run. */
  method Detach(fromP: bool, p0: ListHead?, psize0: nat, q0: ListHead?, qsize0: nat,
                ghost v: Progress<ListHead>, ghost region: set<ListHead>)
    returns (e: ListHead, p: ListHead?, psize: nat, q: ListHead?, qsize: nat)
    requires Waiting(v, p0, psize0, q0, qsize0, region)
    requires if fromP then v.ps != [] else v.qs != [] && v.n > 0
    ensures e == (if fromP then v.ps[0] else v.qs[0]) && e in region
    ensures Waiting(Taken(v, fromP), p, psize, q, qsize, region)
  {
    p, psize, q, qsize := p0, psize0, q0, qsize0;
    if fromP {
      e := p; p := p.next; psize := psize - 1;
    } else {
      e := q; q := q.next; qsize := qsize - 1;
    }
  }

  /** Decide whether the next element of the merge comes from p or q; ties go to p. */
  method TakesFromP(cmp: Cmp, res: Results?, p: ListHead?, psize: nat, q: ListHead?, qsize: nat,
                    ghost job: Job<ListHead>, ghost v0: Progress<ListHead>,
                    ghost out: seq<ListHead>, ghost list: ListHead?, ghost tail: ListHead?,
                    ghost region: set<ListHead>, ghost cells: set<ListData>, ghost start: Start)
    returns (fromP: bool, ghost v: Progress<ListHead>, ghost comps: nat)
    requires (cmp == CmpIdx <==> res == null) && start.res == res && start.record == Record(res)
    requires psize > 0 || (qsize > 0 && q != null)
    requires Merging(job, v0)
    requires Merged(out, list, tail, region) && Waiting(v0, p, psize, q, qsize, region)
    requires CellsKnown(v0.key, cmp, region, cells, start)
    modifies cells`data16, Record(res)`crc, Record(res)`crcstate, Record(res)`crcmatrix, Record(res)`log
    ensures v == v0.(key := v.key) && Extends(v0.key, v.key) && Merging(job, v)
    ensures comps == if v.ps != [] && v.n > 0 then 1 else 0
    ensures CellsKnown(v.key, cmp, region, cells, start)
    ensures Merged(out, list, tail, region) && Waiting(v, p, psize, q, qsize, region)
    ensures fromP ==> v.ps != [] && (v.n == 0 || Lex(v.ps[0], v.qs[0], v.key, job.pos))
    ensures !fromP ==> v.n > 0 && (v.ps == [] || Lex(v.qs[0], v.ps[0], v.key, job.pos))
  {
    hide CellsKnown;
    v, comps := v0, 0;
    if psize == 0 {
      fromP := false;
    } else if qsize == 0 || q == null {
      fromP := true;
    } else {
      HeadsEarlier(job, v0);
      var c: int;
      ghost var key;
      c, key := CompareNodes(cmp, p, q, res, region, cells, start, v0.key);
      MergingUnderExtension(job, v0, key);
      v, comps := v0.(key := key), 1;
      fromP := c <= 0;
    }
  }

  /** Take the chosen element off its run and add it to the merged list. */
  method MoveElement(fromP: bool, list0: ListHead?, tail0: ListHead?,
                     p0: ListHead?, psize0: nat, q0: ListHead?, qsize0: nat,
                     ghost job: Job<ListHead>, ghost v0: Progress<ListHead>, ghost out: seq<ListHead>, ghost cmp: Cmp,
                     ghost region: set<ListHead>, ghost cells: set<ListData>, ghost start: Start)
    returns (list: ListHead, tail: ListHead, p: ListHead?, psize: nat, q: ListHead?, qsize: nat,
             e: ListHead, ghost v: Progress<ListHead>)
    requires Merging(job, v0) && DistinctJob(job) && out == job.done + v0.m
    requires fromP ==> v0.ps != [] && (v0.n == 0 || Lex(v0.ps[0], v0.qs[0], v0.key, job.pos))
    requires !fromP ==> v0.n > 0 && (v0.ps == [] || Lex(v0.qs[0], v0.ps[0], v0.key, job.pos))
    requires Merged(out, list0, tail0, region) && Waiting(v0, p0, psize0, q0, qsize0, region)
    requires CellsKnown(v0.key, cmp, region, cells, start)
    modifies Node(tail0)`next
    ensures v == Taken(v0, fromP)
    ensures Merging(job, v) && out + [e] == job.done + v.m
    ensures Merged(out + [e], list, tail, region) && Waiting(v, p, psize, q, qsize, region)
    ensures CellsKnown(v.key, cmp, region, cells, start)
  {
    hide CellsKnown;
    e, p, psize, q, qsize := Detach(fromP, p0, psize0, q0, qsize0, v0, region);
    v := Advance(job, v0, fromP, e, out);
    list, tail := AddToMerged(list0, tail0, e, out, v.ps, v.qs, v.key, cmp, region, cells, start);
  }

  /** One round of the merge loop. */
  method MergeOne(cmp: Cmp, res: Results?, list0: ListHead?, tail0: ListHead?,
                  p0: ListHead?, psize0: nat, q0: ListHead?, qsize0: nat,
                  ghost job: Job<ListHead>, ghost v0: Progress<ListHead>, ghost out: seq<ListHead>,
                  ghost region: set<ListHead>, ghost cells: set<ListData>, ghost start: Start)
    returns (list: ListHead, tail: ListHead, p: ListHead?, psize: nat, q: ListHead?, qsize: nat,
             e: ListHead, ghost v: Progress<ListHead>, ghost comps: nat)
    requires (cmp == CmpIdx <==> res == null) && start.res == res && start.record == Record(res)
    requires psize0 > 0 || (qsize0 > 0 && q0 != null)
    requires Merging(job, v0) && DistinctJob(job) && out == job.done + v0.m
    requires Merged(out, list0, tail0, region) && Waiting(v0, p0, psize0, q0, qsize0, region)
    requires CellsKnown(v0.key, cmp, region, cells, start)
    modifies region`next, cells`data16, Record(res)`crc, Record(res)`crcstate, Record(res)`crcmatrix, Record(res)`log
    ensures Merging(job, v) && out + [e] == job.done + v.m && |v.ps| + |v.qs| < |v0.ps| + |v0.qs|
    ensures |v.m| == |v0.m| + 1 && comps <= 1 && (v.ps == [] && v.n == 0 ==> comps == 0)
    ensures Merged(out + [e], list, tail, region) && Waiting(v, p, psize, q, qsize, region)
    ensures CellsKnown(v.key, cmp, region, cells, start) && Extends(v0.key, v.key)
  {
    hide CellsKnown;
    var fromP;
    fromP, v, comps := TakesFromP(cmp, res, p0, psize0, q0, qsize0, job, v0, out, list0, tail0, region, cells, start);
    list, tail, p, psize, q, qsize, e, v :=
      MoveElement(fromP, list0, tail0, p0, psize0, q0, qsize0, job, v, out, cmp, region, cells, start);
  }

  /** The inner loop of the sort: merge the run at `p` with the run at `q` onto the end of the output. */
  method MergeRuns(cmp: Cmp, res: Results?, p0: ListHead?, psize0: nat, q0: ListHead?, insize: nat,
                   list0: ListHead?, tail0: ListHead?,
                   ghost job: Job<ListHead>, ghost v0: Progress<ListHead>,
                   ghost region: set<ListHead>, ghost cells: set<ListData>, ghost start: Start)
    returns (list: ListHead?, tail: ListHead?, q: ListHead?, ghost m: seq<ListHead>, ghost key: map<ListHead, int>,
             ghost comps: nat)
    requires (cmp == CmpIdx <==> res == null) && start.res == res && start.record == Record(res)
    requires Merging(job, v0) && DistinctJob(job) && v0.m == []
    requires Merged(job.done, list0, tail0, region) && Waiting(v0, p0, psize0, q0, insize, region)
    requires CellsKnown(v0.key, cmp, region, cells, start)
    modifies region`next, cells`data16, Record(res)`crc, Record(res)`crcstate, Record(res)`crcmatrix, Record(res)`log
    ensures CellsKnown(key, cmp, region, cells, start) && Extends(v0.key, key)
    ensures multiset(m) == job.items && SortedRun(m, key, job.pos) && (m != [] ==> comps < |m|)
    ensures Merged(job.done + m, list, tail, region)
    ensures Terminated(job.rest, region) && q == First(job.rest)
  {
    hide Merging, CellsKnown, Merged;
    var p: ListHead?, psize, qsize := p0, psize0, insize;
    q, list, tail := q0, list0, tail0;
    comps := 0;
    ghost var v, out := v0, job.done;
    while psize > 0 || (qsize > 0 && q != null)
      invariant Merging(job, v) && out == job.done + v.m
      invariant Merged(out, list, tail, region) && Waiting(v, p, psize, q, qsize, region)
      invariant CellsKnown(v.key, cmp, region, cells, start) && Extends(v0.key, v.key)
      invariant comps <= |v.m| && (v.m != [] && v.ps == [] && v.n == 0 ==> comps < |v.m|)
      decreases |v.ps| + |v.qs|
    {
      var e;
      ghost var c;
      list, tail, p, psize, q, qsize, e, v, c :=
        MergeOne(cmp, res, list, tail, p, psize, q, qsize, job, v, out, region, cells, start);
      out, comps := out + [e], comps + c;
    }
    FinishMerging(job, v);
    m, key := v.m, v.key;
  }

  /** Step `insize` places along from p, or to the end of the list. */
  method StepAlong(p: ListHead, insize: nat, ghost s: seq<ListHead>, ghost region: set<ListHead>)
    returns (q: ListHead?, psize: nat)
    requires insize > 0 && s != [] && p == s[0] && Terminated(s, region)
    ensures psize == Min(insize, |s|) && q == First(s[psize..])
  {
    q := p;
    psize := 0;
    for i := 0 to insize
      invariant psize == i && psize < |s| && q == s[psize]
    {
      assert psize < |s| - 1 ==> q.next == s[psize + 1];
      psize := psize + 1;
      q := q.next;
      if q == null {
        break;
      }
    }
  }

  lemma LinkedParts(ps: seq<ListHead>, qs: seq<ListHead>, region: set<ListHead>)
    requires Terminated(ps + qs, region)
    ensures Linked(ps, region) && Terminated(qs, region)
  {
    var s := ps + qs;
    assert forall i :: 0 <= i < |ps| ==> s[i] == ps[i];
    assert forall i :: 0 <= i < |qs| ==> s[|ps| + i] == qs[i];
  }

  /** The walk from p ends where the second run starts. */
  method FindTwo(insize: nat, p: ListHead, ghost outs: Runs<ListHead>, ghost ins: Runs<ListHead>,
                 ghost key: map<ListHead, int>, ghost pos: map<ListHead, int>, ghost items: multiset<ListHead>,
                 ghost region: set<ListHead>)
    returns (q: ListHead?, psize: nat)
    requires insize > 0 && Passing(insize, outs, ins, key, pos, items) && Distinct(items) && ins.Run?
    requires Terminated(Flatten(ins), region) && p == First(Flatten(ins))
    ensures Merging(NextJob(outs, ins, pos), NextStart(ins, key)) && DistinctJob(NextJob(outs, ins, pos))
    ensures Waiting(NextStart(ins, key), p, psize, q, insize, region) && ins.items != []
  {
    q, psize := StepAlong(p, insize, Flatten(ins), region);
    ghost var v := NextStart(ins, key);
    PrepareTwo(insize, outs, ins, key, pos, items);
    LinkedParts(v.ps, v.qs, region);
  }

  /** The pass's own loop: merge the next two runs. */
  method MergePair(cmp: Cmp, res: Results?, insize: nat, p0: ListHead, list0: ListHead?, tail0: ListHead?,
                   ghost outs: Runs<ListHead>, ghost ins: Runs<ListHead>,
                   ghost key0: map<ListHead, int>, ghost pos: map<ListHead, int>, ghost items: multiset<ListHead>,
                   ghost region: set<ListHead>, ghost cells: set<ListData>, ghost start: Start)
    returns (list: ListHead?, tail: ListHead?, p: ListHead?, ghost m: seq<ListHead>, ghost key: map<ListHead, int>,
             ghost comps: nat)
    requires (cmp == CmpIdx <==> res == null) && start.res == res && start.record == Record(res)
    requires insize > 0 && Passing(insize, outs, ins, key0, pos, items) && Distinct(items) && ins.Run?
    requires Merged(Flatten(outs), list0, tail0, region)
    requires Terminated(Flatten(ins), region) && p0 == First(Flatten(ins))
    requires CellsKnown(key0, cmp, region, cells, start)
    modifies region`next, cells`data16, Record(res)`crc, Record(res)`crcstate, Record(res)`crcmatrix, Record(res)`log
    ensures Passing(insize, AddRun(outs, m), AfterTwo(ins), key, pos, items) && Extends(key0, key) && comps < |m|
    ensures Flatten(AddRun(outs, m)) == Flatten(outs) + m && Count(AddRun(outs, m)) == Count(outs) + 1
    ensures Merged(Flatten(AddRun(outs, m)), list, tail, region)
    ensures Terminated(Flatten(AfterTwo(ins)), region) && p == First(Flatten(AfterTwo(ins)))
    ensures CellsKnown(key, cmp, region, cells, start)
  {
    hide Merging, DistinctJob, Passing, CellsKnown, Waiting;
    var q, psize := FindTwo(insize, p0, outs, ins, key0, pos, items, region);
    ghost var job, v := NextJob(outs, ins, pos), NextStart(ins, key0);
    list, tail, p, m, key, comps :=
      MergeRuns(cmp, res, p0, psize, q, insize, list0, tail0, job, v, region, cells, start);
    FinishTwo(insize, outs, ins, key0, key, pos, items, m);
  }

  /** Cut off whatever the last node of the merged list still points to. */
  method EndList(list: ListHead, tail: ListHead?, ghost out: seq<ListHead>, ghost key: map<ListHead, int>,
                 ghost cmp: Cmp, ghost region: set<ListHead>, ghost cells: set<ListData>,
                 ghost start: Start)
    requires out != [] && Merged(out, list, tail, region) && Distinct(multiset(out))
    requires CellsKnown(key, cmp, region, cells, start)
    modifies region`next
    ensures Terminated(out, region)
    ensures CellsKnown(key, cmp, region, cells, start)
  {
    hide CellsKnown;
    forall i | 0 <= i < |out| - 1
      ensures out[i] != out[|out| - 1]
    {
      DistinctIndices(out, i, |out| - 1);
    }
    tail.next := null;
  }

  /** One pass of the sort: merge the runs of the list two by two. */
  method MergePass(cmp: Cmp, res: Results?, insize: nat, p0: ListHead,
                   ghost runs: Runs<ListHead>,
                   ghost key0: map<ListHead, int>, ghost pos: map<ListHead, int>, ghost items: multiset<ListHead>,
                   ghost region: set<ListHead>, ghost cells: set<ListData>, ghost start: Start)
    returns (list: ListHead, nmerges: nat, ghost outs: Runs<ListHead>, ghost key: map<ListHead, int>, ghost comps: nat)
    requires (cmp == CmpIdx <==> res == null) && start.res == res && start.record == Record(res)
    requires insize > 0 && Passing(insize, End, runs, key0, pos, items) && Distinct(items) && runs.Run?
    requires Terminated(Flatten(runs), region) && p0 == First(Flatten(runs))
    requires CellsKnown(key0, cmp, region, cells, start)
    modifies region`next, cells`data16, Record(res)`crc, Record(res)`crcstate, Record(res)`crcmatrix, Record(res)`log
    ensures Passing(insize, outs, End, key, pos, items) && nmerges == Count(outs) && comps < |Flatten(outs)|
    ensures Terminated(Flatten(outs), region) && list == First(Flatten(outs))
    ensures CellsKnown(key, cmp, region, cells, start)
    ensures 2 * nmerges <= Count(runs) + 1
  {
    hide CellsKnown;
    var p: ListHead?, head: ListHead?, tail: ListHead? := p0, null, null;
    nmerges := 0;
    ghost var ins := runs;
    outs, key, comps := End, key0, 0;
    while p != null
      invariant Passing(insize, outs, ins, key, pos, items)
      invariant Merged(Flatten(outs), head, tail, region)
      invariant Terminated(Flatten(ins), region) && p == First(Flatten(ins))
      invariant CellsKnown(key, cmp, region, cells, start)
      invariant nmerges == Count(outs) && comps + nmerges <= |Flatten(outs)|
      invariant ins.End? || 2 * nmerges + Count(ins) == Count(runs)
      invariant 2 * nmerges <= Count(runs) + 1 && (ins.End? ==> nmerges > 0)
      decreases Count(ins)
    {
      nmerges := nmerges + 1;
      ghost var m, c;
      head, tail, p, m, key, c :=
        MergePair(cmp, res, insize, p, head, tail, outs, ins, key, pos, items, region, cells, start);
      outs, ins, comps := AddRun(outs, m), AfterTwo(ins), comps + c;
    }
    list := head;
    PassDone(insize, outs, key, pos, items);
    EndList(list, tail, Flatten(outs), key, cmp, region, cells, start);
  }

  // ----- What a sort does to a list -----

  /** The nodes of a list, from its head on. */
  ghost predicate IsList(list: ListHead?, s: seq<ListHead>, region: set<ListHead>)
    reads region`next
  {
    Terminated(s, region) && list == First(s)
  }

  /** Node `a` belongs before node `b` in a stable sort of `was`: smaller key, or equal keys and earlier in `was`. */
  ghost predicate Before(cmp: Cmp, a: ListHead, b: ListHead, was: seq<ListHead>)
    reads a`info, a.info`data16, a.info`idx, b`info, b.info`data16, b.info`idx
  {
    var ka, kb := Key(cmp, a.info.data16, a.info.idx), Key(cmp, b.info.data16, b.info.idx);
    ka < kb || (ka == kb && exists i, j :: 0 <= i < j < |was| && was[i] == a && was[j] == b)
  }

  ghost function Positions(s: seq<ListHead>): (pos: map<ListHead, int>)
    requires Distinct(multiset(s))
    ensures forall i :: 0 <= i < |s| ==> s[i] in pos && pos[s[i]] == i
    ensures forall n :: n in pos ==> 0 <= pos[n] < |s| && s[pos[n]] == n
  {
    if s == [] then map[] else
      var n := |s| - 1;
      assert s == s[..n] + [s[n]];
      assert Distinct(multiset(s[..n])) by {
        forall x | x in multiset(s[..n])
          ensures multiset(s[..n])[x] == 1
        {
          assert multiset(s)[x] == multiset(s[..n])[x] + multiset([s[n]])[x];
        }
      }
      assert forall i :: 0 <= i < n ==> s[i] != s[n] by {
        forall i | 0 <= i < n
          ensures s[i] != s[n]
        {
          DistinctIndices(s, i, n);
        }
      }
      Positions(s[..n])[s[n] := n]
  }

  /** Each pass over n nodes takes at most n - 1 comparisons. */
  ghost predicate FewComparisons(comps: nat, passes: nat, n: nat) {
    comps <= passes * (n - 1)
  }

  lemma SameLength<T>(a: seq<T>, b: seq<T>)
    requires multiset(a) == multiset(b)
    ensures |a| == |b|
  {
    assert |multiset(a)| == |multiset(b)|;
  }

  /** Before the first pass every node is a run. */
  lemma FirstPass(list: ListHead, nodes: seq<ListHead>, pos: map<ListHead, int>, region: set<ListHead>)
    requires IsList(list, nodes, region)
    requires forall i :: 0 <= i < |nodes| ==> nodes[i] in pos && pos[nodes[i]] == i
    ensures var runs := Singles(nodes);
            runs.Run? && RunList(runs, Pow2(0), 0, map[], pos) && Flatten(runs) == nodes
    ensures Terminated(nodes, region) && list == First(nodes)
    ensures Pow2(0) == 1 && FewComparisons(0, 0, |nodes|)
  {
    SinglesAreRuns(nodes, 0, pos);
  }

  lemma PassStarts(insize: nat, runs: Runs<ListHead>, key: map<ListHead, int>, pos: map<ListHead, int>,
                   nodes: seq<ListHead>)
    requires RunList(runs, insize, 0, key, pos) && multiset(Flatten(runs)) == multiset(nodes)
    ensures Passing(insize, End, runs, key, pos, multiset(nodes))
    ensures Count(runs) > 1 ==> |nodes| > insize
  {
    hide RunList, Flatten, Passing;
    PassBegins(insize, runs, key, pos);
    RunCount(runs, insize, key, pos);
    SameLength(Flatten(runs), nodes);
  }

  /** What one pass leaves, counted. */
  lemma PassCounted(insize: nat, outs: Runs<ListHead>, key: map<ListHead, int>, pos: map<ListHead, int>,
                    nodes: seq<ListHead>, passes: nat, comps: nat, c: nat)
    requires insize == Pow2(passes) && Passing(insize, outs, End, key, pos, multiset(nodes)) && c < |Flatten(outs)|
    requires FewComparisons(comps, passes, |nodes|)
    ensures multiset(Flatten(outs)) == multiset(nodes) && RunList(outs, Pow2(passes + 1), 0, key, pos)
    ensures FewComparisons(comps + c, passes + 1, |nodes|)
    ensures Pow2(passes + 1) == 2 * insize
    ensures if Count(outs) <= 1 then |nodes| <= Pow2(passes + 1) && SortedRun(Flatten(outs), key, pos) else outs.Run?
  {
    hide *;
    PassDone(insize, outs, key, pos, multiset(nodes));
    RunCount(outs, 2 * insize, key, pos);
    SameLength(Flatten(outs), nodes);
    OnePassMore(passes, comps, c, |nodes|);
    SecondRun(outs);
    PowerMore(passes);
  }

  lemma OnePassMore(passes: nat, comps: nat, c: nat, n: nat)
    requires FewComparisons(comps, passes, n) && c < n
    ensures FewComparisons(comps + c, passes + 1, n)
  {
  }

  lemma SecondRun(runs: Runs<ListHead>)
    ensures Count(runs) > 1 ==> runs.Run?
  {
  }

  lemma PowerMore(n: nat)
    ensures Pow2(n + 1) == 2 * Pow2(n)
  {
  }

  lemma ListIs(list: ListHead?, s: seq<ListHead>, region: set<ListHead>)
    requires Terminated(s, region) && list == First(s)
    ensures IsList(list, s, region)
  {
  }

  /** The outer loop: passes over runs of doubling length until one merge does it all. */
  method SortPasses(list0: ListHead, cmp: Cmp, res: Results?,
                    ghost nodes: seq<ListHead>, ghost pos: map<ListHead, int>,
                    ghost region: set<ListHead>, ghost cells: set<ListData>, ghost start: Start)
    returns (list: ListHead, ghost out: seq<ListHead>, ghost key: map<ListHead, int>, ghost passes: nat,
             ghost comps: nat)
    requires (cmp == CmpIdx <==> res == null) && start.res == res && start.record == Record(res)
    requires IsList(list0, nodes, region) && Distinct(multiset(nodes))
    requires forall i :: 0 <= i < |nodes| ==> nodes[i] in pos && pos[nodes[i]] == i
    requires CellsKnown(map[], cmp, region, cells, start)
    modifies region`next, cells`data16, Record(res)`crc, Record(res)`crcstate, Record(res)`crcmatrix, Record(res)`log
    ensures IsList(list, out, region) && multiset(out) == multiset(nodes) && SortedRun(out, key, pos)
    ensures CellsKnown(key, cmp, region, cells, start)
    ensures passes > 0 && |nodes| <= Pow2(passes) && (passes > 1 ==> |nodes| > Pow2(passes - 1))
    ensures FewComparisons(comps, passes, |nodes|)
  {
    hide *;
    FirstPass(list0, nodes, pos, region);
    list := list0;
    var insize: nat := 1;
    ghost var runs := Singles(nodes);
    key, passes, comps := map[], 0, 0;
    while true
      invariant insize == Pow2(passes) > 0 && runs.Run?
      invariant RunList(runs, insize, 0, key, pos) && multiset(Flatten(runs)) == multiset(nodes)
      invariant Terminated(Flatten(runs), region) && list == First(Flatten(runs))
      invariant CellsKnown(key, cmp, region, cells, start)
      invariant passes > 0 ==> Count(runs) > 1
      invariant FewComparisons(comps, passes, |nodes|)
      decreases Count(runs)
    {
      PassStarts(insize, runs, key, pos, nodes);
      ghost var outs, c;
      var nmerges;
      list, nmerges, outs, key, c :=
        MergePass(cmp, res, insize, list, runs, key, pos, multiset(nodes), region, cells, start);
      PassCounted(insize, outs, key, pos, nodes, passes, comps, c);
      passes, comps := passes + 1, comps + c;
      if nmerges <= 1 {
        out := Flatten(outs);
        ListIs(list, out, region);
        break;
      }
      runs := outs;
      insize := insize * 2;
    }
  }

  /** Sorted by recorded keys means sorted by what the cells now hold, and sorted two or more means all ready. */
  lemma SortedCells(out: seq<ListHead>, nodes: seq<ListHead>, key: map<ListHead, int>, pos: map<ListHead, int>,
                    cmp: Cmp, region: set<ListHead>, cells: set<ListData>, start: Start)
    requires SortedRun(out, key, pos) && CellsKnown(key, cmp, region, cells, start)
    requires forall n :: n in pos ==> 0 <= pos[n] < |nodes| && nodes[pos[n]] == n
    ensures forall i, j :: 0 <= i < j < |out| ==> Before(cmp, out[i], out[j], nodes)
    ensures |out| > 1 ==> forall i :: 0 <= i < |out| ==> Ready(cmp, out[i].info.data16)
  {
    forall i, j | 0 <= i < j < |out|
      ensures Before(cmp, out[i], out[j], nodes)
    {
      assert Lex(out[i], out[j], key, pos);
    }
    if |out| > 1 {
      forall i | 0 <= i < |out|
        ensures Ready(cmp, out[i].info.data16)
      {
        assert Lex(out[if i == 0 then 0 else i - 1], out[if i == 0 then 1 else i], key, pos);
      }
    }
  }

  ghost function Begin(res: Results?, cells: set<ListData>): Start
    reads cells`data16, Record(res)`crc, Record(res)`crcstate, Record(res)`crcmatrix
  {
    Start(Words(cells), res, Record(res), if res == null then Kernel(0, 0, 0) else KernelOf(res))
  }

  lemma StartKnown(cmp: Cmp, region: set<ListHead>, cells: set<ListData>, start: Start)
    requires OwnCells(region, cells) && start.words == Words(cells) && Logged(start, cells)
    ensures CellsKnown(map[], cmp, region, cells, start)
  {
  }

  lemma LoggedSince(key: map<ListHead, int>, cmp: Cmp, region: set<ListHead>, cells: set<ListData>, start: Start)
    requires CellsKnown(key, cmp, region, cells, start)
    ensures Logged(start, cells) && OwnCells(region, cells)
    ensures forall d | d in cells :: d in start.words && Kept(cmp, start.words[d], d.data16)
  {
  }

  lemma SameNode<T>(n: T, a: seq<T>, b: seq<T>)
    requires n in a && multiset(a) == multiset(b)
    ensures n in b
  {
    assert n in multiset(a) && n in multiset(b);
  }

  lemma InCells(list: ListHead?, nodes: seq<ListHead>, region: set<ListHead>, cells: set<ListData>)
    requires IsList(list, nodes, region) && OwnCells(region, cells)
    ensures forall n | n in nodes :: n.info in cells
  {
  }

  lemma AllCached(res: Results, nodes: seq<ListHead>, out: seq<ListHead>, words: map<ListData, Word>, cells: set<ListData>,
                  kernel: Kernel)
    requires multiset(out) == multiset(nodes) && forall n | n in nodes :: n.info in cells && n.info in words
    requires forall i :: 0 <= i < |out| ==> Ready(CmpComplex, out[i].info.data16)
    requires Trace(res, res.log, words, Words(cells), kernel, KernelOf(res))
    ensures forall n | n in nodes :: IsCached(res, words[n.info], n.info.data16)
  {
    hide Trace, IsCached;
    forall n | n in nodes
      ensures IsCached(res, words[n.info], n.info.data16)
    {
      SameNode(n, nodes, out);
      var i :| 0 <= i < |out| && out[i] == n;
      assert Ready(CmpComplex, out[i].info.data16);
      TraceCached(res, res.log, words, Words(cells), kernel, KernelOf(res), n.info);
    }
  }

  /**
   * The sort: stable, in place, and with at most n - 1 comparisons in each of the passes, of which there are as many
   * as it takes to double 1 up to n. The data comparator computes a cell once, in the order of the log, on the running
   * record, and what it yields is the key from then on.
   */
  method Mergesort(list0: ListHead, cmp: Cmp, res: Results?,
                   ghost nodes: seq<ListHead>, ghost region: set<ListHead>, ghost cells: set<ListData>)
    returns (list: ListHead, ghost out: seq<ListHead>, ghost passes: nat, ghost comps: nat)
    requires cmp == CmpIdx <==> res == null
    requires IsList(list0, nodes, region) && Distinct(multiset(nodes)) && OwnCells(region, cells)
    modifies region`next, cells`data16, Record(res)`crc, Record(res)`crcstate, Record(res)`crcmatrix, Record(res)`log
    ensures IsList(list, out, region) && multiset(out) == multiset(nodes)
    ensures forall i, j :: 0 <= i < j < |out| ==> Before(cmp, out[i], out[j], nodes)
    ensures |nodes| > 1 ==> forall i :: 0 <= i < |out| ==> Ready(cmp, out[i].info.data16)
    ensures forall d :: d in cells ==> Kept(cmp, old(d.data16), d.data16)
    ensures res != null ==>
              Trace(res, res.log, old(Words(cells)), Words(cells), old(KernelOf(res)), KernelOf(res))
    ensures res != null && |nodes| > 1 ==> forall n :: n in nodes ==> IsCached(res, old(n.info.data16), n.info.data16)
    ensures passes > 0 && |nodes| <= Pow2(passes) && (passes > 1 ==> |nodes| > Pow2(passes - 1))
    ensures FewComparisons(comps, passes, |nodes|)
  {
    hide Trace, IsCached, CellsKnown, SortedRun, Before, Kept, Ready, IsList, OwnCells, Distinct, FewComparisons, Pow2;
    ghost var start := Begin(res, cells);
    InCells(list0, nodes, region, cells);
    if res != null {
      res.log := [];
      TraceNothing(res, start.words, start.kernel);
    }
    StartKnown(cmp, region, cells, start);
    ghost var pos := Positions(nodes);
    ghost var key;
    list, out, key, passes, comps := SortPasses(list0, cmp, res, nodes, pos, region, cells, start);
    SortedCells(out, nodes, key, pos, cmp, region, cells, start);
    SameLength(out, nodes);
    LoggedSince(key, cmp, region, cells, start);
    if res != null && |nodes| > 1 {
      AllCached(res, nodes, out, start.words, cells, start.kernel);
    }
  }
}
