// Facts about merging runs that say nothing of pointers. A run is a sequence of
// distinct items, ordered by key and, between equal keys, by original position.

module StableMerge {
  import opened Common

  /** `a` goes before `b`: smaller key, or equal keys and earlier to begin with. */
  ghost predicate Lex<T>(a: T, b: T, key: map<T, int>, pos: map<T, int>) {
    && a in key && b in key && a in pos && b in pos
    && (key[a] < key[b] || (key[a] == key[b] && pos[a] < pos[b]))
  }

  /** Every item precedes every later one. Only a run of two or more says anything about keys. */
  ghost predicate SortedRun<T>(s: seq<T>, key: map<T, int>, pos: map<T, int>) {
    forall i, j {:trigger Lex(s[i], s[j], key, pos)} :: 0 <= i < j < |s| ==> Lex(s[i], s[j], key, pos)
  }

  /** `bigger` agrees with `key` wherever `key` is defined. */
  ghost predicate Extends<T>(key: map<T, int>, bigger: map<T, int>) {
    forall x :: x in key ==> x in bigger && bigger[x] == key[x]
  }

  /** Every item of `s` started out at a position in [lo, hi). */
  ghost predicate From<T>(s: seq<T>, pos: map<T, int>, lo: int, hi: int) {
    forall i :: 0 <= i < |s| ==> s[i] in pos && lo <= pos[s[i]] < hi
  }

  ghost predicate Distinct<T>(items: multiset<T>) {
    forall x :: x in items ==> items[x] == 1
  }

  lemma DistinctIndices<T>(s: seq<T>, i: nat, j: nat)
    requires Distinct(multiset(s)) && i < j < |s|
    ensures s[i] != s[j]
  {
    assert s == s[..j] + s[j..];
    assert s[i] in s[..j] && s[j] in s[j..];
    assert multiset(s)[s[i]] == multiset(s[..j])[s[i]] + multiset(s[j..])[s[i]];
  }

  /** The last item of `out` occurs nowhere else in it, nor in `ps` or `qs`. */
  ghost predicate LastAlone<T>(out: seq<T>, ps: seq<T>, qs: seq<T>) {
    out != [] ==>
      var last := out[|out| - 1];
      && (forall i :: 0 <= i < |out| - 1 ==> out[i] != last)
      && (forall i :: 0 <= i < |ps| ==> ps[i] != last)
      && (forall i :: 0 <= i < |qs| ==> qs[i] != last)
  }

  lemma OnlyOnce<T>(out: seq<T>, e: T, ps: seq<T>, qs: seq<T>)
    requires Distinct(multiset(out + [e] + ps + qs))
    ensures LastAlone(out, ps, qs)
  {
    var all, n := out + [e] + ps + qs, |out| - 1;
    if n >= 0 {
      forall i | 0 <= i < n
        ensures out[i] != out[n]
      {
        DistinctIndices(all, i, n);
      }
      forall i | 0 <= i < |ps|
        ensures ps[i] != out[n]
      {
        DistinctIndices(all, n, n + 2 + i);
      }
      forall i | 0 <= i < |qs|
        ensures qs[i] != out[n]
      {
        DistinctIndices(all, n, n + 2 + |ps| + i);
      }
    }
  }

  lemma FromRearranged<T>(s: seq<T>, t: seq<T>, pos: map<T, int>, lo: int, hi: int)
    requires From(s, pos, lo, hi) && multiset(s) == multiset(t)
    ensures From(t, pos, lo, hi)
  {
    forall i | 0 <= i < |t|
      ensures t[i] in pos && lo <= pos[t[i]] < hi
    {
      assert t[i] in multiset(s);
    }
  }

  lemma SortedUnderExtension<T>(s: seq<T>, key: map<T, int>, bigger: map<T, int>, pos: map<T, int>)
    requires SortedRun(s, key, pos) && Extends(key, bigger)
    ensures SortedRun(s, bigger, pos)
  {
    forall i, j | 0 <= i < j < |s|
      ensures Lex(s[i], s[j], bigger, pos)
    {
      assert Lex(s[i], s[j], key, pos);
    }
  }

  /** Moving the head of one run to the output keeps the output in order with what is left of both. */
  lemma TakeHead<T>(out: seq<T>, run: seq<T>, other: seq<T>, key: map<T, int>, pos: map<T, int>)
    requires run != []
    requires SortedRun(out + run, key, pos) && SortedRun(out + other, key, pos)
    requires other == [] || Lex(run[0], other[0], key, pos)
    ensures SortedRun((out + [run[0]]) + run[1..], key, pos)
    ensures SortedRun((out + [run[0]]) + other, key, pos)
  {
    assert out + [run[0]] + run[1..] == out + run;
    var s, a, b, n := out + [run[0]] + other, out + run, out + other, |out|;
    forall i, j | 0 <= i < j < |s|
      ensures Lex(s[i], s[j], key, pos)
    {
      if j <= n {
        assert Lex(a[i], a[j], key, pos);
      } else if i != n {
        assert Lex(b[if i < n then i else i - 1], b[j - 1], key, pos);
      } else if j > n + 1 {
        assert Lex(b[n], b[j - 1], key, pos);
      }
    }
  }

  // ----- Merging two runs -----

  /**
   * What a merge of two runs was asked to do: put `items` after `done`, leaving `rest`.
   * The items come from positions lo to hi, the first run's from below mid.
   */
  datatype Job<T> = Job(done: seq<T>, items: multiset<T>, rest: seq<T>, pos: map<T, int>, lo: int, mid: int, hi: int)

  /** How far it has got: `m` is out, `ps` and the first `n` of `qs` are still to go. */
  datatype Progress<T> = Progress(m: seq<T>, ps: seq<T>, qs: seq<T>, n: nat, key: map<T, int>)

  ghost predicate Merging<T>(job: Job<T>, v: Progress<T>) {
    && v.n <= |v.qs| && v.qs[v.n..] == job.rest
    && multiset(v.m) + multiset(v.ps) + multiset(v.qs[..v.n]) == job.items
    && SortedRun(v.m + v.ps, v.key, job.pos) && SortedRun(v.m + v.qs[..v.n], v.key, job.pos)
    && From(v.ps, job.pos, job.lo, job.mid) && From(v.qs[..v.n], job.pos, job.mid, job.hi)
  }

  /** No item occurs twice among what was done before, what is to be merged and the rest. */
  ghost predicate DistinctJob<T>(job: Job<T>) {
    Distinct(multiset(job.done) + job.items + multiset(job.rest))
  }

  lemma StartMerging<T>(job: Job<T>, v: Progress<T>, second: seq<T>)
    requires v.m == [] && v.qs == second + job.rest && v.n == |second|
    requires SortedRun(v.ps, v.key, job.pos) && SortedRun(second, v.key, job.pos)
    requires From(v.ps, job.pos, job.lo, job.mid) && From(second, job.pos, job.mid, job.hi)
    requires job.items == multiset(v.ps + second)
    ensures Merging(job, v)
  {
    assert v.qs[..v.n] == second && v.qs[v.n..] == job.rest;
    assert v.m + v.ps == v.ps && v.m + second == second;
  }

  lemma FinishMerging<T>(job: Job<T>, v: Progress<T>)
    requires Merging(job, v) && v.ps == [] && v.n == 0
    ensures v.qs == job.rest && multiset(v.m) == job.items && SortedRun(v.m, v.key, job.pos)
  {
    assert v.m + [] == v.m;
  }

  lemma HeadsEarlier<T>(job: Job<T>, v: Progress<T>)
    requires Merging(job, v) && v.ps != [] && v.n > 0
    ensures v.ps[0] in job.pos && v.qs[0] in job.pos && job.pos[v.ps[0]] < job.pos[v.qs[0]]
  {
    assert v.qs[..v.n][0] == v.qs[0];
  }

  function LeftTaken<T>(v: Progress<T>): Progress<T>
    requires v.ps != []
  {
    v.(m := v.m + [v.ps[0]], ps := v.ps[1..])
  }

  function RightTaken<T>(v: Progress<T>): Progress<T>
    requires v.qs != [] && v.n > 0
  {
    v.(m := v.m + [v.qs[0]], qs := v.qs[1..], n := v.n - 1)
  }

  function Taken<T>(v: Progress<T>, left: bool): Progress<T>
    requires if left then v.ps != [] else v.qs != [] && v.n > 0
  {
    if left then LeftTaken(v) else RightTaken(v)
  }

  lemma AdvanceLeft<T>(job: Job<T>, v: Progress<T>)
    requires Merging(job, v)
    requires v.ps != [] && (v.n == 0 || Lex(v.ps[0], v.qs[0], v.key, job.pos))
    ensures Merging(job, LeftTaken(v))
  {
    TakeHead(v.m, v.ps, v.qs[..v.n], v.key, job.pos);
    assert v.ps == [v.ps[0]] + v.ps[1..];
  }

  lemma AdvanceRight<T>(job: Job<T>, v: Progress<T>)
    requires Merging(job, v)
    requires v.n > 0 && (v.ps == [] || Lex(v.qs[0], v.ps[0], v.key, job.pos))
    ensures Merging(job, RightTaken(v))
  {
    var run := v.qs[..v.n];
    TakeHead(v.m, run, v.ps, v.key, job.pos);
    assert v.qs[1..][..v.n - 1] == run[1..];
    assert run == [v.qs[0]] + run[1..];
    assert multiset(run) == multiset{v.qs[0]} + multiset(run[1..]);
  }

  lemma ItemsAccounted<T>(job: Job<T>, v: Progress<T>)
    requires Merging(job, v)
    ensures multiset(job.done + v.m + v.ps + v.qs) == multiset(job.done) + job.items + multiset(job.rest)
  {
    assert v.qs == v.qs[..v.n] + job.rest;
    assert multiset(v.qs) == multiset(v.qs[..v.n]) + multiset(job.rest);
  }

  /** Taking the right head keeps the merge on course, and the item is new to the output. */
  lemma Advance<T>(job: Job<T>, v: Progress<T>, left: bool, e: T, out: seq<T>) returns (v': Progress<T>)
    requires Merging(job, v) && DistinctJob(job) && out == job.done + v.m
    requires left ==> v.ps != [] && e == v.ps[0] && (v.n == 0 || Lex(v.ps[0], v.qs[0], v.key, job.pos))
    requires !left ==> v.n > 0 && e == v.qs[0] && (v.ps == [] || Lex(v.qs[0], v.ps[0], v.key, job.pos))
    ensures v' == Taken(v, left)
    ensures Merging(job, v') && out + [e] == job.done + v'.m
    ensures LastAlone(out, v'.ps, v'.qs)
  {
    v' := Taken(v, left);
    if left {
      AdvanceLeft(job, v);
    } else {
      AdvanceRight(job, v);
    }
    assert job.done + v'.m == job.done + v.m + [e];
    ItemsAccounted(job, v');
    OnlyOnce(out, e, v'.ps, v'.qs);
  }

  lemma MergingUnderExtension<T>(job: Job<T>, v: Progress<T>, bigger: map<T, int>)
    requires Merging(job, v) && Extends(v.key, bigger)
    ensures Merging(job, v.(key := bigger))
  {
    SortedUnderExtension(v.m + v.ps, v.key, bigger, job.pos);
    SortedUnderExtension(v.m + v.qs[..v.n], v.key, bigger, job.pos);
  }

  // ----- One pass over a list of runs -----

  /** The list of a pass, cut into runs. */
  datatype Runs<T> = End | Run(items: seq<T>, more: Runs<T>)

  function Flatten<T>(runs: Runs<T>): seq<T> {
    match runs
    case End => []
    case Run(s, more) => s + Flatten(more)
  }

  function Count<T>(runs: Runs<T>): nat {
    match runs
    case End => 0
    case Run(_, more) => 1 + Count(more)
  }

  function AddRun<T>(runs: Runs<T>, m: seq<T>): Runs<T> {
    match runs
    case End => Run(m, End)
    case Run(s, more) => Run(s, AddRun(more, m))
  }

  /** Sorted runs of length `k`, the last possibly shorter, that hold the items from position `at` on, in order. */
  ghost predicate RunList<T>(runs: Runs<T>, k: nat, at: int, key: map<T, int>, pos: map<T, int>) {
    match runs
    case End => true
    case Run(s, more) =>
      && SortedRun(s, key, pos) && From(s, pos, at, at + |s|)
      && 0 < |s| <= k && (more.Run? ==> |s| == k)
      && RunList(more, k, at + |s|, key, pos)
  }

  ghost predicate AllFull<T>(runs: Runs<T>, k: nat) {
    match runs
    case End => true
    case Run(s, more) => |s| == k && AllFull(more, k)
  }

  /** A pass has turned some runs of length `k` into the runs `outs` of twice that, and `ins` remain. */
  ghost predicate Passing<T>(k: nat, outs: Runs<T>, ins: Runs<T>, key: map<T, int>, pos: map<T, int>,
                             items: multiset<T>)
  {
    && RunList(ins, k, |Flatten(outs)|, key, pos) && RunList(outs, 2 * k, 0, key, pos)
    && (ins.Run? ==> AllFull(outs, 2 * k))
    && multiset(Flatten(outs)) + multiset(Flatten(ins)) == items
  }

  lemma {:induction false} FlattenAdd<T>(runs: Runs<T>, m: seq<T>)
    ensures Flatten(AddRun(runs, m)) == Flatten(runs) + m
    ensures Count(AddRun(runs, m)) == Count(runs) + 1
  {
    if runs.Run? {
      FlattenAdd(runs.more, m);
      assert runs.items + (Flatten(runs.more) + m) == (runs.items + Flatten(runs.more)) + m;
    }
  }

  lemma {:induction false} RunListAdd<T>(runs: Runs<T>, m: seq<T>, k: nat, at: int, key: map<T, int>, pos: map<T, int>)
    requires RunList(runs, k, at, key, pos) && AllFull(runs, k)
    requires SortedRun(m, key, pos) && 0 < |m| <= k
    requires From(m, pos, at + |Flatten(runs)|, at + |Flatten(runs)| + |m|)
    ensures RunList(AddRun(runs, m), k, at, key, pos)
    ensures |m| == k ==> AllFull(AddRun(runs, m), k)
  {
    if runs.Run? {
      RunListAdd(runs.more, m, k, at + |runs.items|, key, pos);
    }
  }

  lemma {:induction false} RunListUnderExtension<T>(runs: Runs<T>, k: nat, at: int, key: map<T, int>,
                                                    bigger: map<T, int>, pos: map<T, int>)
    requires RunList(runs, k, at, key, pos) && Extends(key, bigger)
    ensures RunList(runs, k, at, bigger, pos)
  {
    if runs.Run? {
      SortedUnderExtension(runs.items, key, bigger, pos);
      RunListUnderExtension(runs.more, k, at + |runs.items|, key, bigger, pos);
    }
  }

  /** The second of the next two runs; empty when there is only one. */
  function Second<T>(ins: Runs<T>): seq<T>
    requires ins.Run?
  {
    if ins.more.Run? then ins.more.items else []
  }

  function AfterTwo<T>(ins: Runs<T>): Runs<T>
    requires ins.Run?
  {
    if ins.more.Run? then ins.more.more else End
  }

  /** The next two runs, as the job of merging them. */
  function NextJob<T>(outs: Runs<T>, ins: Runs<T>, pos: map<T, int>): Job<T>
    requires ins.Run?
  {
    var lo := |Flatten(outs)|;
    var mid := lo + |ins.items|;
    Job(Flatten(outs), multiset(ins.items + Second(ins)), Flatten(AfterTwo(ins)), pos, lo, mid, mid + |Second(ins)|)
  }

  function NextStart<T>(ins: Runs<T>, key: map<T, int>): Progress<T>
    requires ins.Run?
  {
    Progress([], ins.items, Second(ins) + Flatten(AfterTwo(ins)), |Second(ins)|, key)
  }

  lemma TwoRuns<T>(k: nat, ins: Runs<T>, at: int, key: map<T, int>, pos: map<T, int>)
    requires RunList(ins, k, at, key, pos) && ins.Run?
    ensures SortedRun(ins.items, key, pos) && From(ins.items, pos, at, at + |ins.items|)
    ensures SortedRun(Second(ins), key, pos)
    ensures From(Second(ins), pos, at + |ins.items|, at + |ins.items| + |Second(ins)|)
    ensures 0 < |ins.items| <= k && |Second(ins)| <= k
    ensures ins.more.Run? ==> |ins.items| == k
    ensures AfterTwo(ins).Run? ==> |ins.items| == k && |Second(ins)| == k
    ensures RunList(AfterTwo(ins), k, at + |ins.items| + |Second(ins)|, key, pos)
  {
    assert RunList(ins.more, k, at + |ins.items|, key, pos);
  }

  lemma FlattenTwo<T>(ins: Runs<T>)
    requires ins.Run?
    ensures Flatten(ins) == ins.items + (Second(ins) + Flatten(AfterTwo(ins)))
    ensures Flatten(ins) == (ins.items + Second(ins)) + Flatten(AfterTwo(ins))
  {
    assert Flatten(ins.more) == Second(ins) + Flatten(AfterTwo(ins));
  }

  /** The next two runs are where the pointer walk of the code finds them. */
  lemma NextTwo<T>(k: nat, ins: Runs<T>, at: int, key: map<T, int>, pos: map<T, int>)
    requires RunList(ins, k, at, key, pos) && ins.Run?
    ensures var v := NextStart(ins, key);
            && Flatten(ins) == v.ps + v.qs
            && |v.ps| == Min(k, |Flatten(ins)|) && v.n == Min(k, |v.qs|)
  {
    TwoRuns(k, ins, at, key, pos);
    FlattenTwo(ins);
    assert AfterTwo(ins).End? ==> Flatten(AfterTwo(ins)) == [];
  }

  lemma StartTwo<T>(k: nat, outs: Runs<T>, ins: Runs<T>, key: map<T, int>, pos: map<T, int>, items: multiset<T>)
    requires Passing(k, outs, ins, key, pos, items) && ins.Run?
    ensures Merging(NextJob(outs, ins, pos), NextStart(ins, key))
  {
    TwoRuns(k, ins, |Flatten(outs)|, key, pos);
    StartMerging(NextJob(outs, ins, pos), NextStart(ins, key), Second(ins));
  }

  lemma StartTwoDistinct<T>(k: nat, outs: Runs<T>, ins: Runs<T>, key: map<T, int>, pos: map<T, int>, items: multiset<T>)
    requires Passing(k, outs, ins, key, pos, items) && ins.Run? && Distinct(items)
    ensures DistinctJob(NextJob(outs, ins, pos))
  {
    FlattenTwo(ins);
    var job := NextJob(outs, ins, pos);
    assert multiset(job.done) + job.items + multiset(job.rest) == items;
  }

  lemma PrepareTwo<T>(k: nat, outs: Runs<T>, ins: Runs<T>, key: map<T, int>, pos: map<T, int>, items: multiset<T>)
    requires Passing(k, outs, ins, key, pos, items) && ins.Run? && Distinct(items)
    ensures Merging(NextJob(outs, ins, pos), NextStart(ins, key)) && DistinctJob(NextJob(outs, ins, pos))
    ensures Flatten(ins) == ins.items + NextStart(ins, key).qs && ins.items != []
    ensures |ins.items| == Min(k, |Flatten(ins)|) && |Second(ins)| == Min(k, |NextStart(ins, key).qs|)
  {
    NextTwo(k, ins, |Flatten(outs)|, key, pos);
    StartTwo(k, outs, ins, key, pos, items);
    StartTwoDistinct(k, outs, ins, key, pos, items);
  }

  lemma FinishOuts<T>(k: nat, outs: Runs<T>, ins: Runs<T>, key: map<T, int>, bigger: map<T, int>, pos: map<T, int>,
                      m: seq<T>)
    requires RunList(ins, k, |Flatten(outs)|, key, pos) && ins.Run?
    requires RunList(outs, 2 * k, 0, key, pos) && AllFull(outs, 2 * k)
    requires Extends(key, bigger) && SortedRun(m, bigger, pos)
    requires multiset(m) == multiset(ins.items + Second(ins))
    ensures |m| == |ins.items| + |Second(ins)|
    ensures RunList(AddRun(outs, m), 2 * k, 0, bigger, pos)
    ensures AfterTwo(ins).Run? ==> AllFull(AddRun(outs, m), 2 * k)
  {
    var both, at := ins.items + Second(ins), |Flatten(outs)|;
    TwoRuns(k, ins, at, key, pos);
    assert |multiset(m)| == |multiset(both)|;
    RunListUnderExtension(outs, 2 * k, 0, key, bigger, pos);
    FromRearranged(both, m, pos, at, at + |both|);
    RunListAdd(outs, m, 2 * k, 0, bigger, pos);
  }

  lemma FinishIns<T>(k: nat, outs: Runs<T>, ins: Runs<T>, key: map<T, int>, bigger: map<T, int>, pos: map<T, int>,
                     m: seq<T>)
    requires RunList(ins, k, |Flatten(outs)|, key, pos) && ins.Run? && Extends(key, bigger)
    requires |m| == |ins.items| + |Second(ins)|
    ensures Flatten(AddRun(outs, m)) == Flatten(outs) + m
    ensures RunList(AfterTwo(ins), k, |Flatten(AddRun(outs, m))|, bigger, pos)
  {
    var at := |Flatten(outs)|;
    TwoRuns(k, ins, at, key, pos);
    RunListUnderExtension(AfterTwo(ins), k, at + |m|, key, bigger, pos);
    FlattenAdd(outs, m);
  }

  lemma FinishItems<T>(outs: Runs<T>, ins: Runs<T>, m: seq<T>)
    requires ins.Run? && multiset(m) == multiset(ins.items + Second(ins))
    ensures multiset(Flatten(AddRun(outs, m))) + multiset(Flatten(AfterTwo(ins)))
            == multiset(Flatten(outs)) + multiset(Flatten(ins))
  {
    FlattenAdd(outs, m);
    FlattenTwo(ins);
  }

  /** The merged run takes its place in the pass. */
  lemma FinishTwo<T>(k: nat, outs: Runs<T>, ins: Runs<T>, key: map<T, int>, bigger: map<T, int>, pos: map<T, int>,
                     items: multiset<T>, m: seq<T>)
    requires Passing(k, outs, ins, key, pos, items) && ins.Run?
    requires Extends(key, bigger) && SortedRun(m, bigger, pos)
    requires multiset(m) == multiset(ins.items + Second(ins))
    ensures Flatten(AddRun(outs, m)) == Flatten(outs) + m && Count(AddRun(outs, m)) == Count(outs) + 1
    ensures m != []
    ensures Passing(k, AddRun(outs, m), AfterTwo(ins), bigger, pos, items)
  {
    FlattenAdd(outs, m);
    FinishOuts(k, outs, ins, key, bigger, pos, m);
    FinishIns(k, outs, ins, key, bigger, pos, m);
    FinishItems(outs, ins, m);
  }

  // ----- From one pass to the next -----

  lemma PassDone<T>(k: nat, outs: Runs<T>, key: map<T, int>, pos: map<T, int>, items: multiset<T>)
    requires Passing(k, outs, End, key, pos, items)
    ensures multiset(Flatten(outs)) == items && RunList(outs, 2 * k, 0, key, pos)
  {
  }

  lemma PassBegins<T>(k: nat, runs: Runs<T>, key: map<T, int>, pos: map<T, int>)
    requires RunList(runs, k, 0, key, pos)
    ensures Passing(k, End, runs, key, pos, multiset(Flatten(runs)))
  {
  }

  function Singles<T>(s: seq<T>): Runs<T> {
    if s == [] then End else Run([s[0]], Singles(s[1..]))
  }

  lemma {:induction false} SinglesAreRuns<T>(s: seq<T>, at: int, pos: map<T, int>)
    requires forall i :: 0 <= i < |s| ==> s[i] in pos && pos[s[i]] == at + i
    ensures RunList(Singles(s), 1, at, map[], pos) && Flatten(Singles(s)) == s
    decreases |s|
  {
    if s != [] {
      SinglesAreRuns(s[1..], at + 1, pos);
    }
  }

  /** Two runs or more need more than one run's length; a single run is the whole list, in order. */
  lemma RunCount<T>(runs: Runs<T>, k: nat, key: map<T, int>, pos: map<T, int>)
    requires RunList(runs, k, 0, key, pos)
    ensures Count(runs) >= 2 ==> |Flatten(runs)| > k
    ensures Count(runs) <= 1 ==> |Flatten(runs)| <= k && SortedRun(Flatten(runs), key, pos)
  {
    if runs.Run? {
      if runs.more.Run? {
        assert RunList(runs.more, k, |runs.items|, key, pos) && Count(runs.more) >= 1;
      } else {
        assert Count(runs.more) == 0;
        assert Flatten(runs) == runs.items;
      }
    }
  }

  function Pow2(n: nat): nat {
    if n == 0 then 1 else 2 * Pow2(n - 1)
  }
}
