/**
 The print queue of the O3 pipeline viewer, gem5/util/o3-pipeview.py.

 Instructions arrive out of order.  When more than `maxThreshold` are waiting they
 are sorted by sequence number and printed until `minThreshold` are left; the end of
 the trace flushes the rest.  The comment at lines 47-52 assumes bounded disorder
 for the output to be in order; module PipeOrder says exactly when it is.
 */
module PipeQueue {

  /** One instruction: sequence number and the tick of each pipeline stage (0 = never reached). */
  datatype Inst = Inst(sn: int, fetch: nat, decode: nat, rename: nat, dispatch: nat, issue: nat,
                       complete: nat, retire: nat, store: nat)

  // ---------- sorting ----------

  /** Puts `x` behind every element whose sequence number is not greater. */
  function Insert(s: seq<Inst>, x: Inst): seq<Inst> {
    if s == [] then [x]
    else if s[|s| - 1].sn <= x.sn then s + [x]
    else Insert(s[..|s| - 1], x) + [s[|s| - 1]]
  }

  function InsertAll(s: seq<Inst>, xs: seq<Inst>): seq<Inst> {
    if xs == [] then s else Insert(InsertAll(s, xs[..|xs| - 1]), xs[|xs| - 1])
  }

  /** The stable sort by sequence number that list.sort(compare_by_sn) performs. */
  function Sort(xs: seq<Inst>): seq<Inst> {
    InsertAll([], xs)
  }

  ghost predicate Sorted(s: seq<Inst>) {
    forall i, j :: 0 <= i < j < |s| ==> s[i].sn <= s[j].sn
  }

  lemma {:induction false} InsertFacts(s: seq<Inst>, x: Inst)
    ensures |Insert(s, x)| == |s| + 1
    ensures multiset(Insert(s, x)) == multiset(s) + multiset{x}
  {
    if s != [] && s[|s| - 1].sn > x.sn {
      InsertFacts(s[..|s| - 1], x);
      assert s == s[..|s| - 1] + [s[|s| - 1]];
    }
  }

  lemma {:induction false} InsertAllFacts(s: seq<Inst>, xs: seq<Inst>)
    ensures |InsertAll(s, xs)| == |s| + |xs|
    ensures multiset(InsertAll(s, xs)) == multiset(s) + multiset(xs)
  {
    if xs != [] {
      InsertAllFacts(s, xs[..|xs| - 1]);
      InsertFacts(InsertAll(s, xs[..|xs| - 1]), xs[|xs| - 1]);
      assert xs == xs[..|xs| - 1] + [xs[|xs| - 1]];
    }
  }

  lemma {:induction false} InsertSorted(s: seq<Inst>, x: Inst)
    requires Sorted(s)
    ensures Sorted(Insert(s, x))
    ensures forall v :: v in Insert(s, x) ==> v in s || v == x
  {
    if s != [] && s[|s| - 1].sn > x.sn {
      var t := Insert(s[..|s| - 1], x);
      InsertSorted(s[..|s| - 1], x);
      forall i | 0 <= i < |t| ensures t[i].sn <= s[|s| - 1].sn {
        assert t[i] in t;
      }
    }
  }

  lemma {:induction false} InsertAllSorted(s: seq<Inst>, xs: seq<Inst>)
    requires Sorted(s)
    ensures Sorted(InsertAll(s, xs))
  {
    if xs != [] {
      InsertAllSorted(s, xs[..|xs| - 1]);
      InsertSorted(InsertAll(s, xs[..|xs| - 1]), xs[|xs| - 1]);
    }
  }

  lemma {:induction false} InsertAllConcat(s: seq<Inst>, a: seq<Inst>, b: seq<Inst>)
    ensures InsertAll(s, a + b) == InsertAll(InsertAll(s, a), b)
  {
    if b == [] {
      assert a + b == a;
    } else {
      InsertAllConcat(s, a, b[..|b| - 1]);
      assert (a + b)[..|a + b| - 1] == a + b[..|b| - 1];
    }
  }

  lemma {:induction false} SortOfSorted(s: seq<Inst>)
    requires Sorted(s)
    ensures Sort(s) == s
  {
    if s != [] {
      SortOfSorted(s[..|s| - 1]);
      assert s == s[..|s| - 1] + [s[|s| - 1]];
      if |s| > 1 {
        assert s[|s| - 2].sn <= s[|s| - 1].sn;
      }
    }
  }

  /** Sorting twice, with arrivals in between, is sorting once. */
  lemma {:induction false} SortAfterSort(q: seq<Inst>, x: Inst)
    ensures Sort(Sort(q) + [x]) == Sort(q + [x]) == Insert(Sort(q), x)
  {
    InsertAllSorted([], q);
    SortOfSorted(Sort(q));
    InsertAllConcat([], Sort(q), [x]);
    InsertAllConcat([], q, [x]);
    InsertAllOne(Sort(q), x);
    assert Sort(Sort(q) + [x]) == InsertAll(Sort(Sort(q)), [x]);
  }

  lemma {:induction false} InsertAllOne(s: seq<Inst>, x: Inst)
    ensures InsertAll(s, [x]) == Insert(s, x)
  {
    assert [x][..0] == [];
    assert InsertAll(s, [x][..0]) == s;
  }

  // ---------- positions in the sorted order ----------

  function CountAtMost(s: seq<Inst>, sn: int): nat {
    if s == [] then 0 else CountAtMost(s[..|s| - 1], sn) + if s[|s| - 1].sn <= sn then 1 else 0
  }

  function CountBelow(s: seq<Inst>, sn: int): nat {
    if s == [] then 0 else CountBelow(s[..|s| - 1], sn) + if s[|s| - 1].sn < sn then 1 else 0
  }

  /** Where instruction `i` belongs: those with a smaller number, and earlier arrivals with the same number, come
      first. */
  function Rank(s: seq<Inst>, i: nat): nat
    requires i < |s|
  {
    CountAtMost(s[..i], s[i].sn) + CountBelow(s[i + 1..], s[i].sn)
  }

  lemma {:induction false} CountAtMostBound(s: seq<Inst>, sn: int)
    ensures CountAtMost(s, sn) <= |s|
  {
    if s != [] { CountAtMostBound(s[..|s| - 1], sn); }
  }

  /** In a sorted sequence the elements not above `sn` are a prefix. */
  lemma {:induction false} CountIsPrefix(s: seq<Inst>, sn: int, k: nat)
    requires Sorted(s) && k < |s|
    ensures s[k].sn <= sn <==> k < CountAtMost(s, sn)
  {
    CountAtMostBound(s[..|s| - 1], sn);
    if k < |s| - 1 {
      CountIsPrefix(s[..|s| - 1], sn, k);
      if s[|s| - 1].sn <= sn {
        CountIsPrefix(s[..|s| - 1], sn, |s| - 2);
      }
    } else if |s| > 1 && s[k].sn <= sn {
      CountIsPrefix(s[..|s| - 1], sn, |s| - 2);
    }
  }

  lemma {:induction false} InsertAt(s: seq<Inst>, x: Inst)
    requires Sorted(s)
    ensures var c := CountAtMost(s, x.sn); c <= |s| && Insert(s, x) == s[..c] + [x] + s[c..]
  {
    CountAtMostBound(s, x.sn);
    var c := CountAtMost(s, x.sn);
    if s != [] {
      if s[|s| - 1].sn <= x.sn {
        CountIsPrefix(s, x.sn, |s| - 1);
      } else {
        InsertAt(s[..|s| - 1], x);
        CountAtMostBound(s[..|s| - 1], x.sn);
        assert s[..|s| - 1][..c] == s[..c];
        assert s[..|s| - 1][c..] + [s[|s| - 1]] == s[c..];
        assert s[..c] + [x] + s[..|s| - 1][c..] + [s[|s| - 1]] == s[..c] + [x] + s[c..];
      }
    }
  }

  lemma {:induction false} CountOfSort(s: seq<Inst>, sn: int)
    ensures CountAtMost(Sort(s), sn) == CountAtMost(s, sn)
  {
    if s != [] {
      var t, x := s[..|s| - 1], s[|s| - 1];
      CountOfSort(t, sn);
      CountOfInsert(Sort(t), x, sn);
      assert Sort(s) == Insert(Sort(t), x);
    }
  }

  lemma {:induction false} CountOfInsert(s: seq<Inst>, x: Inst, sn: int)
    ensures CountAtMost(Insert(s, x), sn) == CountAtMost(s, sn) + if x.sn <= sn then 1 else 0
  {
    if s != [] && s[|s| - 1].sn > x.sn {
      CountOfInsert(s[..|s| - 1], x, sn);
      assert Insert(s, x)[..|Insert(s, x)| - 1] == Insert(s[..|s| - 1], x);
    } else {
      assert Insert(s, x)[..|Insert(s, x)| - 1] == s;
    }
  }

  lemma {:induction false} RankStep(s: seq<Inst>, x: Inst, i: nat)
    requires i < |s|
    ensures Rank(s + [x], i) == Rank(s, i) + if x.sn < s[i].sn then 1 else 0
  {
    var t := s + [x];
    assert t[..i] == s[..i];
    assert t[i + 1..] == s[i + 1..] + [x];
    assert (s[i + 1..] + [x])[..|s| - i - 1] == s[i + 1..];
  }

  lemma {:induction false} RankOfLast(s: seq<Inst>, x: Inst)
    ensures Rank(s + [x], |s|) == CountAtMost(s, x.sn)
  {
    assert (s + [x])[..|s|] == s;
    assert (s + [x])[|s| + 1..] == [];
  }

  lemma {:induction false} Spliced(s: seq<Inst>, x: Inst, c: nat, r: nat)
    requires c <= |s| && r < |s|
    ensures var t := s[..c] + [x] + s[c..]; |t| == |s| + 1 && t[if r < c then r else r + 1] == s[r]
  {
  }

  /** A new arrival goes behind everything that is not greater. */
  lemma {:induction false} SortInserts(t: seq<Inst>, x: Inst)
    ensures |Sort(t)| == |t| && CountAtMost(t, x.sn) <= |t|
    ensures Sort(t + [x]) == Sort(t)[..CountAtMost(t, x.sn)] + [x] + Sort(t)[CountAtMost(t, x.sn)..]
  {
    InsertAllFacts([], t);
    InsertAllSorted([], t);
    InsertAt(Sort(t), x);
    CountOfSort(t, x.sn);
    CountAtMostBound(t, x.sn);
    assert (t + [x])[..|t|] == t;
  }

  /** What was in the list keeps its place, or moves up by one. */
  lemma {:induction false} RankMoves(t: seq<Inst>, x: Inst, i: nat)
    requires i < |t| && Rank(t, i) < |Sort(t)| == |t| && Sort(t)[Rank(t, i)] == t[i]
    ensures Rank(t + [x], i) < |Sort(t + [x])| && Sort(t + [x])[Rank(t + [x], i)] == t[i]
  {
    InsertAllSorted([], t);
    SortInserts(t, x);
    RankStep(t, x, i);
    CountOfSort(t, x.sn);
    CountIsPrefix(Sort(t), x.sn, Rank(t, i));
    Spliced(Sort(t), x, CountAtMost(t, x.sn), Rank(t, i));
  }

  /** `Rank` is the position in the stable sort. */
  lemma {:induction false} RankIsPosition(s: seq<Inst>, i: nat)
    requires i < |s|
    ensures Rank(s, i) < |Sort(s)| == |s| && Sort(s)[Rank(s, i)] == s[i]
  {
    InsertAllFacts([], s);
    var t, x := s[..|s| - 1], s[|s| - 1];
    assert s == t + [x];
    SortInserts(t, x);
    if i == |t| {
      RankOfLast(t, x);
    } else {
      RankIsPosition(t, i);
      RankMoves(t, x, i);
    }
  }

  // ---------- the viewer ----------

  /** The range options; a bound that is not positive is not applied. */
  datatype Range = Range(snStart: int, snStop: int, tickStart: int, tickStop: int, onlyCommitted: bool)

  predicate Shown(o: Range, i: Inst) {
    && !(o.snStart > 0 && i.sn < o.snStart)
    && !(o.snStop > 0 && i.sn > o.snStop)
    && !(o.tickStart > 0 && i.fetch < o.tickStart)
    && !(o.tickStop > 0 && i.fetch > o.tickStop)
    && !(o.onlyCommitted && i.retire == 0)
  }

  function Filter(o: Range, s: seq<Inst>): seq<Inst> {
    if s == [] then [] else Filter(o, s[..|s| - 1]) + if Shown(o, s[|s| - 1]) then [s[|s| - 1]] else []
  }

  lemma {:induction false} FilterConcat(o: Range, a: seq<Inst>, b: seq<Inst>)
    ensures Filter(o, a + b) == Filter(o, a) + Filter(o, b)
  {
    if b == [] {
      assert a + b == a;
    } else {
      FilterConcat(o, a, b[..|b| - 1]);
      assert (a + b)[..|a + b| - 1] == a + b[..|b| - 1];
    }
  }

  lemma {:induction false} FilterMultiset(o: Range, s: seq<Inst>, v: Inst)
    ensures multiset(Filter(o, s))[v] == if Shown(o, v) then multiset(s)[v] else 0
  {
    if s != [] {
      FilterMultiset(o, s[..|s| - 1], v);
      assert s == s[..|s| - 1] + [s[|s| - 1]];
    }
  }

  /** Waiting instructions and everything taken off the queue so far, in the order it was taken. */
  datatype View = View(queue: seq<Inst>, taken: seq<Inst>)

  /** How many of `n` waiting instructions a drain down to `lower` takes. */
  function Excess(n: nat, lower: nat): nat {
    if n > lower then n - lower else 0
  }

  ghost function Drain(v: View, lower: nat): View {
    InsertAllFacts([], v.queue);
    var k := Excess(|v.queue|, lower);
    View(Sort(v.queue)[k..], v.taken + Sort(v.queue)[..k])
  }

  ghost function Arrive(v: View, x: Inst, minT: nat, maxT: nat): View {
    var w := View(v.queue + [x], v.taken);
    if |w.queue| > maxT then Drain(w, minT) else w
  }

  ghost function Feed(xs: seq<Inst>, minT: nat, maxT: nat): View {
    if xs == [] then View([], []) else Arrive(Feed(xs[..|xs| - 1], minT, maxT), xs[|xs| - 1], minT, maxT)
  }

  /** Everything taken off the queue by the end of the trace. */
  ghost function Output(xs: seq<Inst>, minT: nat, maxT: nat): seq<Inst> {
    Drain(Feed(xs, minT, maxT), 0).taken
  }

  lemma {:induction false} TakeNext(waiting: seq<Inst>, before: seq<Inst>, k: nat)
    requires k < |waiting|
    ensures waiting[k..][0] == waiting[k] && waiting[k..][1..] == waiting[k + 1..]
    ensures (before + waiting[..k]) + [waiting[k]] == before + waiting[..k + 1]
  {
  }

  class Viewer {
    var queue: seq<Inst>
    var printed: seq<Inst>
    const range: Range
    const minThreshold: nat
    const maxThreshold: nat
    ghost var taken: seq<Inst>

    /** The source starts with thresholds 1000 and 2000. */
    constructor (range: Range, minThreshold: nat := 1000, maxThreshold: nat := 2000)
      ensures Valid() && State() == View([], [])
      ensures this.range == range && this.minThreshold == minThreshold && this.maxThreshold == maxThreshold
    {
      this.range, this.minThreshold, this.maxThreshold := range, minThreshold, maxThreshold;
      queue, printed, taken := [], [], [];
    }

    ghost predicate Valid()
      reads this
    {
      printed == Filter(range, taken)
    }

    ghost function State(): View
      reads this
    {
      View(queue, taken)
    }

    /** Takes the front instruction off the queue and prints it unless it is filtered out. */
    method PrintFirst()
      requires Valid() && queue != []
      modifies this
      ensures Valid() && queue == old(queue)[1..] && taken == old(taken) + [old(queue)[0]]
    {
      var item := queue[0];
      queue := queue[1..];
      assert (taken + [item])[..|taken|] == taken;
      taken := taken + [item];
      if Shown(range, item) {
        printed := printed + [item];
      }
    }

    /** The printing loop: from the front until `lower` are left. */
    method PrintDown(lower: nat)
      requires Valid()
      modifies this
      ensures Valid()
      ensures var k := Excess(|old(queue)|, lower); queue == old(queue)[k..] && taken == old(taken) + old(queue)[..k]
    {
      ghost var waiting, before := queue, taken;
      ghost var k := 0;
      while |queue| > lower
        invariant Valid() && 0 <= k <= Excess(|waiting|, lower) && queue == waiting[k..]
        invariant taken == before + waiting[..k]
        decreases |queue|
      {
        TakeNext(waiting, before, k);
        PrintFirst();
        k := k + 1;
      }
    }

    /** print_insts: sort, then print down to `lower`. */
    method PrintInsts(lower: nat)
      requires Valid()
      modifies this
      ensures Valid() && State() == Drain(old(State()), lower)
    {
      InsertAllFacts([], queue);
      queue := Sort(queue);
      PrintDown(lower);
    }

    /** queue_inst. */
    method QueueInst(x: Inst)
      requires Valid()
      modifies this
      ensures Valid() && State() == Arrive(old(State()), x, minThreshold, maxThreshold)
    {
      queue := queue + [x];
      if |queue| > maxThreshold {
        PrintInsts(minThreshold);
      }
    }

    /** All instructions of a trace, then the flush at the end of the file. */
    method ProcessTrace(xs: seq<Inst>)
      requires Valid() && State() == View([], [])
      modifies this
      ensures printed == Filter(range, Output(xs, minThreshold, maxThreshold))
    {
      for i := 0 to |xs|
        invariant Valid() && State() == Feed(xs[..i], minThreshold, maxThreshold)
      {
        assert xs[..i + 1][..i] == xs[..i];
        QueueInst(xs[i]);
      }
      assert xs[..|xs|] == xs;
      PrintInsts(0);
    }
  }
}
