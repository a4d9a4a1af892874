/**
 When does the bounded print queue of the O3 pipeline viewer print in order?

 Exactly when no instruction arrives behind one that was already printed, which can
 be read off the trace: instruction p must find at least Printed(p) instructions with
 a sequence number not above its own among those before it.  The source's assumption
 (never more than min_threshold places late) implies this for all thresholds.
 */
module PipeOrder {
  import opened PipeQueue

  /** How many instructions have been taken after `n` arrivals; depends on the thresholds only. */
  function Printed(n: nat, minT: nat, maxT: nat): (k: nat)
    ensures k <= n && k <= Excess(n, minT)
  {
    if n == 0 then 0
    else
      var k := Printed(n - 1, minT, maxT);
      if n - k > maxT then k + Excess(n - k, minT) else k
  }

  lemma {:induction false} DrainSizes(v: View, lower: nat)
    ensures |Drain(v, lower).taken| == |v.taken| + Excess(|v.queue|, lower)
    ensures |Drain(v, lower).queue| == |v.queue| - Excess(|v.queue|, lower)
  {
    InsertAllFacts([], v.queue);
  }

  lemma {:induction false} FeedSizes(xs: seq<Inst>, minT: nat, maxT: nat)
    ensures |Feed(xs, minT, maxT).taken| == Printed(|xs|, minT, maxT)
    ensures |Feed(xs, minT, maxT).queue| == |xs| - Printed(|xs|, minT, maxT)
  {
    if xs != [] {
      var v := Feed(xs[..|xs| - 1], minT, maxT);
      FeedSizes(xs[..|xs| - 1], minT, maxT);
      DrainSizes(View(v.queue + [xs[|xs| - 1]], v.taken), minT);
    }
  }

  // ---------- nothing is lost or invented ----------

  lemma {:induction false} DrainMultiset(v: View, lower: nat)
    ensures multiset(Drain(v, lower).queue) + multiset(Drain(v, lower).taken) == multiset(v.queue) + multiset(v.taken)
  {
    InsertAllFacts([], v.queue);
    var s, k := Sort(v.queue), Excess(|v.queue|, lower);
    var front, back := s[..k], s[k..];
    assert s == front + back;
    calc {
      multiset(Drain(v, lower).queue) + multiset(Drain(v, lower).taken);
      multiset(back) + multiset(v.taken + front);
      multiset(front) + multiset(back) + multiset(v.taken);
      multiset(front + back) + multiset(v.taken);
      multiset(s) + multiset(v.taken);
      multiset(v.queue) + multiset(v.taken);
    }
  }

  lemma {:induction false} LastMultiset(xs: seq<Inst>)
    requires xs != []
    ensures multiset(xs) == multiset(xs[..|xs| - 1]) + multiset{xs[|xs| - 1]}
  {
    assert xs == xs[..|xs| - 1] + [xs[|xs| - 1]];
  }

  lemma {:induction false} ArriveMultiset(v: View, x: Inst, minT: nat, maxT: nat)
    ensures multiset(Arrive(v, x, minT, maxT).queue) + multiset(Arrive(v, x, minT, maxT).taken)
         == multiset(v.queue) + multiset(v.taken) + multiset{x}
  {
    LastMultiset(v.queue + [x]);
    assert (v.queue + [x])[..|v.queue|] == v.queue;
    DrainMultiset(View(v.queue + [x], v.taken), minT);
  }

  lemma {:induction false} FeedMultiset(xs: seq<Inst>, minT: nat, maxT: nat)
    ensures multiset(Feed(xs, minT, maxT).queue) + multiset(Feed(xs, minT, maxT).taken) == multiset(xs)
  {
    if xs != [] {
      var t, x := xs[..|xs| - 1], xs[|xs| - 1];
      FeedMultiset(t, minT, maxT);
      ArriveMultiset(Feed(t, minT, maxT), x, minT, maxT);
      LastMultiset(xs);
    }
  }

  lemma {:induction false} OutputMultiset(xs: seq<Inst>, minT: nat, maxT: nat)
    ensures multiset(Output(xs, minT, maxT)) == multiset(xs)
  {
    var v := Feed(xs, minT, maxT);
    FeedMultiset(xs, minT, maxT);
    DrainMultiset(v, 0);
    InsertAllFacts([], v.queue);
    assert Drain(v, 0).queue == [];
  }

  /** In range: a bound of 0 or less holds of everything, and the ends belong to the range. */
  predicate Wanted(o: Range, i: Inst) {
    && (o.snStart <= 0 || o.snStart <= i.sn) && (o.snStop <= 0 || i.sn <= o.snStop)
    && (o.tickStart <= 0 || o.tickStart <= i.fetch) && (o.tickStop <= 0 || i.fetch <= o.tickStop)
    && (o.onlyCommitted ==> i.retire > 0)
  }

  /** Whatever the disorder, exactly the instructions in range are printed, as often as they occur. */
  lemma {:induction false} Conservation(o: Range, xs: seq<Inst>, minT: nat, maxT: nat)
    ensures multiset(Filter(o, Output(xs, minT, maxT))) == multiset(Filter(o, xs))
  {
    OutputMultiset(xs, minT, maxT);
    forall v ensures multiset(Filter(o, Output(xs, minT, maxT)))[v] == multiset(Filter(o, xs))[v] {
      FilterMultiset(o, Output(xs, minT, maxT), v);
      FilterMultiset(o, xs, v);
    }
  }

  /** How often each instruction is printed. */
  lemma {:induction false} PrintedTimes(o: Range, xs: seq<Inst>, minT: nat, maxT: nat, i: Inst)
    ensures multiset(Filter(o, Output(xs, minT, maxT)))[i] == if Wanted(o, i) then multiset(xs)[i] else 0
  {
    OutputMultiset(xs, minT, maxT);
    FilterMultiset(o, Output(xs, minT, maxT), i);
  }

  // ---------- sufficient: never late ----------

  /** Instruction `p` does not belong in front of anything printed before it arrived. */
  ghost predicate OnTime(xs: seq<Inst>, minT: nat, maxT: nat, p: nat)
    requires p < |xs|
  {
    CountAtMost(xs[..p], xs[p].sn) >= Printed(p, minT, maxT)
  }

  ghost predicate NeverLate(xs: seq<Inst>, minT: nat, maxT: nat) {
    forall p :: 0 <= p < |xs| ==> OnTime(xs, minT, maxT, p)
  }

  lemma {:induction false} InsertIntoSuffix(a: seq<Inst>, b: seq<Inst>, x: Inst)
    requires Sorted(a + b) && CountAtMost(a + b, x.sn) >= |a|
    ensures Insert(a + b, x) == a + Insert(b, x)
  {
    if b == [] {
      assert a + b == a;
      if a != [] {
        CountIsPrefix(a, x.sn, |a| - 1);
      }
    } else {
      var c := b[..|b| - 1];
      assert (a + b)[..|a + b| - 1] == a + c;
      if b[|b| - 1].sn > x.sn {
        InsertIntoSuffix(a, c, x);
      }
    }
  }

  /** As long as nobody is late, what was taken is the front of the sorted arrivals. */
  ghost predicate InStep(xs: seq<Inst>, v: View) {
    v.taken + Sort(v.queue) == Sort(xs)
  }

  lemma {:induction false} InStepArrive(t: seq<Inst>, x: Inst, v: View)
    requires InStep(t, v) && CountAtMost(t, x.sn) >= |v.taken|
    ensures InStep(t + [x], View(v.queue + [x], v.taken))
  {
    InsertAllSorted([], t);
    CountOfSort(t, x.sn);
    InsertIntoSuffix(v.taken, Sort(v.queue), x);
    SortAfterSort(t, x);
    SortAfterSort(v.queue, x);
  }

  lemma {:induction false} InStepDrain(xs: seq<Inst>, v: View, lower: nat)
    requires InStep(xs, v)
    ensures InStep(xs, Drain(v, lower))
  {
    InsertAllFacts([], v.queue);
    InsertAllSorted([], v.queue);
    var s, k := Sort(v.queue), Excess(|v.queue|, lower);
    SortOfSorted(s[k..]);
    MoveOver(v.taken, s, k);
  }

  lemma {:induction false} MoveOver(a: seq<Inst>, s: seq<Inst>, k: nat)
    requires k <= |s|
    ensures a + s == a + s[..k] + s[k..]
  {
  }

  lemma {:induction false} NeverLateInStep(xs: seq<Inst>, minT: nat, maxT: nat)
    requires NeverLate(xs, minT, maxT)
    ensures InStep(xs, Feed(xs, minT, maxT))
  {
    if xs != [] {
      var t, x := xs[..|xs| - 1], xs[|xs| - 1];
      assert xs == t + [x];
      forall p | 0 <= p < |t| ensures OnTime(t, minT, maxT, p) {
        assert OnTime(xs, minT, maxT, p);
        assert t[..p] == xs[..p];
      }
      NeverLateInStep(t, minT, maxT);
      FeedSizes(t, minT, maxT);
      assert OnTime(xs, minT, maxT, |t|);
      var v := Feed(t, minT, maxT);
      InStepArrive(t, x, v);
      InStepDrain(xs, View(v.queue + [x], v.taken), minT);
    }
  }

  lemma {:induction false} NeverLateSorts(xs: seq<Inst>, minT: nat, maxT: nat)
    requires NeverLate(xs, minT, maxT)
    ensures Output(xs, minT, maxT) == Sort(xs)
  {
    NeverLateInStep(xs, minT, maxT);
    InsertAllFacts([], Feed(xs, minT, maxT).queue);
  }

  // ---------- necessary ----------

  lemma {:induction false} CountConcat(a: seq<Inst>, b: seq<Inst>, sn: int)
    ensures CountAtMost(a + b, sn) == CountAtMost(a, sn) + CountAtMost(b, sn)
  {
    if b == [] {
      assert a + b == a;
    } else {
      CountConcat(a, b[..|b| - 1], sn);
      assert (a + b)[..|a + b| - 1] == a + b[..|b| - 1];
    }
  }

  lemma {:induction false} CountSplit(s: seq<Inst>, k: nat, sn: int)
    requires k <= |s|
    ensures CountAtMost(s[..k], sn) + CountAtMost(s[k..], sn) == CountAtMost(s, sn)
  {
    CountConcat(s[..k], s[k..], sn);
    assert s[..k] + s[k..] == s;
  }

  lemma {:induction false} DrainCount(v: View, lower: nat, sn: int)
    ensures CountAtMost(Drain(v, lower).taken, sn) + CountAtMost(Drain(v, lower).queue, sn)
         == CountAtMost(v.taken, sn) + CountAtMost(v.queue, sn)
  {
    InsertAllFacts([], v.queue);
    var s, k := Sort(v.queue), Excess(|v.queue|, lower);
    CountOfSort(v.queue, sn);
    CountSplit(s, k, sn);
    CountConcat(v.taken, s[..k], sn);
  }

  lemma {:induction false} FeedCount(xs: seq<Inst>, minT: nat, maxT: nat, sn: int)
    ensures CountAtMost(Feed(xs, minT, maxT).taken, sn) + CountAtMost(Feed(xs, minT, maxT).queue,
        sn) == CountAtMost(xs, sn)
  {
    if xs != [] {
      var v, x := Feed(xs[..|xs| - 1], minT, maxT), xs[|xs| - 1];
      FeedCount(xs[..|xs| - 1], minT, maxT, sn);
      assert (v.queue + [x])[..|v.queue|] == v.queue;
      DrainCount(View(v.queue + [x], v.taken), minT, sn);
    }
  }

  lemma {:induction false} TakenGrows(xs: seq<Inst>, minT: nat, maxT: nat, p: nat)
    requires p <= |xs|
    ensures Feed(xs[..p], minT, maxT).taken <= Feed(xs, minT, maxT).taken
    decreases |xs|
  {
    if p == |xs| {
      assert xs[..p] == xs;
    } else {
      var t := xs[..|xs| - 1];
      TakenGrows(t, minT, maxT, p);
      assert t[..p] == xs[..p];
      var v := Feed(t, minT, maxT);
      assert v.taken <= Feed(xs, minT, maxT).taken;
    }
  }

  lemma {:induction false} CountAll(s: seq<Inst>, sn: int)
    requires forall k :: 0 <= k < |s| ==> s[k].sn <= sn
    ensures CountAtMost(s, sn) == |s|
  {
    if s != [] { CountAll(s[..|s| - 1], sn); }
  }

  lemma {:induction false} OutputExtends(xs: seq<Inst>, minT: nat, maxT: nat, p: nat)
    requires p <= |xs|
    ensures Feed(xs[..p], minT, maxT).taken <= Output(xs, minT, maxT)
  {
    TakenGrows(xs, minT, maxT, p);
    assert Feed(xs, minT, maxT).taken <= Output(xs, minT, maxT);
  }

  /** Instruction `p` is printed after everything that had been printed when it arrived. */
  lemma {:induction false} PrintedLater(xs: seq<Inst>, minT: nat, maxT: nat, p: nat) returns (j: nat)
    requires p < |xs|
    ensures |Feed(xs[..p], minT, maxT).taken| <= j < |Output(xs, minT, maxT)|
    ensures Output(xs, minT, maxT)[j] == xs[p]
  {
    var out, done, x := Output(xs, minT, maxT), Feed(xs[..p], minT, maxT).taken, xs[p];
    OutputExtends(xs, minT, maxT, p);
    OutputMultiset(xs, minT, maxT);
    FeedMultiset(xs[..p], minT, maxT);
    var i := SplitOff(out, done, xs, p, Feed(xs[..p], minT, maxT).queue);
    j := |done| + i;
  }

  lemma {:induction false} SplitOff(out: seq<Inst>, done: seq<Inst>, xs: seq<Inst>, p: nat, waiting: seq<Inst>)
      returns (i: nat)
    requires p < |xs| && done <= out && multiset(out) == multiset(xs)
    requires multiset(waiting) + multiset(done) == multiset(xs[..p])
    ensures |done| + i < |out| && out[|done| + i] == xs[p]
  {
    var rest, late, x := out[|done|..], xs[p..], xs[p];
    assert out == done + rest && multiset(done + rest) == multiset(done) + multiset(rest);
    assert xs == xs[..p] + late && multiset(xs[..p] + late) == multiset(xs[..p]) + multiset(late);
    assert late[0] == x;
    assert multiset(done) + multiset(rest) == multiset(waiting) + multiset(done) + multiset(late);
    assert (multiset(done) + multiset(rest))[x] == multiset(done)[x] + multiset(rest)[x];
    assert x in late && x in rest;
    i :| 0 <= i < |rest| && rest[i] == x;
  }

  lemma {:induction false} SortedNeverLate(xs: seq<Inst>, minT: nat, maxT: nat, p: nat)
    requires Sorted(Output(xs, minT, maxT)) && p < |xs|
    ensures OnTime(xs, minT, maxT, p)
  {
    var v, sn := Feed(xs[..p], minT, maxT), xs[p].sn;
    var j := PrintedLater(xs, minT, maxT, p);
    OutputExtends(xs, minT, maxT, p);
    forall k | 0 <= k < |v.taken| ensures v.taken[k].sn <= sn {
      assert v.taken[k] == Output(xs, minT, maxT)[k];
    }
    CountAll(v.taken, sn);
    FeedCount(xs[..p], minT, maxT, sn);
    FeedSizes(xs[..p], minT, maxT);
  }

  /** The output is in order exactly when no instruction is late, and then it is the stable sort of the trace. */
  lemma {:induction false} InOrderIff(xs: seq<Inst>, minT: nat, maxT: nat)
    ensures Sorted(Output(xs, minT, maxT)) <==> NeverLate(xs, minT, maxT)
    ensures Output(xs, minT, maxT) == Sort(xs) <==> NeverLate(xs, minT, maxT)
  {
    InsertAllSorted([], xs);
    if NeverLate(xs, minT, maxT) {
      NeverLateSorts(xs, minT, maxT);
    }
    if Sorted(Output(xs, minT, maxT)) {
      forall p | 0 <= p < |xs| ensures OnTime(xs, minT, maxT, p) {
        SortedNeverLate(xs, minT, maxT, p);
      }
    }
  }

  // ---------- what the range options leave ----------

  lemma {:induction false} FilterMembers(o: Range, s: seq<Inst>, x: Inst)
    ensures x in Filter(o, s) <==> x in s && Shown(o, x)
  {
    FilterMultiset(o, s, x);
    assert x in multiset(Filter(o, s)) <==> x in Filter(o, s);
    assert x in multiset(s) <==> x in s;
  }

  lemma {:induction false} FilterSorted(o: Range, s: seq<Inst>)
    requires Sorted(s)
    ensures Sorted(Filter(o, s))
  {
    if s != [] {
      var t, x := s[..|s| - 1], s[|s| - 1];
      FilterSorted(o, t);
      forall k | 0 <= k < |Filter(o, t)| ensures Filter(o, t)[k].sn <= x.sn {
        FilterMembers(o, t, Filter(o, t)[k]);
      }
    }
  }

  /** No shown instruction of `b` belongs in front of one of `a`. */
  ghost predicate ShownAfter(o: Range, a: seq<Inst>, b: seq<Inst>) {
    forall x, y :: x in a && y in b && Shown(o, x) && Shown(o, y) ==> x.sn <= y.sn
  }

  lemma {:induction false} FilterJoin(o: Range, a: seq<Inst>, b: seq<Inst>)
    ensures Sorted(Filter(o, a + b)) <==> Sorted(Filter(o, a)) && Sorted(Filter(o, b)) && ShownAfter(o, a, b)
  {
    FilterConcat(o, a, b);
    var f, g := Filter(o, a), Filter(o, b);
    if Sorted(f + g) {
      forall i, j | 0 <= i < j < |f| ensures f[i].sn <= f[j].sn { assert (f + g)[i] == f[i] && (f + g)[j] == f[j]; }
      forall i, j | 0 <= i < j < |g| ensures g[i].sn <= g[j].sn { assert (f + g)[|f| + i] == g[i] &&
          (f + g)[|f| + j] == g[j]; }
      forall x, y | x in a && y in b && Shown(o, x) && Shown(o, y) ensures x.sn <= y.sn {
        FilterMembers(o, a, x);
        FilterMembers(o, b, y);
        var i :| 0 <= i < |f| && f[i] == x;
        var j :| 0 <= j < |g| && g[j] == y;
        assert (f + g)[i] == x && (f + g)[|f| + j] == y;
      }
    }
    if Sorted(f) && Sorted(g) && ShownAfter(o, a, b) {
      forall i, j | 0 <= i < |f| && 0 <= j < |g| ensures f[i].sn <= g[j].sn {
        FilterMembers(o, a, f[i]);
        FilterMembers(o, b, g[j]);
      }
    }
  }

  ghost predicate ShownInStep(o: Range, v: View) {
    Sorted(Filter(o, v.taken)) && ShownAfter(o, v.taken, v.queue)
  }

  lemma {:induction false} SortMembers(q: seq<Inst>)
    ensures forall x :: x in Sort(q) ==> x in q
  {
    InsertAllFacts([], q);
    forall x | x in Sort(q) ensures x in q {
      assert x in multiset(Sort(q));
    }
  }

  lemma {:induction false} SortedSplit(o: Range, s: seq<Inst>, k: nat)
    requires Sorted(s) && k <= |s|
    ensures Sorted(Filter(o, s[..k])) && ShownAfter(o, s[..k], s[k..])
  {
    FilterSorted(o, s[..k]);
  }

  lemma {:induction false} ShownDrain(o: Range, v: View, lower: nat)
    requires ShownInStep(o, v)
    ensures ShownInStep(o, Drain(v, lower))
  {
    InsertAllFacts([], v.queue);
    InsertAllSorted([], v.queue);
    var s, k := Sort(v.queue), Excess(|v.queue|, lower);
    SortMembers(v.queue);
    SortedSplit(o, s, k);
    FilterJoin(o, v.taken, s[..k]);
    assert ShownAfter(o, v.taken, s[k..]);
  }

  /** Instruction `p`, if it is to be shown, does not belong in front of a shown one that was taken before it
      arrived. */
  ghost predicate ShownOnTime(o: Range, xs: seq<Inst>, minT: nat, maxT: nat, p: nat)
    requires p < |xs|
  {
    ShownAfter(o, Feed(xs[..p], minT, maxT).taken, [xs[p]])
  }

  ghost predicate ShownNeverLate(o: Range, xs: seq<Inst>, minT: nat, maxT: nat) {
    forall p :: 0 <= p < |xs| ==> ShownOnTime(o, xs, minT, maxT, p)
  }

  lemma {:induction false} ShownPrefix(o: Range, xs: seq<Inst>, minT: nat, maxT: nat)
    requires ShownNeverLate(o, xs, minT, maxT) && xs != []
    ensures ShownNeverLate(o, xs[..|xs| - 1], minT, maxT)
    ensures ShownAfter(o, Feed(xs[..|xs| - 1], minT, maxT).taken, [xs[|xs| - 1]])
  {
    var t := xs[..|xs| - 1];
    forall p | 0 <= p < |t| ensures ShownOnTime(o, t, minT, maxT, p) {
      assert ShownOnTime(o, xs, minT, maxT, p) && t[..p] == xs[..p];
    }
    assert ShownOnTime(o, xs, minT, maxT, |t|);
  }

  lemma {:induction false} ShownFeed(o: Range, xs: seq<Inst>, minT: nat, maxT: nat)
    requires ShownNeverLate(o, xs, minT, maxT)
    ensures ShownInStep(o, Feed(xs, minT, maxT))
  {
    if xs != [] {
      var t, x := xs[..|xs| - 1], xs[|xs| - 1];
      ShownPrefix(o, xs, minT, maxT);
      ShownFeed(o, t, minT, maxT);
      var v := Feed(t, minT, maxT);
      ShownArrival(o, v.taken, v.queue, x);
      ShownDrain(o, View(v.queue + [x], v.taken), minT);
    }
  }

  lemma {:induction false} ShownArrival(o: Range, taken: seq<Inst>, queue: seq<Inst>, x: Inst)
    requires ShownAfter(o, taken, queue) && ShownAfter(o, taken, [x])
    ensures ShownAfter(o, taken, queue + [x])
  {
    assert x in [x];
  }

  lemma {:induction false} ShownBehind(o: Range, out: seq<Inst>, n: nat, j: nat)
    requires Sorted(Filter(o, out)) && n <= j < |out|
    ensures ShownAfter(o, out[..n], [out[j]])
  {
    assert out == out[..n] + out[n..] && out[n..][j - n] == out[j];
    FilterJoin(o, out[..n], out[n..]);
  }

  lemma {:induction false} ShownSorted(o: Range, xs: seq<Inst>, minT: nat, maxT: nat, p: nat)
    requires Sorted(Filter(o, Output(xs, minT, maxT))) && p < |xs|
    ensures ShownOnTime(o, xs, minT, maxT, p)
  {
    var out, taken := Output(xs, minT, maxT), Feed(xs[..p], minT, maxT).taken;
    var j := PrintedLater(xs, minT, maxT, p);
    OutputExtends(xs, minT, maxT, p);
    ShownBehind(o, out, |taken|, j);
    assert out[..|taken|] == taken;
  }

  /**
   What is printed is in order exactly when no instruction in range arrives behind one in range that
   was already taken; instructions outside the range do not matter.
   */
  lemma {:induction false} PrintedInOrderIff(o: Range, xs: seq<Inst>, minT: nat, maxT: nat)
    ensures Sorted(Filter(o, Output(xs, minT, maxT))) <==> ShownNeverLate(o, xs, minT, maxT)
  {
    if ShownNeverLate(o, xs, minT, maxT) {
      ShownFeed(o, xs, minT, maxT);
      ShownDrain(o, Feed(xs, minT, maxT), 0);
    }
    if Sorted(Filter(o, Output(xs, minT, maxT))) {
      forall p | 0 <= p < |xs| ensures ShownOnTime(o, xs, minT, maxT, p) {
        ShownSorted(o, xs, minT, maxT, p);
      }
    }
  }

  // ---------- the assumption in the source ----------

  /** No instruction arrives more than `bound` places after its place in sequence-number order. */
  ghost predicate DisorderAtMost(xs: seq<Inst>, bound: nat) {
    forall i :: 0 <= i < |xs| ==> i - Rank(xs, i) <= bound
  }

  /** The first instruction with the least sequence number at or after position `p`. */
  lemma {:induction false} LeastFrom(xs: seq<Inst>, p: nat, end: nat) returns (q: nat)
    requires p < end <= |xs|
    ensures p <= q < end
    ensures forall k :: p <= k < q ==> xs[k].sn > xs[q].sn
    ensures forall k :: q < k < end ==> xs[k].sn >= xs[q].sn
  {
    if end == p + 1 {
      q := p;
    } else {
      q := LeastFrom(xs, p, end - 1);
      if xs[end - 1].sn < xs[q].sn {
        q := end - 1;
      }
    }
  }

  lemma {:induction false} CountNone(s: seq<Inst>, sn: int)
    ensures (forall k :: 0 <= k < |s| ==> s[k].sn > sn) ==> CountAtMost(s, sn) == 0
    ensures (forall k :: 0 <= k < |s| ==> s[k].sn >= sn) ==> CountBelow(s, sn) == 0
  {
    if s != [] { CountNone(s[..|s| - 1], sn); }
  }

  lemma {:induction false} CountMonotone(s: seq<Inst>, a: int, b: int)
    requires a <= b
    ensures CountAtMost(s, a) <= CountAtMost(s, b)
  {
    if s != [] { CountMonotone(s[..|s| - 1], a, b); }
  }

  /** Among the instructions from `p` on, the least one has only earlier arrivals ahead of it. */
  lemma {:induction false} RankOfLeast(xs: seq<Inst>, p: nat, q: nat)
    requires p <= q < |xs|
    requires forall k :: p <= k < q ==> xs[k].sn > xs[q].sn
    requires forall k :: q < k < |xs| ==> xs[k].sn >= xs[q].sn
    ensures Rank(xs, q) == CountAtMost(xs[..p], xs[q].sn)
  {
    assert xs[..q] == xs[..p] + xs[p..q];
    CountConcat(xs[..p], xs[p..q], xs[q].sn);
    CountNone(xs[p..q], xs[q].sn);
    CountNone(xs[q + 1..], xs[q].sn);
  }

  /** Instructions at most `min_threshold` places out of order are printed in order. */
  lemma {:induction false} BoundedDisorderSuffices(xs: seq<Inst>, minT: nat, maxT: nat)
    requires DisorderAtMost(xs, minT)
    ensures Output(xs, minT, maxT) == Sort(xs)
  {
    forall p | 0 <= p < |xs| ensures OnTime(xs, minT, maxT, p) {
      var q := LeastFrom(xs, p, |xs|);
      RankOfLeast(xs, p, q);
      CountMonotone(xs[..p], xs[q].sn, xs[p].sn);
      assert q - Rank(xs, q) <= minT;
    }
    NeverLateSorts(xs, minT, maxT);
  }

  /** Being further out of order does not by itself spoil the output: a short trace is only sorted once. */
  lemma {:induction false} ShortTracesInOrder(xs: seq<Inst>, minT: nat, maxT: nat)
    requires |xs| <= maxT + 1
    ensures Output(xs, minT, maxT) == Sort(xs)
  {
    forall p | 0 <= p < |xs| ensures OnTime(xs, minT, maxT, p) {
      NothingPrintedYet(p, minT, maxT);
    }
    NeverLateSorts(xs, minT, maxT);
  }

  lemma {:induction false} NothingPrintedYet(n: nat, minT: nat, maxT: nat)
    requires n <= maxT
    ensures Printed(n, minT, maxT) == 0
  {
    if n > 0 { NothingPrintedYet(n - 1, minT, maxT); }
  }

  /** A whole trace through a viewer with the thresholds the script starts with (lines 54-58). */
  method ViewTrace(o: Range, xs: seq<Inst>) returns (printed: seq<Inst>)
    ensures Sorted(printed) <==> ShownNeverLate(o, xs, 1000, 2000)
    ensures DisorderAtMost(xs, 1000) || |xs| <= 2001 ==> printed == Filter(o, Sort(xs))
    ensures forall i :: multiset(printed)[i] == if Wanted(o, i) then multiset(xs)[i] else 0
  {
    var viewer := new Viewer(o);
    viewer.ProcessTrace(xs);
    printed := viewer.printed;
    PrintedInOrderIff(o, xs, 1000, 2000);
    if DisorderAtMost(xs, 1000) {
      BoundedDisorderSuffices(xs, 1000, 2000);
    }
    if |xs| <= 2001 {
      ShortTracesInOrder(xs, 1000, 2000);
    }
    forall i ensures multiset(printed)[i] == if Wanted(o, i) then multiset(xs)[i] else 0 {
      PrintedTimes(o, xs, 1000, 2000, i);
    }
  }
}
