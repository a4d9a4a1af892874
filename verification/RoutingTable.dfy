/**
 From links to routes: the switch graph of gem5/src/mem/ruby/network/Topology.cc
 and the table lookup of gem5/src/mem/ruby/network/garnet2.0/RoutingUnit.cc.

 For any topology with link weights between 1 and 9999 this module says exactly
 which destinations a router can reach through its table (those within a true
 weighted distance of 10000) and what the lookup returns.
 */
module RoutingTable {
  import opened ShortestPath

  // ---------- walks along links ----------

  ghost predicate IsLinkWalk(g: LinkMap, p: seq<nat>, i: nat, j: nat) {
    && |p| > 0 && p[0] == i && p[|p| - 1] == j
    && (|p| > 1 ==> (p[0], p[1]) in g && IsLinkWalk(g, p[1..], p[1], j))
  }

  ghost function LinkWeight(g: LinkMap, p: seq<nat>): nat {
    if |p| < 2 then 0 else (if (p[0], p[1]) in g then g[(p[0], p[1])] else 0) + LinkWeight(g, p[1..])
  }

  ghost predicate EndsBelow(g: LinkMap, n: nat) {
    forall e :: e in g ==> e.0 < n && e.1 < n
  }

  /** Every link joins two different switches and has a weight that can be told from "no link". */
  ghost predicate GoodLinks(g: LinkMap) {
    forall e :: e in g ==> e.0 != e.1 && 0 < g[e] < INFINITE_LATENCY
  }

  /** The matrix filled in by createLinks (Topology.cc:120-143). */
  function EdgeWeight(g: LinkMap, i: nat, j: nat): nat {
    if (i, j) in g then g[(i, j)] else if i == j then 0 else INFINITE_LATENCY
  }

  ghost predicate WeightsOf(g: LinkMap, w: Matrix, n: nat) {
    && Square(w, n) && EndsBelow(g, n)
    && forall i, j :: 0 <= i < n && 0 <= j < n ==> w[i][j] == EdgeWeight(g, i, j)
  }

  lemma {:induction false} LinkWalkIsWalk(g: LinkMap, w: Matrix, n: nat, p: seq<nat>, i: nat, j: nat)
    requires WeightsOf(g, w, n) && IsLinkWalk(g, p, i, j) && i < n
    ensures Below(p, n) && Weight(w, n, p) == LinkWeight(g, p)
  {
    if |p| > 1 {
      LinkWalkIsWalk(g, w, n, p[1..], p[1], j);
      assert forall k :: 0 < k < |p| ==> p[k] == p[1..][k - 1];
    }
  }

  /** A walk lighter than 10000 only uses links, apart from steps that stay put. */
  lemma {:induction false} LightWalkIsLinkWalk(g: LinkMap, w: Matrix, n: nat, p: seq<nat>) returns (q: seq<nat>)
    requires WeightsOf(g, w, n) && |p| > 0 && Below(p, n) && Weight(w, n, p) < INFINITE_LATENCY
    ensures IsLinkWalk(g, q, p[0], p[|p| - 1]) && LinkWeight(g, q) == Weight(w, n, p)
  {
    if |p| == 1 {
      q := p;
    } else {
      var t := LightWalkIsLinkWalk(g, w, n, p[1..]);
      if (p[0], p[1]) in g {
        q := [p[0]] + t;
        assert q[1..] == t;
      } else {
        q := t;
      }
    }
  }

  /** A topology with its weight matrix and the distances computed from it. */
  ghost predicate Solved(g: LinkMap, w: Matrix, d: Matrix, n: nat) {
    WeightsOf(g, w, n) && GoodLinks(g) && IsClosure(w, d, n)
  }

  /** What the computed distance means: never above a link walk, at most 10000, and attained when below 10000. */
  lemma {:induction false} ComputedDistance(g: LinkMap, w: Matrix, d: Matrix, n: nat, i: nat, j: nat)
    requires Solved(g, w, d, n) && i < n && j < n
    ensures d[i][j] <= 10000
    ensures forall p :: IsLinkWalk(g, p, i, j) ==> d[i][j] <= LinkWeight(g, p)
    ensures d[i][j] < 10000 ==> exists p :: IsLinkWalk(g, p, i, j) && LinkWeight(g, p) == d[i][j]
  {
    assert d[i][j] <= w[i][j] == EdgeWeight(g, i, j);
    forall p | IsLinkWalk(g, p, i, j) ensures d[i][j] <= LinkWeight(g, p) {
      LinkWalkIsWalk(g, w, n, p, i, j);
      assert ZeroDiagonal(w, n);
      ClosureIsLeast(w, d, n, p);
    }
    if d[i][j] < INFINITE_LATENCY {
      assert Realized(w, n, i, j, d[i][j]);
      var p :| IsWalk(n, p, i, j) && Weight(w, n, p) == d[i][j];
      var q := LightWalkIsLinkWalk(g, w, n, p);
    }
  }

  // ---------- which links serve which destination ----------

  /** createLinks makes a network link for this matrix entry (Topology.cc:151-152). */
  ghost predicate HasLink(w: Matrix, n: nat, src: nat, next: nat)
    requires Square(w, n)
  {
    src < n && next < n && 0 < w[src][next] && w[src][next] != INFINITE_LATENCY
  }

  /** link_is_shortest_path_to_node (Topology.cc:267-273), for a link that exists. */
  ghost predicate Serves(w: Matrix, d: Matrix, n: nat, src: nat, next: nat, final: nat)
    requires Square(w, n) && Square(d, n)
  {
    HasLink(w, n, src, next) && final < n && w[src][next] + d[next][final] == d[src][final]
  }

  lemma {:induction false} LinkExists(g: LinkMap, w: Matrix, n: nat, src: nat, next: nat)
    requires WeightsOf(g, w, n) && GoodLinks(g)
    ensures HasLink(w, n, src, next) <==> (src, next) in g
  {
    if src < n && next < n {
      assert w[src][next] == EdgeWeight(g, src, next);
    }
  }

  /** Some walk of links from `i` to `j` weighs at most 10000. */
  ghost predicate InReach(g: LinkMap, i: nat, j: nat) {
    exists p :: IsLinkWalk(g, p, i, j) && LinkWeight(g, p) <= 10000
  }

  lemma {:induction false} ServedImpliesReachable(g: LinkMap, w: Matrix, d: Matrix, n: nat, src: nat, next: nat,
                                                  final: nat)
    requires Solved(g, w, d, n) && Serves(w, d, n, src, next, final)
    ensures InReach(g, src, final)
  {
    LinkExists(g, w, n, src, next);
    ComputedDistance(g, w, d, n, src, final);
    ComputedDistance(g, w, d, n, next, final);
    assert w[src][next] == EdgeWeight(g, src, next);
    var q :| IsLinkWalk(g, q, next, final) && LinkWeight(g, q) == d[next][final];
    var p := [src] + q;
    assert p[1..] == q;
    assert IsLinkWalk(g, p, src, final);
  }

  /** The first link of a walk as light as the computed distance serves its destination. */
  lemma {:induction false} LightestWalkServes(g: LinkMap, w: Matrix, d: Matrix, n: nat, src: nat, final: nat,
                                              p: seq<nat>)
    requires Solved(g, w, d, n) && src < n && final < n && |p| > 1
    requires IsLinkWalk(g, p, src, final) && LinkWeight(g, p) == d[src][final]
    ensures Serves(w, d, n, src, p[1], final)
  {
    var next := p[1];
    LinkExists(g, w, n, src, next);
    assert w[src][next] == EdgeWeight(g, src, next);
    LinkWalkIsWalk(g, w, n, p[1..], next, final);
    assert ZeroDiagonal(w, n);
    ClosureIsLeast(w, d, n, p[1..]);
    assert d[src][next] <= w[src][next];
    assert TriangleAt(d, n, src, final);
  }

  /** A switch has a table entry for `final` exactly when `final` is within reach. */
  lemma {:induction false} RouteExistsIff(g: LinkMap, w: Matrix, d: Matrix, n: nat, src: nat, final: nat)
    requires Solved(g, w, d, n) && src < n && final < n && src != final
    ensures (exists next: nat :: Serves(w, d, n, src, next, final)) <==> InReach(g, src, final)
  {
    if exists next: nat :: Serves(w, d, n, src, next, final) {
      var next: nat :| Serves(w, d, n, src, next, final);
      ServedImpliesReachable(g, w, d, n, src, next, final);
    }
    if InReach(g, src, final) {
      var p :| IsLinkWalk(g, p, src, final) && LinkWeight(g, p) <= INFINITE_LATENCY;
      ComputedDistance(g, w, d, n, src, final);
      if d[src][final] < INFINITE_LATENCY {
        p :| IsLinkWalk(g, p, src, final) && LinkWeight(g, p) == d[src][final];
      }
      LightestWalkServes(g, w, d, n, src, final, p);
    }
  }

  // ---------- table construction ----------

  /** One output port of a router: the switch behind it, the nodes it serves and the link weight. */
  datatype RouteEntry = RouteEntry(next: nat, dests: set<nat>, weight: nat)

  /** Output node f is switch nodes + f; see the numbering note at Topology.cc:44-49. */
  ghost predicate ServesNode(w: Matrix, d: Matrix, n: nat, nodes: nat, src: nat, next: nat, f: nat)
    requires Square(w, n) && Square(d, n)
  {
    f < nodes && Serves(w, d, n, src, next, nodes + f)
  }

  ghost predicate EntryFor(w: Matrix, d: Matrix, n: nat, nodes: nat, src: nat, e: RouteEntry)
    requires Square(w, n) && Square(d, n)
  {
    && HasLink(w, n, src, e.next) && e.weight == w[src][e.next]
    && forall f: nat :: f in e.dests <==> ServesNode(w, d, n, nodes, src, e.next, f)
  }

  /** The ports of `src`, in increasing order of the switch behind them, none missing below `bound`. */
  ghost predicate TableUpTo(w: Matrix, d: Matrix, n: nat, nodes: nat, src: nat, bound: nat, table: seq<RouteEntry>)
    requires Square(w, n) && Square(d, n)
  {
    && (forall k :: 0 <= k < |table| ==> EntryFor(w, d, n, nodes, src, table[k]) && table[k].next < bound)
    && (forall j, k :: 0 <= j < k < |table| ==> table[j].next < table[k].next)
    && (forall next: nat :: next < bound && HasLink(w, n, src, next) ==>
          exists k :: 0 <= k < |table| && table[k].next == next)
  }

  /** shortest_path_to_node: the nodes for which the link src -> next lies on a shortest path. */
  method ShortestPathToNode(weights: array2<nat>, dist: array2<nat>, nodes: nat, src: nat, next: nat,
                            ghost w: Matrix, ghost d: Matrix) returns (dests: set<nat>)
    requires Holds(weights, w) && Holds(dist, d) && weights.Length0 == dist.Length0 >= 2 * nodes
    requires HasLink(w, weights.Length0, src, next)
    ensures forall f: nat :: f in dests <==> ServesNode(w, d, weights.Length0, nodes, src, next, f)
  {
    dests := {};
    for f := 0 to nodes
      invariant forall x: nat :: x in dests <==> x < f && ServesNode(w, d, weights.Length0, nodes, src, next, x)
    {
      if weights[src, next] + dist[next, nodes + f] == dist[src, nodes + f] {
        dests := dests + {f};
      }
    }
  }

  /** The routing and weight tables of one router, filled in the order createLinks makes its links. */
  method MakeTable(weights: array2<nat>, dist: array2<nat>, nodes: nat, src: nat, ghost w: Matrix, ghost d: Matrix)
      returns (table: seq<RouteEntry>)
    requires Holds(weights, w) && Holds(dist, d) && weights.Length0 == dist.Length0 >= 2 * nodes
    requires src < weights.Length0
    ensures TableUpTo(w, d, weights.Length0, nodes, src, weights.Length0, table)
  {
    table := [];
    var n := weights.Length0;
    for j := 0 to n
      invariant TableUpTo(w, d, n, nodes, src, j, table)
    {
      var weight := weights[src, j];
      if weight > 0 && weight != INFINITE_LATENCY {
        var dests := ShortestPathToNode(weights, dist, nodes, src, j, w, d);
        ghost var before := table;
        table := table + [RouteEntry(j, dests, weight)];
        assert table[|before|].next == j;
        assert forall k :: 0 <= k < |before| ==> table[k] == before[k];
      }
    }
  }

  // ---------- table lookup ----------

  datatype Lookup = NoRoute | Port(index: nat)

  predicate Candidate(table: seq<RouteEntry>, f: nat, k: nat) {
    k < |table| && f in table[k].dests
  }

  /** How many of the first `m` entries are candidates of weight `weight`. */
  ghost function CountOf(table: seq<RouteEntry>, f: nat, weight: nat, m: nat): nat
    requires m <= |table|
  {
    if m == 0 then 0
    else CountOf(table, f, weight, m - 1) + if Candidate(table, f, m - 1) && table[m - 1].weight == weight then 1 else 0
  }

  /**
   RoutingUnit::lookupRoutingTable.  `random` stands for rand(); an ordered virtual
   network always takes the first candidate.  The fatal error is `NoRoute`.
   */
  method LookupRoutingTable(table: seq<RouteEntry>, f: nat, ordered: bool, random: nat) returns (r: Lookup)
    ensures r.NoRoute? <==> forall k: nat :: Candidate(table, f, k) ==> table[k].weight > 10000
    ensures r.Port? ==> Candidate(table, f, r.index)
                        && forall k: nat :: Candidate(table, f, k) ==> table[r.index].weight <= table[k].weight
    ensures r.Port? && ordered ==>
              forall k: nat :: Candidate(table, f, k) && table[k].weight == table[r.index].weight ==> r.index <= k
    ensures r.Port? && !ordered ==>
              var weight := table[r.index].weight;
              var count := CountOf(table, f, weight, |table|);
              count > 0 && CountOf(table, f, weight, r.index) == random % count
  {
    var minWeight := LeastWeight(table, f);
    var candidates := Lightest(table, f, minWeight);
    forall k: nat | Candidate(table, f, k) && table[k].weight == minWeight
      ensures k in candidates && candidates[0] <= k
    {
      InPlaceAll(table, f, minWeight, candidates, k);
    }
    if |candidates| == 0 {
      return NoRoute;
    }
    var candidate := if ordered then 0 else random % |candidates|;
    assert InPlace(table, f, minWeight, candidates[candidate], candidate);
    r := Port(candidates[candidate]);
  }

  /** The minimum weight among the candidates (lines 83-90). */
  method LeastWeight(table: seq<RouteEntry>, f: nat) returns (minWeight: nat)
    ensures minWeight <= INFINITE_LATENCY
    ensures forall k: nat :: Candidate(table, f, k) ==>
        minWeight <= table[k].weight || table[k].weight > INFINITE_LATENCY
    ensures minWeight == INFINITE_LATENCY || exists k: nat :: Candidate(table, f, k) && table[k].weight == minWeight
  {
    minWeight := INFINITE_LATENCY;
    for link := 0 to |table|
      invariant minWeight <= INFINITE_LATENCY
      invariant forall k: nat :: k < link && Candidate(table, f, k) ==>
          minWeight <= table[k].weight || table[k].weight > INFINITE_LATENCY
      invariant minWeight == INFINITE_LATENCY || exists k: nat ::
          k < link && Candidate(table, f, k) && table[k].weight == minWeight
    {
      if f in table[link].dests && table[link].weight <= minWeight {
        minWeight := table[link].weight;
        assert Candidate(table, f, link);
      }
    }
  }

  /** Candidate `k`, of weight `weight`, is number `x` among its like. */
  ghost predicate InPlace(table: seq<RouteEntry>, f: nat, weight: nat, k: nat, x: nat) {
    Candidate(table, f, k) && table[k].weight == weight && CountOf(table, f, weight, k) == x
  }

  lemma {:induction false} CountGrows(table: seq<RouteEntry>, f: nat, weight: nat, k: nat, m: nat)
    requires k < m <= |table| && Candidate(table, f, k) && table[k].weight == weight
    ensures CountOf(table, f, weight, k) < CountOf(table, f, weight, m)
  {
    if k < m - 1 {
      CountGrows(table, f, weight, k, m - 1);
    }
  }

  /** A list with every entry in its place misses no candidate of its weight. */
  lemma {:induction false} InPlaceAll(table: seq<RouteEntry>, f: nat, weight: nat, candidates: seq<nat>, k: nat)
    requires |candidates| == CountOf(table, f, weight, |table|)
    requires forall x :: 0 <= x < |candidates| ==> InPlace(table, f, weight, candidates[x], x)
    requires Candidate(table, f, k) && table[k].weight == weight
    ensures k in candidates && candidates[0] <= k
  {
    CountGrows(table, f, weight, k, |table|);
    var x := CountOf(table, f, weight, k);
    var c, first := candidates[x], candidates[0];
    assert InPlace(table, f, weight, c, x) && InPlace(table, f, weight, first, 0);
    if k < c {
      CountGrows(table, f, weight, k, c);
    } else if c < k {
      CountGrows(table, f, weight, c, k);
    }
    if k < first {
      CountGrows(table, f, weight, k, first);
    }
  }

  /** All candidates of that weight, in order (lines 92-102). */
  method Lightest(table: seq<RouteEntry>, f: nat, weight: nat) returns (candidates: seq<nat>)
    ensures |candidates| == CountOf(table, f, weight, |table|)
    ensures forall x :: 0 <= x < |candidates| ==> InPlace(table, f, weight, candidates[x], x)
  {
    candidates := [];
    for link := 0 to |table|
      invariant |candidates| == CountOf(table, f, weight, link)
      invariant forall x :: 0 <= x < |candidates| ==> InPlace(table, f, weight, candidates[x], x)
    {
      if f in table[link].dests && table[link].weight == weight {
        assert InPlace(table, f, weight, link, |candidates|);
        candidates := candidates + [link];
      }
    }
  }

  // ---------- one routing decision ----------

  /** `next` is what the lookup at `src` may return for output switch `final`, under any random choice. */
  ghost predicate Choice(w: Matrix, d: Matrix, n: nat, src: nat, final: nat, next: nat)
    requires Square(w, n) && Square(d, n)
  {
    && Serves(w, d, n, src, next, final)
    && forall other: nat :: Serves(w, d, n, src, other, final) ==> w[src][next] <= w[src][other]
  }

  lemma {:induction false} CandidateServes(g: LinkMap, w: Matrix, d: Matrix, n: nat, nodes: nat, src: nat, f: nat,
                                           e: RouteEntry)
    requires WeightsOf(g, w, n) && GoodLinks(g) && Square(d, n)
    requires EntryFor(w, d, n, nodes, src, e) && f in e.dests
    ensures e.weight < INFINITE_LATENCY && Serves(w, d, n, src, e.next, nodes + f) && e.weight == w[src][e.next]
  {
    assert ServesNode(w, d, n, nodes, src, e.next, f);
    LinkExists(g, w, n, src, e.next);
    assert w[src][e.next] == EdgeWeight(g, src, e.next);
  }

  lemma {:induction false} ServesIsCandidate(w: Matrix, d: Matrix, n: nat, nodes: nat, src: nat, f: nat, next: nat,
                                             table: seq<RouteEntry>)
    requires Square(w, n) && Square(d, n) && TableUpTo(w, d, n, nodes, src, n, table) && f < nodes
    requires Serves(w, d, n, src, next, nodes + f)
    ensures exists k: nat :: Candidate(table, f, k) && table[k].next == next
  {
    var k :| 0 <= k < |table| && table[k].next == next;
    assert ServesNode(w, d, n, nodes, src, next, f);
    assert Candidate(table, f, k);
  }

  /** What a lookup in a complete table means for the graph. */
  lemma {:induction false} LookupMeaning(g: LinkMap, w: Matrix, d: Matrix, n: nat, nodes: nat, src: nat, f: nat,
                                         final: nat,
                      table: seq<RouteEntry>, k: nat)
    requires Solved(g, w, d, n) && TableUpTo(w, d, n, nodes, src, n, table) && f < nodes && final == nodes + f
    requires Candidate(table, f, k) && forall j: nat :: Candidate(table, f, j) ==> table[k].weight <= table[j].weight
    ensures Choice(w, d, n, src, final, table[k].next)
  {
    CandidateServes(g, w, d, n, nodes, src, f, table[k]);
    forall other: nat | Serves(w, d, n, src, other, final) ensures w[src][table[k].next] <= w[src][other] {
      ServesIsCandidate(w, d, n, nodes, src, f, other, table);
      var j: nat :| Candidate(table, f, j) && table[j].next == other;
      CandidateServes(g, w, d, n, nodes, src, f, table[j]);
    }
  }

  lemma {:induction false} EmptyLookupMeaning(g: LinkMap, w: Matrix, d: Matrix, n: nat, nodes: nat, src: nat, f: nat,
                                              final: nat,
                           table: seq<RouteEntry>)
    requires Solved(g, w, d, n) && TableUpTo(w, d, n, nodes, src, n, table) && f < nodes && final == nodes + f
    requires src < n && final < n && src != final
    ensures (forall k: nat :: Candidate(table, f, k) ==> table[k].weight > INFINITE_LATENCY) <==>
        !InReach(g, src, final)
  {
    RouteExistsIff(g, w, d, n, src, final);
    forall k: nat | Candidate(table, f, k)
      ensures table[k].weight < INFINITE_LATENCY && Serves(w, d, n, src, table[k].next, final)
    {
      CandidateServes(g, w, d, n, nodes, src, f, table[k]);
    }
    if InReach(g, src, final) {
      var next: nat :| Serves(w, d, n, src, next, final);
      ServesIsCandidate(w, d, n, nodes, src, f, next, table);
    }
  }

  /**
   One routing decision of a router, from its table: it fails exactly when the
   destination is out of reach, and otherwise takes a lightest link among those on
   a shortest path.
   */
  method RouteStep(weights: array2<nat>, dist: array2<nat>, nodes: nat, src: nat, f: nat, ordered: bool, random: nat,
                   ghost g: LinkMap, ghost w: Matrix, ghost d: Matrix) returns (r: Lookup, table: seq<RouteEntry>)
    requires Holds(weights, w) && Holds(dist, d) && weights.Length0 == dist.Length0 >= 2 * nodes
    requires Solved(g, w, d, weights.Length0) && src < weights.Length0 && f < nodes && src != nodes + f
    ensures r.NoRoute? <==> !InReach(g, src, nodes + f)
    ensures r.Port? ==> r.index < |table| && Choice(w, d, weights.Length0, src, nodes + f, table[r.index].next)
  {
    table := MakeTable(weights, dist, nodes, src, w, d);
    r := LookupRoutingTable(table, f, ordered, random);
    EmptyLookupMeaning(g, w, d, weights.Length0, nodes, src, f, nodes + f, table);
    if r.Port? {
      LookupMeaning(g, w, d, weights.Length0, nodes, src, f, nodes + f, table, r.index);
    }
  }
}
