/**
 What routing on the generated meshes guarantees over whole journeys, under any
 random choice between equally light links: arrival, turn restrictions and an
 acyclic channel dependency relation.
 */
module MeshDeadlock {
  import opened Mesh
  import opened MeshRouting

  // ---------- journeys ----------

  ghost predicate IsRouter(x: Routed, a: nat)
    requires x.cols > 0
  {
    a >= 2 * x.nodes && x.InMesh(a - 2 * x.nodes)
  }

  /** The router that sends from switch `a` may forward a packet for `f` to switch `b`. */
  ghost predicate Forwards(x: Routed, f: nat, a: nat, b: nat)
    requires x.Valid()
  {
    IsRouter(x, a) && MayRoute(x, a - 2 * x.nodes, f, b)
  }

  /** The same, in terms of the grid: delivery at the right router, or a hop in an allowed direction. */
  ghost predicate Moves(x: Routed, f: nat, a: nat, b: nat)
    requires x.Attached() && f < x.nodes && a >= 2 * x.nodes
  {
    if a - 2 * x.nodes == x.attach[f] then b == x.OutSwitch(f)
    else b >= 2 * x.nodes && Hop(x, a - 2 * x.nodes, f, b - 2 * x.nodes)
  }

  lemma {:induction false} ForwardsMoves(x: Routed, f: nat, a: nat, b: nat)
    requires x.Valid() && f < x.nodes && Forwards(x, f, a, b)
    ensures Moves(x, f, a, b) && Near(x, a - 2 * x.nodes, f)
  {
    RoutingFunction(x, a - 2 * x.nodes, f, b);
  }

  /** A possible journey, or the start of one, of a packet for node `f`. */
  ghost predicate Journey(x: Routed, f: nat, p: seq<nat>)
    requires x.Valid()
  {
    |p| > 0 && forall k {:trigger HopAt(x, f, p, k)} :: 0 <= k < |p| - 1 ==> HopAt(x, f, p, k)
  }

  ghost predicate HopAt(x: Routed, f: nat, p: seq<nat>, k: nat)
    requires x.Valid() && k < |p| - 1
  {
    Forwards(x, f, p[k], p[k + 1])
  }

  ghost function HopsLeft(x: Routed, f: nat, a: nat): nat
    requires x.Attached() && f < x.nodes && a >= 2 * x.nodes
  {
    Manhattan(x.cols, a - 2 * x.nodes, x.attach[f])
  }

  lemma {:induction false} OneHopNearer(x: Routed, f: nat, r: nat, s: nat)
    requires x.Attached() && f < x.nodes && r != x.attach[f] && Hop(x, r, f, s) && Near(x, r, f)
    ensures x.InMesh(s) && Manhattan(x.cols, s, x.attach[f]) + 1 == Manhattan(x.cols, r, x.attach[f]) && Near(x, s, f)
  {
    var t := x.attach[f];
    var dir :| StepsTo(dir, x.rows, x.cols, r, s) && Allowed(x.style, dir, x.cols, r, t);
    StepCost(x.style, dir, x.rows, x.cols, r, s, t);
  }

  lemma {:induction false} MoveStep(x: Routed, f: nat, a: nat, b: nat)
    requires x.Attached() && f < x.nodes && IsRouter(x, a) && Moves(x, f, a, b) && Near(x, a - 2 * x.nodes, f)
    ensures HopsLeft(x, f, a) == 0 <==> b == x.OutSwitch(f)
    ensures HopsLeft(x, f, a) > 0 ==>
              IsRouter(x, b) && HopsLeft(x, f, b) + 1 == HopsLeft(x, f, a) && Near(x, b - 2 * x.nodes, f)
  {
    if a - 2 * x.nodes != x.attach[f] {
      OneHopNearer(x, f, a - 2 * x.nodes, b - 2 * x.nodes);
    }
  }

  /** One forwarding step: delivered at the right router, otherwise one hop nearer and still routable. */
  lemma {:induction false} ForwardStep(x: Routed, f: nat, a: nat, b: nat)
    requires x.Valid() && f < x.nodes && Forwards(x, f, a, b)
    ensures HopsLeft(x, f, a) == 0 <==> b == x.OutSwitch(f)
    ensures HopsLeft(x, f, a) > 0 ==>
              IsRouter(x, b) && HopsLeft(x, f, b) + 1 == HopsLeft(x, f, a) && Near(x, b - 2 * x.nodes, f)
  {
    ForwardsMoves(x, f, a, b);
    MoveStep(x, f, a, b);
  }

  /**
   Every journey goes straight to its destination: hop k is at a router exactly k hops
   nearer, and the packet is delivered after exactly Manhattan-distance hops.
   */
  lemma {:induction false} Arrival(x: Routed, f: nat, p: seq<nat>, k: nat)
    requires x.Valid() && f < x.nodes && Journey(x, f, p) && IsRouter(x, p[0]) && k < |p|
    ensures k <= HopsLeft(x, f, p[0]) ==> IsRouter(x, p[k]) && HopsLeft(x, f, p[k]) == HopsLeft(x, f, p[0]) - k
    ensures k <= HopsLeft(x, f, p[0]) + 1
    ensures k == HopsLeft(x, f, p[0]) + 1 ==> p[k] == x.OutSwitch(f)
  {
    if k > 0 {
      Arrival(x, f, p, k - 1);
      assert HopAt(x, f, p, k - 1);
      ForwardStep(x, f, p[k - 1], p[k]);
    }
  }

  lemma {:induction false} JourneyEnd(x: Routed, f: nat, p: seq<nat>)
    requires x.Valid() && f < x.nodes && Journey(x, f, p) && IsRouter(x, p[0]) && Near(x, p[0] - 2 * x.nodes, f)
    requires p[|p| - 1] != x.OutSwitch(f)
    ensures IsRouter(x, p[|p| - 1]) && Near(x, p[|p| - 1] - 2 * x.nodes, f)
  {
    if |p| > 1 {
      Arrival(x, f, p, |p| - 2);
      assert HopAt(x, f, p, |p| - 2);
      ForwardStep(x, f, p[|p| - 2], p[|p| - 1]);
    }
  }

  lemma {:induction false} JourneyExtends(x: Routed, f: nat, p: seq<nat>, next: nat)
    requires x.Valid() && Journey(x, f, p) && Forwards(x, f, p[|p| - 1], next)
    ensures Journey(x, f, p + [next])
  {
    var q := p + [next];
    forall k | 0 <= k < |q| - 1 ensures HopAt(x, f, q, k) {
      assert k < |p| - 1 ==> HopAt(x, f, p, k);
    }
  }

  /** A journey that has not arrived can always go on. */
  lemma {:induction false} Progress(x: Routed, f: nat, p: seq<nat>) returns (next: nat)
    requires x.Valid() && f < x.nodes && Journey(x, f, p) && IsRouter(x, p[0]) && Near(x, p[0] - 2 * x.nodes, f)
    requires p[|p| - 1] != x.OutSwitch(f)
    ensures Journey(x, f, p + [next])
  {
    JourneyEnd(x, f, p);
    SomeRouteIff(x, p[|p| - 1] - 2 * x.nodes, f);
    next :| MayRoute(x, p[|p| - 1] - 2 * x.nodes, f, next);
    JourneyExtends(x, f, p, next);
  }

  // ---------- turns ----------

  ghost predicate Heads(x: Routed, dir: Direction, a: nat, b: nat)
    requires x.cols > 0
  {
    a >= 2 * x.nodes && b >= 2 * x.nodes && StepsTo(dir, x.rows, x.cols, a - 2 * x.nodes, b - 2 * x.nodes)
  }

  /** The turn that the weights forbid: into `dir` from anything else. */
  ghost predicate ComesFirst(style: Style, dir: Direction) {
    dir.West? || (style == XY && dir.East?)
  }

  lemma {:induction false} TurnRule(x: Routed, dir: Direction, f: nat, a: nat, b: nat, c: nat)
    requires x.Attached() && f < x.nodes && ComesFirst(x.style, dir) && a >= 2 * x.nodes
    requires Heads(x, dir, b, c) && Moves(x, f, a, b) && Moves(x, f, b, c)
    ensures Heads(x, dir, a, b)
  {
    var r, s, u, t := a - 2 * x.nodes, b - 2 * x.nodes, c - 2 * x.nodes, x.attach[f];
    var d1 :| StepsTo(d1, x.rows, x.cols, r, s) && Allowed(x.style, d1, x.cols, r, t);
    var d2 :| StepsTo(d2, x.rows, x.cols, s, u) && Allowed(x.style, d2, x.cols, s, t);
    assert Productive(dir, x.cols, r, t) ==> WeightOf(x.style, d1) <= WeightOf(x.style, dir);
  }

  lemma {:induction false} HeadedBefore(x: Routed, dir: Direction, f: nat, p: seq<nat>, k: nat)
    requires x.Valid() && f < x.nodes && Journey(x, f, p) && ComesFirst(x.style, dir)
    requires 0 < k < |p| - 1 && Heads(x, dir, p[k], p[k + 1])
    ensures Heads(x, dir, p[k - 1], p[k])
  {
    assert HopAt(x, f, p, k - 1) && HopAt(x, f, p, k);
    ForwardsMoves(x, f, p[k - 1], p[k]);
    ForwardsMoves(x, f, p[k], p[k + 1]);
    TurnRule(x, dir, f, p[k - 1], p[k], p[k + 1]);
  }

  /**
   West-first: once a packet has made a hop that is not west it never goes west again.
   With XY weights the same holds for east, so all column moves precede all row moves.
   */
  lemma {:induction false} FirstDirectionFirst(x: Routed, dir: Direction, f: nat, p: seq<nat>, j: nat, k: nat)
    requires x.Valid() && f < x.nodes && Journey(x, f, p) && ComesFirst(x.style, dir)
    requires j <= k < |p| - 1 && Heads(x, dir, p[k], p[k + 1])
    ensures Heads(x, dir, p[j], p[j + 1])
    decreases k - j
  {
    if j < k {
      HeadedBefore(x, dir, f, p, k);
      FirstDirectionFirst(x, dir, f, p, j, k - 1);
    }
  }

  /** With XY weights there is no choice: the route is unique. */
  lemma {:induction false} XYUnique(x: Routed, f: nat, a: nat, b: nat, c: nat)
    requires x.Attached() && f < x.nodes && x.style == XY && a >= 2 * x.nodes && Moves(x, f, a, b) && Moves(x, f, a, c)
    ensures b == c
  {
    var r, t := a - 2 * x.nodes, x.attach[f];
    if r != t {
      var s, u := b - 2 * x.nodes, c - 2 * x.nodes;
      var d1 :| StepsTo(d1, x.rows, x.cols, r, s) && Allowed(XY, d1, x.cols, r, t);
      var d2 :| StepsTo(d2, x.rows, x.cols, r, u) && Allowed(XY, d2, x.cols, r, t);
      assert d1 == d2;
      StepDestinationUnique(d1, x.rows, x.cols, r, s, u);
    }
  }

  lemma {:induction false} XYJourneyUnique(x: Routed, f: nat, p: seq<nat>, q: seq<nat>, k: nat)
    requires x.Valid() && f < x.nodes && x.style == XY && Journey(x, f, p) && Journey(x, f, q) && p[0] == q[0]
    requires k < |p| && k < |q|
    ensures p[k] == q[k]
  {
    if k > 0 {
      XYJourneyUnique(x, f, p, q, k - 1);
      assert HopAt(x, f, p, k - 1) && HopAt(x, f, q, k - 1);
      ForwardsMoves(x, f, p[k - 1], p[k]);
      ForwardsMoves(x, f, q[k - 1], q[k]);
      XYUnique(x, f, p[k - 1], p[k], q[k]);
    }
  }

  // ---------- channel dependencies ----------

  /** A packet holding channel (a, b) may ask for channel (b, c). */
  ghost predicate Depends(x: Routed, a: nat, b: nat, c: nat)
    requires x.Valid()
  {
    exists f :: 0 <= f < x.nodes && Forwards(x, f, a, b) && Forwards(x, f, b, c)
  }

  /** A hop's place in an order that every dependency climbs, compared lexicographically. */
  ghost function HopRank(style: Style, dir: Direction, rows: nat, cols: nat, r: nat): (int, int)
    requires cols > 0
  {
    var row: int, col: int := Row(r, cols), Col(r, cols);
    match (style, dir)
    case (XY, East) => (0, col)
    case (XY, West) => (0, cols - col)
    case (XY, North) => (1, row)
    case (XY, South) => (1, rows - row)
    case (WestFirst, East) => (2 * col + 1, 0)
    case (WestFirst, West) => (-col, 0)
    case (WestFirst, North) => (2 * col, row)
    case (WestFirst, South) => (2 * col, rows - row)
  }

  /** The rank of channel (a, b); ejection channels come last. */
  ghost function Rank(x: Routed, a: nat, b: nat): (int, int)
    requires x.cols > 0 && a >= 2 * x.nodes
  {
    var r := a - 2 * x.nodes;
    if Heads(x, East, a, b) then HopRank(x.style, East, x.rows, x.cols, r)
    else if Heads(x, West, a, b) then HopRank(x.style, West, x.rows, x.cols, r)
    else if Heads(x, North, a, b) then HopRank(x.style, North, x.rows, x.cols, r)
    else if Heads(x, South, a, b) then HopRank(x.style, South, x.rows, x.cols, r)
    else (2 * x.cols + 2, 0)
  }

  lemma {:induction false} RankOfHop(x: Routed, dir: Direction, a: nat, b: nat)
    requires x.cols > 0 && Heads(x, dir, a, b)
    ensures Rank(x, a, b) == HopRank(x.style, dir, x.rows, x.cols, a - 2 * x.nodes)
    ensures Rank(x, a, b).0 < 2 * x.cols + 2
  {
  }

  ghost predicate Less(p: (int, int), q: (int, int)) {
    p.0 < q.0 || (p.0 == q.0 && p.1 < q.1)
  }

  lemma {:induction false} HopRanks(style: Style, d1: Direction, d2: Direction, rows: nat, cols: nat, r: nat, s: nat,
                                    u: nat, t: nat)
    requires cols > 0 && StepsTo(d1, rows, cols, r, s) && StepsTo(d2, rows, cols, s, u)
    requires Allowed(style, d1, cols, r, t) && Allowed(style, d2, cols, s, t)
    ensures Less(HopRank(style, d1, rows, cols, r), HopRank(style, d2, rows, cols, s))
  {
    assert Productive(West, cols, r, t) ==> WeightOf(style, d1) <= WeightOf(style, West);
    assert Productive(East, cols, r, t) ==> WeightOf(style, d1) <= WeightOf(style, East);
  }

  /** Two consecutive moves of one packet climb in rank. */
  lemma {:induction false} MovesClimb(x: Routed, f: nat, a: nat, b: nat, c: nat)
    requires x.Attached() && f < x.nodes && a >= 2 * x.nodes && b >= 2 * x.nodes
    requires Moves(x, f, a, b) && Moves(x, f, b, c)
    ensures Less(Rank(x, a, b), Rank(x, b, c))
  {
    var r, s, t := a - 2 * x.nodes, b - 2 * x.nodes, x.attach[f];
    var d1 :| StepsTo(d1, x.rows, x.cols, r, s) && Allowed(x.style, d1, x.cols, r, t);
    RankOfHop(x, d1, a, b);
    if s != t {
      var d2 :| StepsTo(d2, x.rows, x.cols, s, c - 2 * x.nodes) && Allowed(x.style, d2, x.cols, s, t);
      RankOfHop(x, d2, b, c);
      HopRanks(x.style, d1, d2, x.rows, x.cols, r, s, c - 2 * x.nodes, t);
    }
  }

  lemma {:induction false} DependencyClimbs(x: Routed, a: nat, b: nat, c: nat)
    requires x.Valid() && Depends(x, a, b, c)
    ensures a >= 2 * x.nodes && b >= 2 * x.nodes && Less(Rank(x, a, b), Rank(x, b, c))
  {
    var f :| 0 <= f < x.nodes && Forwards(x, f, a, b) && Forwards(x, f, b, c);
    ForwardsMoves(x, f, a, b);
    ForwardsMoves(x, f, b, c);
    MovesClimb(x, f, a, b, c);
  }

  ghost predicate DependencyChain(x: Routed, c: seq<nat>)
    requires x.Valid()
  {
    forall k {:trigger DependsAt(x, c, k)} :: 0 <= k < |c| - 2 ==> DependsAt(x, c, k)
  }

  ghost predicate DependsAt(x: Routed, c: seq<nat>, k: nat)
    requires x.Valid() && k < |c| - 2
  {
    Depends(x, c[k], c[k + 1], c[k + 2])
  }

  lemma {:induction false} ChainClimbs(x: Routed, c: seq<nat>, k: nat)
    requires x.Valid() && DependencyChain(x, c) && 0 < k < |c| - 1
    ensures c[0] >= 2 * x.nodes && c[k] >= 2 * x.nodes && Less(Rank(x, c[0], c[1]), Rank(x, c[k], c[k + 1]))
  {
    assert DependsAt(x, c, k - 1);
    DependencyClimbs(x, c[k - 1], c[k], c[k + 1]);
    if k > 1 {
      ChainClimbs(x, c, k - 1);
    }
  }

  /** Deadlock freedom: no chain of channel dependencies returns to the channel it started from. */
  lemma {:induction false} NoDependencyCycle(x: Routed, c: seq<nat>, k: nat)
    requires x.Valid() && DependencyChain(x, c) && 0 < k < |c| - 1
    ensures (c[0], c[1]) != (c[k], c[k + 1])
  {
    ChainClimbs(x, c, k);
  }
}
