/**
 The whole path from command-line options to delivered packets: generate the mesh,
 build the switch graph, compute distances, and forward packets hop by hop.
 Also the direction-based XY router of RoutingUnit.cc, compared with the table.
 */
module MeshSystem {
  import opened ShortestPath
  import opened RoutingTable
  import opened Mesh
  import opened MeshRouting
  import opened MeshDeadlock

  // ---------- set-up ----------

  ghost predicate NumberedControllers(cs: seq<Controller>) {
    && (forall k :: 0 <= k < |cs| ==> cs[k].node < |cs|)
    && (forall j, k :: 0 <= j < k < |cs| ==> cs[j].node != cs[k].node)
    && (forall f :: 0 <= f < |cs| ==> HasController(cs, f))
  }

  ghost predicate HasController(cs: seq<Controller>, f: nat) {
    exists k :: 0 <= k < |cs| && cs[k].node == f
  }

  /** The router that node `f` is attached to. */
  ghost function RouterOfNode(links: seq<ExtLink>, f: nat): nat
    requires HasNode(links, f)
  {
    var k :| 0 <= k < |links| && links[k].controller.node == f;
    links[k].router
  }

  ghost function AttachTable(links: seq<ExtLink>): (a: seq<nat>)
    requires Numbered(links)
    ensures |a| == |links|
    ensures forall k :: 0 <= k < |links| ==> a[links[k].controller.node] == links[k].router
  {
    seq(|links|, f requires 0 <= f < |links| => assert HasNode(links, f); RouterOfNode(links, f))
  }

  lemma {:induction false} PlacedInMesh(controllers: seq<Controller>, rows: nat, cols: nat, links: seq<ExtLink>, k: nat)
    requires cols > 0 && rows > 0 && rows * cols > 0 && Placed(controllers, rows * cols, links) && k < |links|
    ensures Row(links[k].router, cols) < rows
  {
    InMeshIff(links[k].router, rows, cols);
  }

  /** `x` numbers the controllers of `net` and has the links that BuildLinkMap makes of it. */
  ghost predicate GraphOf(x: Routed, net: Network) {
    && Numbered(net.extLinks) && x.nodes == |net.extLinks| && x.attach == AttachTable(net.extLinks)
    && (forall e :: e in x.g <==> IsExtIn(net, e) || IsExtOut(net, e) || IsInternal(net, e))
    && (forall e :: IsExtIn(net, e) || IsExtOut(net, e) ==> x.g[e] == 1)
    && HasWeights(x.g, net)
  }

  ghost predicate HasWeights(g: LinkMap, net: Network) {
    forall k :: 0 <= k < |net.intLinks| ==>
      InternalEnds(net, k) in g && g[InternalEnds(net, k)] == net.intLinks[k].weight
  }

  /** The link map built from a generated mesh is the graph that the routing results are about. */
  lemma {:induction false} GeneratedGraph(x: Routed, controllers: seq<Controller>, net: Network)
    requires IsMeshNetwork(x.style, controllers, x.rows, x.cols, net) && GraphOf(x, net)
    ensures x.IsMeshGraph() && GoodLinks(x.g)
  {
    GraphAttached(x, controllers, net);
    forall e | e in x.g
      ensures || (e.0 < x.nodes && e.1 == x.RouterSwitch(x.attach[e.0]) && x.g[e] == 1)
              || (x.nodes <= e.1 < 2 * x.nodes && e.0 == x.RouterSwitch(x.attach[e.1 - x.nodes]) && x.g[e] == 1)
              || (e.0 >= 2 * x.nodes && e.1 >= 2 * x.nodes && x.IsStep(e.0 - 2 * x.nodes, e.1 - 2 * x.nodes, x.g[e]))
      ensures e.0 != e.1 && 0 < x.g[e] < INFINITE_LATENCY
    {
      if IsInternal(net, e) {
        InternalEdge(x, net, e);
      } else {
        ExternalEdge(x, net, e);
      }
    }
    GraphComplete(x, net);
  }

  lemma {:induction false} ExternalEdge(x: Routed, net: Network, e: (nat, nat))
    requires GraphOf(x, net) && (IsExtIn(net, e) || IsExtOut(net, e))
    ensures x.g[e] == 1
    ensures || (e.0 < x.nodes && e.1 == x.RouterSwitch(x.attach[e.0]))
            || (x.nodes <= e.1 < 2 * x.nodes && e.0 == x.RouterSwitch(x.attach[e.1 - x.nodes]))
  {
    if IsExtIn(net, e) {
      var k :| 0 <= k < |net.extLinks| && e == ExtInEnds(net, k);
    } else {
      var k :| 0 <= k < |net.extLinks| && e == ExtOutEnds(net, k);
    }
  }

  lemma {:induction false} WeightInGraph(x: Routed, net: Network, k: nat)
    requires HasWeights(x.g, net) && k < |net.intLinks|
    ensures InternalEnds(net, k) in x.g && x.g[InternalEnds(net, k)] == net.intLinks[k].weight
  {
  }

  lemma {:induction false} StepOfLink(x: Routed, net: Network, k: nat, s: nat, t: nat, w: nat)
    requires x.cols > 0 && k < |net.intLinks| && MeshLinks(x.style, x.rows, x.cols, net.intLinks)
    requires s == net.intLinks[k].src && t == net.intLinks[k].dst && w == net.intLinks[k].weight
    ensures x.IsStep(s, t, w) && s != t && 0 < w < INFINITE_LATENCY
  {
    assert IsSomeMeshLink(x.style, x.rows, x.cols, net.intLinks[k]);
    GraphStep(x, net.intLinks[k]);
  }

  lemma {:induction false} InternalEdge(x: Routed, net: Network, e: (nat, nat))
    requires x.nodes == |net.extLinks| && HasWeights(x.g, net) && IsInternal(net, e)
    requires x.cols > 0 && MeshLinks(x.style, x.rows, x.cols, net.intLinks)
    ensures e in x.g && e.0 >= 2 * x.nodes && e.1 >= 2 * x.nodes
    ensures x.IsStep(e.0 - 2 * x.nodes, e.1 - 2 * x.nodes, x.g[e]) && e.0 != e.1 && 0 < x.g[e] < INFINITE_LATENCY
  {
    var k :| 0 <= k < |net.intLinks| && e == InternalEnds(net, k);
    WeightInGraph(x, net, k);
    StepOfLink(x, net, k, e.0 - 2 * x.nodes, e.1 - 2 * x.nodes, x.g[e]);
  }

  lemma {:induction false} GraphAttached(x: Routed, controllers: seq<Controller>, net: Network)
    requires IsMeshNetwork(x.style, controllers, x.rows, x.cols, net) && GraphOf(x, net)
    ensures x.Attached()
  {
    forall f | 0 <= f < x.nodes ensures x.InMesh(x.attach[f]) {
      assert HasNode(net.extLinks, f);
      var k :| 0 <= k < |net.extLinks| && net.extLinks[k].controller.node == f;
      PlacedInMesh(controllers, x.rows, x.cols, net.extLinks, k);
    }
  }

  lemma {:induction false} GraphStep(x: Routed, l: IntLink)
    requires x.cols > 0 && IsSomeMeshLink(x.style, x.rows, x.cols, l)
    ensures x.IsStep(l.src, l.dst, l.weight) && l.src != l.dst && 0 < l.weight < INFINITE_LATENCY
  {
    var dir :| IsMeshLink(x.style, dir, x.rows, x.cols, l);
  }

  lemma {:induction false} GraphComplete(x: Routed, net: Network)
    requires x.Attached() && MeshLinks(x.style, x.rows, x.cols, net.intLinks) && GraphOf(x, net)
    ensures x.AllMeshLinks()
  {
    forall f | 0 <= f < x.nodes ensures x.Ejects(f) {
      GraphEjects(x, net, f);
    }
    forall dir, s: nat, t: nat | StepsTo(dir, x.rows, x.cols, s, t) ensures x.Linked(s, t) {
      assert Joins(net.intLinks, s, t);
      GraphLinked(x, net, s, t);
    }
  }

  lemma {:induction false} GraphEjects(x: Routed, net: Network, f: nat)
    requires GraphOf(x, net) && f < x.nodes
    ensures x.Ejects(f)
  {
    assert HasNode(net.extLinks, f);
    var k :| 0 <= k < |net.extLinks| && net.extLinks[k].controller.node == f;
    assert ExtOutEnds(net, k) == (x.RouterSwitch(x.attach[f]), x.OutSwitch(f));
    assert IsExtOut(net, ExtOutEnds(net, k));
  }

  lemma {:induction false} GraphLinked(x: Routed, net: Network, s: nat, t: nat)
    requires GraphOf(x, net) && Joins(net.intLinks, s, t)
    ensures x.Linked(s, t)
  {
    var k :| 0 <= k < |net.intLinks| && net.intLinks[k].src == s && net.intLinks[k].dst == t;
    assert InternalEnds(net, k) == (x.RouterSwitch(s), x.RouterSwitch(t));
  }

  /** The number of switches is one more than the largest id on a link (Topology.cc:111-121). */
  method NumSwitches(g: LinkMap) returns (n: nat)
    ensures EndsBelow(g, n)
    ensures n == 1 || exists e :: e in g && (e.0 + 1 == n || e.1 + 1 == n)
  {
    var maxId := 0;
    var rest := g.Keys;
    while rest != {}
      invariant rest <= g.Keys
      invariant forall e :: e in g && e !in rest ==> e.0 <= maxId && e.1 <= maxId
      invariant maxId == 0 || exists e :: e in g && (e.0 == maxId || e.1 == maxId)
      decreases rest
    {
      var e :| e in rest;
      maxId := if e.0 > maxId then e.0 else maxId;
      maxId := if e.1 > maxId then e.1 else maxId;
      rest := rest - {e};
    }
    n := maxId + 1;
  }

  /** createLinks up to the distances: the weight matrix and its closure. */
  method Solve(g: LinkMap, n: nat) returns (weights: array2<nat>, dist: array2<nat>, ghost w: Matrix, ghost d: Matrix)
    requires EndsBelow(g, n)
    ensures WeightsOf(g, w, n) && IsClosure(w, d, n)
    ensures Holds(weights, w) && Holds(dist, d) && weights.Length0 == dist.Length0 == n
  {
    weights := new nat[n, n]((i, j) => if i < 0 || j < 0 then 0 else EdgeWeight(g, i, j));
    dist := new nat[n, n]((i, j) => if i < 0 || j < 0 then 0 else EdgeWeight(g, i, j));
    w := seq(n, i requires 0 <= i < n => seq(n, j requires 0 <= j < n => EdgeWeight(g, i, j)));
    d := ExtendShortestPath(dist, w);
  }

  /** Options in, routed mesh out.  Fails exactly when an assertion of makeTopology does. */
  method SetUp(style: Style, controllers: seq<Controller>, numCpus: int, meshRows: int)
      returns (r: Outcome, weights: array2<nat>, dist: array2<nat>, ghost x: Routed)
    requires NumberedControllers(controllers) && |controllers| > 1
    ensures r.Made? <==> Accepts(controllers, numCpus, meshRows)
    ensures r.Made? ==>
              && x.Valid() && x.style == style && x.rows == meshRows && x.rows * x.cols == numCpus
              && x.nodes == |controllers| && Holds(weights, x.w) && Holds(dist, x.d)
              && weights.Length0 == dist.Length0 == x.n
              && IsMeshNetwork(style, controllers, meshRows, x.cols, r.network) && GraphOf(x, r.network)
  {
    r := MakeTopology(style, controllers, numCpus, meshRows);
    if r.AssertionFailed? {
      weights, dist := new nat[0, 0], new nat[0, 0];
      x := Routed(style, 0, 0, 0, [], map[], [], [], 0);
      return;
    }
    var net := r.network;
    PlacedNumbered(controllers, net.routers, net.extLinks);
    var g := BuildLinkMap(net);
    var n := NumSwitches(g);
    ghost var w, d;
    weights, dist, w, d := Solve(g, n);
    x := Routed(style, meshRows, numCpus / meshRows, |net.extLinks|, AttachTable(net.extLinks), g, w, d, n);
    GeneratedGraph(x, controllers, net);
  }

  lemma {:induction false} PlacedNumbered(controllers: seq<Controller>, numRouters: nat, links: seq<ExtLink>)
    requires NumberedControllers(controllers) && numRouters > 0 && Placed(controllers, numRouters, links)
    ensures Numbered(links)
  {
    forall f | 0 <= f < |links| ensures HasNode(links, f) {
      assert HasController(controllers, f);
      var k :| 0 <= k < |controllers| && controllers[k].node == f;
      assert links[k].controller == controllers[k];
    }
  }

  // ---------- packets ----------

  lemma {:induction false} InReachIffNear(x: Routed, r: nat, f: nat)
    requires x.Valid() && f < x.nodes && x.InMesh(r)
    ensures InReach(x.g, x.RouterSwitch(r), x.OutSwitch(f)) <==> Near(x, r, f)
  {
    var p := CheapestWalk(x, r, f);
    if InReach(x.g, x.RouterSwitch(r), x.OutSwitch(f)) {
      var q :| IsLinkWalk(x.g, q, x.RouterSwitch(r), x.OutSwitch(f)) && LinkWeight(x.g, q) <= INFINITE_LATENCY;
      WalkAtLeast(x, r, f, q);
    }
  }

  lemma {:induction false} SwitchesBelow(x: Routed, at: nat, f: nat)
    requires x.Valid() && f < x.nodes && IsRouter(x, at)
    ensures at < x.n && x.OutSwitch(f) < x.n && 2 * x.nodes <= x.n
  {
    MeshDistance(x, at - 2 * x.nodes, f);
  }

  lemma {:induction false} ReachOfSwitch(x: Routed, at: nat, f: nat)
    requires x.Valid() && f < x.nodes && IsRouter(x, at)
    ensures InReach(x.g, at, x.OutSwitch(f)) <==> Near(x, at - 2 * x.nodes, f)
  {
    InReachIffNear(x, at - 2 * x.nodes, f);
  }

  /** One hop from switch `at`: the port the table gives, or no route. */
  method HopOnce(weights: array2<nat>, dist: array2<nat>, ghost x: Routed, nodes: nat, at: nat, f: nat,
                 ordered: bool, random: nat) returns (found: bool, next: nat)
    requires x.Valid() && x.nodes == nodes && Holds(weights, x.w) && Holds(dist, x.d)
    requires weights.Length0 == dist.Length0 == x.n && f < nodes && IsRouter(x, at)
    ensures found <==> Near(x, at - 2 * nodes, f)
    ensures found ==> Forwards(x, f, at, next)
  {
    SwitchesBelow(x, at, f);
    var r, table := RouteStep(weights, dist, nodes, at, f, ordered, random, x.g, x.w, x.d);
    ReachOfSwitch(x, at, f);
    found := r.Port?;
    next := if found then table[r.index].next else 0;
  }

  /** Moves still to make from switch `a`, counting the ejection. */
  ghost function MovesLeft(x: Routed, f: nat, a: nat): nat
    requires x.Attached() && f < x.nodes && (a == x.OutSwitch(f) || IsRouter(x, a))
  {
    if a == x.OutSwitch(f) then 0 else 1 + HopsLeft(x, f, a)
  }

  /** A packet that left router `start` and has followed `path` so far. */
  ghost predicate Underway(x: Routed, f: nat, start: nat, path: seq<nat>)
    requires x.Valid() && f < x.nodes
  {
    && Journey(x, f, path) && path[0] == x.RouterSwitch(start)
    && var at := path[|path| - 1];
       && (at == x.OutSwitch(f) || IsRouter(x, at))
       && |path| - 1 + MovesLeft(x, f, at) == Manhattan(x.cols, start, x.attach[f]) + 1
       && (|path| > 1 ==> Near(x, start, f) && (at != x.OutSwitch(f) ==> Near(x, at - 2 * x.nodes, f)))
  }

  lemma {:induction false} MovesLeftStep(x: Routed, f: nat, at: nat, next: nat)
    requires x.Valid() && f < x.nodes && at != x.OutSwitch(f) && Forwards(x, f, at, next)
    ensures next == x.OutSwitch(f) || (IsRouter(x, next) && Near(x, next - 2 * x.nodes, f))
    ensures MovesLeft(x, f, next) + 1 == MovesLeft(x, f, at)
  {
    ForwardStep(x, f, at, next);
  }

  lemma {:induction false} NearAtStart(x: Routed, f: nat, start: nat, path: seq<nat>, next: nat)
    requires x.Valid() && f < x.nodes && Underway(x, f, start, path) && Forwards(x, f, path[|path| - 1], next)
    ensures Near(x, start, f)
  {
    ForwardsMoves(x, f, path[|path| - 1], next);
  }

  lemma {:induction false} UnderwayStep(x: Routed, f: nat, start: nat, path: seq<nat>, next: nat)
    requires x.Valid() && f < x.nodes && Underway(x, f, start, path) && path[|path| - 1] != x.OutSwitch(f)
    requires Forwards(x, f, path[|path| - 1], next)
    ensures Underway(x, f, start, path + [next])
  {
    var at := path[|path| - 1];
    MovesLeftStep(x, f, at, next);
    NearAtStart(x, f, start, path, next);
    JourneyExtends(x, f, path, next);
  }

  lemma {:induction false} UnderwayStart(x: Routed, f: nat, start: nat)
    requires x.Valid() && f < x.nodes && x.InMesh(start)
    ensures Underway(x, f, start, [x.RouterSwitch(start)])
  {
  }

  /** The distances of `x` are held in these arrays. */
  ghost predicate Loaded(weights: array2<nat>, dist: array2<nat>, x: Routed)
    reads weights, dist
  {
    x.Valid() && Holds(weights, x.w) && Holds(dist, x.d) && weights.Length0 == dist.Length0 == x.n
  }

  /** One more hop of a packet under way; only the first hop can fail. */
  method Advance(weights: array2<nat>, dist: array2<nat>, ghost x: Routed, nodes: nat, ghost start: nat, f: nat,
                 ordered: bool, random: nat, path: seq<nat>) returns (found: bool, next: nat)
    requires Loaded(weights, dist, x) && x.nodes == nodes && f < nodes
    requires Underway(x, f, start, path) && path[|path| - 1] != nodes + f
    ensures found ==> Underway(x, f, start, path + [next]) && Near(x, start, f)
    ensures !found ==> !Near(x, start, f)
  {
    found, next := HopOnce(weights, dist, x, nodes, path[|path| - 1], f, ordered, random);
    if found {
      UnderwayStep(x, f, start, path, next);
    }
  }

  /**
   Carries a packet from router `start` to node `f`.  It is delivered exactly when `f` is
   near enough, always over a shortest journey, whatever the random numbers are.
   */
  method Deliver(weights: array2<nat>, dist: array2<nat>, ghost x: Routed, nodes: nat, start: nat, f: nat,
                 ordered: bool, rand: nat -> nat) returns (delivered: bool, path: seq<nat>)
    requires Loaded(weights, dist, x) && x.nodes == nodes && x.InMesh(start) && f < nodes
    ensures delivered <==> Near(x, start, f)
    ensures Journey(x, f, path) && path[0] == x.RouterSwitch(start)
    ensures delivered ==> |path| == Manhattan(x.cols, start, x.attach[f]) + 2 && path[|path| - 1] == x.OutSwitch(f)
  {
    path := [2 * nodes + start];
    UnderwayStart(x, f, start);
    while path[|path| - 1] != nodes + f
      invariant Underway(x, f, start, path)
      decreases Manhattan(x.cols, start, x.attach[f]) + 2 - |path|
    {
      var found, next := Advance(weights, dist, x, nodes, start, f, ordered, rand(|path|), path);
      if !found {
        return false, path;
      }
      path := path + [next];
    }
    delivered := true;
  }

  // ---------- the direction-based XY router ----------

  /** Where a packet came in: from a network interface, or through a named port. */
  datatype Inport = Local | Side(dir: Direction)

  datatype XYOutcome = XYAssertionFailed | Out(dir: Direction)

  /** The assertions of outportComputeXY about the input port (RoutingUnit.cc:206-223). */
  predicate InportOk(inport: Inport, out: Direction) {
    match out
    case East => inport == Local || inport == Side(West)
    case West => inport == Local || inport == Side(East)
    case North => inport != Side(North)
    case South => inport != Side(South)
  }

  /**
   RoutingUnit::outportComputeXY, from router and destination ids by division.  Its port is
   the one that the weights of Mesh_XY leave open.
   */
  method OutportComputeXY(myId: nat, destId: nat, numCols: nat, inport: Inport) returns (r: XYOutcome)
    requires numCols > 0 && myId != destId
    ensures r.Out? ==> Allowed(XY, r.dir, numCols, myId, destId)
    ensures r.Out? <==> forall dir :: Allowed(XY, dir, numCols, myId, destId) ==> InportOk(inport, dir)
    ensures r == Out(East) <==> destId % numCols > myId % numCols && inport in {Local, Side(West)}
    ensures r == Out(West) <==> destId % numCols < myId % numCols && inport in {Local, Side(East)}
    ensures r == Out(North) <==>
        destId % numCols == myId % numCols && destId / numCols > myId / numCols && inport != Side(North)
    ensures r == Out(South) <==>
        destId % numCols == myId % numCols && destId / numCols < myId / numCols && inport != Side(South)
  {
    var myX, myY := myId % numCols, myId / numCols;
    var destX, destY := destId % numCols, destId / numCols;
    CoordinatesByDivision(myId, numCols);
    CoordinatesByDivision(destId, numCols);
    ghost var some := SomeProductive(numCols, myId, destId);
    var out: Direction;
    if destX != myX {
      out := if destX >= myX then East else West;
    } else {
      out := if destY >= myY then North else South;
    }
    assert Allowed(XY, out, numCols, myId, destId);
    r := if InportOk(inport, out) then Out(out) else XYAssertionFailed;
  }

  /** On the generated XY mesh the direction-based router and the table agree on every hop. */
  lemma {:induction false} XYAgreesWithTable(x: Routed, dir: Direction, r: nat, f: nat, s: nat, next: nat)
    requires x.Valid() && x.style == XY && f < x.nodes && x.InMesh(r) && r != x.attach[f] && Near(x, r, f)
    requires Allowed(XY, dir, x.cols, r, x.attach[f]) && StepsTo(dir, x.rows, x.cols, r, s)
    ensures MayRoute(x, r, f, next) <==> next == x.RouterSwitch(s)
  {
    RoutingFunction(x, r, f, next);
    if next == x.RouterSwitch(s) {
      assert Hop(x, r, f, s);
    } else if MayRoute(x, r, f, next) {
      var u := next - 2 * x.nodes;
      assert Moves(x, f, x.RouterSwitch(r), next);
      assert Hop(x, r, f, s) && Moves(x, f, x.RouterSwitch(r), x.RouterSwitch(s));
      XYUnique(x, f, x.RouterSwitch(r), next, x.RouterSwitch(s));
    }
  }

  /** The input-port assertions cannot fire: a packet that made an XY hop may make the next one. */
  lemma {:induction false} XYAssertionsHold(rows: nat, cols: nat, r: nat, s: nat, t: nat, d1: Direction, d2: Direction)
    requires cols > 0 && StepsTo(d1, rows, cols, r, s)
    requires Allowed(XY, d1, cols, r, t) && Allowed(XY, d2, cols, s, t)
    ensures InportOk(Side(Opposite(d1)), d2)
  {
    assert Productive(West, cols, r, t) ==> WeightOf(XY, d1) <= WeightOf(XY, West);
    assert Productive(East, cols, r, t) ==> WeightOf(XY, d1) <= WeightOf(XY, East);
  }
}
