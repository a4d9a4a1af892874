/**
 Table routing on the generated meshes: distances and route choices.

 Everything here is derived from the links that Mesh.MakeTopology generates, the
 switch graph that Topology.cc builds from them, and the lookup rule of
 RoutingUnit.cc.  No routing function is assumed.
 */
module MeshRouting {
  import opened ShortestPath
  import opened RoutingTable
  import opened Mesh

  // ---------- from the network to the switch graph ----------

  /** Controllers are numbered 0 .. count-1, each number once (Topology.cc:75-76). */
  ghost predicate Numbered(links: seq<ExtLink>) {
    && (forall k :: 0 <= k < |links| ==> links[k].controller.node < |links|)
    && (forall j, k :: 0 <= j < k < |links| ==> links[j].controller.node != links[k].controller.node)
    && (forall f :: 0 <= f < |links| ==> HasNode(links, f))
  }

  ghost predicate HasNode(links: seq<ExtLink>, f: nat) {
    exists k :: 0 <= k < |links| && links[k].controller.node == f
  }

  /** The first loop of the Topology constructor: every external link becomes two switch links, of default weight 1. */
  method ExternalLinks(net: Network) returns (g: LinkMap)
    ensures forall e :: e in g <==> IsExtIn(net, e) || IsExtOut(net, e)
    ensures forall e :: e in g ==> g[e] == 1
  {
    g := map[];
    for k := 0 to |net.extLinks|
      invariant forall e :: e in g <==> exists j :: 0 <= j < k && (e == ExtInEnds(net, j) || e == ExtOutEnds(net, j))
      invariant forall e :: e in g ==> g[e] == 1
    {
      g := g[ExtInEnds(net, k) := 1][ExtOutEnds(net, k) := 1];
    }
  }

  /** The Topology constructor: external links, then internal ones with their own weights. */
  method BuildLinkMap(net: Network) returns (g: LinkMap)
    requires Numbered(net.extLinks) && Distinct(net.intLinks)
    ensures forall e :: e in g <==> IsExtIn(net, e) || IsExtOut(net, e) || IsInternal(net, e)
    ensures forall e :: IsExtIn(net, e) || IsExtOut(net, e) ==> g[e] == 1
    ensures forall k :: 0 <= k < |net.intLinks| ==>
              InternalEnds(net, k) in g && g[InternalEnds(net, k)] == net.intLinks[k].weight
  {
    g := ExternalLinks(net);
    ghost var ext := g;
    for k := 0 to |net.intLinks|
      invariant forall e :: e in g <==> e in ext || exists j :: 0 <= j < k && e == InternalEnds(net, j)
      invariant forall e :: e in ext ==> g[e] == 1
      invariant forall j :: 0 <= j < k ==> g[InternalEnds(net, j)] == net.intLinks[j].weight
    {
      g := g[InternalEnds(net, k) := net.intLinks[k].weight];
    }
  }

  function ExtInEnds(net: Network, k: nat): (nat, nat)
    requires k < |net.extLinks|
  {
    (net.extLinks[k].controller.node, 2 * |net.extLinks| + net.extLinks[k].router)
  }

  function ExtOutEnds(net: Network, k: nat): (nat, nat)
    requires k < |net.extLinks|
  {
    (2 * |net.extLinks| + net.extLinks[k].router, |net.extLinks| + net.extLinks[k].controller.node)
  }

  function InternalEnds(net: Network, k: nat): (nat, nat)
    requires k < |net.intLinks|
  {
    (2 * |net.extLinks| + net.intLinks[k].src, 2 * |net.extLinks| + net.intLinks[k].dst)
  }

  ghost predicate IsExtIn(net: Network, e: (nat, nat)) {
    exists k :: 0 <= k < |net.extLinks| && e == ExtInEnds(net, k)
  }

  ghost predicate IsExtOut(net: Network, e: (nat, nat)) {
    exists k :: 0 <= k < |net.extLinks| && e == ExtOutEnds(net, k)
  }

  ghost predicate IsInternal(net: Network, e: (nat, nat)) {
    exists k :: 0 <= k < |net.intLinks| && e == InternalEnds(net, k)
  }

  /**
   A mesh with its switch graph `g` over `n` switches, weight matrix `w` and computed
   distances `d`.  `attach[f]` is the router that node `f` hangs on.
   */
  datatype Routed = Routed(style: Style, rows: nat, cols: nat, nodes: nat, attach: seq<nat>,
                           g: LinkMap, w: Matrix, d: Matrix, n: nat)
  {
    function RouterSwitch(r: nat): nat { 2 * nodes + r }

    function OutSwitch(f: nat): nat { nodes + f }

    ghost predicate InMesh(r: nat)
      requires cols > 0
    {
      Row(r, cols) < rows
    }

    ghost predicate Attached() {
      |attach| == nodes && cols > 0 && forall f :: 0 <= f < nodes ==> InMesh(attach[f])
    }

    /** Every link of the graph joins a node to its router or a router to a neighbour. */
    ghost predicate OnlyMeshLinks()
      requires Attached()
    {
      forall e :: e in g ==>
        || (e.0 < nodes && e.1 == RouterSwitch(attach[e.0]) && g[e] == 1)
        || (nodes <= e.1 < 2 * nodes && e.0 == RouterSwitch(attach[e.1 - nodes]) && g[e] == 1)
        || (e.0 >= 2 * nodes && e.1 >= 2 * nodes && IsStep(e.0 - 2 * nodes, e.1 - 2 * nodes, g[e]))
    }

    ghost predicate IsStep(s: nat, t: nat, weight: nat)
      requires cols > 0
    {
      exists dir :: StepsTo(dir, rows, cols, s, t) && weight == WeightOf(style, dir)
    }

    ghost predicate AllMeshLinks()
      requires Attached()
    {
      && (forall f {:trigger Ejects(f)} :: 0 <= f < nodes ==> Ejects(f))
      && (forall dir, s: nat, t: nat {:trigger StepsTo(dir, rows, cols, s, t), Linked(s, t)} ::
            StepsTo(dir, rows, cols, s, t) ==> Linked(s, t))
    }

    ghost predicate Linked(s: nat, t: nat) {
      (RouterSwitch(s), RouterSwitch(t)) in g
    }

    ghost predicate Ejects(f: nat)
      requires f < |attach|
    {
      (RouterSwitch(attach[f]), OutSwitch(f)) in g
    }

    /** The switch graph is that of the mesh ... */
    ghost predicate IsMeshGraph() {
      Attached() && OnlyMeshLinks() && AllMeshLinks()
    }

    /** ... and the distances have been computed from it. */
    ghost predicate Valid() {
      IsMeshGraph() && Solved(g, w, d, n)
    }
  }

  // ---------- distances ----------

  function Abs(x: int): nat {
    if x < 0 then -x else x
  }

  /** Hops from router `r` to router `t`. */
  ghost function Manhattan(cols: nat, r: nat, t: nat): nat
    requires cols > 0
  {
    Abs(Col(t, cols) - Col(r, cols)) + Abs(Row(t, cols) - Row(r, cols))
  }

  /** The least weight of a path of mesh links from `r` to `t`. */
  ghost function Cost(style: Style, cols: nat, r: nat, t: nat): nat
    requires cols > 0
  {
    var dx, dy := Col(t, cols) - Col(r, cols), Abs(Row(t, cols) - Row(r, cols));
    (if dx < 0 || style == XY then Abs(dx) else 2 * dx) + 2 * dy
  }

  /** A hop in direction `dir` brings a packet at `r` nearer to `t`. */
  ghost predicate Productive(dir: Direction, cols: nat, r: nat, t: nat)
    requires cols > 0
  {
    match dir
    case East => Col(t, cols) > Col(r, cols)
    case West => Col(t, cols) < Col(r, cols)
    case North => Row(t, cols) > Row(r, cols)
    case South => Row(t, cols) < Row(r, cols)
  }

  lemma {:induction false} StepCost(style: Style, dir: Direction, rows: nat, cols: nat, r: nat, s: nat, t: nat)
    requires cols > 0 && StepsTo(dir, rows, cols, r, s)
    ensures Cost(style, cols, r, t) <= WeightOf(style, dir) + Cost(style, cols, s, t)
    ensures Cost(style, cols, r, t) == WeightOf(style, dir) + Cost(style, cols, s, t) <==> Productive(dir, cols, r, t)
    ensures Productive(dir, cols, r, t) <==> Manhattan(cols, r, t) == 1 + Manhattan(cols, s, t)
  {
  }

  /** A productive direction has a neighbour to go to. */
  lemma {:induction false} NeighbourExists(dir: Direction, rows: nat, cols: nat, r: nat, t: nat) returns (s: nat)
    requires cols > 0 && Row(r, cols) < rows && Row(t, cols) < rows && Productive(dir, cols, r, t)
    ensures StepsTo(dir, rows, cols, r, s)
  {
    var row, col := Row(r, cols), Col(r, cols);
    match dir {
      case East => col := col + 1;
      case West => col := col - 1;
      case North => row := row + 1;
      case South => row := row - 1;
    }
    RouterAt(row, col, cols);
    s := RouterId(row, col, cols);
  }

  lemma {:induction false} StepDestinationUnique(dir: Direction, rows: nat, cols: nat, r: nat, s: nat, t: nat)
    requires cols > 0 && StepsTo(dir, rows, cols, r, s) && StepsTo(dir, rows, cols, r, t)
    ensures s == t
  {
    RouterOf(s, cols);
    RouterOf(t, cols);
  }

  lemma {:induction false} SameRouter(cols: nat, r: nat, t: nat)
    requires cols > 0 && Row(r, cols) == Row(t, cols) && Col(r, cols) == Col(t, cols)
    ensures r == t
  {
    RouterOf(r, cols);
    RouterOf(t, cols);
  }

  /** Away from its destination a packet has at least one productive direction. */
  lemma {:induction false} SomeProductive(cols: nat, r: nat, t: nat) returns (dir: Direction)
    requires cols > 0 && r != t
    ensures Productive(dir, cols, r, t)
  {
    if Row(r, cols) == Row(t, cols) && Col(r, cols) == Col(t, cols) {
      SameRouter(cols, r, t);
    }
    dir := if Col(t, cols) > Col(r, cols) then East
           else if Col(t, cols) < Col(r, cols) then West
           else if Row(t, cols) > Row(r, cols) then North
           else South;
  }

  /** The links out of router `r`: to a neighbour, or to a node attached to `r`. */
  lemma {:induction false} LinkFromRouter(x: Routed, r: nat, i: nat, next: nat) returns (dir: Direction)
    requires x.IsMeshGraph() && i == x.RouterSwitch(r) && (i, next) in x.g
    ensures next >= x.nodes
    ensures next >= 2 * x.nodes ==>
              StepsTo(dir, x.rows, x.cols, r, next - 2 * x.nodes) && x.g[(i, next)] == WeightOf(x.style, dir)
    ensures next < 2 * x.nodes ==> r == x.attach[next - x.nodes] && x.g[(i, next)] == 1
  {
    dir := East;
    if next >= 2 * x.nodes {
      assert x.IsStep(r, next - 2 * x.nodes, x.g[(i, next)]);
      dir :| StepsTo(dir, x.rows, x.cols, r, next - 2 * x.nodes) && x.g[(i, next)] == WeightOf(x.style, dir);
    }
  }

  /** No walk of links reaches node `f` from router `r` more cheaply than the grid allows. */
  lemma {:induction false} WalkAtLeast(x: Routed, r: nat, f: nat, p: seq<nat>)
    requires x.IsMeshGraph() && f < x.nodes && IsLinkWalk(x.g, p, x.RouterSwitch(r), x.OutSwitch(f))
    ensures LinkWeight(x.g, p) >= Cost(x.style, x.cols, r, x.attach[f]) + 1
    decreases |p|
  {
    var next := p[1];
    var dir := LinkFromRouter(x, r, p[0], next);
    if next >= 2 * x.nodes {
      var s := next - 2 * x.nodes;
      WalkAtLeast(x, s, f, p[1..]);
      StepCost(x.style, dir, x.rows, x.cols, r, s, x.attach[f]);
    } else {
      OutSwitchIsSink(x, p[1..], next, x.OutSwitch(f));
    }
  }

  lemma {:induction false} OutSwitchIsSink(x: Routed, p: seq<nat>, i: nat, j: nat)
    requires x.IsMeshGraph() && x.nodes <= i < 2 * x.nodes && IsLinkWalk(x.g, p, i, j)
    ensures p == [i] && i == j
  {
    assert forall next: nat :: (i, next) !in x.g;
  }

  /** ... and some walk is that cheap. */
  lemma {:induction false} CheapestWalk(x: Routed, r: nat, f: nat) returns (p: seq<nat>)
    requires x.IsMeshGraph() && f < x.nodes && x.InMesh(r)
    ensures IsLinkWalk(x.g, p, x.RouterSwitch(r), x.OutSwitch(f))
    ensures LinkWeight(x.g, p) == Cost(x.style, x.cols, r, x.attach[f]) + 1
    decreases Manhattan(x.cols, r, x.attach[f])
  {
    var t := x.attach[f];
    if r == t {
      p := [x.RouterSwitch(r), x.OutSwitch(f)];
      assert p[1..] == [x.OutSwitch(f)];
      assert x.Ejects(f);
    } else {
      var dir := SomeProductive(x.cols, r, t);
      var s := NeighbourExists(dir, x.rows, x.cols, r, t);
      StepCost(x.style, dir, x.rows, x.cols, r, s, t);
      var q := CheapestWalk(x, s, f);
      p := [x.RouterSwitch(r)] + q;
      assert p[1..] == q;
      StepWeight(x, dir, r, s);
    }
  }

  lemma {:induction false} StepWeight(x: Routed, dir: Direction, r: nat, s: nat)
    requires x.IsMeshGraph() && StepsTo(dir, x.rows, x.cols, r, s)
    ensures (x.RouterSwitch(r), x.RouterSwitch(s)) in x.g
    ensures x.g[(x.RouterSwitch(r), x.RouterSwitch(s))] == WeightOf(x.style, dir)
  {
    var e := (x.RouterSwitch(r), x.RouterSwitch(s));
    assert x.Linked(r, s);
    assert x.IsStep(r, s, x.g[e]);
  }

  ghost function Capped(k: nat): nat {
    if k < INFINITE_LATENCY then k else INFINITE_LATENCY
  }

  /** The distance the C++ code computes is the grid cost plus the ejection link, cut off at 10000. */
  lemma {:induction false} MeshDistance(x: Routed, r: nat, f: nat)
    requires x.Valid() && f < x.nodes && x.InMesh(r)
    ensures x.RouterSwitch(r) < x.n && x.OutSwitch(f) < x.n
    ensures x.d[x.RouterSwitch(r)][x.OutSwitch(f)] == Capped(Cost(x.style, x.cols, r, x.attach[f]) + 1)
  {
    var i, j := x.RouterSwitch(r), x.OutSwitch(f);
    var p := CheapestWalk(x, r, f);
    assert (p[0], p[1]) in x.g;
    assert x.Ejects(f);
    ComputedDistance(x.g, x.w, x.d, x.n, i, j);
    if x.d[i][j] < INFINITE_LATENCY {
      var q :| IsLinkWalk(x.g, q, i, j) && LinkWeight(x.g, q) == x.d[i][j];
      WalkAtLeast(x, r, f, q);
    }
  }

  lemma {:induction false} OtherNodeUnreachable(x: Routed, f: nat, f': nat)
    requires x.Valid() && f < x.nodes && f' < x.nodes && f != f'
    ensures x.OutSwitch(f) < x.n && x.OutSwitch(f') < x.n && x.d[x.OutSwitch(f')][x.OutSwitch(f)] == INFINITE_LATENCY
  {
    assert x.Ejects(f) && x.Ejects(f');
    var i, j := x.OutSwitch(f'), x.OutSwitch(f);
    ComputedDistance(x.g, x.w, x.d, x.n, i, j);
    if x.d[i][j] < INFINITE_LATENCY {
      var q :| IsLinkWalk(x.g, q, i, j) && LinkWeight(x.g, q) == x.d[i][j];
      OutSwitchIsSink(x, q, i, j);
    }
  }

  // ---------- which ports a router may use ----------

  /** Node `f` is close enough to router `r` for the table to know it. */
  ghost predicate Near(x: Routed, r: nat, f: nat)
    requires x.cols > 0 && f < |x.attach|
  {
    Cost(x.style, x.cols, r, x.attach[f]) + 1 <= INFINITE_LATENCY
  }

  lemma {:induction false} RouterServesIff(x: Routed, dir: Direction, r: nat, s: nat, f: nat)
    requires x.Valid() && f < x.nodes && StepsTo(dir, x.rows, x.cols, r, s)
    ensures Serves(x.w, x.d, x.n, x.RouterSwitch(r), x.RouterSwitch(s), x.OutSwitch(f))
       <==> Near(x, r, f) && Productive(dir, x.cols, r, x.attach[f])
  {
    var i, j := x.RouterSwitch(r), x.RouterSwitch(s);
    MeshDistance(x, r, f);
    MeshDistance(x, s, f);
    StepWeight(x, dir, r, s);
    assert x.w[i][j] == EdgeWeight(x.g, i, j);
    StepCost(x.style, dir, x.rows, x.cols, r, s, x.attach[f]);
  }

  lemma {:induction false} NodeServesIff(x: Routed, r: nat, f': nat, f: nat)
    requires x.Valid() && f < x.nodes && f' < x.nodes && x.InMesh(r)
    ensures Serves(x.w, x.d, x.n, x.RouterSwitch(r), x.OutSwitch(f'), x.OutSwitch(f)) <==> f == f' && r == x.attach[f]
  {
    var i, j := x.RouterSwitch(r), x.OutSwitch(f');
    MeshDistance(x, r, f);
    assert x.Ejects(f');
    LinkExists(x.g, x.w, x.n, i, j);
    if (i, j) in x.g {
      assert x.w[i][j] == EdgeWeight(x.g, i, j);
      if f == f' {
        assert x.d[j][j] <= x.w[j][j] == EdgeWeight(x.g, j, j);
      } else {
        OtherNodeUnreachable(x, f, f');
      }
    }
  }

  /** The directions that the weights leave open: productive, and none lighter is. */
  ghost predicate Allowed(style: Style, dir: Direction, cols: nat, r: nat, t: nat)
    requires cols > 0
  {
    && Productive(dir, cols, r, t)
    && forall other :: Productive(other, cols, r, t) ==> WeightOf(style, dir) <= WeightOf(style, other)
  }

  /** A hop that the table of router `r` may make towards node `f`. */
  ghost predicate Hop(x: Routed, r: nat, f: nat, s: nat)
    requires x.Attached() && f < x.nodes
  {
    exists dir :: StepsTo(dir, x.rows, x.cols, r, s) && Allowed(x.style, dir, x.cols, r, x.attach[f])
  }

  ghost predicate MayRoute(x: Routed, r: nat, f: nat, next: nat)
    requires x.Valid()
  {
    Choice(x.w, x.d, x.n, x.RouterSwitch(r), x.OutSwitch(f), next)
  }

  lemma {:induction false} EjectionServes(x: Routed, r: nat, f: nat, next: nat)
    requires x.Valid() && f < x.nodes && x.InMesh(r) && x.nodes <= next < 2 * x.nodes
    requires Serves(x.w, x.d, x.n, x.RouterSwitch(r), next, x.OutSwitch(f))
    ensures next == x.OutSwitch(f) && r == x.attach[f] && Near(x, r, f)
  {
    NodeServesIff(x, r, next - x.nodes, f);
  }

  lemma {:induction false} HopServes(x: Routed, dir: Direction, r: nat, f: nat, s: nat)
    requires x.Valid() && f < x.nodes && StepsTo(dir, x.rows, x.cols, r, s)
    requires Serves(x.w, x.d, x.n, x.RouterSwitch(r), x.RouterSwitch(s), x.OutSwitch(f))
    ensures Near(x, r, f) && Productive(dir, x.cols, r, x.attach[f])
    ensures x.w[x.RouterSwitch(r)][x.RouterSwitch(s)] == WeightOf(x.style, dir)
  {
    RouterServesIff(x, dir, r, s, f);
    EdgeOfStep(x, dir, r, s);
  }

  /** What a link that serves node `f` looks like: the ejection link of `f`, or a productive hop. */
  lemma {:induction false} ServesKind(x: Routed, r: nat, f: nat, next: nat) returns (dir: Direction)
    requires x.Valid() && f < x.nodes && x.InMesh(r)
    requires Serves(x.w, x.d, x.n, x.RouterSwitch(r), next, x.OutSwitch(f))
    ensures Near(x, r, f)
    ensures next < 2 * x.nodes ==> next == x.OutSwitch(f) && r == x.attach[f]
    ensures next >= 2 * x.nodes ==>
              && StepsTo(dir, x.rows, x.cols, r, next - 2 * x.nodes) && Productive(dir, x.cols, r, x.attach[f])
              && x.w[x.RouterSwitch(r)][next] == WeightOf(x.style, dir)
  {
    LinkExists(x.g, x.w, x.n, x.RouterSwitch(r), next);
    dir := LinkFromRouter(x, r, x.RouterSwitch(r), next);
    if next < 2 * x.nodes {
      EjectionServes(x, r, f, next);
    } else {
      HopServes(x, dir, r, f, next - 2 * x.nodes);
    }
  }

  lemma {:induction false} EdgeOfStep(x: Routed, dir: Direction, r: nat, s: nat)
    requires x.Valid() && StepsTo(dir, x.rows, x.cols, r, s)
    ensures x.RouterSwitch(r) < x.n && x.RouterSwitch(s) < x.n
    ensures x.w[x.RouterSwitch(r)][x.RouterSwitch(s)] == WeightOf(x.style, dir)
  {
    StepWeight(x, dir, r, s);
    assert x.w[x.RouterSwitch(r)][x.RouterSwitch(s)] == EdgeWeight(x.g, x.RouterSwitch(r), x.RouterSwitch(s));
  }

  lemma {:induction false} ChoiceIsHop(x: Routed, r: nat, f: nat, next: nat)
    requires x.Valid() && f < x.nodes && x.InMesh(r) && MayRoute(x, r, f, next)
    ensures Near(x, r, f)
    ensures if r == x.attach[f] then next == x.OutSwitch(f)
            else next >= 2 * x.nodes && Hop(x, r, f, next - 2 * x.nodes)
  {
    var dir := ServesKind(x, r, f, next);
    if next >= 2 * x.nodes {
      forall other | Productive(other, x.cols, r, x.attach[f])
        ensures WeightOf(x.style, dir) <= WeightOf(x.style, other)
      {
        LighterWins(x, dir, other, r, next - 2 * x.nodes, f);
      }
    }
  }

  lemma {:induction false} LighterWins(x: Routed, dir: Direction, other: Direction, r: nat, s: nat, f: nat)
    requires x.Valid() && f < x.nodes && StepsTo(dir, x.rows, x.cols, r, s) && MayRoute(x, r, f, x.RouterSwitch(s))
    requires Productive(other, x.cols, r, x.attach[f])
    ensures WeightOf(x.style, dir) <= WeightOf(x.style, other)
  {
    var s' := NeighbourExists(other, x.rows, x.cols, r, x.attach[f]);
    RouterServesIff(x, dir, r, s, f);
    RouterServesIff(x, other, r, s', f);
    EdgeOfStep(x, dir, r, s);
    EdgeOfStep(x, other, r, s');
  }

  lemma {:induction false} HopIsChoice(x: Routed, r: nat, f: nat, s: nat)
    requires x.Valid() && f < x.nodes && Near(x, r, f) && Hop(x, r, f, s)
    ensures MayRoute(x, r, f, x.RouterSwitch(s))
  {
    var i, j, t := x.RouterSwitch(r), x.RouterSwitch(s), x.attach[f];
    var dir :| StepsTo(dir, x.rows, x.cols, r, s) && Allowed(x.style, dir, x.cols, r, t);
    RouterServesIff(x, dir, r, s, f);
    EdgeOfStep(x, dir, r, s);
    forall other: nat | Serves(x.w, x.d, x.n, i, other, x.OutSwitch(f)) ensures x.w[i][j] <= x.w[i][other] {
      var dir' := ServesKind(x, r, f, other);
    }
  }

  lemma {:induction false} EjectIsChoice(x: Routed, f: nat)
    requires x.Valid() && f < x.nodes
    ensures MayRoute(x, x.attach[f], f, x.OutSwitch(f))
  {
    NodeServesIff(x, x.attach[f], f, f);
    forall other: nat | Serves(x.w, x.d, x.n, x.RouterSwitch(x.attach[f]), other, x.OutSwitch(f))
      ensures other == x.OutSwitch(f)
    {
      var dir := ServesKind(x, x.attach[f], f, other);
    }
  }

  /**
   The routing function of the generated mesh.  A router may forward a packet for node
   `f` exactly along the lightest productive directions, delivers it exactly at the router
   of `f`, and has no route exactly when `f` is further than 10000.
   */
  lemma {:induction false} RoutingFunction(x: Routed, r: nat, f: nat, next: nat)
    requires x.Valid() && f < x.nodes && x.InMesh(r)
    ensures MayRoute(x, r, f, next) <==>
              && Near(x, r, f)
              && if r == x.attach[f] then next == x.OutSwitch(f)
                 else next >= 2 * x.nodes && Hop(x, r, f, next - 2 * x.nodes)
  {
    if MayRoute(x, r, f, next) {
      ChoiceIsHop(x, r, f, next);
    } else if Near(x, r, f) {
      if r == x.attach[f] {
        EjectIsChoice(x, f);
      } else if next >= 2 * x.nodes && Hop(x, r, f, next - 2 * x.nodes) {
        HopIsChoice(x, r, f, next - 2 * x.nodes);
      }
    }
  }

  /** The lookup finds some port exactly when `f` is near enough; nothing is ever misrouted. */
  lemma {:induction false} SomeRouteIff(x: Routed, r: nat, f: nat)
    requires x.Valid() && f < x.nodes && x.InMesh(r)
    ensures (exists next: nat :: MayRoute(x, r, f, next)) <==> Near(x, r, f)
  {
    if exists next: nat :: MayRoute(x, r, f, next) {
      var next: nat :| MayRoute(x, r, f, next);
      ChoiceIsHop(x, r, f, next);
    }
    if Near(x, r, f) {
      if r == x.attach[f] {
        EjectIsChoice(x, f);
      } else {
        var s := SomeHop(x, r, f);
        HopIsChoice(x, r, f, s);
      }
    }
  }

  lemma {:induction false} SomeHop(x: Routed, r: nat, f: nat) returns (s: nat)
    requires x.Attached() && f < x.nodes && x.InMesh(r) && r != x.attach[f]
    ensures Hop(x, r, f, s)
  {
    var t := x.attach[f];
    var dir := SomeProductive(x.cols, r, t);
    if Productive(West, x.cols, r, t) {
      dir := West;
    } else if x.style == XY && Productive(East, x.cols, r, t) {
      dir := East;
    }
    assert Allowed(x.style, dir, x.cols, r, t);
    s := NeighbourExists(dir, x.rows, x.cols, r, t);
  }
}
