/**
 How large a mesh may be: which command-line options give a network in which every
 router has a route to every controller, given that Topology.cc (line 42) writes 10000 for
 a missing link.
 */
module MeshReach {
  import Division
  import opened ShortestPath
  import opened Mesh
  import opened MeshRouting
  import opened MeshSystem

  /** The greatest weighted distance between two routers: from the first to the last. */
  function Diameter(style: Style, rows: nat, cols: nat): nat
    requires rows > 0 && cols > 0
  {
    (if style == XY then cols - 1 else 2 * (cols - 1)) + 2 * (rows - 1)
  }

  lemma {:induction false} CostAtMost(style: Style, rows: nat, cols: nat, r: nat, t: nat)
    requires rows > 0 && cols > 0 && Row(r, cols) < rows && Row(t, cols) < rows
    ensures Cost(style, cols, r, t) <= Diameter(style, rows, cols)
  {
  }

  lemma {:induction false} CornerCost(style: Style, rows: nat, cols: nat)
    requires rows > 0 && cols > 0
    ensures rows * cols > 0 && Row(rows * cols - 1, cols) == rows - 1 && Row(0, cols) == 0
    ensures Cost(style, cols, 0, rows * cols - 1) == Diameter(style, rows, cols)
  {
    assert rows * cols == (rows - 1) * cols + cols;
    RouterAt(rows - 1, cols - 1, cols);
    assert RouterId(rows - 1, cols - 1, cols) == rows * cols - 1;
  }

  /** With a controller for every router, one hangs on the last. */
  lemma {:induction false} LastRouterHasNode(x: Routed, controllers: seq<Controller>, net: Network)
    requires IsMeshNetwork(x.style, controllers, x.rows, x.cols, net) && GraphOf(x, net) && |controllers| >= net.routers
    ensures controllers[net.routers - 1].node < x.nodes
    ensures x.attach[controllers[net.routers - 1].node] == net.routers - 1
  {
    var k, n := net.routers - 1, |controllers|;
    FullRound(n, net.routers);
    assert net.extLinks[k].controller == controllers[k];
    assert net.extLinks[k].router == k;
  }

  lemma {:induction false} FullRound(n: nat, routers: nat)
    requires routers > 0 && n >= routers
    ensures routers - 1 < n - n % routers && (routers - 1) % routers == routers - 1
  {
    assert n - n % routers == (n / routers) * routers;
    Division.QuotientAtLeast(n, 1, routers);
    Division.ProductMonotone(1, n / routers, routers);
    Division.QuotientUnique(routers - 1, routers, 0, routers - 1);
  }

  ghost predicate HasRoute(x: Routed, r: nat, f: nat)
    requires x.Valid()
  {
    exists next: nat :: MayRoute(x, r, f, next)
  }

  lemma {:induction false} SmallMeshReaches(x: Routed, r: nat, f: nat)
    requires x.Valid() && x.InMesh(r) && f < x.nodes && x.rows > 0
    requires Diameter(x.style, x.rows, x.cols) < INFINITE_LATENCY
    ensures HasRoute(x, r, f)
  {
    CostAtMost(x.style, x.rows, x.cols, r, x.attach[f]);
    SomeRouteIff(x, r, f);
  }

  lemma {:induction false} FarNodeFails(x: Routed, f: nat)
    requires x.Valid() && f < x.nodes && x.rows > 0 && x.rows * x.cols > 0 && x.attach[f] == x.rows * x.cols - 1
    requires Diameter(x.style, x.rows, x.cols) >= INFINITE_LATENCY
    ensures x.InMesh(0) && !HasRoute(x, 0, f)
  {
    CornerCost(x.style, x.rows, x.cols);
    SomeRouteIff(x, 0, f);
  }

  lemma {:induction false} LargeMeshFails(x: Routed, controllers: seq<Controller>, net: Network)
    requires x.Valid() && IsMeshNetwork(x.style, controllers, x.rows, x.cols, net) && GraphOf(x, net)
    requires |controllers| >= net.routers && Diameter(x.style, x.rows, x.cols) >= INFINITE_LATENCY
    ensures exists r: nat, f: nat :: x.InMesh(r) && f < x.nodes && !HasRoute(x, r, f)
  {
    var f := controllers[net.routers - 1].node;
    LastRouterHasNode(x, controllers, net);
    FarNodeFails(x, f);
  }

  /**
   Every router has a route to every controller exactly when the diameter is below 10000, on any
   generated mesh with a controller for every router.
   */
  lemma {:induction false} AllReachableIff(x: Routed, controllers: seq<Controller>, net: Network)
    requires x.Valid() && IsMeshNetwork(x.style, controllers, x.rows, x.cols, net) && GraphOf(x, net)
    requires |controllers| >= net.routers
    ensures (forall r: nat, f: nat :: x.InMesh(r) && f < x.nodes ==> HasRoute(x, r, f))
       <==> Diameter(x.style, x.rows, x.cols) < 10000
  {
    if Diameter(x.style, x.rows, x.cols) < INFINITE_LATENCY {
      forall r: nat, f: nat | x.InMesh(r) && f < x.nodes ensures HasRoute(x, r, f) {
        SmallMeshReaches(x, r, f);
      }
    } else {
      LargeMeshFails(x, controllers, net);
    }
  }

  /**
   From the options to a packet: sets the network up and sends one from the first router to the
   controller on the last.  It arrives exactly when the diameter is below 10000.
   */
  method SendAcross(style: Style, controllers: seq<Controller>, numCpus: int, meshRows: int, ordered: bool,
                    rand: nat -> nat)
      returns (delivered: bool)
    requires NumberedControllers(controllers) && |controllers| > 1 && Accepts(controllers, numCpus, meshRows)
    requires |controllers| >= numCpus
    ensures numCpus / meshRows > 0
    ensures delivered <==> Diameter(style, meshRows, numCpus / meshRows) < 10000
  {
    var r, weights, dist;
    ghost var x;
    r, weights, dist, x := SetUp(style, controllers, numCpus, meshRows);
    SameColumns(numCpus, meshRows, x.cols);
    LastRouterHasNode(x, controllers, r.network);
    CornerCost(style, meshRows, x.cols);
    var path;
    delivered, path := Deliver(weights, dist, x, |controllers|, 0, controllers[numCpus - 1].node, ordered, rand);
  }

  lemma {:induction false} SameColumns(numCpus: int, meshRows: int, cols: nat)
    requires meshRows > 0 && meshRows * cols == numCpus
    ensures numCpus / meshRows == cols
  {
    assert numCpus == cols * meshRows;
    Division.QuotientUnique(numCpus, meshRows, cols, 0);
  }

  /**
   The generators name no limit, but there is one: in a single row of routers with one controller each,
   the first router reaches the last exactly when there are at most 10000.
   */
  method SendAlongRow(n: nat, ordered: bool, rand: nat -> nat) returns (delivered: bool)
    requires n > 1
    ensures delivered <==> n <= 10000
  {
    var controllers := seq(n, k requires 0 <= k < n => Controller(k, false));
    forall f | 0 <= f < n ensures HasController(controllers, f) {
      assert controllers[f].node == f;
    }
    SameColumns(n, 1, n);
    delivered := SendAcross(XY, controllers, n, 1, ordered, rand);
  }
}
