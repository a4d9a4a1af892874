/**
 Routing by port names: RoutingUnit.cc computes a direction (outportComputeXY, lines
 178-232) and takes the output port of that name (m_outports_dirn2idx, line 231), which
 is the link to which Mesh_XY.py gave the name.
 */
module MeshPorts {
  import opened Mesh
  import opened MeshRouting
  import opened MeshSystem

  /** Link `k` leaves router `r` through the port of direction `dir`. */
  ghost predicate LeavesBy(links: seq<IntLink>, k: nat, r: nat, dir: Direction) {
    k < |links| && links[k].src == r && links[k].outport == Named(dir)
  }

  /** On an XY mesh the named port of a router leads to the neighbour in that direction ... */
  lemma {:induction false} PortLeadsTo(rows: nat, cols: nat, links: seq<IntLink>, k: nat, r: nat, dir: Direction)
    requires cols > 0 && MeshLinks(XY, rows, cols, links) && LeavesBy(links, k, r, dir)
    ensures StepsTo(dir, rows, cols, r, links[k].dst) && links[k].inport == Named(Opposite(dir))
  {
    PortNames(XY, rows, cols, links, k);
  }

  /** ... and there is exactly one such link if there is such a neighbour. */
  lemma {:induction false} OneLinkPerPort(rows: nat, cols: nat, links: seq<IntLink>, r: nat, s: nat, dir: Direction)
      returns (k: nat)
    requires cols > 0 && MeshLinks(XY, rows, cols, links) && StepsTo(dir, rows, cols, r, s)
    ensures LeavesBy(links, k, r, dir) && forall j: nat :: LeavesBy(links, j, r, dir) ==> j == k
  {
    assert Joins(links, r, s);
    k :| 0 <= k < |links| && links[k].src == r && links[k].dst == s;
    PortNames(XY, rows, cols, links, k);
    forall j: nat | LeavesBy(links, j, r, dir) ensures j == k {
      PortLeadsTo(rows, cols, links, j, r, dir);
      StepDestinationUnique(dir, rows, cols, r, s, links[j].dst);
    }
  }

  /** m_outports_dirn2idx[dir] of router `r`: the last link that was added under this name, if any. */
  method OutportNamed(links: seq<IntLink>, r: nat, dir: Direction) returns (found: bool, index: nat)
    ensures found <==> exists k: nat :: LeavesBy(links, k, r, dir)
    ensures found ==> LeavesBy(links, index, r, dir) && forall k: nat :: LeavesBy(links, k, r, dir) ==> k <= index
  {
    found, index := false, 0;
    for i := 0 to |links|
      invariant found <==> exists k: nat :: k < i && LeavesBy(links, k, r, dir)
      invariant found ==> index < i && LeavesBy(links, index, r, dir)
      invariant forall k: nat :: k < i && LeavesBy(links, k, r, dir) ==> k <= index
    {
      if links[i].src == r && links[i].outport == Named(dir) {
        assert LeavesBy(links, i, r, dir);
        found, index := true, i;
      }
    }
  }

  /** The packet is at router `at`, and its input port suits the direction it has to take. */
  ghost predicate MayEnter(cols: nat, at: nat, dest: nat, inport: Inport)
    requires cols > 0
  {
    forall dir :: Allowed(XY, dir, cols, at, dest) ==> InportOk(inport, dir)
  }

  /** Through the computed port a packet comes one hop nearer, and may go on from there. */
  lemma {:induction false} PortHop(rows: nat, cols: nat, links: seq<IntLink>, at: nat, dest: nat, dir: Direction,
                                   k: nat)
    requires cols > 0 && MeshLinks(XY, rows, cols, links) && Allowed(XY, dir, cols, at, dest)
    requires LeavesBy(links, k, at, dir)
    ensures var s := links[k].dst;
            && Row(s, cols) < rows && Manhattan(cols, s, dest) + 1 == Manhattan(cols, at, dest)
            && links[k].inport.Named? && MayEnter(cols, s, dest, Side(links[k].inport.dir))
  {
    PortLeadsTo(rows, cols, links, k, at, dir);
    var s := links[k].dst;
    StepCost(XY, dir, rows, cols, at, s, dest);
    forall next | Allowed(XY, next, cols, s, dest) ensures InportOk(Side(Opposite(dir)), next) {
      XYAssertionsHold(rows, cols, at, s, dest, dir, next);
    }
  }

  /** One router: compute the direction, take the port of that name. */
  method HopByName(links: seq<IntLink>, ghost rows: nat, cols: nat, at: nat, dest: nat, inport: Inport)
      returns (ok: bool, next: nat, inport': Inport)
    requires cols > 0 && MeshLinks(XY, rows, cols, links)
    requires Row(at, cols) < rows && Row(dest, cols) < rows && at != dest
    requires MayEnter(cols, at, dest, inport)
    ensures ok && Joins(links, at, next) && Row(next, cols) < rows
    ensures Manhattan(cols, next, dest) + 1 == Manhattan(cols, at, dest) && MayEnter(cols, next, dest, inport')
  {
    var r := OutportComputeXY(at, dest, cols, inport);
    ghost var s := NeighbourExists(r.dir, rows, cols, at, dest);
    ghost var only := OneLinkPerPort(rows, cols, links, at, s, r.dir);
    var k;
    ok, k := OutportNamed(links, at, r.dir);
    PortHop(rows, cols, links, at, dest, r.dir, k);
    next, inport' := links[k].dst, Side(links[k].inport.dir);
  }

  /**
   A packet that follows port names on a generated XY mesh, from any router to any other: no assertion
   fails, every hop is a link, and it arrives after exactly as many hops as the two are apart.
   */
  method FollowPorts(controllers: seq<Controller>, numCpus: int, meshRows: int, start: nat, dest: nat)
      returns (net: Network, path: seq<nat>)
    requires Accepts(controllers, numCpus, meshRows) && start < numCpus && dest < numCpus
    ensures numCpus / meshRows > 0 && IsMeshNetwork(XY, controllers, meshRows, numCpus / meshRows, net)
    ensures |path| > 0 && path[0] == start && path[|path| - 1] == dest
    ensures forall k :: 0 < k < |path| ==> Joins(net.intLinks, path[k - 1], path[k])
    ensures var cols := numCpus / meshRows;
            |path| - 1 == Abs(dest % cols - start % cols) + Abs(dest / cols - start / cols)
  {
    var made := MakeTopology(XY, controllers, numCpus, meshRows);
    net := made.network;
    var cols := numCpus / meshRows;
    InMeshIff(start, meshRows, cols);
    InMeshIff(dest, meshRows, cols);
    CoordinatesByDivision(start, cols);
    CoordinatesByDivision(dest, cols);
    path := [start];
    var at, inport := start, Local;
    while at != dest
      invariant |path| > 0 && path[0] == start && path[|path| - 1] == at && Row(at, cols) < meshRows
      invariant |path| - 1 + Manhattan(cols, at, dest) == Manhattan(cols, start, dest)
      invariant forall k :: 0 < k < |path| ==> Joins(net.intLinks, path[k - 1], path[k])
      invariant MayEnter(cols, at, dest, inport)
      decreases Manhattan(cols, at, dest)
    {
      var ok;
      ok, at, inport := HopByName(net.intLinks, meshRows, cols, at, dest, inport);
      path := path + [at];
    }
  }
}
