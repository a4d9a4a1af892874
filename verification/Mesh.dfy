/**
 The mesh generators gem5/configs/topologies/Mesh_XY.py and
 gem5/configs/topologies/Mesh_westfirst.py.

 The two files differ only in link weights and in whether ports are named.
 The contract of MakeTopology does not mention the loops: it says that the
 links are exactly the neighbour pairs of the grid, each once, with the weight
 of its direction, and that link ids are dense.
 */
module Mesh {
  import Division

  datatype Style = XY | WestFirst

  datatype Direction = East | West | North | South

  /** `Unnamed` is the empty default of src_outport and dst_inport. */
  datatype PortName = Unnamed | Named(dir: Direction)

  /** A controller: its index among all controllers, and whether it is a DMA controller. */
  datatype Controller = Controller(node: nat, isDma: bool)

  datatype ExtLink = ExtLink(id: nat, controller: Controller, router: nat)

  datatype IntLink = IntLink(id: nat, src: nat, dst: nat, outport: PortName, inport: PortName, weight: nat)

  datatype Network = Network(routers: nat, extLinks: seq<ExtLink>, intLinks: seq<IntLink>)

  datatype Outcome = AssertionFailed | Made(network: Network)

  function Opposite(dir: Direction): Direction {
    match dir
    case East => West
    case West => East
    case North => South
    case South => North
  }

  function WeightOf(style: Style, dir: Direction): nat {
    match (style, dir)
    case (XY, East) => 1
    case (XY, West) => 1
    case (WestFirst, East) => 2
    case (WestFirst, West) => 1
    case (_, _) => 2
  }

  function PortOf(style: Style, dir: Direction): PortName {
    if style == XY then Named(dir) else Unnamed
  }

  // ---------- coordinates ----------

  function Row(id: nat, cols: nat): nat
    requires cols > 0
  {
    if id < cols then 0 else 1 + Row(id - cols, cols)
  }

  function Col(id: nat, cols: nat): (c: nat)
    requires cols > 0
    ensures c < cols
  {
    if id < cols then id else Col(id - cols, cols)
  }

  function RouterId(row: nat, col: nat, cols: nat): nat {
    col + row * cols
  }

  lemma {:induction false} RouterAt(row: nat, col: nat, cols: nat)
    requires col < cols
    ensures Row(RouterId(row, col, cols), cols) == row
    ensures Col(RouterId(row, col, cols), cols) == col
  {
    if row > 0 {
      assert row * cols == (row - 1) * cols + cols;
      RouterAt(row - 1, col, cols);
    }
  }

  lemma {:induction false} RouterOf(id: nat, cols: nat)
    requires cols > 0
    ensures RouterId(Row(id, cols), Col(id, cols), cols) == id
  {
    if id >= cols {
      RouterOf(id - cols, cols);
      assert (1 + Row(id - cols, cols)) * cols == cols + Row(id - cols, cols) * cols;
    }
  }

  lemma {:induction false} InMeshIff(id: nat, rows: nat, cols: nat)
    requires cols > 0
    ensures id < rows * cols <==> Row(id, cols) < rows
  {
    if id < cols {
      assert rows > 0 ==> rows * cols >= cols;
    } else if rows > 0 {
      InMeshIff(id - cols, rows - 1, cols);
      assert rows * cols == (rows - 1) * cols + cols;
    }
  }

  /** The coordinates are the quotient and remainder used by outportComputeXY. */
  lemma {:induction false} CoordinatesByDivision(id: nat, cols: nat)
    requires cols > 0
    ensures id / cols == Row(id, cols) && id % cols == Col(id, cols)
  {
    if id >= cols {
      CoordinatesByDivision(id - cols, cols);
      DivStep(id, cols);
    }
  }

  lemma {:induction false} DivStep(id: nat, cols: nat)
    requires 0 < cols <= id
    ensures id / cols == (id - cols) / cols + 1 && id % cols == (id - cols) % cols
  {
    var q, r := (id - cols) / cols, (id - cols) % cols;
    assert id == (q + 1) * cols + r;
    Division.QuotientUnique(id, cols, q + 1, r);
  }

  // ---------- the mesh, stated without loops ----------

  /** `d` is the neighbour of router `s` in direction `dir`. */
  ghost predicate StepsTo(dir: Direction, rows: nat, cols: nat, s: nat, d: nat)
    requires cols > 0
  {
    && Row(s, cols) < rows && Row(d, cols) < rows
    && match dir
       case East => Row(d, cols) == Row(s, cols) && Col(d, cols) == Col(s, cols) + 1
       case West => Row(d, cols) == Row(s, cols) && Col(d, cols) + 1 == Col(s, cols)
       case North => Col(d, cols) == Col(s, cols) && Row(d, cols) == Row(s, cols) + 1
       case South => Col(d, cols) == Col(s, cols) && Row(d, cols) + 1 == Row(s, cols)
  }

  ghost predicate IsMeshLink(style: Style, dir: Direction, rows: nat, cols: nat, l: IntLink)
    requires cols > 0
  {
    && StepsTo(dir, rows, cols, l.src, l.dst)
    && l.weight == WeightOf(style, dir)
    && l.outport == PortOf(style, dir) && l.inport == PortOf(style, Opposite(dir))
  }

  ghost predicate IsSomeMeshLink(style: Style, rows: nat, cols: nat, l: IntLink)
    requires cols > 0
  {
    exists dir :: IsMeshLink(style, dir, rows, cols, l)
  }

  ghost predicate Joins(links: seq<IntLink>, s: nat, d: nat) {
    exists k :: 0 <= k < |links| && links[k].src == s && links[k].dst == d
  }

  ghost predicate Distinct(links: seq<IntLink>) {
    forall j, k :: 0 <= j < k < |links| ==> links[j].src != links[k].src || links[j].dst != links[k].dst
  }

  ghost predicate DenseIds(links: seq<IntLink>, first: nat) {
    forall k :: 0 <= k < |links| ==> links[k].id == first + k
  }

  /** Every link of `links` goes in direction `dir`. */
  ghost predicate AllGo(style: Style, dir: Direction, rows: nat, cols: nat, links: seq<IntLink>)
    requires cols > 0
  {
    forall k :: 0 <= k < |links| ==> IsMeshLink(style, dir, rows, cols, links[k])
  }

  /** `links` holds exactly the neighbour pairs in direction `dir`, each once. */
  ghost predicate LinksOf(style: Style, dir: Direction, rows: nat, cols: nat, links: seq<IntLink>)
    requires cols > 0
  {
    && AllGo(style, dir, rows, cols, links) && Distinct(links)
    && forall s: nat, d: nat :: StepsTo(dir, rows, cols, s, d) ==> Joins(links, s, d)
  }

  /** `links` holds exactly the neighbour pairs of the grid, each once. */
  ghost predicate MeshLinks(style: Style, rows: nat, cols: nat, links: seq<IntLink>)
    requires cols > 0
  {
    && Distinct(links)
    && (forall k :: 0 <= k < |links| ==> IsSomeMeshLink(style, rows, cols, links[k]))
    && (forall dir, s: nat, d: nat :: StepsTo(dir, rows, cols, s, d) ==> Joins(links, s, d))
  }

  // ---------- link generation ----------

  /** Where the pair (s, d) comes up in a row-by-row or column-by-column scan: (outer, inner). */
  ghost function ScanPos(dir: Direction, cols: nat, s: nat, d: nat): (int, int)
    requires cols > 0
  {
    match dir
    case East => (Row(s, cols), Col(s, cols))
    case West => (Row(d, cols), Col(d, cols))
    case North => (Col(s, cols), Row(s, cols))
    case South => (Col(d, cols), Row(d, cols))
  }

  ghost predicate Before(p: (int, int), outer: int, inner: int) {
    p.0 < outer || (p.0 == outer && p.1 < inner)
  }

  /** The state of a generation loop that has scanned up to (outer, inner). */
  ghost predicate Scanned(style: Style, dir: Direction, rows: nat, cols: nat, links: seq<IntLink>, outer: int,
                          inner: int)
    requires cols > 0
  {
    && AllGo(style, dir, rows, cols, links) && Distinct(links)
    && (forall k :: 0 <= k < |links| ==> Before(ScanPos(dir, cols, links[k].src, links[k].dst), outer, inner))
    && (forall s: nat, d: nat :: (StepsTo(dir, rows, cols, s, d) && Before(ScanPos(dir, cols, s, d), outer, inner))
          ==> Joins(links, s, d))
  }

  function MakeLink(style: Style, dir: Direction, id: nat, low: nat, high: nat): IntLink {
    var (src, dst) := if dir.East? || dir.North? then (low, high) else (high, low);
    IntLink(id, src, dst, PortOf(style, dir), PortOf(style, Opposite(dir)), WeightOf(style, dir))
  }

  /** Appending the link found at (outer, inner) extends the scan past that position. */
  /** A step is determined by its direction and its place in the scan. */
  lemma {:induction false} OneAtPosition(dir: Direction, rows: nat, cols: nat, s: nat, d: nat, s': nat, d': nat)
    requires cols > 0 && StepsTo(dir, rows, cols, s, d) && StepsTo(dir, rows, cols, s', d')
    requires ScanPos(dir, cols, s, d) == ScanPos(dir, cols, s', d')
    ensures s == s' && d == d'
  {
    RouterOf(s, cols);
    RouterOf(d, cols);
    RouterOf(s', cols);
    RouterOf(d', cols);
  }

  /** The link made at a position of the loops is a mesh link, and that is its position. */
  lemma {:induction false} ScanLink(style: Style, dir: Direction, rows: nat, cols: nat, outer: nat, inner: nat,
                                    low: nat, high: nat, id: nat)
    requires cols > 0
    requires dir.East? || dir.West? ==>
               outer < rows && inner + 1 < cols
               && low == RouterId(outer, inner, cols) && high == RouterId(outer, inner + 1, cols)
    requires dir.North? || dir.South? ==>
               outer < cols && inner + 1 < rows
               && low == RouterId(inner, outer, cols) && high == RouterId(inner + 1, outer, cols)
    ensures var l := MakeLink(style, dir, id, low, high);
            && StepsTo(dir, rows, cols, l.src, l.dst) && ScanPos(dir, cols, l.src, l.dst) == (outer, inner)
  {
    if dir.East? || dir.West? {
      RouterAt(outer, inner, cols);
      RouterAt(outer, inner + 1, cols);
    } else {
      RouterAt(inner, outer, cols);
      RouterAt(inner + 1, outer, cols);
    }
  }

  lemma {:induction false} ScanStep(style: Style, dir: Direction, rows: nat, cols: nat, links: seq<IntLink>,
                                    outer: nat, inner: nat, low: nat, high: nat, id: nat)
    requires cols > 0 && Scanned(style, dir, rows, cols, links, outer, inner)
    requires dir.East? || dir.West? ==>
               outer < rows && inner + 1 < cols
               && low == RouterId(outer, inner, cols) && high == RouterId(outer, inner + 1, cols)
    requires dir.North? || dir.South? ==>
               outer < cols && inner + 1 < rows
               && low == RouterId(inner, outer, cols) && high == RouterId(inner + 1, outer, cols)
    ensures Scanned(style, dir, rows, cols, links + [MakeLink(style, dir, id, low, high)], outer, inner + 1)
  {
    var l := MakeLink(style, dir, id, low, high);
    var all := links + [l];
    ScanLink(style, dir, rows, cols, outer, inner, low, high, id);
    forall s: nat, d: nat | StepsTo(dir, rows, cols, s, d) && Before(ScanPos(dir, cols, s, d), outer, inner + 1)
      ensures Joins(all, s, d)
    {
      if Before(ScanPos(dir, cols, s, d), outer, inner) {
        JoinsMonotone([], links, [l], s, d);
        assert [] + links + [l] == all;
      } else {
        OneAtPosition(dir, rows, cols, s, d, l.src, l.dst);
        assert all[|links|] == l;
      }
    }
  }

  lemma {:induction false} ScanSkip(style: Style, dir: Direction, rows: nat, cols: nat, links: seq<IntLink>,
                                    outer: nat, inner: nat)
    requires cols > 0 && Scanned(style, dir, rows, cols, links, outer, inner)
    requires if dir.East? || dir.West? then inner + 1 >= cols else inner + 1 >= rows
    ensures Scanned(style, dir, rows, cols, links, outer + 1, 0)
    ensures Scanned(style, dir, rows, cols, links, outer, inner + 1)
  {
  }

  /** The row-by-row loops (east and west links). */
  method HorizontalLinks(style: Style, dir: Direction, rows: nat, cols: nat, linkCount: nat)
      returns (links: seq<IntLink>)
    requires cols > 0 && (dir.East? || dir.West?)
    ensures LinksOf(style, dir, rows, cols, links) && DenseIds(links, linkCount)
  {
    links := [];
    for row := 0 to rows
      invariant Scanned(style, dir, rows, cols, links, row, 0) && DenseIds(links, linkCount)
    {
      for col := 0 to cols
        invariant Scanned(style, dir, rows, cols, links, row, col) && DenseIds(links, linkCount)
      {
        if col + 1 < cols {
          var low := col + row * cols;
          var high := (col + 1) + row * cols;
          ScanStep(style, dir, rows, cols, links, row, col, low, high, linkCount + |links|);
          links := links + [MakeLink(style, dir, linkCount + |links|, low, high)];
        } else {
          ScanSkip(style, dir, rows, cols, links, row, col);
        }
      }
      ScanSkip(style, dir, rows, cols, links, row, cols);
    }
  }

  /** The column-by-column loops (north and south links). */
  method VerticalLinks(style: Style, dir: Direction, rows: nat, cols: nat, linkCount: nat) returns (links: seq<IntLink>)
    requires cols > 0 && (dir.North? || dir.South?)
    ensures LinksOf(style, dir, rows, cols, links) && DenseIds(links, linkCount)
  {
    links := [];
    for col := 0 to cols
      invariant Scanned(style, dir, rows, cols, links, col, 0) && DenseIds(links, linkCount)
    {
      for row := 0 to rows
        invariant Scanned(style, dir, rows, cols, links, col, row) && DenseIds(links, linkCount)
      {
        if row + 1 < rows {
          var low := col + row * cols;
          var high := col + (row + 1) * cols;
          ScanStep(style, dir, rows, cols, links, col, row, low, high, linkCount + |links|);
          links := links + [MakeLink(style, dir, linkCount + |links|, low, high)];
        } else {
          ScanSkip(style, dir, rows, cols, links, col, row);
        }
      }
      ScanSkip(style, dir, rows, cols, links, col, rows);
    }
  }

  lemma {:induction false} JoinsMonotone(a: seq<IntLink>, b: seq<IntLink>, c: seq<IntLink>, s: nat, d: nat)
    requires Joins(b, s, d)
    ensures Joins(a + b + c, s, d)
  {
    var k :| 0 <= k < |b| && b[k].src == s && b[k].dst == d;
    assert (a + b + c)[|a| + k] == b[k];
  }

  lemma {:induction false} FourKinds(style: Style, rows: nat, cols: nat,
                                     e: seq<IntLink>, w: seq<IntLink>, n: seq<IntLink>, s: seq<IntLink>, k: nat)
    requires cols > 0 && k < |e + w + n + s|
    requires LinksOf(style, East, rows, cols, e) && LinksOf(style, West, rows, cols, w)
    requires LinksOf(style, North, rows, cols, n) && LinksOf(style, South, rows, cols, s)
    ensures IsSomeMeshLink(style, rows, cols, (e + w + n + s)[k])
  {
    var l := (e + w + n + s)[k];
    if k < |e| {
      assert IsMeshLink(style, East, rows, cols, l);
    } else if k < |e| + |w| {
      assert IsMeshLink(style, West, rows, cols, l);
    } else if k < |e| + |w| + |n| {
      assert IsMeshLink(style, North, rows, cols, l);
    } else {
      assert IsMeshLink(style, South, rows, cols, l);
    }
  }

  lemma {:induction false} FourJoin(style: Style, rows: nat, cols: nat, dir: Direction, x: nat, y: nat,
                                    e: seq<IntLink>, w: seq<IntLink>, n: seq<IntLink>, s: seq<IntLink>)
    requires cols > 0 && StepsTo(dir, rows, cols, x, y)
    requires LinksOf(style, East, rows, cols, e) && LinksOf(style, West, rows, cols, w)
    requires LinksOf(style, North, rows, cols, n) && LinksOf(style, South, rows, cols, s)
    ensures Joins(e + w + n + s, x, y)
  {
    var all := e + w + n + s;
    match dir
    case East => JoinsMonotone([], e, w + n + s, x, y); assert [] + e + (w + n + s) == all;
    case West => JoinsMonotone(e, w, n + s, x, y); assert e + w + (n + s) == all;
    case North => JoinsMonotone(e + w, n, s, x, y);
    case South => JoinsMonotone(e + w + n, s, [], x, y); assert e + w + n + s + [] == all;
  }

  /** The four directions together make the mesh. */
  lemma {:induction false} FourDirections(style: Style, rows: nat, cols: nat,
                       e: seq<IntLink>, w: seq<IntLink>, n: seq<IntLink>, s: seq<IntLink>)
    requires cols > 0
    requires LinksOf(style, East, rows, cols, e) && LinksOf(style, West, rows, cols, w)
    requires LinksOf(style, North, rows, cols, n) && LinksOf(style, South, rows, cols, s)
    ensures MeshLinks(style, rows, cols, e + w + n + s)
  {
    var all := e + w + n + s;
    forall k | 0 <= k < |all| ensures IsSomeMeshLink(style, rows, cols, all[k]) {
      FourKinds(style, rows, cols, e, w, n, s, k);
    }
    forall dir, x: nat, y: nat | StepsTo(dir, rows, cols, x, y) ensures Joins(all, x, y) {
      FourJoin(style, rows, cols, dir, x, y, e, w, n, s);
    }
  }

  // ---------- controllers and the whole topology ----------

  /** What the assertions of makeTopology demand (lines 70-72 and 104-105 of Mesh_XY.py). */
  predicate Accepts(controllers: seq<Controller>, numRouters: int, numRows: int) {
    && 0 < numRows <= numRouters && numRouters % numRows == 0
    && forall k :: |controllers| - |controllers| % numRouters <= k < |controllers| ==> controllers[k].isDma
  }

  /** Controllers go round the routers in turn; a remainder that does not fill a round goes to router 0. */
  ghost predicate Placed(controllers: seq<Controller>, numRouters: nat, links: seq<ExtLink>)
    requires numRouters > 0
  {
    && |links| == |controllers|
    && forall k :: 0 <= k < |links| ==>
         && links[k].id == k && links[k].controller == controllers[k]
         && links[k].router ==
              if k < |controllers| - |controllers| % numRouters then k % numRouters else 0
  }

  method PlaceControllers(controllers: seq<Controller>, numRouters: nat) returns (ok: bool, links: seq<ExtLink>)
    requires numRouters > 0
    ensures ok <==> forall k :: |controllers| - |controllers| % numRouters <= k < |controllers| ==> controllers[k].isDma
    ensures ok ==> Placed(controllers, numRouters, links)
  {
    var remainder := |controllers| % numRouters;
    links := [];
    for i := 0 to |controllers| - remainder
      invariant |links| == i
      invariant forall k :: 0 <= k < i ==> links[k] == ExtLink(k, controllers[k], k % numRouters)
    {
      links := links + [ExtLink(i, controllers[i], i % numRouters)];
    }
    for i := |controllers| - remainder to |controllers|
      invariant |links| == i
      invariant forall k :: 0 <= k < |controllers| - remainder ==>
          links[k] == ExtLink(k, controllers[k], k % numRouters)
      invariant forall k :: |controllers| - remainder <= k < i ==>
          controllers[k].isDma && links[k] == ExtLink(k, controllers[k], 0)
    {
      if !controllers[i].isDma {
        return false, [];
      }
      links := links + [ExtLink(i, controllers[i], 0)];
    }
    ok := true;
  }

  lemma {:induction false} DivisionChecks(numRouters: int, numRows: int)
    requires 0 < numRows <= numRouters
    ensures (numRouters / numRows) * numRows == numRouters <==> numRouters % numRows == 0
    ensures numRouters / numRows > 0
  {
    assert numRouters == (numRouters / numRows) * numRows + numRouters % numRows;
  }

  /** `m` is the mesh with `numRows` rows that makeTopology promises. */
  ghost predicate IsMeshNetwork(style: Style, controllers: seq<Controller>, numRows: nat, cols: nat, m: Network) {
    && cols > 0 && numRows > 0 && m.routers == numRows * cols
    && Placed(controllers, m.routers, m.extLinks)
    && MeshLinks(style, numRows, cols, m.intLinks)
    && DenseIds(m.intLinks, |m.extLinks|)
  }

  /** The names of both ends of a link from router `s` to router `d`, as the generators write them. */
  ghost predicate NamedEnds(style: Style, rows: nat, cols: nat, l: IntLink)
    requires cols > 0
  {
    match style
    case WestFirst => l.outport == Unnamed && l.inport == Unnamed
    case XY =>
      && (StepsTo(East, rows, cols, l.src, l.dst) ==> l.outport == Named(East) && l.inport == Named(West))
      && (StepsTo(West, rows, cols, l.src, l.dst) ==> l.outport == Named(West) && l.inport == Named(East))
      && (StepsTo(North, rows, cols, l.src, l.dst) ==> l.outport == Named(North) && l.inport == Named(South))
      && (StepsTo(South, rows, cols, l.src, l.dst) ==> l.outport == Named(South) && l.inport == Named(North))
  }

  lemma {:induction false} PortNames(style: Style, rows: nat, cols: nat, links: seq<IntLink>, k: nat)
    requires cols > 0 && MeshLinks(style, rows, cols, links) && k < |links|
    ensures NamedEnds(style, rows, cols, links[k])
    ensures exists dir :: StepsTo(dir, rows, cols, links[k].src, links[k].dst)
  {
    assert IsSomeMeshLink(style, rows, cols, links[k]);
  }

  method MakeTopology(style: Style, controllers: seq<Controller>, numCpus: int, meshRows: int) returns (r: Outcome)
    ensures r.Made? <==> Accepts(controllers, numCpus, meshRows)
    ensures r.Made? ==>
        IsMeshNetwork(style, controllers, meshRows, numCpus / meshRows, r.network) && r.network.routers == numCpus
    ensures r.Made? ==>
        forall k :: 0 <= k < |r.network.intLinks| ==>
          NamedEnds(style, meshRows, numCpus / meshRows, r.network.intLinks[k])
  {
    if !(0 < meshRows <= numCpus) {
      return AssertionFailed;
    }
    var cols := numCpus / meshRows;
    DivisionChecks(numCpus, meshRows);
    if cols * meshRows != numCpus {
      return AssertionFailed;
    }
    var ok, ext := PlaceControllers(controllers, numCpus);
    if !ok {
      return AssertionFailed;
    }
    var e := HorizontalLinks(style, East, meshRows, cols, |ext|);
    var w := HorizontalLinks(style, West, meshRows, cols, |ext| + |e|);
    var n := VerticalLinks(style, North, meshRows, cols, |ext| + |e| + |w|);
    var s := VerticalLinks(style, South, meshRows, cols, |ext| + |e| + |w| + |n|);
    FourDirections(style, meshRows, cols, e, w, n, s);
    var all := e + w + n + s;
    forall k | 0 <= k < |all| ensures NamedEnds(style, meshRows, cols, all[k]) {
      PortNames(style, meshRows, cols, all, k);
    }
    r := Made(Network(numCpus, ext, all));
  }
}
