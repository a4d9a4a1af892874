/**
 Nested clusters, gem5/configs/topologies/Cluster.py: makeTopology walks the
 tree, handing out router and link ids from class-wide counters.
 Bandwidths and latencies are not modelled.
 */
module Cluster {

  /** A controller, or a cluster of nodes. */
  datatype Node = Controller(id: nat) | Group(nodes: seq<Node>)

  datatype IntLink = IntLink(id: nat, src: nat, dst: nat)

  datatype ExtLink = ExtLink(id: nat, controller: nat, router: nat)

  // ---------- sizes ----------

  /** Routers of a list of nodes: one for every cluster at any depth. */
  function Routers(nodes: seq<Node>): nat {
    if nodes == [] then 0
    else
      var last := nodes[|nodes| - 1];
      Routers(nodes[..|nodes| - 1]) + if last.Group? then 1 + Routers(last.nodes) else 0
  }

  /** __len__: controllers at any depth. */
  function Len(nodes: seq<Node>): nat {
    if nodes == [] then 0
    else
      var last := nodes[|nodes| - 1];
      Len(nodes[..|nodes| - 1]) + if last.Group? then Len(last.nodes) else 1
  }

  // ---------- what the tree asks for ----------

  /** Each controller with the router of the cluster it is in, given that ids are handed out from `router` on. */
  function Attachments(nodes: seq<Node>, router: nat): (c: seq<(nat, nat)>)
    ensures |c| == Len(nodes)
  {
    if nodes == [] then []
    else
      var front, last := nodes[..|nodes| - 1], nodes[|nodes| - 1];
      Attachments(front, router) +
      if last.Group? then Attachments(last.nodes, router + 1 + Routers(front)) else [(last.id, router)]
  }

  /** The two directed links between each cluster and its parent: those inside a cluster come before its own. */
  function Wires(nodes: seq<Node>, router: nat): (w: seq<(nat, nat)>)
    ensures |w| == 2 * Routers(nodes)
  {
    if nodes == [] then []
    else
      var front, last := nodes[..|nodes| - 1], nodes[|nodes| - 1];
      var child := router + 1 + Routers(front);
      Wires(front, router) + if last.Group? then Wires(last.nodes, child) + [(router, child), (child, router)] else []
  }

  /** From position `from` on, `links` are exactly the expected ones. */
  ghost predicate Wired(links: seq<IntLink>, from: nat, expected: seq<(nat, nat)>) {
    |links| == from + |expected| && forall k :: 0 <= k < |expected| ==>
        (links[from + k].src, links[from + k].dst) == expected[k]
  }

  ghost predicate AttachedAs(links: seq<ExtLink>, from: nat, expected: seq<(nat, nat)>) {
    |links| == from + |expected| && forall k :: 0 <= k < |expected| ==>
        (links[from + k].controller, links[from + k].router) == expected[k]
  }

  lemma {:induction false} WiredMore(a: seq<IntLink>, b: seq<IntLink>, from: nat, x: seq<(nat, nat)>, y: seq<(nat,
                                     nat)>)
    requires a <= b && Wired(a, from, x) && Wired(b, |a|, y)
    ensures Wired(b, from, x + y)
  {
    forall k | 0 <= k < |x + y| ensures (b[from + k].src, b[from + k].dst) == (x + y)[k] {
      if k < |x| {
        assert b[from + k] == a[from + k];
      } else {
        assert b[|a| + (k - |x|)] == b[from + k];
        assert (x + y)[k] == y[k - |x|];
      }
    }
  }

  lemma {:induction false} AttachedMore(a: seq<ExtLink>, b: seq<ExtLink>, from: nat, x: seq<(nat, nat)>, y: seq<(nat,
                                        nat)>)
    requires a <= b && AttachedAs(a, from, x) && AttachedAs(b, |a|, y)
    ensures AttachedAs(b, from, x + y)
  {
    forall k | 0 <= k < |x + y| ensures (b[from + k].controller, b[from + k].router) == (x + y)[k] {
      if k < |x| {
        assert b[from + k] == a[from + k];
      } else {
        assert b[|a| + (k - |x|)] == b[from + k];
        assert (x + y)[k] == y[k - |x|];
      }
    }
  }

  // ---------- where each node ends up ----------

  /** A controller listed directly in a cluster hangs on the router of that cluster. */
  lemma {:induction false} DirectController(nodes: seq<Node>, router: nat, k: nat)
    requires k < |nodes| && nodes[k].Controller?
    ensures Len(nodes[..k]) < Len(nodes) && Attachments(nodes, router)[Len(nodes[..k])] == (nodes[k].id, router)
  {
    var n := |nodes| - 1;
    if k == n {
      assert Attachments(nodes, router) == Attachments(nodes[..n], router) + [(nodes[k].id, router)];
    } else {
      DirectController(nodes[..n], router, k);
      assert nodes[..n][..k] == nodes[..k];
    }
  }

  /** A cluster nested in position `k` has a router of its own; its controllers hang there as if it stood alone. */
  lemma {:induction false} NestedAttachments(nodes: seq<Node>, router: nat, k: nat)
    requires k < |nodes| && nodes[k].Group?
    ensures var child, a, inner := router + 1 + Routers(nodes[..k]), Len(nodes[..k]), nodes[k].nodes;
            && a + Len(inner) <= Len(nodes)
            && Attachments(nodes, router)[a..a + Len(inner)] == Attachments(inner, child)
  {
    GroupStep(nodes, router, k);
    Prefixes(nodes, router, k + 1);
    var child := router + 1 + Routers(nodes[..k]);
    Middle(Attachments(nodes[..k], router), Attachments(nodes[k].nodes, child), Attachments(nodes, router));
  }

  /** Its inner links come first, and then the two links to the cluster around it. */
  lemma {:induction false} NestedWires(nodes: seq<Node>, router: nat, k: nat)
    requires k < |nodes| && nodes[k].Group?
    ensures var child, w := router + 1 + Routers(nodes[..k]), 2 * Routers(nodes[..k]);
            var end := w + 2 * Routers(nodes[k].nodes);
            && end + 2 <= 2 * Routers(nodes) && Wires(nodes, router)[w..end] == Wires(nodes[k].nodes, child)
            && Wires(nodes, router)[end] == (router, child) && Wires(nodes, router)[end + 1] == (child, router)
  {
    GroupStep(nodes, router, k);
    Prefixes(nodes, router, k + 1);
    var child := router + 1 + Routers(nodes[..k]);
    Middle(Wires(nodes[..k], router), Wires(nodes[k].nodes, child) + [(router, child), (child, router)],
           Wires(nodes, router));
    TwoMore(Wires(nodes, router), 2 * Routers(nodes[..k]), Wires(nodes[k].nodes, child), (router, child),
            (child, router));
  }

  lemma {:induction false} GroupStep(nodes: seq<Node>, router: nat, k: nat)
    requires k < |nodes| && nodes[k].Group?
    ensures var child := router + 1 + Routers(nodes[..k]);
            && Attachments(nodes[..k + 1], router) ==
                 Attachments(nodes[..k], router) + Attachments(nodes[k].nodes, child)
            && Wires(nodes[..k + 1], router) ==
                 Wires(nodes[..k], router) + (Wires(nodes[k].nodes, child) + [(router, child), (child, router)])
  {
    assert nodes[..k + 1][..k] == nodes[..k];
  }

  lemma {:induction false} Prefixes(nodes: seq<Node>, router: nat, m: nat)
    requires m <= |nodes|
    ensures Attachments(nodes[..m], router) <= Attachments(nodes, router)
    ensures Wires(nodes[..m], router) <= Wires(nodes, router)
  {
    if m == |nodes| {
      assert nodes[..m] == nodes;
    } else {
      var front := nodes[..|nodes| - 1];
      Prefixes(front, router, m);
      assert front[..m] == nodes[..m];
    }
  }

  lemma {:induction false} Middle(a: seq<(nat, nat)>, b: seq<(nat, nat)>, s: seq<(nat, nat)>)
    requires a + b <= s
    ensures |a| + |b| <= |s| && s[|a|..|a| + |b|] == b
  {
    assert (a + b)[|a|..] == b && s[..|a| + |b|] == a + b;
  }

  lemma {:induction false} TwoMore(s: seq<(nat, nat)>, i: nat, b: seq<(nat, nat)>, x: (nat, nat), y: (nat, nat))
    requires i + |b| + 2 <= |s| && s[i..i + |b| + 2] == b + [x, y]
    ensures s[i..i + |b|] == b && s[i + |b|] == x && s[i + |b| + 1] == y
  {
    var t := s[i..i + |b| + 2];
    assert t[..|b|] == b && t[|b|] == x && t[|b| + 1] == y;
    assert s[i..i + |b|] == t[..|b|];
  }

  // ---------- the network under construction ----------

  ghost predicate Joined(links: seq<IntLink>, a: nat, b: nat) {
    exists k :: 0 <= k < |links| && links[k].src == a && links[k].dst == b
  }

  ghost predicate Attached(links: seq<ExtLink>, controller: nat, router: nat) {
    exists k :: 0 <= k < |links| && links[k].controller == controller && links[k].router == router
  }

  /** Every controller of the cluster hangs on its router, and every cluster in it is linked to it both ways. */
  ghost predicate Placed(ints: seq<IntLink>, exts: seq<ExtLink>, nodes: seq<Node>, router: nat) {
    && (forall k :: 0 <= k < |nodes| && nodes[k].Controller? ==> Attached(exts, nodes[k].id, router))
    && (forall k :: 0 <= k < |nodes| && nodes[k].Group? ==> Nested(ints, router, router + 1 + Routers(nodes[..k])))
  }

  ghost predicate Nested(ints: seq<IntLink>, router: nat, child: nat) {
    Joined(ints, router, child) && Joined(ints, child, router)
  }

  lemma {:induction false} NodesPlaced(ints: seq<IntLink>, exts: seq<ExtLink>, i: nat, e: nat, nodes: seq<Node>,
                                       router: nat)
    requires Wired(ints, i, Wires(nodes, router)) && AttachedAs(exts, e, Attachments(nodes, router))
    ensures Placed(ints, exts, nodes, router)
  {
    forall k | 0 <= k < |nodes| && nodes[k].Controller? ensures Attached(exts, nodes[k].id, router) {
      DirectController(nodes, router, k);
      var at := exts[e + Len(nodes[..k])];
    }
    forall k | 0 <= k < |nodes| && nodes[k].Group?
      ensures Nested(ints, router, router + 1 + Routers(nodes[..k]))
    {
      NestedWires(nodes, router, k);
      var end := 2 * Routers(nodes[..k]) + 2 * Routers(nodes[k].nodes);
      var out, back := ints[i + end], ints[i + (end + 1)];
    }
  }

  /** Router `r` hangs on a router with a smaller id, linked in both directions. */
  ghost predicate HasParent(links: seq<IntLink>, root: nat, r: nat) {
    exists q: nat :: root <= q < r && Joined(links, q, r) && Joined(links, r, q)
  }

  class Network {
    var routers: seq<nat>
    var intLinks: seq<IntLink>
    var extLinks: seq<ExtLink>
    // Cluster._num_routers, _num_int_links and _num_ext_links
    var numRouters: nat
    var numIntLinks: nat
    var numExtLinks: nat

    constructor ()
      ensures Valid() && numRouters == 0 && intLinks == [] && extLinks == []
    {
      routers, intLinks, extLinks, numRouters, numIntLinks, numExtLinks := [], [], [], 0, 0, 0;
    }

    /** Ids are handed out densely. */
    ghost predicate Valid()
      reads this
    {
      && |routers| == numRouters && |intLinks| == numIntLinks && |extLinks| == numExtLinks
      && (forall k :: 0 <= k < |routers| ==> routers[k] == k)
      && (forall k :: 0 <= k < |intLinks| ==> intLinks[k].id == k)
      && (forall k :: 0 <= k < |extLinks| ==> extLinks[k].id == k)
    }

    /** Everything added for a cluster with router `root`: parents, attachments, and nothing else touched. */
    ghost predicate Grown(root: nat, intBefore: seq<IntLink>, extBefore: seq<ExtLink>)
      reads this
    {
      && intBefore <= intLinks && extBefore <= extLinks && root < numRouters
      && (forall r :: root < r < numRouters ==> HasParent(intLinks, root, r))
      && (forall k :: |extBefore| <= k < |extLinks| ==> root <= extLinks[k].router < numRouters)
    }

    method Connect(parent: nat, child: nat)
      requires Valid()
      modifies this
      ensures Valid() && routers == old(routers) && extLinks == old(extLinks) && numRouters == old(numRouters)
      ensures intLinks == old(intLinks) + [IntLink(old(numIntLinks), parent, child), IntLink(old(numIntLinks) + 1,
          child, parent)]
      ensures Joined(intLinks, parent, child) && Joined(intLinks, child, parent)
    {
      ghost var n := |intLinks|;
      intLinks := intLinks + [IntLink(numIntLinks, parent, child), IntLink(numIntLinks + 1, child, parent)];
      numIntLinks := numIntLinks + 2;
      assert intLinks[n].src == parent && intLinks[n + 1].src == child;
    }

    method AddController(id: nat, router: nat)
      requires Valid()
      modifies this
      ensures Valid() && routers == old(routers) && intLinks == old(intLinks) && numRouters == old(numRouters)
      ensures extLinks == old(extLinks) + [ExtLink(old(numExtLinks), id, router)]
    {
      extLinks := extLinks + [ExtLink(numExtLinks, id, router)];
      numExtLinks := numExtLinks + 1;
    }

    method AddRouter() returns (router: nat)
      requires Valid()
      modifies this
      ensures Valid() && router == old(numRouters) && numRouters == router + 1
      ensures intLinks == old(intLinks) && extLinks == old(extLinks)
    {
      router := numRouters;
      routers, numRouters := routers + [numRouters], numRouters + 1;
    }

    /** The cluster with router `router` has been built as far as `done`. */
    ghost predicate Built(done: seq<Node>, router: nat, ints: seq<IntLink>, exts: seq<ExtLink>)
      reads this
    {
      && Valid() && numRouters == router + 1 + Routers(done) && Grown(router, ints, exts)
      && Wired(intLinks, |ints|, Wires(done, router)) && AttachedAs(extLinks, |exts|, Attachments(done, router))
    }

    /** makeTopology for the cluster with these nodes; returns the id of its router. */
    method MakeTopology(nodes: seq<Node>) returns (router: nat)
      requires Valid()
      modifies this
      ensures router == old(numRouters) && Built(nodes, router, old(intLinks), old(extLinks))
      ensures Placed(intLinks, extLinks, nodes, router)
      decreases nodes, 1
    {
      router := AddRouter();
      ghost var ints, exts := intLinks, extLinks;
      for i := 0 to |nodes|
        invariant Built(nodes[..i], router, ints, exts)
      {
        assert nodes[..i + 1][..i] == nodes[..i];
        if nodes[i].Group? {
          AddGroup(nodes[..i + 1], router, ints, exts, nodes[i].nodes);
        } else {
          ghost var before := extLinks;
          AddController(nodes[i].id, router);
          AttachedMore(before, extLinks, |exts|, Attachments(nodes[..i], router), [(nodes[i].id, router)]);
          assert Wires(nodes[..i + 1], router) == Wires(nodes[..i], router);
        }
      }
      assert nodes[..|nodes|] == nodes;
      NodesPlaced(intLinks, extLinks, |ints|, |exts|, nodes, router);
    }

    /** A nested cluster: build it, then link its router to ours in both directions. */
    method AddGroup(ghost done: seq<Node>, router: nat, ghost ints: seq<IntLink>, ghost exts: seq<ExtLink>,
                    nodes: seq<Node>)
      requires done != [] && done[|done| - 1] == Group(nodes) && Built(done[..|done| - 1], router, ints, exts)
      modifies this
      ensures Built(done, router, ints, exts)
      decreases nodes, 2
    {
      ghost var before, extsBefore, front := intLinks, extLinks, done[..|done| - 1];
      var child := MakeTopology(nodes);
      ghost var during := intLinks;
      Connect(router, child);
      WiredMore(during, intLinks, |before|, Wires(nodes, child), [(router, child), (child, router)]);
      WiredMore(before, intLinks, |ints|, Wires(front, router), Wires(nodes, child) + [(router, child), (child,
          router)]);
      AttachedMore(extsBefore, extLinks, |exts|, Attachments(front, router), Attachments(nodes, child));
      GrowCluster(router, child, before, during, intLinks, numRouters);
    }
  }

  lemma {:induction false} JoinedLater(a: seq<IntLink>, b: seq<IntLink>, x: nat, y: nat)
    requires a <= b && Joined(a, x, y)
    ensures Joined(b, x, y)
  {
    var k :| 0 <= k < |a| && a[k].src == x && a[k].dst == y;
    assert b[k] == a[k];
  }

  lemma {:induction false} ParentLater(a: seq<IntLink>, b: seq<IntLink>, root: nat, root': nat, r: nat)
    requires a <= b && root' <= root && HasParent(a, root, r)
    ensures HasParent(b, root', r)
  {
    var q: nat :| root <= q < r && Joined(a, q, r) && Joined(a, r, q);
    JoinedLater(a, b, q, r);
    JoinedLater(a, b, r, q);
  }

  /** Linking a finished sub-cluster to its parent gives every new router a parent. */
  lemma {:induction false} GrowCluster(root: nat, child: nat, before: seq<IntLink>, during: seq<IntLink>,
                                       after: seq<IntLink>, count: nat)
    requires root < child && before <= during <= after
    requires forall r :: root < r < child ==> HasParent(before, root, r)
    requires forall r :: child < r < count ==> HasParent(during, child, r)
    requires Joined(after, root, child) && Joined(after, child, root)
    ensures forall r :: root < r < count ==> HasParent(after, root, r)
  {
    forall r | root < r < count ensures HasParent(after, root, r) {
      if r < child {
        ParentLater(before, after, root, root, r);
      } else if r > child {
        ParentLater(during, after, child, root, r);
      }
    }
  }

  // ---------- connectivity ----------

  ghost predicate IsPath(links: seq<IntLink>, p: seq<nat>) {
    |p| > 0 && forall k :: 0 < k < |p| ==> Joined(links, p[k - 1], p[k])
  }

  /** From any router of the tree there is a path up to the root and one back. */
  lemma {:induction false} UpAndDown(links: seq<IntLink>, root: nat, count: nat, r: nat)
      returns (up: seq<nat>, down: seq<nat>)
    requires root <= r < count && forall x :: root < x < count ==> HasParent(links, root, x)
    ensures IsPath(links, up) && up[0] == r && up[|up| - 1] == root
    ensures IsPath(links, down) && down[0] == root && down[|down| - 1] == r
    decreases r
  {
    if r == root {
      up, down := [r], [r];
    } else {
      assert HasParent(links, root, r);
      var q: nat :| root <= q < r && Joined(links, q, r) && Joined(links, r, q);
      up, down := UpAndDown(links, root, count, q);
      up, down := [r] + up, down + [r];
    }
  }

  /** Every two routers, and so every two controllers, are joined by a path of links. */
  lemma {:induction false} Connected(links: seq<IntLink>, root: nat, count: nat, r: nat, s: nat) returns (p: seq<nat>)
    requires root <= r < count && root <= s < count && forall x :: root < x < count ==> HasParent(links, root, x)
    ensures IsPath(links, p) && p[0] == r && p[|p| - 1] == s
  {
    var up, down := UpAndDown(links, root, count, r);
    var up', down' := UpAndDown(links, root, count, s);
    p := up + down'[1..];
    if |down'| == 1 {
      assert p == up;
    }
    forall k | 0 < k < |p| ensures Joined(links, p[k - 1], p[k]) {
      if k >= |up| {
        assert p[k] == down'[k - |up| + 1];
        assert p[k - 1] == down'[k - |up|];
      }
    }
  }
}
