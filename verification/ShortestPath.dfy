/**
 All-pairs shortest paths over the switch graph, as computed by
 gem5/src/mem/ruby/network/Topology.cc.

 The C++ code has no notion of "no link": a missing link is an ordinary edge
 of weight 10000.  The first half of this module shows that the in-place
 relaxation loop computes exactly the least walk weight of that complete
 graph; the second half says what this means for the links that really exist.
 */
module ShortestPath {

  // The source calls this "a big hack" (Topology.cc:42).
  const INFINITE_LATENCY: nat := 10000

  type Matrix = seq<seq<nat>>

  /** The links of a topology, keyed by (source switch, destination switch). */
  type LinkMap = map<(nat, nat), nat>

  ghost predicate Square(m: Matrix, n: nat) {
    |m| == n && forall i :: 0 <= i < n ==> |m[i]| == n
  }

  // ---------- walks in a matrix ----------

  ghost predicate Below(p: seq<nat>, n: nat) {
    forall k :: 0 <= k < |p| ==> p[k] < n
  }

  ghost predicate IsWalk(n: nat, p: seq<nat>, i: nat, j: nat) {
    |p| > 0 && p[0] == i && p[|p| - 1] == j && Below(p, n)
  }

  ghost function Weight(m: Matrix, n: nat, p: seq<nat>): nat
    requires Square(m, n) && Below(p, n)
  {
    if |p| < 2 then 0 else m[p[0]][p[1]] + Weight(m, n, p[1..])
  }

  ghost predicate Realized(m: Matrix, n: nat, i: nat, j: nat, d: nat)
    requires Square(m, n)
  {
    exists p :: IsWalk(n, p, i, j) && Weight(m, n, p) == d
  }

  lemma {:induction false} WeightJoin(m: Matrix, n: nat, p: seq<nat>, q: seq<nat>)
    requires Square(m, n) && |p| > 0 && |q| > 0 && p[|p| - 1] == q[0]
    requires Below(p, n) && Below(q, n)
    ensures Below(p + q[1..], n)
    ensures Weight(m, n, p + q[1..]) == Weight(m, n, p) + Weight(m, n, q)
  {
    if |p| == 1 {
      assert p + q[1..] == q;
    } else {
      WeightJoin(m, n, p[1..], q);
      assert (p + q[1..])[1..] == p[1..] + q[1..];
    }
  }

  lemma {:induction false} RealizedJoin(m: Matrix, n: nat, i: nat, k: nat, j: nat, d: nat, e: nat)
    requires Square(m, n) && Realized(m, n, i, k, d) && Realized(m, n, k, j, e)
    ensures Realized(m, n, i, j, d + e)
  {
    var p :| IsWalk(n, p, i, k) && Weight(m, n, p) == d;
    var q :| IsWalk(n, q, k, j) && Weight(m, n, q) == e;
    WeightJoin(m, n, p, q);
    var r := p + q[1..];
    assert |q| == 1 ==> r == p;
    assert IsWalk(n, r, i, j);
  }

  lemma {:induction false} RealizedEdge(m: Matrix, n: nat, i: nat, j: nat)
    requires Square(m, n) && i < n && j < n
    ensures Realized(m, n, i, j, m[i][j])
  {
    var p := [i, j];
    assert p[1..] == [j];
    assert Weight(m, n, p[1..]) == 0;
    assert IsWalk(n, p, i, j) && Weight(m, n, p) == m[i][j];
  }

  // ---------- the specification of the relaxation loop ----------

  ghost predicate TriangleAt(d: Matrix, n: nat, i: nat, j: nat)
    requires Square(d, n) && i < n && j < n
  {
    forall k {:trigger d[k]} :: 0 <= k < n ==> d[i][j] <= d[i][k] + d[k][j]
  }

  /** `d` is below `w`, closed under relaxation, and every entry is the weight of a walk of `w`. */
  ghost predicate IsClosure(w: Matrix, d: Matrix, n: nat) {
    && Square(w, n) && Square(d, n)
    && (forall i, j :: 0 <= i < n && 0 <= j < n ==> d[i][j] <= w[i][j])
    && (forall i, j {:trigger TriangleAt(d, n, i, j)} :: 0 <= i < n && 0 <= j < n ==> TriangleAt(d, n, i, j))
    && (forall i, j {:trigger Realized(w, n, i, j, d[i][j])} :: 0 <= i < n && 0 <= j < n ==>
         Realized(w, n, i, j, d[i][j]))
  }

  ghost predicate ZeroDiagonal(w: Matrix, n: nat)
    requires Square(w, n)
  {
    forall i :: 0 <= i < n ==> w[i][i] == 0
  }

  /** The closure is the least walk weight: no walk of `w` beats it. */
  lemma {:induction false} ClosureIsLeast(w: Matrix, d: Matrix, n: nat, p: seq<nat>)
    requires IsClosure(w, d, n) && ZeroDiagonal(w, n)
    requires |p| > 0 && Below(p, n)
    ensures d[p[0]][p[|p| - 1]] <= Weight(w, n, p)
  {
    if |p| == 1 {
      assert d[p[0]][p[0]] <= w[p[0]][p[0]];
    } else {
      ClosureIsLeast(w, d, n, p[1..]);
      assert TriangleAt(d, n, p[0], p[|p| - 1]);
    }
  }

  // ---------- termination measure ----------

  ghost function RowTotal(r: seq<nat>): nat {
    if r == [] then 0 else r[0] + RowTotal(r[1..])
  }

  ghost function Total(m: Matrix): nat {
    if m == [] then 0 else RowTotal(m[0]) + Total(m[1..])
  }

  lemma {:induction false} RowTotalUpdate(r: seq<nat>, j: nat, v: nat)
    requires j < |r| && v < r[j]
    ensures RowTotal(r[j := v]) < RowTotal(r)
  {
    if j == 0 {
      assert r[j := v][1..] == r[1..];
    } else {
      assert r[j := v][1..] == r[1..][j - 1 := v];
      RowTotalUpdate(r[1..], j - 1, v);
    }
  }

  ghost function Put(m: Matrix, i: nat, j: nat, v: nat): Matrix
    requires i < |m| && j < |m[i]|
  {
    var row: seq<nat> := m[i][j := v];
    m[i := row]
  }

  lemma {:induction false} TotalPut(m: Matrix, i: nat, j: nat, v: nat)
    requires i < |m| && j < |m[i]| && v < m[i][j]
    ensures Total(Put(m, i, j, v)) < Total(m)
  {
    RowTotalUpdate(m[i], j, v);
    if i == 0 {
      assert Put(m, i, j, v)[1..] == m[1..];
    } else {
      assert Put(m, i, j, v)[1..] == Put(m[1..], i - 1, j, v);
      TotalPut(m[1..], i - 1, j, v);
    }
  }

  // ---------- the loop itself ----------

  /** `a` holds the matrix `m`. */
  ghost predicate Holds(a: array2<nat>, m: Matrix)
    reads a
  {
    && a.Length0 == a.Length1
    && Square(m, a.Length0)
    && forall i, j :: 0 <= i < a.Length0 && 0 <= j < a.Length0 ==> a[i, j] == m[i][j]
  }

  /** The entries before (i, j) in row-major order are closed under relaxation. */
  ghost predicate SweptTo(d: Matrix, n: nat, i: nat, j: nat) {
    && Square(d, n)
    && forall x, y {:trigger TriangleAt(d, n, x, y)} ::
         0 <= x < n && 0 <= y < n && (x < i || (x == i && y < j)) ==> TriangleAt(d, n, x, y)
  }

  /** The inner `k` loop: the best relaxation of entry (i, j) and where it came from. */
  method Relax(dist: array2<nat>, i: nat, j: nat) returns (minimum: nat, via: int)
    requires dist.Length0 == dist.Length1 && i < dist.Length0 && j < dist.Length0
    ensures minimum <= dist[i, j]
    ensures forall k :: 0 <= k < dist.Length0 ==> minimum <= dist[i, k] + dist[k, j]
    ensures minimum != dist[i, j] ==> 0 <= via < dist.Length0 && minimum == dist[i, via] + dist[via, j]
  {
    minimum := dist[i, j];
    via := -1;
    for k := 0 to dist.Length0
      invariant minimum <= dist[i, j]
      invariant forall x :: 0 <= x < k ==> minimum <= dist[i, x] + dist[x, j]
      invariant minimum != dist[i, j] ==> 0 <= via < dist.Length0 && minimum == dist[i, via] + dist[via, j]
    {
      if dist[i, k] + dist[k, j] < minimum {
        minimum := dist[i, k] + dist[k, j];
        via := k;
      }
    }
  }

  /** A relaxation of entry (i, j) through switch k. */
  datatype Relaxation = Relaxation(i: nat, k: nat, j: nat)

  ghost predicate Improves(d: Matrix, n: nat, r: Relaxation) {
    Square(d, n) && r.i < n && r.j < n && r.k < n && d[r.i][r.k] + d[r.k][r.j] < d[r.i][r.j]
  }

  ghost function Apply(d: Matrix, n: nat, r: Relaxation): Matrix {
    if Improves(d, n, r) then Put(d, r.i, r.j, d[r.i][r.k] + d[r.k][r.j]) else d
  }

  ghost function Replay(w: Matrix, n: nat, log: seq<Relaxation>): Matrix {
    if log == [] then w else Apply(Replay(w, n, log[..|log| - 1]), n, log[|log| - 1])
  }

  ghost predicate RealizedAt(w: Matrix, d: Matrix, n: nat, i: nat, j: nat)
    requires Square(w, n) && Square(d, n) && i < n && j < n
  {
    d[i][j] <= w[i][j] && Realized(w, n, i, j, d[i][j])
  }

  /** Whatever was relaxed, and in whatever order, every entry is the weight of a walk of `w`. */
  lemma {:induction false} ReplayRealized(w: Matrix, n: nat, log: seq<Relaxation>)
    requires Square(w, n)
    ensures Square(Replay(w, n, log), n)
    ensures forall i, j :: 0 <= i < n && 0 <= j < n ==> RealizedAt(w, Replay(w, n, log), n, i, j)
  {
    if log == [] {
      forall i, j | 0 <= i < n && 0 <= j < n ensures RealizedAt(w, w, n, i, j) {
        RealizedEdge(w, n, i, j);
      }
    } else {
      var d, r := Replay(w, n, log[..|log| - 1]), log[|log| - 1];
      ReplayRealized(w, n, log[..|log| - 1]);
      if Improves(d, n, r) {
        assert RealizedAt(w, d, n, r.i, r.k) && RealizedAt(w, d, n, r.k, r.j) && RealizedAt(w, d, n, r.i, r.j);
        RealizedJoin(w, n, r.i, r.k, r.j, d[r.i][r.k], d[r.k][r.j]);
        forall i, j | 0 <= i < n && 0 <= j < n ensures RealizedAt(w, Apply(d, n, r), n, i, j) {
          assert RealizedAt(w, d, n, i, j);
        }
      }
    }
  }

  /** Writes one relaxed entry. */
  method RelaxEntry(dist: array2<nat>, i: nat, j: nat, ghost d0: Matrix)
      returns (change: bool, ghost d: Matrix, ghost r: Relaxation)
    requires Holds(dist, d0) && i < dist.Length0 && j < dist.Length0
    modifies dist
    ensures Holds(dist, d)
    ensures change ==> d == Apply(d0, dist.Length0, r) && Total(d) < Total(d0)
    ensures !change ==> d == d0 && TriangleAt(d, dist.Length0, i, j)
  {
    var minimum, via := Relax(dist, i, j);
    change, d, r := dist[i, j] != minimum, d0, Relaxation(i, 0, j);
    if change {
      assert 0 <= via < dist.Length0;  // Topology.cc:248-249
      r := Relaxation(i, via, j);
      TotalPut(d0, i, j, minimum);
      d := Put(d0, i, j, minimum);
      dist[i, j] := minimum;
    }
  }

  /** One sweep over all entries. */
  method Sweep(dist: array2<nat>, ghost w: Matrix, ghost d0: Matrix, ghost log0: seq<Relaxation>)
      returns (change: bool, ghost d: Matrix, ghost log: seq<Relaxation>)
    requires Holds(dist, d0) && d0 == Replay(w, dist.Length0, log0)
    modifies dist
    ensures Holds(dist, d) && d == Replay(w, dist.Length0, log)
    ensures change ==> Total(d) < Total(d0)
    ensures !change ==> d == d0 && SweptTo(d, dist.Length0, dist.Length0, 0)
  {
    change, d, log := false, d0, log0;
    var n := dist.Length0;
    for i := 0 to n
      invariant Holds(dist, d) && d == Replay(w, n, log)
      invariant if change then Total(d) < Total(d0) else d == d0 && SweptTo(d, n, i, 0)
    {
      for j := 0 to n
        invariant Holds(dist, d) && d == Replay(w, n, log)
        invariant if change then Total(d) < Total(d0) else d == d0 && SweptTo(d, n, i, j)
      {
        ghost var r, e;
        var changed;
        changed, e, r := RelaxEntry(dist, i, j, d);
        if changed {
          assert (log + [r])[..|log|] == log;
          log := log + [r];
          change := true;
        }
        d := e;
      }
    }
  }

  /** Relaxes `dist` in place until nothing changes; the result is the closure of the initial matrix. */
  method ExtendShortestPath(dist: array2<nat>, ghost w: Matrix) returns (ghost d: Matrix)
    requires Holds(dist, w)
    modifies dist
    ensures Holds(dist, d) && IsClosure(w, d, dist.Length0)
  {
    d := w;
    ghost var log := [];
    var n := dist.Length0;
    var change := true;
    while change
      invariant Holds(dist, d) && d == Replay(w, n, log)
      invariant !change ==> SweptTo(d, n, n, 0)
      decreases Total(d), if change then 1 else 0
    {
      change, d, log := Sweep(dist, w, d, log);
    }
    SweptIsClosure(w, d, n, log);
  }

  lemma {:induction false} SweptIsClosure(w: Matrix, d: Matrix, n: nat, log: seq<Relaxation>)
    requires Square(w, n) && d == Replay(w, n, log) && SweptTo(d, n, n, 0)
    ensures IsClosure(w, d, n)
  {
    ReplayRealized(w, n, log);
    forall i, j | 0 <= i < n && 0 <= j < n
      ensures d[i][j] <= w[i][j] && TriangleAt(d, n, i, j) && Realized(w, n, i, j, d[i][j])
    {
      assert RealizedAt(w, d, n, i, j);
    }
  }
}
