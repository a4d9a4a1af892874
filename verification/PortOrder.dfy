/**
 What sorting achieves for gem5/configs/example/read_config.py (bind_ports, lines
 300-346): when the single pass over the sorted connections succeeds, in terms of the
 listed ports and their order alone.
 */
module PortOrder {
  import opened PortBinding
  import opened Strings

  // ---------- the order that sorted() uses ----------

  /** By object name, then by port name, then by index. */
  ghost predicate PortBelow(a: Port, b: Port) {
    || Below(a.owner, b.owner)
    || (a.owner == b.owner && Below(a.port, b.port))
    || (a.owner == b.owner && a.port == b.port && a.index < b.index)
  }

  /** By the near end, then by the far end. */
  ghost predicate ConnBelow(c: Conn, d: Conn) {
    PortBelow(c.0, d.0) || (c.0 == d.0 && PortBelow(c.1, d.1))
  }

  /** PortConnection.__cmp__ is that order. */
  lemma {:induction false} PortBelowIff(a: Port, b: Port)
    ensures ComparePorts(a, b) < 0 <==> PortBelow(a, b)
  {
    BelowIff(a.owner, b.owner);
    BelowIff(a.port, b.port);
    StringsAntisymmetric(a.owner, b.owner);
    StringsAntisymmetric(a.port, b.port);
  }

  lemma {:induction false} LeqIff(c: Conn, d: Conn)
    ensures Leq(c, d) <==> c == d || ConnBelow(c, d)
  {
    PortBelowIff(c.0, d.0);
    PortBelowIff(c.1, d.1);
    PortsAntisymmetric(c.0, d.0);
    PortsAntisymmetric(c.1, d.1);
  }

  lemma {:induction false} PortsAntisymmetric(a: Port, b: Port)
    ensures (ComparePorts(b, a) < 0 <==> ComparePorts(a, b) > 0) && (ComparePorts(b, a) > 0 <==> ComparePorts(a, b) < 0)
    ensures ComparePorts(a, b) == 0 <==> a == b
  {
    StringsAntisymmetric(a.owner, b.owner);
    StringsAntisymmetric(a.port, b.port);
  }

  lemma {:induction false} PortsTransitive(a: Port, b: Port, c: Port)
    requires ComparePorts(a, b) <= 0 && ComparePorts(b, c) <= 0
    ensures ComparePorts(a, c) <= 0
  {
    StringsTransitive(a.owner, b.owner, c.owner);
    StringsAntisymmetric(a.owner, b.owner);
    StringsAntisymmetric(b.owner, c.owner);
    StringsAntisymmetric(a.owner, c.owner);
    if a.owner == b.owner == c.owner {
      StringsTransitive(a.port, b.port, c.port);
      StringsAntisymmetric(a.port, b.port);
      StringsAntisymmetric(b.port, c.port);
      StringsAntisymmetric(a.port, c.port);
    }
  }

  /** `Leq` is a total order. */
  lemma {:induction false} LeqIsTotal(c: Conn, d: Conn)
    ensures Leq(c, d) || Leq(d, c)
    ensures Leq(c, d) && Leq(d, c) ==> c == d
  {
    PortsAntisymmetric(c.0, d.0);
    PortsAntisymmetric(c.1, d.1);
  }

  lemma {:induction false} LeqIsTransitive(c: Conn, d: Conn, e: Conn)
    requires Leq(c, d) && Leq(d, e)
    ensures Leq(c, e)
  {
    PortsTransitive(c.0, d.0, e.0);
    PortsAntisymmetric(c.0, d.0);
    PortsAntisymmetric(d.0, e.0);
    PortsAntisymmetric(c.0, e.0);
    if c.0 == d.0 == e.0 {
      PortsTransitive(c.1, d.1, e.1);
    }
  }

  ghost predicate Ordered(s: seq<Conn>) {
    forall i, j :: 0 <= i < j < |s| ==> Leq(s[i], s[j])
  }

  ghost predicate AllLeq(s: seq<Conn>, c: Conn) {
    forall i :: 0 <= i < |s| ==> Leq(s[i], c)
  }

  lemma {:induction false} InsertBelow(s: seq<Conn>, c: Conn, top: Conn)
    requires AllLeq(s, top) && Leq(c, top)
    ensures AllLeq(Insert(s, c), top)
  {
    if s != [] && !Leq(s[|s| - 1], c) {
      InsertBelow(s[..|s| - 1], c, top);
    }
  }

  lemma {:induction false} AppendOrdered(s: seq<Conn>, c: Conn)
    requires Ordered(s) && AllLeq(s, c)
    ensures Ordered(s + [c])
  {
  }

  lemma {:induction false} InsertOrdered(s: seq<Conn>, c: Conn)
    requires Ordered(s)
    ensures Ordered(Insert(s, c))
  {
    if s != [] {
      var front, last := s[..|s| - 1], s[|s| - 1];
      if Leq(last, c) {
        forall i | 0 <= i < |s| ensures Leq(s[i], c) {
          if i < |s| - 1 {
            LeqIsTransitive(s[i], last, c);
          }
        }
        AppendOrdered(s, c);
      } else {
        LeqIsTotal(last, c);
        assert Ordered(front);
        InsertOrdered(front, c);
        InsertBelow(front, c, last);
        AppendOrdered(Insert(front, c), last);
      }
    }
  }

  /** sorted() sorts: no entry comes after one that it belongs in front of. */
  lemma {:induction false} SortOrders(s: seq<Conn>)
    ensures multiset(Sort(s)) == multiset(s)
    ensures forall i, j :: 0 <= i < j < |Sort(s)| ==> Sort(s)[i] == Sort(s)[j] || ConnBelow(Sort(s)[i], Sort(s)[j])
  {
    SortIsOrdered(s);
    SortPermutes(s);
    forall i, j | 0 <= i < j < |Sort(s)| ensures Sort(s)[i] == Sort(s)[j] || ConnBelow(Sort(s)[i], Sort(s)[j]) {
      assert Leq(Sort(s)[i], Sort(s)[j]);
      LeqIff(Sort(s)[i], Sort(s)[j]);
    }
  }

  lemma {:induction false} SortIsOrdered(s: seq<Conn>)
    ensures Ordered(Sort(s)) && multiset(Sort(s)) == multiset(s)
  {
    SortPermutes(s);
    if s != [] {
      SortIsOrdered(s[..|s| - 1]);
      InsertOrdered(Sort(s[..|s| - 1]), s[|s| - 1]);
    }
  }

  /** In an ordered list an entry with a smaller near end comes first. */
  lemma {:induction false} SmallerIsEarlier(s: seq<Conn>, a: nat, b: nat)
    requires Ordered(s) && a < |s| && b < |s| && ComparePorts(s[a].0, s[b].0) < 0
    ensures a < b
  {
    PortsAntisymmetric(s[a].0, s[b].0);
    PortsAntisymmetric(s[a].0, s[a].0);
  }

  // ---------- a condition on the ports ----------

  ghost predicate HasPort(s: seq<Conn>, p: Port) {
    exists c :: c in s && c.0 == p
  }

  function Before(p: Port): Port
    requires p.index > 0
  {
    p.(index := p.index - 1)
  }

  /** The indices of every port vector start at 0 and leave none out. */
  ghost predicate Dense(s: seq<Conn>) {
    forall c :: c in s && c.0.index > 0 ==> HasPort(s, Before(c.0))
  }

  /** `from` holds every connection from exactly one of its ends. */
  ghost predicate OneEndEach(s: seq<Conn>, from: set<Conn>) {
    forall c :: c in s ==> (c in from <==> Reverse(c) !in from)
  }

  /** The end from which the connection of `c` is made. */
  ghost function MadeFrom(from: set<Conn>, c: Conn): Port {
    if c in from then c.0 else c.1
  }

  /** Along every port vector, connections are made from ever greater ends. */
  ghost predicate Rising(s: seq<Conn>, from: set<Conn>) {
    forall c, d :: c in s && d in s && Follows(d.0, c.0) ==> PortBelow(MadeFrom(from, c), MadeFrom(from, d))
  }

  predicate Follows(p: Port, q: Port) {
    p.index > 0 && Before(p) == q
  }

  ghost predicate RisingChoice(s: seq<Conn>) {
    exists from: set<Conn> :: OneEndEach(s, from) && Rising(s, from)
  }

  // ---------- a rising choice is found ----------

  ghost predicate Bound(made: seq<Conn>, c: Conn) {
    c.0.index < Uses(made, c.0.Key()) && c.1.index < Uses(made, c.1.Key())
  }

  lemma {:induction false} BoundLater(s: seq<Conn>, i: nat, j: nat, c: Conn)
    requires i <= j <= |s| && Bound(Scan(s[..i]), c)
    ensures Bound(Scan(s[..j]), c)
    decreases j
  {
    if i < j {
      BoundLater(s, i, j - 1, c);
      ScanStep(s, j - 1);
      UsesAppend(Scan(s[..j - 1]), s[j - 1], c.0.Key());
      UsesAppend(Scan(s[..j - 1]), s[j - 1], c.1.Key());
    }
  }

  /** The whole of the situation: an ordered list of the connections, and a rising choice for it. */
  ghost predicate Choice(all: seq<Conn>, s: seq<Conn>, from: set<Conn>) {
    && Wellformed(all) && OnePeer(all) && Dense(all) && OneEndEach(all, from) && Rising(all, from)
    && Ordered(s) && multiset(s) == multiset(all)
  }

  /** All chosen entries in front of position `n` are bound by then. */
  ghost predicate BoundUpTo(s: seq<Conn>, from: set<Conn>, n: nat)
    requires n <= |s|
  {
    forall k :: 0 <= k < n && s[k] in from ==> Bound(Scan(s[..n]), s[k])
  }

  /** When a chosen entry comes up, the indices below its ends are bound. */
  lemma {:induction false} BelowIsBound(all: seq<Conn>, s: seq<Conn>, from: set<Conn>, n: nat, c: Conn)
    requires Choice(all, s, from) && n < |s| && BoundUpTo(s, from, n)
    requires s[n] in from && (c == s[n] || c == Reverse(s[n]))
    ensures Uses(Scan(s[..n]), c.0.Key()) >= c.0.index
  {
    if c.0.index > 0 {
      PermutationParts(s, all);
      assert s[n] in s && s[n] in all;
      assert HasPort(all, Before(c.0));
      var d :| d in all && d.0 == Before(c.0);
      assert Follows(c.0, d.0);
      assert PortBelow(MadeFrom(from, d), MadeFrom(from, c));
      PortBelowIff(MadeFrom(from, d), MadeFrom(from, c));
      assert MadeFrom(from, c) == s[n].0;
      var e := if d in from then d else Reverse(d);
      assert e in from && e in all && e.0 == MadeFrom(from, d);
      assert e in multiset(all);
      assert e in s;
      var k :| 0 <= k < |s| && s[k] == e;
      SmallerIsEarlier(s, k, n);
      assert Bound(Scan(s[..n]), s[k]);
    }
  }

  /** A chosen entry is bound after its turn, if not before. */
  lemma {:induction false} BoundInTurn(all: seq<Conn>, s: seq<Conn>, from: set<Conn>, n: nat)
    requires Choice(all, s, from) && n < |s| && BoundUpTo(s, from, n) && s[n] in from
    ensures Bound(Scan(s[..n + 1]), s[n])
  {
    var made, c := Scan(s[..n]), s[n];
    BelowIsBound(all, s, from, n, c);
    BelowIsBound(all, s, from, n, Reverse(c));
    ScanStep(s, n);
    UsesAppend(made, c, c.0.Key());
    UsesAppend(made, c, c.1.Key());
    PermutationParts(s, all);
    MadeWithin(all, s, n);
    assert c in s && c in all && Reverse(c) in all;
    if c.0.index < Uses(made, c.0.Key()) {
      PeerIsBound(all, made, c);
    } else if c.1.index < Uses(made, c.1.Key()) {
      PeerIsBound(all, made, Reverse(c));
    }
  }

  lemma {:induction false} MadeWithin(all: seq<Conn>, s: seq<Conn>, n: nat)
    requires PartOf(s, all) && n <= |s|
    ensures Legal(Scan(s[..n])) && forall d :: d in Scan(s[..n]) ==> d in all
  {
    ScanLegal(s[..n]);
    forall d | d in Scan(s[..n]) ensures d in all {
      assert d in s[..n];
      assert d in s;
    }
  }

  lemma {:induction false} AllInTurn(all: seq<Conn>, s: seq<Conn>, from: set<Conn>, n: nat)
    requires Choice(all, s, from) && n <= |s|
    ensures BoundUpTo(s, from, n)
  {
    if n > 0 {
      AllInTurn(all, s, from, n - 1);
      forall k | 0 <= k < n && s[k] in from ensures Bound(Scan(s[..n]), s[k]) {
        if k < n - 1 {
          BoundLater(s, n - 1, n, s[k]);
        } else {
          BoundInTurn(all, s, from, k);
        }
      }
    }
  }

  /** If both directions of every connection are behind their counters, half of the list was made. */
  lemma {:induction false} AllBoundIsHalf(all: seq<Conn>, made: seq<Conn>)
    requires Wellformed(all) && OnePeer(all) && Legal(made) && PartOf(made, all)
    requires forall c :: c in all ==> c in made || Reverse(c) in made
    ensures 2 * |made| == |all|
  {
    HalfIsAll(all, made);
    forall c | c in Listed(all) ensures c in Listed(made) + Reversed(made) {
      assert Reverse(c) in made ==> c in Reversed(made) by {
        assert Reverse(Reverse(c)) == c;
      }
    }
    ListedSize(all);
    DistinctMade(made);
    ListedSize(made);
    SubsetSize(Listed(all), Listed(made) + Reversed(made));
    UnionSize(Listed(made), Reversed(made));
  }

  lemma {:induction false} ChoiceIsFound(all: seq<Conn>, s: seq<Conn>, from: set<Conn>)
    requires Choice(all, s, from)
    ensures 2 * |Scan(s)| == |all|
  {
    AllInTurn(all, s, from, |s|);
    assert s[..|s|] == s;
    PermutationParts(s, all);
    MadeWithin(all, s, |s|);
    forall c | c in all ensures c in Scan(s) || Reverse(c) in Scan(s) {
      var e := if c in from then c else Reverse(c);
      assert e in all && e in from;
      assert e in multiset(all);
      assert e in s;
      var k :| 0 <= k < |s| && s[k] == e;
      assert Bound(Scan(s), s[k]);
      PeerIsBound(all, Scan(s), e);
    }
    AllBoundIsHalf(all, Scan(s));
  }

  // ---------- success makes a rising choice ----------

  /** What success gives: a legal order of all connections, each from one end, taken from an ordered list. */
  ghost predicate Success(all: seq<Conn>, s: seq<Conn>) {
    && Wellformed(all) && Ordered(s) && multiset(s) == multiset(all) && Legal(Scan(s))
    && OneEndEach(all, Listed(Scan(s))) && forall c :: c in Scan(s) ==> c in all
  }

  lemma {:induction false} PositionOf(all: seq<Conn>, s: seq<Conn>, c: Conn) returns (i: nat)
    requires Success(all, s) && c in all
    ensures i < |Scan(s)| && (Scan(s)[i] == c || Scan(s)[i] == Reverse(c))
    ensures Scan(s)[i].0 == MadeFrom(Listed(Scan(s)), c)
  {
    var made := Scan(s);
    assert c in Listed(made) || Reverse(c) in Listed(made);
    var e := if c in made then c else Reverse(c);
    i :| 0 <= i < |made| && made[i] == e;
  }

  lemma {:induction false} ScannedFrom(s: seq<Conn>, i: nat) returns (a: nat)
    requires i < |Scan(s)|
    ensures a < |s| && s[a] == Scan(s)[i]
  {
    ScanLegal(s);
    assert Scan(s)[i] in Scan(s);
    a :| 0 <= a < |s| && s[a] == Scan(s)[i];
  }

  /** The pass keeps the order of the list. */
  lemma {:induction false} ScanInOrder(s: seq<Conn>, i: nat, j: nat) returns (a: nat, b: nat)
    requires i < j < |Scan(s)|
    ensures a < b < |s| && s[a] == Scan(s)[i] && s[b] == Scan(s)[j]
    decreases |s|
  {
    var t := s[..|s| - 1];
    if j < |Scan(t)| {
      a, b := ScanInOrder(t, i, j);
    } else {
      a := ScannedFrom(t, i);
      b := |s| - 1;
    }
  }

  /** An index is bound after the one below it. */
  lemma {:induction false} LowerFirst(made: seq<Conn>, i: nat, j: nat, p: Port, q: Port)
    requires Legal(made) && (forall c :: c in made ==> c.0 != c.1) && i < |made| && j < |made|
    requires (made[i].0 == p || made[i].1 == p) && (made[j].0 == q || made[j].1 == q) && p.Key() == q.Key() &&
        p.index < q.index
    ensures i < j
  {
    LegalPrefix(made, i);
    LegalPrefix(made, j);
    assert Bindable(made[..i], made[i]) && Bindable(made[..j], made[j]);
    if j < i {
      BoundEnds(made[..i], j);
    }
  }

  lemma {:induction false} SuccessRises(all: seq<Conn>, s: seq<Conn>, c: Conn, d: Conn)
    requires Success(all, s) && c in all && d in all && Follows(d.0, c.0)
    ensures PortBelow(MadeFrom(Listed(Scan(s)), c), MadeFrom(Listed(Scan(s)), d))
  {
    var made := Scan(s);
    var i := PositionOf(all, s, c);
    var j := PositionOf(all, s, d);
    assert made[i] in made && made[j] in made;
    LowerFirst(made, i, j, c.0, d.0);
    var a, b := ScanInOrder(s, i, j);
    assert Leq(s[a], s[b]);
    DifferentEnds(made, i, j);
    PortsAntisymmetric(made[i].0, made[j].0);
    PortBelowIff(made[i].0, made[j].0);
  }

  /** No port is bound twice. */
  lemma {:induction false} DifferentEnds(made: seq<Conn>, i: nat, j: nat)
    requires Legal(made) && i < j < |made|
    ensures made[i].0 != made[j].0 && made[i].0 != made[j].1 && made[i].1 != made[j].0 && made[i].1 != made[j].1
  {
    assert Bindable(made[..j], made[j]);
    LegalPrefix(made, j);
    BoundEnds(made[..j], i);
  }

  lemma {:induction false} SuccessHasOnePeer(all: seq<Conn>, s: seq<Conn>)
    requires Success(all, s)
    ensures OnePeer(all)
  {
    forall c, d | c in all && d in all && c.0 == d.0 ensures c == d {
      var i := PositionOf(all, s, c);
      var j := PositionOf(all, s, d);
      if i < j {
        DifferentEnds(Scan(s), i, j);
      } else if j < i {
        DifferentEnds(Scan(s), j, i);
      }
      assert c.0 != c.1 && d.0 != d.1;
    }
  }

  lemma {:induction false} SuccessIsDense(all: seq<Conn>, s: seq<Conn>)
    requires Success(all, s)
    ensures Dense(all)
  {
    var made := Scan(s);
    forall c | c in all && c.0.index > 0 ensures HasPort(all, Before(c.0)) {
      var i := PositionOf(all, s, c);
      LegalPrefix(made, i);
      assert Bindable(made[..i], made[i]);
      forall d | d in made[..i] ensures d.0 != d.1 {
        assert d in made;
      }
      EndIsBound(made[..i], Before(c.0));
      var k :| 0 <= k < i && (made[..i][k].0 == Before(c.0) || made[..i][k].1 == Before(c.0));
      assert made[k] in made && made[k] in all && Reverse(made[k]) in all;
    }
  }

  /**
   bind_ports succeeds exactly when no port has two peers, no index is left out, and every connection
   can be given one of its ends so that the ends rise along every port vector.
   */
  lemma {:induction false} BindSucceedsExactly(connections: seq<Conn>)
    requires Wellformed(connections)
    ensures 2 * |Scan(Sort(connections))| == |connections| <==>
              OnePeer(connections) && Dense(connections) && RisingChoice(connections)
  {
    var s := Sort(connections);
    SortIsOrdered(connections);
    if 2 * |Scan(s)| == |connections| {
      BindSound(connections, Scan(s));
      assert OneEndEach(connections, Listed(Scan(s)));
      SuccessHasOnePeer(connections, s);
      SuccessIsDense(connections, s);
      forall c, d | c in connections && d in connections && Follows(d.0, c.0)
        ensures PortBelow(MadeFrom(Listed(Scan(s)), c), MadeFrom(Listed(Scan(s)), d))
      {
        SuccessRises(connections, s, c, d);
      }
      assert Rising(connections, Listed(Scan(s)));
    }
    if OnePeer(connections) && Dense(connections) && RisingChoice(connections) {
      var from: set<Conn> :| OneEndEach(connections, from) && Rising(connections, from);
      ChoiceIsFound(connections, s, from);
    }
  }

  // ---------- vectors on one side only ----------

  /** `p` is in a vector with more than one entry. */
  ghost predicate InVector(s: seq<Conn>, p: Port) {
    p.index > 0 || HasPort(s, p.(index := 1))
  }

  ghost predicate VectorsOnOneSide(s: seq<Conn>) {
    forall c :: c in s ==> !InVector(s, c.0) || !InVector(s, c.1)
  }

  /** From its vector side; without one, from the smaller end. */
  ghost predicate FromVector(s: seq<Conn>, c: Conn) {
    InVector(s, c.0) || (!InVector(s, c.1) && ComparePorts(c.0, c.1) < 0)
  }

  lemma {:induction false} VectorChoice(s: seq<Conn>, from: set<Conn>)
    requires Wellformed(s) && VectorsOnOneSide(s) && from == set c | c in s && FromVector(s, c)
    ensures OneEndEach(s, from) && Rising(s, from)
  {
    forall c | c in s ensures c in from <==> Reverse(c) !in from {
      assert Reverse(c) in s && c.0 != c.1;
      PortsAntisymmetric(c.0, c.1);
    }
    forall c, d | c in s && d in s && Follows(d.0, c.0) ensures PortBelow(MadeFrom(from, c), MadeFrom(from, d)) {
      assert InVector(s, d.0);
      assert InVector(s, c.0);
    }
  }

  /**
   Where the comment in the source is right: if every connection has an end that is the only entry of
   its vector, sorting makes the pass succeed.
   */
  lemma {:induction false} SortingSuffices(connections: seq<Conn>)
    requires Wellformed(connections) && OnePeer(connections) && Dense(connections) && VectorsOnOneSide(connections)
    ensures 2 * |Scan(Sort(connections))| == |connections|
  {
    var from := set c | c in connections && FromVector(connections, c);
    VectorChoice(connections, from);
    BindSucceedsExactly(connections);
  }

  // ---------- without sorting ----------

  /** x[0]-s[0] and x[1]-t[0], the second one listed first. */
  function Unsorted(): seq<Conn> {
    [(P("x", 1), P("t", 0)), (P("t", 0), P("x", 1)), (P("x", 0), P("s", 0)), (P("s", 0), P("x", 0))]
  }

  /** Sorting is needed for that: the same pass fails on this list as it stands. */
  lemma {:induction false} UnsortedFails()
    ensures VectorsOnOneSide(Unsorted()) && 2 * |Scan(Unsorted())| != |Unsorted()|
    ensures 2 * |Scan(Sort(Unsorted()))| == |Unsorted()|
  {
    var s := Unsorted();
    UnsortedWellformed();
    SortingSuffices(s);
    UnsortedScan(s);
  }

  lemma {:induction false} UnsortedScan(s: seq<Conn>)
    requires s == Unsorted()
    ensures |Scan(s)| == 1
  {
    assert s[..0] == [];
    FirstBindable(s[0]);
    FirstBindable(s[1]);
    FirstBindable(s[2]);
    DifferentOwners('x', 's', 0, 0);
    SecondBindable(s[2], s[3]);
    ScanStep(s, 0);
    ScanStep(s, 1);
    ScanStep(s, 2);
    assert [] + [s[2]] == [s[2]];
    ScanStep(s, 3);
    assert s[..4] == s;
  }

  lemma {:induction false} UnsortedWellformed()
    ensures Wellformed(Unsorted()) && OnePeer(Unsorted()) && Dense(Unsorted()) && VectorsOnOneSide(Unsorted())
  {
    var s := Unsorted();
    UnsortedEntries(s);
    UnsortedDense(s);
    UnsortedSides(s);
  }

  lemma {:induction false} UnsortedDense(s: seq<Conn>)
    requires s == Unsorted()
    ensures Dense(s)
  {
    assert s[2] in s && Before(s[0].0) == s[2].0;
    assert HasPort(s, Before(s[0].0));
  }

  lemma {:induction false} UnsortedSides(s: seq<Conn>)
    requires s == Unsorted()
    ensures VectorsOnOneSide(s)
  {
    assert "x" != "s" && "x" != "t";
    assert !InVector(s, s[1].0) && !InVector(s, s[3].0);
  }

  lemma {:induction false} UnsortedEntries(s: seq<Conn>)
    requires s == Unsorted()
    ensures Wellformed(s) && OnePeer(s)
  {
    assert "x" != "s" && "x" != "t" && "s" != "t";
    assert Reverse(s[0]) == s[1] && Reverse(s[2]) == s[3];
  }

  // ---------- three buses ----------

  function Slave(index: nat): Port { Port("system.l3bus", "slave", index) }

  function Master(index: nat): Port { Port("system.membus", "master", index) }

  function MemSide(): Port { Port("system.cpu.l2cache", "mem_side", 0) }

  function Controller(): Port { Port("system.mem_ctrls", "port", 0) }

  /** The L2 cache on a bus, that bus on the memory bus, and the memory bus on a memory controller. */
  function Buses(): seq<Conn> {
    [(Slave(0), MemSide()), (MemSide(), Slave(0)), (Master(0), Slave(1)), (Slave(1), Master(0)),
     (Master(1), Controller()), (Controller(), Master(1))]
  }

  lemma {:induction false} BusesDiffer()
    ensures Slave(0) != MemSide() && Slave(0) != Controller() && Slave(1) != MemSide() && Slave(1) != Controller()
    ensures forall i, j :: Slave(i) != Master(j)
    ensures MemSide() != Controller() && forall i :: Master(i) != MemSide() && Master(i) != Controller()
    ensures Slave(0) != Slave(1) && Master(0) != Master(1)
  {
    assert "slave" != "master" && "slave" != "mem_side" && "slave" != "port" && "master" != "mem_side";
    assert "master" != "port" && "mem_side" != "port";
  }

  lemma {:induction false} BusesWellformed(s: seq<Conn>)
    requires s == Buses()
    ensures Wellformed(s)
  {
    BusesDiffer();
    assert Reverse(s[0]) == s[1] && Reverse(s[2]) == s[3] && Reverse(s[4]) == s[5];
  }

  lemma {:induction false} BusesOnePeer(s: seq<Conn>)
    requires s == Buses()
    ensures OnePeer(s)
  {
    BusesDiffer();
  }

  lemma {:induction false} BusesDense(s: seq<Conn>)
    requires s == Buses()
    ensures Dense(s)
  {
    assert s[0] in s && Before(s[3].0) == s[0].0 && HasPort(s, s[0].0);
    assert s[2] in s && Before(s[4].0) == s[2].0 && HasPort(s, s[2].0);
  }

  lemma {:induction false} BusesRise(s: seq<Conn>, from: set<Conn>)
    requires s == Buses() && from == {s[0], s[3], s[5]}
    ensures OneEndEach(s, from) && Rising(s, from)
  {
    BusesDiffer();
    assert SmallerAt("system.l3bus", "system.mem_ctrls", 7);
    forall c, d | c in s && d in s && Follows(d.0, c.0) ensures PortBelow(MadeFrom(from, c), MadeFrom(from, d)) {
      assert (c == s[0] && d == s[3]) || (c == s[2] && d == s[4]);
    }
  }

  /** The ports meet the exact condition ... */
  lemma {:induction false} BusesCanBind(s: seq<Conn>)
    requires s == Buses()
    ensures Wellformed(s) && OnePeer(s) && Dense(s) && RisingChoice(s)
  {
    BusesWellformed(s);
    BusesOnePeer(s);
    BusesDense(s);
    BusesRise(s, {s[0], s[3], s[5]});
  }

  lemma {:induction false} BindsIfChoice(s: seq<Conn>)
    requires Wellformed(s) && OnePeer(s) && Dense(s) && RisingChoice(s)
    ensures 2 * |Scan(Sort(s))| == |s|
  {
    BindSucceedsExactly(s);
  }

  /** ... so all three connections are made: the object name decides before the port name. */
  lemma {:induction false} BusesBind(s: seq<Conn>)
    requires s == Buses()
    ensures 2 * |Scan(Sort(s))| == |s|
  {
    BusesCanBind(s);
    BindsIfChoice(s);
  }
}
