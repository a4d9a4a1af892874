/**
 The order in which gem5/configs/example/read_config.py binds ports
 (ConfigManager.bind_ports, lines 300-346).

 Binding appends to a port's vector, so a connection may only be made when both of
 its ports have as many connections as its indices say.  The code makes one pass over
 the sorted list.  It is sound; it is complete only among orders that one pass can find.
 */
module PortBinding {
  import opened Strings

  datatype Port = Port(owner: string, port: string, index: nat)
  {
    function Key(): (string, string) { (owner, port) }
  }

  /** A connection as one end lists it. */
  type Conn = (Port, Port)

  function Reverse(c: Conn): Conn { (c.1, c.0) }

  // ---------- sorting ----------

  function ComparePorts(a: Port, b: Port): int {
    var o, p := CompareStrings(a.owner, b.owner), CompareStrings(a.port, b.port);
    if o != 0 then o else if p != 0 then p else if a.index < b.index then -1 else if a.index > b.index then 1 else 0
  }

  predicate Leq(c: Conn, d: Conn) {
    var x := ComparePorts(c.0, d.0);
    x < 0 || (x == 0 && ComparePorts(c.1, d.1) <= 0)
  }

  function Insert(s: seq<Conn>, c: Conn): seq<Conn> {
    if s == [] then [c] else if Leq(s[|s| - 1], c) then s + [c] else Insert(s[..|s| - 1], c) + [s[|s| - 1]]
  }

  function Sort(s: seq<Conn>): seq<Conn> {
    if s == [] then [] else Insert(Sort(s[..|s| - 1]), s[|s| - 1])
  }

  lemma {:induction false} SplitLast<T>(s: seq<T>)
    requires s != []
    ensures multiset(s) == multiset(s[..|s| - 1]) + multiset{s[|s| - 1]}
  {
    assert s == s[..|s| - 1] + [s[|s| - 1]];
  }

  lemma {:induction false} InsertPermutes(s: seq<Conn>, c: Conn)
    ensures multiset(Insert(s, c)) == multiset(s) + multiset{c} && |Insert(s, c)| == |s| + 1
  {
    if s != [] && !Leq(s[|s| - 1], c) {
      InsertPermutes(s[..|s| - 1], c);
      SplitLast(s);
    }
  }

  lemma {:induction false} SortPermutes(s: seq<Conn>)
    ensures multiset(Sort(s)) == multiset(s) && |Sort(s)| == |s|
  {
    if s != [] {
      var t, c := s[..|s| - 1], s[|s| - 1];
      SortPermutes(t);
      InsertPermutes(Sort(t), c);
      SplitLast(s);
    }
  }

  // ---------- counters and legal orders ----------

  /** How many ends of the connections in `made` are on the port vector `k`. */
  function Uses(made: seq<Conn>, k: (string, string)): nat {
    if made == [] then 0
    else
      var c := made[|made| - 1];
      Uses(made[..|made| - 1], k) + (if c.0.Key() == k then 1 else 0) + (if c.1.Key() == k then 1 else 0)
  }

  /** After `made`, both ends of `c` come next in their vectors. */
  predicate Bindable(made: seq<Conn>, c: Conn) {
    Uses(made, c.0.Key()) == c.0.index && Uses(made, c.1.Key()) == c.1.index
  }

  /** Making these connections in this order gives every end its own index. */
  ghost predicate Legal(made: seq<Conn>) {
    forall i :: 0 <= i < |made| ==> Bindable(made[..i], made[i])
  }

  /** The connections made by one pass over `s`. */
  function Scan(s: seq<Conn>): seq<Conn> {
    if s == [] then []
    else
      var made, c := Scan(s[..|s| - 1]), s[|s| - 1];
      if Bindable(made, c) then made + [c] else made
  }

  // ---------- the source's method ----------

  /** Every connection is listed from both ends, once from each, and no port is connected to itself. */
  ghost predicate Wellformed(s: seq<Conn>) {
    && (forall i, j :: 0 <= i < j < |s| ==> s[i] != s[j])
    && (forall c :: c in s ==> Reverse(c) in s)
    && (forall c :: c in s ==> c.0 != c.1)
  }

  datatype Bound = CannotOrder | Order(made: seq<Conn>)

  /** The list must hold every connection in both directions; nothing else is asked of it. */
  method BindPorts(connections: seq<Conn>) returns (r: Bound)
    requires forall c :: c in connections ==> Reverse(c) in connections
    ensures r == if 2 * |Scan(Sort(connections))| == |connections| then Order(Scan(Sort(connections))) else CannotOrder
  {
    var indices: map<(string, string), nat> := map[];
    for i := 0 to |connections|
      invariant forall k :: k in indices ==> indices[k] == 0
      invariant forall j :: 0 <= j < i ==> connections[j].0.Key() in indices
    {
      indices := indices[connections[i].0.Key() := 0];
    }
    var sorted := Sort(connections);
    SortPermutes(connections);
    forall i | 0 <= i < |sorted| ensures sorted[i].0.Key() in indices && sorted[i].1.Key() in indices {
      KeysKnown(connections, sorted, i);
    }
    var made := ScanOnce(sorted, indices);
    r := if |made| * 2 != |connections| then CannotOrder else Order(made);
  }

  ghost predicate Counts(indices: map<(string, string), nat>, made: seq<Conn>) {
    forall k :: k in indices ==> indices[k] == Uses(made, k)
  }

  /** Both ends of a connection that is made (lines 340-341). */
  method Increment(indices: map<(string, string), nat>, ghost made: seq<Conn>, c: Conn)
      returns (after: map<(string, string), nat>)
    requires Counts(indices, made) && c.0.Key() in indices && c.1.Key() in indices
    ensures after.Keys == indices.Keys && Counts(after, made + [c])
  {
    after := indices[c.0.Key() := indices[c.0.Key()] + 1];
    after := after[c.1.Key() := after[c.1.Key()] + 1];
    forall k | k in after ensures after[k] == Uses(made + [c], k) {
      UsesAppend(made, c, k);
    }
  }

  /** The pass over the sorted connections, with a counter for every port vector (lines 331-341). */
  method ScanOnce(sorted: seq<Conn>, zero: map<(string, string), nat>) returns (made: seq<Conn>)
    requires forall k :: k in zero ==> zero[k] == 0
    requires forall i :: 0 <= i < |sorted| ==> sorted[i].0.Key() in zero && sorted[i].1.Key() in zero
    ensures made == Scan(sorted)
  {
    var indices := zero;
    made := [];
    for i := 0 to |sorted|
      invariant made == Scan(sorted[..i]) && indices.Keys == zero.Keys
      invariant Counts(indices, made)
    {
      var c := sorted[i];
      ScanStep(sorted, i);
      if indices[c.0.Key()] == c.0.index && indices[c.1.Key()] == c.1.index {
        indices := Increment(indices, made, c);
        made := made + [c];
      }
    }
    assert sorted[..|sorted|] == sorted;
  }

  lemma {:induction false} KeysKnown(connections: seq<Conn>, sorted: seq<Conn>, i: nat)
    requires (forall c :: c in connections ==>
        Reverse(c) in connections) && multiset(sorted) == multiset(connections) && i < |sorted|
    ensures exists j :: 0 <= j < |connections| && connections[j].0 == sorted[i].0
    ensures exists j :: 0 <= j < |connections| && connections[j].0 == sorted[i].1
  {
    var c := sorted[i];
    assert c in multiset(sorted);
    assert c in connections && Reverse(c) in connections;
  }

  // ---------- soundness ----------

  lemma {:induction false} ScanLegal(s: seq<Conn>)
    ensures Legal(Scan(s)) && forall c :: c in Scan(s) ==> c in s
  {
    if s != [] {
      var made, c := Scan(s[..|s| - 1]), s[|s| - 1];
      ScanLegal(s[..|s| - 1]);
      if Bindable(made, c) {
        forall i | 0 <= i < |made + [c]| ensures Bindable((made + [c])[..i], (made + [c])[i]) {
          assert (made + [c])[..i] == made[..i];
        }
      }
    }
  }

  lemma {:induction false} UsesGrows(made: seq<Conn>, i: nat, k: (string, string))
    requires i <= |made|
    ensures Uses(made[..i], k) <= Uses(made, k)
    decreases |made|
  {
    if i < |made| {
      UsesGrows(made[..|made| - 1], i, k);
      assert made[..|made| - 1][..i] == made[..i];
    } else {
      assert made[..i] == made;
    }
  }

  /** Once bound, an end is behind its counter for good. */
  lemma {:induction false} BoundEnds(made: seq<Conn>, i: nat)
    requires Legal(made) && i < |made|
    ensures made[i].0.index < Uses(made, made[i].0.Key()) && made[i].1.index < Uses(made, made[i].1.Key())
  {
    assert Bindable(made[..i], made[i]);
    assert made[..i + 1][..i] == made[..i];
    UsesGrows(made, i + 1, made[i].0.Key());
    UsesGrows(made, i + 1, made[i].1.Key());
  }

  /** A legal order never makes a connection twice, from either end. */
  lemma {:induction false} LegalOnce(made: seq<Conn>, i: nat, j: nat)
    requires Legal(made) && i < j < |made|
    ensures made[i] != made[j] && made[i] != Reverse(made[j])
  {
    assert Bindable(made[..j], made[j]);
    LegalPrefix(made, j);
    BoundEnds(made[..j], i);
  }

  lemma {:induction false} LegalPrefix(made: seq<Conn>, j: nat)
    requires Legal(made) && j <= |made|
    ensures Legal(made[..j])
  {
    forall i | 0 <= i < j ensures Bindable(made[..j][..i], made[..j][i]) {
      assert made[..j][..i] == made[..i];
    }
  }

  ghost function Listed(s: seq<Conn>): set<Conn> {
    set c | c in s
  }

  ghost function Reversed(s: seq<Conn>): set<Conn> {
    set c | c in s :: Reverse(c)
  }

  lemma {:induction false} ReversedLast(t: seq<Conn>, c: Conn)
    requires c !in t
    ensures Reversed(t + [c]) == Reversed(t) + {Reverse(c)} && Reverse(c) !in Reversed(t)
  {
    forall d | d in t ensures Reverse(d) != Reverse(c) {
      assert d != c;
    }
  }

  lemma {:induction false} ListedSize(s: seq<Conn>)
    requires forall i, j :: 0 <= i < j < |s| ==> s[i] != s[j]
    ensures |Listed(s)| == |s| && |Reversed(s)| == |s|
  {
    if s != [] {
      var t, c := s[..|s| - 1], s[|s| - 1];
      assert s == t + [c];
      ListedSize(t);
      assert c !in t;
      assert Listed(s) == Listed(t) + {c};
      ReversedLast(t, c);
    }
  }

  /** An order that accounts for half of the list makes every connection, from exactly one end. */
  lemma {:induction false} HalfIsAll(s: seq<Conn>, made: seq<Conn>)
    requires Wellformed(s) && Legal(made) && (forall c :: c in made ==> c in s)
    ensures 2 * |made| <= |s|
    ensures 2 * |made| == |s| ==> Listed(made) + Reversed(made) == Listed(s)
    ensures Listed(made) !! Reversed(made)
  {
    forall i, j | 0 <= i < j < |made| ensures made[i] != made[j] {
      LegalOnce(made, i, j);
    }
    ListedSize(made);
    ListedSize(s);
    forall c | c in made ensures Reverse(c) !in made {
      NotBothEnds(s, made, c);
    }
    assert Listed(made) !! Reversed(made);
    assert Listed(made) + Reversed(made) <= Listed(s);
    assert |Listed(made) + Reversed(made)| == 2 * |made|;
    SubsetSize(Listed(made) + Reversed(made), Listed(s));
  }

  lemma {:induction false} NotBothEnds(s: seq<Conn>, made: seq<Conn>, c: Conn)
    requires Wellformed(s) && Legal(made) && (forall d :: d in made ==> d in s) && c in made
    ensures Reverse(c) !in made
  {
    if Reverse(c) in made {
      var i :| 0 <= i < |made| && made[i] == c;
      var j :| 0 <= j < |made| && made[j] == Reverse(c);
      if i < j {
        LegalOnce(made, i, j);
      } else if j < i {
        LegalOnce(made, j, i);
      }
    }
  }

  lemma {:induction false} SubsetSize(a: set<Conn>, b: set<Conn>)
    requires a <= b
    ensures |a| <= |b| && (|a| == |b| ==> a == b)
  {
    assert b == a + (b - a);
    assert |b| == |a| + |b - a|;
  }

  /**
   If bind_ports does not raise, every connection is made exactly once, from exactly one of
   its ends, and replaying the order gives every end the index it was listed with.
   */
  lemma {:induction false} BindSound(connections: seq<Conn>, made: seq<Conn>)
    requires Wellformed(connections) && made == Scan(Sort(connections)) && 2 * |made| == |connections|
    ensures Legal(made)
    ensures forall i, j :: 0 <= i < j < |made| ==> made[i] != made[j]
    ensures forall c :: c in connections ==> (c in made <==> Reverse(c) !in made)
    ensures forall c :: c in made ==> c in connections
  {
    ScanLegal(Sort(connections));
    SortPermutes(connections);
    forall c | c in made ensures c in connections {
      assert c in multiset(Sort(connections));
    }
    forall i, j | 0 <= i < j < |made| ensures made[i] != made[j] {
      LegalOnce(made, i, j);
    }
    HalfIsAll(connections, made);
    forall c | c in connections ensures c in made <==> Reverse(c) !in made {
      assert c in Listed(connections);
      assert c in Listed(made) || c in Reversed(made);
      assert Reverse(c) in Listed(made) <==> c in Reversed(made);
    }
  }

  // ---------- what one pass can and cannot find ----------

  /** Every port (with its index) is listed as the near end of one connection only. */
  ghost predicate OnePeer(s: seq<Conn>) {
    forall c, d :: c in s && d in s && c.0 == d.0 ==> c == d
  }

  ghost predicate HasEnd(made: seq<Conn>, p: Port) {
    exists i :: 0 <= i < |made| && (made[i].0 == p || made[i].1 == p)
  }

  /** In a legal order, every index below the counter has been bound. */
  lemma {:induction false} EndIsBound(made: seq<Conn>, p: Port)
    requires Legal(made) && (forall c :: c in made ==> c.0 != c.1) && p.index < Uses(made, p.Key())
    ensures HasEnd(made, p)
  {
    var n := |made| - 1;
    var front, c := made[..n], made[n];
    LegalPrefix(made, n);
    assert Bindable(front, c);
    if p.index < Uses(front, p.Key()) {
      EndIsBound(front, p);
      var i :| 0 <= i < |front| && (front[i].0 == p || front[i].1 == p);
      assert made[i] == front[i];
    } else {
      assert c in made;
    }
  }

  /** With one peer per port, binding one end binds the other. */
  lemma {:induction false} PeerIsBound(s: seq<Conn>, made: seq<Conn>, c: Conn)
    requires Wellformed(s) && OnePeer(s) && Legal(made) && (forall d :: d in made ==> d in s) && c in s
    requires c.0.index < Uses(made, c.0.Key())
    ensures c.1.index < Uses(made, c.1.Key())
    ensures c in made || Reverse(c) in made
  {
    EndIsBound(made, c.0);
    var i :| 0 <= i < |made| && (made[i].0 == c.0 || made[i].1 == c.0);
    BoundEnds(made, i);
    var d := made[i];
    assert d in made && d in s && Reverse(d) in s;
    assert d == c || Reverse(d) == c;
  }

  /** `m` can be obtained from `s` by leaving entries out. */
  ghost predicate IsSelection(m: seq<Conn>, s: seq<Conn>) {
    if s == [] then m == []
    else
      var t := s[..|s| - 1];
      IsSelection(m, t) || (m != [] && m[|m| - 1] == s[|s| - 1] && IsSelection(m[..|m| - 1], t))
  }

  lemma {:induction false} ScanIsSelection(s: seq<Conn>)
    ensures IsSelection(Scan(s), s)
  {
    if s != [] {
      var made, c := Scan(s[..|s| - 1]), s[|s| - 1];
      ScanIsSelection(s[..|s| - 1]);
      assert (made + [c])[..|made|] == made;
    }
  }

  lemma {:induction false} SelectionWithin(m: seq<Conn>, s: seq<Conn>)
    requires IsSelection(m, s)
    ensures forall c :: c in m ==> c in s
  {
    if s != [] {
      var t := s[..|s| - 1];
      if IsSelection(m, t) {
        SelectionWithin(m, t);
      } else {
        SelectionWithin(m[..|m| - 1], t);
        assert m == m[..|m| - 1] + [m[|m| - 1]];
      }
    }
  }

  /** Both sequences are parts of the whole list `all`. */
  ghost predicate PartOf(s: seq<Conn>, all: seq<Conn>) {
    forall c :: c in s ==> c in all
  }

  lemma {:induction false} ScanAhead(all: seq<Conn>, made: seq<Conn>, m: seq<Conn>, c: Conn, k: (string, string))
    requires Wellformed(all) && OnePeer(all) && Legal(made) && PartOf(made, all) && c in all && Bindable(m, c)
    requires AtMost(m, made)
    ensures Uses(m + [c], k) <= Uses(if Bindable(made, c) then made + [c] else made, k)
  {
    assert (m + [c])[..|m|] == m && (made + [c])[..|made|] == made;
    assert Uses(m, c.0.Key()) <= Uses(made, c.0.Key()) && Uses(m, c.1.Key()) <= Uses(made, c.1.Key());
    assert c.0 != c.1;
    assert Reverse(c) in all;
    if c.0.index < Uses(made, c.0.Key()) {
      PeerIsBound(all, made, c);
    } else if c.1.index < Uses(made, c.1.Key()) {
      PeerIsBound(all, made, Reverse(c));
    }
    assert Uses(m, k) <= Uses(made, k);
  }

  ghost predicate AtMost(m: seq<Conn>, made: seq<Conn>) {
    forall k :: Uses(m, k) <= Uses(made, k)
  }

  lemma {:induction false} ScanKeeps(s: seq<Conn>, c: Conn, m: seq<Conn>)
    requires AtMost(m, Scan(s))
    ensures AtMost(m, Scan(s + [c]))
  {
    assert (s + [c])[..|s|] == s;
    forall k ensures Uses(m, k) <= Uses(Scan(s + [c]), k) {
      UsesAppend(Scan(s), c, k);
    }
  }

  lemma {:induction false} ScanTakes(all: seq<Conn>, s: seq<Conn>, c: Conn, m: seq<Conn>)
    requires Wellformed(all) && OnePeer(all) && PartOf(s + [c], all) && Bindable(m, c) && AtMost(m, Scan(s))
    ensures AtMost(m + [c], Scan(s + [c]))
  {
    ScanLegal(s);
    assert (s + [c])[..|s|] == s;
    assert forall d :: d in s ==> d in s + [c];
    assert c in s + [c];
    forall k ensures Uses(m + [c], k) <= Uses(Scan(s + [c]), k) {
      ScanAhead(all, Scan(s), m, c, k);
    }
  }

  /** One pass is never behind any legal order that leaves entries of the same list out. */
  lemma {:induction false} ScanDominates(all: seq<Conn>, s: seq<Conn>, m: seq<Conn>)
    requires Wellformed(all) && OnePeer(all) && PartOf(s, all) && IsSelection(m, s) && Legal(m)
    ensures AtMost(m, Scan(s))
    decreases |s|
  {
    if s != [] {
      var t, c := s[..|s| - 1], s[|s| - 1];
      assert s == t + [c];
      if IsSelection(m, t) {
        ScanDominates(all, t, m);
        ScanKeeps(t, c, m);
      } else {
        var front := m[..|m| - 1];
        LegalPrefix(m, |m| - 1);
        assert Bindable(m[..|m| - 1], m[|m| - 1]);
        assert m == front + [c];
        ScanDominates(all, t, front);
        ScanTakes(all, t, c, front);
      }
    }
  }

  lemma {:induction false} FullSelectionIsFound(all: seq<Conn>, s: seq<Conn>, m: seq<Conn>)
    requires Wellformed(all) && OnePeer(all) && multiset(s) == multiset(all) && |s| == |all|
    requires IsSelection(m, s) && Legal(m) && 2 * |m| == |s|
    ensures 2 * |Scan(s)| == |s|
  {
    PermutationParts(s, all);
    SelectionWithin(m, s);
    ScanLegal(s);
    HalfIsAll(all, m);
    HalfIsAll(all, Scan(s));
    ScanDominates(all, s, m);
    forall c | c in m ensures c in Scan(s) || Reverse(c) in Scan(s) {
      var i :| 0 <= i < |m| && m[i] == c;
      BoundEnds(m, i);
      assert Uses(m, c.0.Key()) <= Uses(Scan(s), c.0.Key());
      PeerIsBound(all, Scan(s), c);
    }
    forall c | c in Listed(all) ensures c in Listed(Scan(s)) + Reversed(Scan(s)) {
      assert c in Listed(m) || c in Reversed(m);
      if c in Reversed(m) {
        var d :| d in m && c == Reverse(d);
        assert d == Reverse(c);
      }
      assert Reverse(c) in Scan(s) ==> c in Reversed(Scan(s)) by {
        assert Reverse(Reverse(c)) == c;
      }
    }
    ListedSize(all);
    DistinctMade(Scan(s));
    ListedSize(Scan(s));
    SubsetSize(Listed(all), Listed(Scan(s)) + Reversed(Scan(s)));
    UnionSize(Listed(Scan(s)), Reversed(Scan(s)));
  }

  lemma {:induction false} DistinctMade(made: seq<Conn>)
    requires Legal(made)
    ensures forall i, j :: 0 <= i < j < |made| ==> made[i] != made[j]
  {
    forall i, j | 0 <= i < j < |made| ensures made[i] != made[j] {
      LegalOnce(made, i, j);
    }
  }

  lemma {:induction false} UnionSize(a: set<Conn>, b: set<Conn>)
    ensures |a + b| <= |a| + |b|
  {
    assert a + b == a + (b - a);
    assert |b - a| <= |b| by {
      assert b == (b - a) + (b * a);
      assert |b| == |b - a| + |b * a|;
    }
  }

  lemma {:induction false} PermutationParts(s: seq<Conn>, all: seq<Conn>)
    requires multiset(s) == multiset(all)
    ensures PartOf(s, all)
  {
    forall c | c in s ensures c in all {
      assert c in multiset(s);
    }
  }

  /** Some legal order takes exactly one entry per connection from `s`, without reordering. */
  ghost predicate OnePassOrderExists(s: seq<Conn>) {
    exists m :: IsSelection(m, s) && Legal(m) && 2 * |m| == |s|
  }

  /**
   bind_ports succeeds exactly when some legal order can be read off the sorted list by
   picking one end of every connection.
   */
  lemma {:induction false} BindSucceedsIff(connections: seq<Conn>)
    requires Wellformed(connections) && OnePeer(connections)
    ensures 2 * |Scan(Sort(connections))| == |connections| <==> OnePassOrderExists(Sort(connections))
  {
    var s := Sort(connections);
    SortPermutes(connections);
    ScanIsSelection(s);
    ScanLegal(s);
    if OnePassOrderExists(s) {
      var m :| IsSelection(m, s) && Legal(m) && 2 * |m| == |s|;
      FullSelectionIsFound(connections, s, m);
    }
  }

  // ---------- a legal order that is missed ----------

  function P(owner: string, index: nat): Port {
    Port(owner, "p", index)
  }

  /** a[0]-c[1], a[1]-b[0] and c[0]-d[0], each listed from both ends, in sorted order. */
  function Missed(): seq<Conn> {
    [(P("a", 0), P("c", 1)), (P("a", 1), P("b", 0)), (P("b", 0), P("a", 1)),
     (P("c", 0), P("d", 0)), (P("c", 1), P("a", 0)), (P("d", 0), P("c", 0))]
  }

  lemma {:induction false} SortOfSorted(s: seq<Conn>)
    requires forall i :: 0 < i < |s| ==> Leq(s[i - 1], s[i])
    ensures Sort(s) == s
  {
    if s != [] {
      SortOfSorted(s[..|s| - 1]);
      assert |s| > 1 ==> Leq(s[|s| - 2], s[|s| - 1]);
      assert s == s[..|s| - 1] + [s[|s| - 1]];
    }
  }

  lemma {:induction false} ScanStep(s: seq<Conn>, i: nat)
    requires i < |s|
    ensures Scan(s[..i + 1]) == if Bindable(Scan(s[..i]), s[i]) then Scan(s[..i]) + [s[i]] else Scan(s[..i])
  {
    assert s[..i + 1][..i] == s[..i];
  }

  lemma {:induction false} UsesAppend(made: seq<Conn>, c: Conn, k: (string, string))
    ensures Uses(made + [c], k) == Uses(made, k) + (if c.0.Key() == k then 1 else 0) + (if c.1.Key() == k then 1 else 0)
  {
    assert (made + [c])[..|made|] == made;
  }

  /** Names of one letter compare by that letter. */
  lemma {:induction false} OneLetter(a: char, b: char)
    ensures CompareStrings([a], [b]) == if a < b then -1 else if a > b then 1 else 0
  {
  }

  lemma {:induction false} MissedIsSorted()
    ensures Sort(Missed()) == Missed()
  {
    var s := Missed();
    OneLetter('p', 'p');
    OneLetter('a', 'a');
    OneLetter('a', 'b');
    OneLetter('b', 'c');
    OneLetter('c', 'c');
    OneLetter('c', 'd');
    assert Leq(s[0], s[1]) && Leq(s[1], s[2]) && Leq(s[2], s[3]) && Leq(s[3], s[4]) && Leq(s[4], s[5]);
    SortOfSorted(s);
  }

  /** With nothing made yet, exactly the entries between first ports are bindable. */
  lemma {:induction false} FirstBindable(c: Conn)
    ensures Bindable([], c) <==> c.0.index == 0 && c.1.index == 0
  {
  }

  lemma {:induction false} SecondBindable(x: Conn, c: Conn)
    ensures Bindable([x], c) <==>
              && c.0.index == (if x.0.Key() == c.0.Key() then 1 else 0) + (if x.1.Key() == c.0.Key() then 1 else 0)
              && c.1.index == (if x.0.Key() == c.1.Key() then 1 else 0) + (if x.1.Key() == c.1.Key() then 1 else 0)
  {
    assert [] + [x] == [x];
    UsesAppend([], x, c.0.Key());
    UsesAppend([], x, c.1.Key());
  }

  lemma {:induction false} ThirdBindable(x: Conn, y: Conn, c: Conn)
    ensures Uses([x, y], c.0.Key()) == Uses([x], c.0.Key()) + (if y.0.Key() == c.0.Key() then 1 else 0) +
        (if y.1.Key() == c.0.Key() then 1 else 0)
    ensures Uses([x, y], c.1.Key()) == Uses([x], c.1.Key()) + (if y.0.Key() == c.1.Key() then 1 else 0) +
        (if y.1.Key() == c.1.Key() then 1 else 0)
    ensures Uses([x], c.0.Key()) == (if x.0.Key() == c.0.Key() then 1 else 0) +
        (if x.1.Key() == c.0.Key() then 1 else 0)
    ensures Uses([x], c.1.Key()) == (if x.0.Key() == c.1.Key() then 1 else 0) +
        (if x.1.Key() == c.1.Key() then 1 else 0)
  {
    assert [] + [x] == [x] && [x] + [y] == [x, y];
    UsesAppend([], x, c.0.Key());
    UsesAppend([], x, c.1.Key());
    UsesAppend([x], y, c.0.Key());
    UsesAppend([x], y, c.1.Key());
  }

  lemma {:induction false} ScanNext(s: seq<Conn>, i: nat, made: seq<Conn>)
    requires i < |s| && Scan(s[..i]) == made
    ensures Bindable(made, s[i]) ==> Scan(s[..i + 1]) == made + [s[i]]
    ensures !Bindable(made, s[i]) ==> Scan(s[..i + 1]) == made
  {
    ScanStep(s, i);
  }

  /** A list of six of which the first three, and the last, are not bindable when their turn comes. */
  lemma {:induction false} ScanOfSix(s: seq<Conn>)
    requires |s| == 6
    requires !Bindable([], s[0]) && !Bindable([], s[1]) && !Bindable([], s[2])
    requires Bindable([], s[3]) && Bindable([s[3]], s[4]) && !Bindable([s[3], s[4]], s[5])
    ensures Scan(s) == [s[3], s[4]]
  {
    assert s[..0] == [];
    ScanNext(s, 0, []);
    ScanNext(s, 1, []);
    ScanNext(s, 2, []);
    ScanNext(s, 3, []);
    assert [] + [s[3]] == [s[3]];
    ScanNext(s, 4, [s[3]]);
    assert [s[3]] + [s[4]] == [s[3], s[4]];
    ScanNext(s, 5, [s[3], s[4]]);
    assert s[..6] == s;
  }

  lemma {:induction false} DifferentOwners(a: char, b: char, i: nat, j: nat)
    requires a != b
    ensures P([a], i).Key() != P([b], j).Key()
  {
    assert [a][0] != [b][0];
  }

  lemma {:induction false} MissedScan()
    ensures |Scan(Missed())| == 2
  {
    var s := Missed();
    DifferentOwners('c', 'd', 1, 0);
    DifferentOwners('c', 'a', 0, 0);
    DifferentOwners('d', 'a', 0, 0);
    FirstBindable(s[0]);
    FirstBindable(s[1]);
    FirstBindable(s[2]);
    FirstBindable(s[3]);
    SecondBindable(s[3], s[4]);
    ThirdBindable(s[3], s[4], s[5]);
    ScanOfSix(s);
  }

  lemma {:induction false} MissedLegal(x: Conn, y: Conn, z: Conn)
    requires x == (P("c", 0), P("d", 0)) && y == (P("c", 1), P("a", 0)) && z == (P("a", 1), P("b", 0))
    ensures Legal([x, y, z])
  {
    var m := [x, y, z];
    DifferentOwners('c', 'd', 0, 0);
    DifferentOwners('c', 'a', 0, 0);
    DifferentOwners('d', 'a', 0, 0);
    DifferentOwners('a', 'b', 0, 0);
    DifferentOwners('c', 'b', 0, 0);
    DifferentOwners('d', 'b', 0, 0);
    FirstBindable(x);
    SecondBindable(x, y);
    ThirdBindable(x, y, z);
    assert m[..0] == [] && m[..1] == [x] && m[..2] == [x, y];
    assert Bindable(m[..0], m[0]) && Bindable(m[..1], m[1]) && Bindable(m[..2], m[2]);
  }

  /**
   The comment in the source says that exactly one entry of each pair will be bindable because
   the list is sorted.  Here a legal order of all three connections exists, but the pass finds two
   of them and bind_ports raises.
   */
  lemma {:induction false} LegalOrderMissed()
    ensures Wellformed(Missed()) && OnePeer(Missed())
    ensures exists m :: Legal(m) && 2 * |m| == |Missed()| && PartOf(m, Missed())
    ensures 2 * |Scan(Sort(Missed()))| != |Missed()|
  {
    MissedIsSorted();
    MissedScan();
    MissedWellformed();
    MissedOrder();
  }

  lemma {:induction false} MissedOrder()
    ensures exists m :: Legal(m) && 2 * |m| == |Missed()| && PartOf(m, Missed())
  {
    var s := Missed();
    var m := [s[3], s[4], s[1]];
    MissedLegal(s[3], s[4], s[1]);
    assert PartOf(m, s);
  }

  lemma {:induction false} MissedWellformed()
    ensures Wellformed(Missed()) && OnePeer(Missed())
  {
    var s := Missed();
    assert "a" != "b" && "a" != "c" && "a" != "d" && "b" != "c" && "b" != "d" && "c" != "d";
    assert Reverse(s[0]) == s[4] && Reverse(s[1]) == s[2] && Reverse(s[3]) == s[5];
  }
}
