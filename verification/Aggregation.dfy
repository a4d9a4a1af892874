/**
 The whole of gem5/util/checkpoint_aggregator.py (lines 44-141): the memory and the
 configuration of one merged checkpoint, and what makes the script fail.
 */
module Aggregation {
  import opened Aggregator
  import opened Bytes
  import opened Decimal

  datatype Outcome = Failed | Aggregated(memory: seq<Byte>, config: seq<Section>)

  // ---------- names ----------

  /** re.search finds "cpu" exactly in the names that contain it. */
  lemma {:induction false} HasCpuIff(s: string)
    ensures HasCpu(s) <==> exists a, b :: s == a + "cpu" + b
  {
    if HasCpu(s) {
      var k := CpuAt(s);
      assert s == s[..k] + "cpu" + s[k + 3..];
    }
    if a, b :| s == a + "cpu" + b {
      CpuInside(a, b);
    }
  }

  lemma {:induction false} CpuAt(s: string) returns (k: nat)
    requires HasCpu(s)
    ensures k + 3 <= |s| && s[k] == 'c' && s[k + 1] == 'p' && s[k + 2] == 'u'
  {
    if StartsWithCpu(s) {
      k := 0;
    } else {
      k := CpuAt(s[1..]);
      k := k + 1;
    }
  }

  lemma {:induction false} CpuInside(a: string, b: string)
    ensures HasCpu(a + "cpu" + b)
  {
    var s := a + "cpu" + b;
    if a != [] {
      CpuInside(a[1..], b);
      assert s[1..] == a[1..] + "cpu" + b;
    }
  }

  /** re.sub at the first occurrence: the digits follow it, and the text in front of it stays. */
  lemma {:induction false} InsertedAfterFirst(a: string, b: string, d: string)
    requires !HasCpu(a + "cp")
    ensures InsertAfterCpu(a + ("cpu" + b), d) == a + ("cpu" + d + InsertAfterCpu(b, d))
  {
    var old', new' := "cpu" + b, "cpu" + d + InsertAfterCpu(b, d);
    if a == [] {
      assert a + old' == old' && old'[3..] == b && a + new' == new';
    } else {
      assert (a + "cp")[1..] == a[1..] + "cp";
      InsertedAfterFirst(a[1..], b, d);
      NotAtFront(a, b);
      Regroup(a, old');
      Regroup(a, new');
      InsertStep(a[0], a[1..] + old', d);
    }
  }

  lemma {:induction false} Regroup(a: string, t: string)
    requires a != []
    ensures a + t == [a[0]] + (a[1..] + t)
  {
  }

  lemma {:induction false} InsertStep(x: char, t: string, d: string)
    requires !StartsWithCpu([x] + t)
    ensures InsertAfterCpu([x] + t, d) == [x] + InsertAfterCpu(t, d)
  {
    assert ([x] + t)[1..] == t;
  }

  lemma {:induction false} NotAtFront(a: string, b: string)
    requires a != [] && !HasCpu(a + "cp")
    ensures !StartsWithCpu(a + ("cpu" + b))
  {
    var s, t := a + ("cpu" + b), a + "cp";
    assert forall k :: 0 <= k < |t| ==> s[k] == t[k];
  }

  /** ... and a name without "cpu" stays. */
  lemma {:induction false} NothingInserted(s: string, d: string)
    requires !HasCpu(s)
    ensures InsertAfterCpu(s, d) == s
  {
    if |s| >= 3 {
      NothingInserted(s[1..], d);
    }
  }

  /** "workload.FdMap256$": the name ends in the two words with one character between them. */
  lemma {:induction false} FdMapIff(name: string)
    ensures IsFdMap(name) <==> exists a, ch :: name == a + "workload" + [ch] + "FdMap256" && ch != '\n'
  {
    if IsFdMap(name) {
      var n := |name|;
      assert name == name[..n - 17] + name[n - 17..n - 9] + [name[n - 9]] + name[n - 8..];
    }
    if a, ch :| name == a + "workload" + [ch] + "FdMap256" && ch != '\n' {
      var n := |name|;
      assert n == |a| + 17;
      assert name[n - 17..n - 9] == "workload" && name[n - 8..] == "FdMap256";
    }
  }

  // ---------- where every section comes from ----------

  /** The sections that are kept: all cpu sections, and of the last checkpoint everything else but two. */
  predicate Kept(cpts: seq<seq<Section>>, c: nat, j: nat)
    requires c < |cpts| && j < |cpts[c]|
  {
    HasCpu(cpts[c][j].name) || (c == |cpts| - 1 && cpts[c][j].name != "system" && cpts[c][j].name != "Globals")
  }

  ghost predicate Before(x: (nat, nat), y: (nat, nat)) {
    x.0 < y.0 || (x.0 == y.0 && x.1 < y.1)
  }

  /** `from` lists exactly the kept sections of the first `m` checkpoints, in order. */
  ghost predicate ListsKept(cpts: seq<seq<Section>>, m: nat, from: seq<(nat, nat)>)
    requires m <= |cpts|
  {
    && (forall k :: 0 <= k < |from| ==>
          from[k].0 < m && from[k].1 < |cpts[from[k].0]| && Kept(cpts, from[k].0, from[k].1))
    && (forall k, l :: 0 <= k < l < |from| ==> Before(from[k], from[l]))
    && (forall c: nat, j: nat :: c < m && j < |cpts[c]| && Kept(cpts, c, j) ==> (c, j) in from)
  }

  /** The same for the first `m` sections of checkpoint `c`. */
  ghost predicate ListsKeptOf(cpts: seq<seq<Section>>, c: nat, m: nat, js: seq<nat>)
    requires c < |cpts| && m <= |cpts[c]|
  {
    && (forall k :: 0 <= k < |js| ==> js[k] < m && Kept(cpts, c, js[k]))
    && (forall k, l :: 0 <= k < l < |js| ==> js[k] < js[l])
    && (forall j: nat :: j < m && Kept(cpts, c, j) ==> j in js)
  }

  /** The contributed sections, each with its origin. */
  ghost predicate TracedOf(cpts: seq<seq<Section>>, c: nat, m: nat, base: nat, parts: seq<Section>, js: seq<nat>)
    requires c < |cpts| && m <= |cpts[c]| && ListsKeptOf(cpts, c, m, js)
  {
    |js| == |parts| && forall k :: 0 <= k < |js| ==> Origin(parts[k], cpts[c][js[k]], c, |cpts|, base)
  }

  lemma {:induction false} ContributionFrom(cpts: seq<seq<Section>>, c: nat, m: nat, base: nat) returns (js: seq<nat>)
    requires c < |cpts| && m <= |cpts[c]|
    ensures ListsKeptOf(cpts, c, m, js)
    ensures TracedOf(cpts, c, m, base, Contribution(cpts[c][..m], c, |cpts|, base), js)
  {
    if m == 0 {
      js := [];
    } else {
      js := ContributionFrom(cpts, c, m - 1, base);
      var front := Contribution(cpts[c][..m - 1], c, |cpts|, base);
      var part := ContributionStep(cpts, c, m - 1, base);
      if Kept(cpts, c, m - 1) {
        TracedMore(cpts, c, m - 1, base, front, js, part[0]);
        assert part == [part[0]];
        js := js + [m - 1];
      } else {
        assert front + part == front;
      }
    }
  }

  /** Section `j` contributes one section if it is kept, and none otherwise. */
  lemma {:induction false} ContributionStep(cpts: seq<seq<Section>>, c: nat, j: nat, base: nat)
      returns (part: seq<Section>)
    requires c < |cpts| && j < |cpts[c]|
    ensures Contribution(cpts[c][..j + 1], c, |cpts|, base) == Contribution(cpts[c][..j], c, |cpts|, base) + part
    ensures |part| == if Kept(cpts, c, j) then 1 else 0
    ensures part != [] ==> Origin(part[0], cpts[c][j], c, |cpts|, base)
  {
    assert cpts[c][..j + 1][..j] == cpts[c][..j];
    var s := cpts[c][j];
    part := if HasCpu(s.name) then [Renamed(s, c, |cpts|, base)] else if Kept(cpts, c, j) then [s] else [];
  }

  lemma {:induction false} TracedMore(cpts: seq<seq<Section>>, c: nat, j: nat, base: nat, parts: seq<Section>,
                                      js: seq<nat>, w: Section)
    requires c < |cpts| && j < |cpts[c]| && ListsKeptOf(cpts, c, j, js) && TracedOf(cpts, c, j, base, parts, js)
    requires Kept(cpts, c, j) && Origin(w, cpts[c][j], c, |cpts|, base)
    ensures ListsKeptOf(cpts, c, j + 1, js + [j]) && TracedOf(cpts, c, j + 1, base, parts + [w], js + [j])
  {
    assert (js + [j])[|js|] == j;
    assert forall i :: i in js ==> i in js + [j];
  }

  ghost predicate From(cpts: seq<seq<Section>>, images: seq<Image>, w: Section, x: (nat, nat))
    requires |cpts| == |images|
  {
    && x.0 < |cpts| && x.1 < |cpts[x.0]|
    && Origin(w, cpts[x.0][x.1], x.0, |cpts|, PagesBefore(images, x.0) * PAGE)
  }

  /** All sections, each with its origin. */
  ghost predicate Traced(cpts: seq<seq<Section>>, images: seq<Image>, all: seq<Section>, from: seq<(nat, nat)>)
    requires |cpts| == |images|
  {
    |from| == |all| && forall k :: 0 <= k < |from| ==> From(cpts, images, all[k], from[k])
  }

  lemma {:induction false} AllFrom(cpts: seq<seq<Section>>, images: seq<Image>, m: nat) returns (from: seq<(nat, nat)>)
    requires m <= |cpts| == |images|
    ensures ListsKept(cpts, m, from) && Traced(cpts, images, AllContributions(cpts, images, m), from)
  {
    if m == 0 {
      from := [];
    } else {
      var c := m - 1;
      var front := AllFrom(cpts, images, c);
      var base := PagesBefore(images, c) * PAGE;
      var js := ContributionFrom(cpts, c, |cpts[c]|, base);
      assert cpts[c][..|cpts[c]|] == cpts[c];
      from := front + Paired(c, js);
      ListsJoin(cpts, c, front, js);
      var parts := Contribution(cpts[c], c, |cpts|, base);
      TracedPaired(cpts, images, c, parts, js);
      TracedJoin(cpts, images, AllContributions(cpts, images, c), front, parts, Paired(c, js));
    }
  }

  lemma {:induction false} TracedPaired(cpts: seq<seq<Section>>, images: seq<Image>, c: nat, parts: seq<Section>,
                                        js: seq<nat>)
    requires c < |cpts| == |images| && ListsKeptOf(cpts, c, |cpts[c]|, js)
    requires TracedOf(cpts, c, |cpts[c]|, PagesBefore(images, c) * PAGE, parts, js)
    ensures Traced(cpts, images, parts, Paired(c, js))
  {
    forall k | 0 <= k < |js| ensures From(cpts, images, parts[k], Paired(c, js)[k]) {
      assert Origin(parts[k], cpts[c][js[k]], c, |cpts|, PagesBefore(images, c) * PAGE);
    }
  }

  lemma {:induction false} TracedJoin(cpts: seq<seq<Section>>, images: seq<Image>, all: seq<Section>,
                                      from: seq<(nat, nat)>, all': seq<Section>, from': seq<(nat, nat)>)
    requires |cpts| == |images| && Traced(cpts, images, all, from) && Traced(cpts, images, all', from')
    ensures Traced(cpts, images, all + all', from + from')
  {
    forall k | 0 <= k < |from + from'| ensures From(cpts, images, (all + all')[k], (from + from')[k]) {
      if k >= |from| {
        assert From(cpts, images, all'[k - |from|], from'[k - |from|]);
      }
    }
  }

  ghost function Paired(c: nat, js: seq<nat>): seq<(nat, nat)> {
    seq(|js|, k requires 0 <= k < |js| => (c, js[k]))
  }

  lemma {:induction false} ListsJoin(cpts: seq<seq<Section>>, c: nat, front: seq<(nat, nat)>, js: seq<nat>)
    requires c < |cpts| && ListsKept(cpts, c, front) && ListsKeptOf(cpts, c, |cpts[c]|, js)
    ensures ListsKept(cpts, c + 1, front + Paired(c, js))
  {
    var from := front + Paired(c, js);
    forall d: nat, j: nat | d < c + 1 && j < |cpts[d]| && Kept(cpts, d, j) ensures (d, j) in from {
      if d == c {
        var k :| 0 <= k < |js| && js[k] == j;
        assert from[|front| + k] == (d, j);
      } else {
        assert (d, j) in front;
      }
    }
  }

  // ---------- what every section says ----------

  /**
   A cpu section of checkpoint `c`: its new name, its physical address moved by `base`, the
   process id in the file descriptor maps, and every other entry as it was.
   */
  ghost predicate Moved(w: Section, s: Section, c: nat, count: nat, base: nat)
    requires c < count
  {
    && w.name == NewName(s.name, c, count)
    && (forall k :: k in w.items <==> k in s.items || (k == "M5_pid" && IsFdMap(s.name)))
    && (IsFdMap(s.name) ==> w.items["M5_pid"] == Num(c))
    && (forall k :: k in s.items && k != "paddr" && !(k == "M5_pid" && IsFdMap(s.name)) ==> w.items[k] == s.items[k])
    && ("paddr" in s.items && s.items["paddr"].Num? ==> w.items["paddr"] == Num(s.items["paddr"].num + base))
  }

  /** A section of the last checkpoint: unchanged but for the size of the memory. */
  ghost predicate Unmoved(w: Section, s: Section, store: string, rangeSize: nat) {
    && w.name == s.name
    && w.items == if s.name == store then s.items["range_size" := Num(rangeSize)] else s.items
  }

  lemma {:induction false} RenamedMoves(s: Section, c: nat, count: nat, base: nat)
    requires c < count
    ensures Moved(Renamed(s, c, count, base), s, c, count, base)
  {
    assert "M5_pid"[0] != "paddr"[0];
  }

  lemma {:induction false} StoreHasNoCpu(name: string)
    requires name == "system.physmem.store0"
    ensures !HasCpu(name) && !IsSpecial(name)
  {
    CpuHasC(name);
  }

  lemma {:induction false} CpuHasC(s: string)
    ensures HasCpu(s) ==> 'c' in s
  {
    if HasCpu(s) {
      var k := CpuAt(s);
    }
  }

  // ---------- what the script reads ----------

  /** int() or getint() fails on this section. */
  predicate Unreadable(s: Section) {
    || (HasCpu(s.name) && "paddr" in s.items && s.items["paddr"].Text?)
    || (s.name == "Globals" && ("curTick" !in s.items || s.items["curTick"].Text?))
  }

  ghost predicate AllReadable(sections: seq<Section>) {
    forall k :: 0 <= k < |sections| ==> !Unreadable(sections[k])
  }

  ghost predicate HasSection(sections: seq<Section>, name: string) {
    exists k :: 0 <= k < |sections| && sections[k].name == name
  }

  /** `s` is the section that holds the tick of a checkpoint. */
  ghost predicate Says(s: Section, tick: int) {
    s.name == "Globals" && "curTick" in s.items && s.items["curTick"] == Num(tick)
  }

  /** The latest tick of the sections, or 0. */
  ghost predicate Latest(sections: seq<Section>, from: int, tick: int) {
    && tick >= from
    && (forall k, t :: 0 <= k < |sections| && Says(sections[k], t) ==> t <= tick)
    && (tick == from || exists k :: 0 <= k < |sections| && Says(sections[k], tick))
  }

  ghost predicate LatestOfAll(cpts: seq<seq<Section>>, tick: int) {
    && tick >= 0
    && (forall c, k, t :: 0 <= c < |cpts| && 0 <= k < |cpts[c]| && Says(cpts[c][k], t) ==> t <= tick)
    && (tick == 0 || exists c, k :: 0 <= c < |cpts| && 0 <= k < |cpts[c]| && Says(cpts[c][k], tick))
  }

  method ReadSections(sections: seq<Section>, from: int) returns (ok: bool, tick: int)
    ensures ok <==> AllReadable(sections)
    ensures ok <==> forall s :: s in sections ==>
        && (HasCpu(s.name) && "paddr" in s.items ==> s.items["paddr"].Num?)
        && (s.name == "Globals" ==> "curTick" in s.items && s.items["curTick"].Num?)
    ensures ok ==> Latest(sections, from, tick)
  {
    ok, tick := true, from;
    for i := 0 to |sections|
      invariant ok && AllReadable(sections[..i]) && Latest(sections[..i], from, tick)
    {
      var s := sections[i];
      assert sections[..i + 1] == sections[..i] + [s];
      if Unreadable(s) {
        return false, 0;
      }
      LatestMore(sections[..i], from, tick, s);
      if s.name == "Globals" && s.items["curTick"].num > tick {
        assert !HasCpu("Globals") by {
          NoCpuInSystem();
        }
        tick := s.items["curTick"].num;
      }
    }
    assert sections[..|sections|] == sections;
  }

  lemma {:induction false} LatestMore(sections: seq<Section>, from: int, tick: int, s: Section)
    requires Latest(sections, from, tick)
    ensures forall t :: Says(s, t) ==> Latest(sections + [s], from, Larger(tick, t))
    ensures (forall t :: !Says(s, t)) ==> Latest(sections + [s], from, tick)
  {
    var more := sections + [s];
    assert more[|sections|] == s;
    assert forall k :: 0 <= k < |sections| ==> more[k] == sections[k];
  }

  ghost function Larger(a: int, b: int): int {
    if b > a then b else a
  }

  method ReadAll(cpts: seq<seq<Section>>) returns (ok: bool, tick: int)
    ensures ok <==> forall c :: 0 <= c < |cpts| ==> AllReadable(cpts[c])
    ensures ok ==> LatestOfAll(cpts, tick)
  {
    ok, tick := true, 0;
    for c := 0 to |cpts|
      invariant ok && forall d :: 0 <= d < c ==> AllReadable(cpts[d])
      invariant LatestOfAll(cpts[..c], tick)
    {
      ghost var was := tick;
      ok, tick := ReadSections(cpts[c], tick);
      if !ok {
        return;
      }
      LatestJoin(cpts, c, was, tick);
    }
    assert cpts[..|cpts|] == cpts;
  }

  lemma {:induction false} LatestJoin(cpts: seq<seq<Section>>, c: nat, was: int, tick: int)
    requires c < |cpts| && LatestOfAll(cpts[..c], was) && Latest(cpts[c], was, tick)
    ensures LatestOfAll(cpts[..c + 1], tick)
  {
    var more := cpts[..c + 1];
    assert more[c] == cpts[c] && forall d :: 0 <= d < c ==> more[d] == cpts[..c][d];
    if tick == was && tick != 0 {
      var d, k :| 0 <= d < c && 0 <= k < |cpts[..c][d]| && Says(cpts[..c][d][k], tick);
      assert Says(more[d][k], tick);
    } else if tick != was {
      var k :| 0 <= k < |cpts[c]| && Says(cpts[c][k], tick);
      assert Says(more[c][k], tick);
    }
  }

  // ---------- the merged checkpoint ----------

  ghost predicate Sized(w: Section, was: Section, store: string, rangeSize: nat) {
    w == if was.name == store then Section(was.name, was.items["range_size" := Num(rangeSize)]) else was
  }

  /** Sets range_size; there must be a section to set it in (line 134). */
  method SetRangeSize(config: seq<Section>, store: string, rangeSize: nat) returns (ok: bool, config': seq<Section>)
    ensures ok <==> HasSection(config, store)
    ensures |config'| == |config| && forall k :: 0 <= k < |config| ==> Sized(config'[k], config[k], store, rangeSize)
  {
    ok, config' := false, [];
    for i := 0 to |config|
      invariant ok <==> exists k :: 0 <= k < i && config[k].name == store
      invariant |config'| == i && forall k :: 0 <= k < i ==> Sized(config'[k], config[k], store, rangeSize)
    {
      var w := config[i];
      if w.name == store {
        ok, w := true, Section(w.name, w.items["range_size" := Num(rangeSize)]);
      }
      config' := config' + [w];
    }
  }

  /** A written section and the section it was made of. */
  ghost predicate Written(cpts: seq<seq<Section>>, images: seq<Image>, w: Section, x: (nat, nat), store: string,
                          rangeSize: nat)
    requires |cpts| == |images|
  {
    && x.0 < |cpts| && x.1 < |cpts[x.0]|
    && var s := cpts[x.0][x.1];
       if HasCpu(s.name) then Moved(w, s, x.0, |cpts|, PagesBefore(images, x.0) * 4096)
       else Unmoved(w, s, store, rangeSize)
  }

  lemma {:induction false} OriginWritten(cpts: seq<seq<Section>>, images: seq<Image>, was: Section, w: Section,
                                         x: (nat, nat), store: string, rangeSize: nat)
    requires |cpts| == |images| && From(cpts, images, was, x) && Sized(w, was, store, rangeSize) && !HasCpu(store)
    ensures Written(cpts, images, w, x, store, rangeSize)
  {
    var s := cpts[x.0][x.1];
    if HasCpu(s.name) {
      RenamedMoves(s, x.0, |cpts|, PagesBefore(images, x.0) * PAGE);
      RenamedHasCpu(s.name, Zfill(x.0, |Dec(|cpts| - 1)|));
    }
  }

  /** The merged sections include the store exactly when the last checkpoint has one. */
  lemma {:induction false} StoreIsLast(cpts: seq<seq<Section>>, images: seq<Image>, all: seq<Section>,
                                       from: seq<(nat, nat)>, store: string)
    requires |cpts| == |images| > 0 && ListsKept(cpts, |cpts|, from) && Traced(cpts, images, all, from)
    requires !HasCpu(store) && !IsSpecial(store)
    ensures HasSection(all, store) <==> HasSection(cpts[|cpts| - 1], store)
  {
    var n := |cpts| - 1;
    if k :| 0 <= k < |all| && all[k].name == store {
      assert From(cpts, images, all[k], from[k]) && Kept(cpts, from[k].0, from[k].1);
      var s := cpts[from[k].0][from[k].1];
      if HasCpu(s.name) {
        RenamedHasCpu(s.name, Zfill(from[k].0, |Dec(|cpts| - 1)|));
      }
      assert s.name == store;
    }
    if j :| 0 <= j < |cpts[n]| && cpts[n][j].name == store {
      assert Kept(cpts, n, j);
      var k :| 0 <= k < |from| && from[k] == (n, j);
      assert From(cpts, images, all[k], from[k]);
    }
  }

  /** `w` is named `name`, and the byte at its physical address is `b`. */
  ghost predicate Finds(w: Section, name: string, memory: seq<Byte>, b: Byte) {
    && w.name == name && "paddr" in w.items && w.items["paddr"].Num?
    && 0 <= w.items["paddr"].num < |memory| && memory[w.items["paddr"].num] == b
  }

  /** `s` is a cpu section with a physical address that lies inside the copied part of `image`. */
  ghost predicate PointsInto(s: Section, image: Image) {
    && HasCpu(s.name) && "paddr" in s.items && s.items["paddr"].Num?
    && 0 <= s.items["paddr"].num < image.pages * 4096 && s.items["paddr"].num < |image.memory|
  }

  ghost predicate FullUpTo(images: seq<Image>, c: nat)
    requires c <= |images|
  {
    forall k :: 0 <= k < c ==> |images[k].memory| >= images[k].pages * 4096
  }

  /** The relocated address of section `j` of checkpoint `c` still leads to the byte it led to. */
  ghost predicate AddressKept(cpts: seq<seq<Section>>, images: seq<Image>, memory: seq<Byte>, config: seq<Section>,
                              c: nat, j: nat)
    requires c < |cpts| == |images| && j < |cpts[c]| && PointsInto(cpts[c][j], images[c])
  {
    var s := cpts[c][j];
    exists k :: 0 <= k < |config| &&
      Finds(config[k], NewName(s.name, c, |cpts|), memory, images[c].memory[s.items["paddr"].num])
  }

  lemma {:induction false} AddressIsKept(cpts: seq<seq<Section>>, images: seq<Image>, memory: seq<Byte>,
                                         config: seq<Section>, store: string, rangeSize: nat, c: nat, j: nat, k: nat)
    requires c < |cpts| == |images| && j < |cpts[c]| && PointsInto(cpts[c][j], images[c]) && FullUpTo(images, c)
    requires Copied(images, |images|) <= memory && k < |config|
    requires Written(cpts, images, config[k], (c, j), store, rangeSize)
    ensures AddressKept(cpts, images, memory, config, c, j)
  {
    var s := cpts[c][j];
    var p := s.items["paddr"].num;
    Relocated(images, memory, c, p);
    assert forall i :: 0 <= i < c ==> Full(images[i]);
    assert Finds(config[k], NewName(s.name, c, |cpts|), memory, images[c].memory[p]);
  }

  /** The merged memory: whole pages, and as long as it claims to be exactly when no image is short. */
  ghost predicate MemoryLaid(images: seq<Image>, memory: seq<Byte>, memorySize: nat, rangeSize: nat) {
    var used := PagesBefore(images, |images|) * 4096;
    && rangeSize % 4096 == 0 && rangeSize >= used && rangeSize >= memorySize
    && (rangeSize == used || rangeSize < memorySize + 4096)
    && (rangeSize == |memory| <==> FullUpTo(images, |images|))
    && (FullUpTo(images, |images|) ==> forall a :: used <= a < |memory| ==> memory[a] as int == '0' as int)
  }

  lemma {:induction false} LaidOut(images: seq<Image>, memory: seq<Byte>, memorySize: nat, rangeSize: nat)
    requires rangeSize >= PagesBefore(images, |images|) * PAGE && rangeSize >= memorySize && rangeSize % PAGE == 0
    requires rangeSize == PagesBefore(images, |images|) * PAGE || rangeSize < memorySize + PAGE
    requires memory == Copied(images, |images|) + Zeroes(rangeSize - PagesBefore(images, |images|) * PAGE)
    ensures MemoryLaid(images, memory, memorySize, rangeSize) && Copied(images, |images|) <= memory
  {
    RangeSizeIff(images, memory, rangeSize);
    CopiedSize(images, |images|);
    assert FullUpTo(images, |images|) <==> forall k :: 0 <= k < |images| ==> Full(images[k]);
  }

  /** What the written configuration says: the kept sections in order, then the two new ones. */
  ghost predicate ConfigLaid(cpts: seq<seq<Section>>, images: seq<Image>, config: seq<Section>, from: seq<(nat, nat)>,
                             store: string, rangeSize: nat, tick: int)
    requires |cpts| == |images|
  {
    && ListsKept(cpts, |cpts|, from) && |config| == |from| + 2
    && (forall k :: 0 <= k < |from| ==> Written(cpts, images, config[k], from[k], store, rangeSize))
    && config[|from|].name == "system"
    && config[|from|].items == map["pagePtr" := Num(PagesBefore(images, |images|)), "nextPID" := Num(|cpts|)]
    && config[|from| + 1] == Section("Globals", map["curTick" := Num(tick)])
    && LatestOfAll(cpts, tick)
  }

  /** `written` is `all` and the two new sections, and `config` is `written` with the size set. */
  ghost predicate Extends(written: seq<Section>, all: seq<Section>, config: seq<Section>, store: string, rangeSize: nat)
  {
    && |written| == |all| + 2 && written[..|all|] == all
    && written[|all|].name == "system" && written[|all| + 1].name == "Globals"
    && |config| == |written| && forall k :: 0 <= k < |config| ==> Sized(config[k], written[k], store, rangeSize)
  }

  lemma {:induction false} AllWritten(cpts: seq<seq<Section>>, images: seq<Image>, all: seq<Section>,
                                      written: seq<Section>, config: seq<Section>, from: seq<(nat, nat)>, store: string,
                                      rangeSize: nat)
    requires |cpts| == |images| && Traced(cpts, images, all, from) && !HasCpu(store)
    requires Extends(written, all, config, store, rangeSize)
    ensures forall k :: 0 <= k < |from| ==> Written(cpts, images, config[k], from[k], store, rangeSize)
  {
    forall k | 0 <= k < |from| ensures Written(cpts, images, config[k], from[k], store, rangeSize) {
      assert From(cpts, images, all[k], from[k]) && written[k] == written[..|all|][k] == all[k];
      OriginWritten(cpts, images, all[k], config[k], from[k], store, rangeSize);
    }
  }

  lemma {:induction false} ExtendsFacts(all: seq<Section>, written: seq<Section>, config: seq<Section>, store: string,
                                        rangeSize: nat)
    requires Extends(written, all, config, store, rangeSize) && !IsSpecial(store)
    ensures HasSection(written, store) <==> HasSection(all, store)
    ensures config[|all|] == written[|all|] && config[|all| + 1] == written[|all| + 1]
    ensures DistinctNames(all) && (forall k :: 0 <= k < |all| ==> !IsSpecial(all[k].name)) ==> DistinctNames(config)
  {
    assert forall k :: 0 <= k < |all| ==> written[k] == written[..|all|][k];
    assert "system"[0] != "Globals"[0];
  }

  /** aggregate, on the sections and images of the checkpoints. */
  method Aggregate(cpts: seq<seq<Section>>, images: seq<Image>, memorySize: nat)
      returns (r: Outcome, ghost from: seq<(nat, nat)>, ghost rangeSize: nat, ghost tick: int)
    requires |cpts| == |images| > 0 && forall c :: 0 <= c < |cpts| ==> DistinctNames(cpts[c])
    ensures r.Failed? <==>
              || (exists c :: 0 <= c < |cpts| && !AllReadable(cpts[c]))
              || !HasSection(cpts[|cpts| - 1], "system.physmem.store0")
    ensures r.Aggregated? ==>
              && MemoryLaid(images, r.memory, memorySize, rangeSize)
              && ConfigLaid(cpts, images, r.config, from, "system.physmem.store0", rangeSize, tick)
              && DistinctNames(r.config)
              && forall c: nat, j: nat ::
                   c < |cpts| && j < |cpts[c]| && PointsInto(cpts[c][j], images[c]) && FullUpTo(images, c) ==>
                     AddressKept(cpts, images, r.memory, r.config, c, j)
  {
    var store := "system.physmem.store0";
    StoreHasNoCpu(store);
    r, from, rangeSize, tick := AggregateInto(cpts, images, memorySize, store);
  }

  method AggregateInto(cpts: seq<seq<Section>>, images: seq<Image>, memorySize: nat, store: string)
      returns (r: Outcome, ghost from: seq<(nat, nat)>, ghost rangeSize: nat, ghost tick: int)
    requires |cpts| == |images| > 0 && forall c :: 0 <= c < |cpts| ==> DistinctNames(cpts[c])
    requires !HasCpu(store) && !IsSpecial(store)
    ensures r.Failed? <==>
              || (exists c :: 0 <= c < |cpts| && !AllReadable(cpts[c])) || !HasSection(cpts[|cpts| - 1], store)
    ensures r.Aggregated? ==>
              && MemoryLaid(images, r.memory, memorySize, rangeSize)
              && ConfigLaid(cpts, images, r.config, from, store, rangeSize, tick) && DistinctNames(r.config)
              && forall c: nat, j: nat ::
                   c < |cpts| && j < |cpts[c]| && PointsInto(cpts[c][j], images[c]) && FullUpTo(images, c) ==>
                     AddressKept(cpts, images, r.memory, r.config, c, j)
  {
    from := AllFrom(cpts, images, |cpts|);
    ghost var all := AllContributions(cpts, images, |cpts|);
    StoreIsLast(cpts, images, all, from, store);
    var ok, latest := ReadAll(cpts);
    var memory, bases, pagePtr, size := AggregateMemory(images, memorySize);
    rangeSize, tick := size, latest;
    if !ok {
      return Failed, from, rangeSize, tick;
    }
    var written := AggregateConfig(cpts, images, pagePtr, latest);
    var config;
    ok, config := SetRangeSize(written, store, size);
    ExtendsFacts(all, written, config, store, size);
    if !ok {
      return Failed, from, rangeSize, tick;
    }
    r := Aggregated(memory, config);
    LaidOut(images, memory, memorySize, size);
    AllWritten(cpts, images, all, written, config, from, store, size);
    MergedNamesDistinct(cpts, images);
    AddressesKept(cpts, images, memory, config, from, store, size);
  }

  lemma {:induction false} AddressesKept(cpts: seq<seq<Section>>, images: seq<Image>, memory: seq<Byte>,
                                         config: seq<Section>, from: seq<(nat, nat)>, store: string, rangeSize: nat)
    requires |cpts| == |images| && ListsKept(cpts, |cpts|, from) && Copied(images, |images|) <= memory
    requires |config| >= |from|
    requires forall k :: 0 <= k < |from| ==> Written(cpts, images, config[k], from[k], store, rangeSize)
    ensures forall c: nat, j: nat ::
              c < |cpts| && j < |cpts[c]| && PointsInto(cpts[c][j], images[c]) && FullUpTo(images, c) ==>
                AddressKept(cpts, images, memory, config, c, j)
  {
    forall c: nat, j: nat | c < |cpts| && j < |cpts[c]| && PointsInto(cpts[c][j], images[c]) && FullUpTo(images, c)
      ensures AddressKept(cpts, images, memory, config, c, j)
    {
      assert Kept(cpts, c, j);
      var k :| 0 <= k < |from| && from[k] == (c, j);
      AddressIsKept(cpts, images, memory, config, store, rangeSize, c, j, k);
    }
  }
}
