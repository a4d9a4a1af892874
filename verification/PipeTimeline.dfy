/**
 The timeline of one instruction in gem5/util/o3-pipeview.py (print_inst): which
 character stands in which column of which line.  Colours and the text after the
 closing bracket are not modelled.
 */
module PipeTimeline {
  import opened PipeQueue
  import opened Strings
  import Division

  /** A pipeline stage: its name, its letter and its tick. */
  datatype Stage = Stage(name: string, mark: char, tick: nat)

  const DISPATCH: nat := 3

  function StagesOf(i: Inst, stores: bool): seq<Stage> {
    [Stage("fetch", 'f', i.fetch), Stage("decode", 'd', i.decode), Stage("rename", 'n', i.rename),
     Stage("dispatch", 'p', i.dispatch), Stage("issue", 'i', i.issue), Stage("complete", 'c', i.complete),
     Stage("retire", 'r', i.retire)]
    + if stores then [Stage("store", 's', i.store)] else []
  }

  function Max(a: nat, b: nat): nat {
    if a < b then b else a
  }

  function MaxTick(st: seq<Stage>): nat {
    if st == [] then 0 else Max(MaxTick(st[..|st| - 1]), st[|st| - 1].tick)
  }

  lemma {:induction false} MaxTickBounds(st: seq<Stage>, k: nat)
    requires k < |st|
    ensures st[k].tick <= MaxTick(st)
  {
    if k < |st| - 1 { MaxTickBounds(st[..|st| - 1], k); }
  }

  /** Dispatch is not drawn when the instruction issues in the same tick. */
  predicate Hides(i: Inst, k: nat) {
    k == DISPATCH && i.dispatch == i.issue
  }

  /** Stage `k` is drawn somewhere. */
  predicate Drawn(i: Inst, st: seq<Stage>, k: nat) {
    k < |st| && st[k].tick != 0 && !Hides(i, k)
  }

  // ---------- the events of one line, sorted ----------

  /** The tuples that print_inst sorts: remainder, stage name, stage index. */
  datatype Event = Event(rem: nat, name: string, idx: nat)

  function EventOf(st: seq<Stage>, period: nat, k: nat): Event
    requires k < |st| && period > 0
  {
    Event(st[k].tick % period, st[k].name, k)
  }

  predicate EventLeq(a: Event, b: Event) {
    a.rem < b.rem || (a.rem == b.rem && CompareStrings(a.name, b.name) <= 0)
  }

  function InsertEvent(s: seq<Event>, e: Event): seq<Event> {
    if s == [] then [e]
    else if EventLeq(s[|s| - 1], e) then s + [e]
    else InsertEvent(s[..|s| - 1], e) + [s[|s| - 1]]
  }

  function SortEvents(s: seq<Event>): seq<Event> {
    if s == [] then [] else InsertEvent(SortEvents(s[..|s| - 1]), s[|s| - 1])
  }

  ghost predicate ByRemainder(s: seq<Event>) {
    forall j, k :: 0 <= j < k < |s| ==> s[j].rem <= s[k].rem
  }

  /** By remainder, and by name where remainders are equal. */
  ghost predicate InOrder(s: seq<Event>) {
    forall j, k :: 0 <= j < k < |s| ==> EventLeq(s[j], s[k])
  }

  ghost predicate OncePerStage(s: seq<Event>) {
    forall j, k :: 0 <= j < k < |s| ==> s[j].idx != s[k].idx
  }

  lemma {:induction false} EventsTotal(a: Event, b: Event)
    ensures EventLeq(a, b) || EventLeq(b, a)
  {
    StringsAntisymmetric(a.name, b.name);
  }

  lemma {:induction false} EventsTransitive(a: Event, b: Event, c: Event)
    requires EventLeq(a, b) && EventLeq(b, c)
    ensures EventLeq(a, c)
  {
    if a.rem == b.rem == c.rem {
      StringsTransitive(a.name, b.name, c.name);
    }
  }

  lemma {:induction false} InsertEventMembers(s: seq<Event>, e: Event)
    requires OncePerStage(s) && forall j :: 0 <= j < |s| ==> s[j].idx != e.idx
    ensures OncePerStage(InsertEvent(s, e))
    ensures forall x :: x in InsertEvent(s, e) <==> x in s || x == e
  {
    if s != [] && !EventLeq(s[|s| - 1], e) {
      var t, z := s[..|s| - 1], s[|s| - 1];
      assert s == t + [z];
      InsertEventMembers(t, e);
      var r := InsertEvent(t, e);
      forall j | 0 <= j < |r| ensures r[j].idx != z.idx {
        assert r[j] in r;
      }
    }
  }

  lemma {:induction false} InsertEventBelow(s: seq<Event>, e: Event, z: Event)
    requires (forall j :: 0 <= j < |s| ==> EventLeq(s[j], z)) && EventLeq(e, z)
    ensures forall j :: 0 <= j < |InsertEvent(s, e)| ==> EventLeq(InsertEvent(s, e)[j], z)
  {
    if s != [] && !EventLeq(s[|s| - 1], e) {
      InsertEventBelow(s[..|s| - 1], e, z);
    }
  }

  lemma {:induction false} InsertEventOrder(s: seq<Event>, e: Event)
    requires InOrder(s)
    ensures InOrder(InsertEvent(s, e))
  {
    if s != [] {
      var t, z := s[..|s| - 1], s[|s| - 1];
      if EventLeq(z, e) {
        forall j | 0 <= j < |s| ensures EventLeq(s[j], e) {
          if j < |s| - 1 {
            EventsTransitive(s[j], z, e);
          }
        }
      } else {
        EventsTotal(z, e);
        InsertEventOrder(t, e);
        InsertEventBelow(t, e, z);
      }
    }
  }

  lemma {:induction false} SortEventsFacts(s: seq<Event>)
    requires OncePerStage(s)
    ensures InOrder(SortEvents(s)) && OncePerStage(SortEvents(s))
    ensures forall x :: x in SortEvents(s) <==> x in s
  {
    if s != [] {
      var t, z := s[..|s| - 1], s[|s| - 1];
      assert s == t + [z];
      SortEventsFacts(t);
      var r := SortEvents(t);
      forall j | 0 <= j < |r| ensures r[j].idx != z.idx {
        assert r[j] in r;
      }
      InsertEventMembers(r, z);
      InsertEventOrder(r, z);
    }
  }

  predicate InWindow(st: seq<Stage>, k: nat, start: nat, end: nat) {
    k < |st| && st[k].tick != 0 && start <= st[k].tick < end
  }

  /** `events` are the events of the stages with a tick from `start` up to `end`, once each, in order. */
  ghost predicate EventsOf(st: seq<Stage>, period: nat, start: nat, end: nat, events: seq<Event>)
    requires period > 0
  {
    && InOrder(events) && OncePerStage(events)
    && (forall e :: e in events ==> InWindow(st, e.idx, start, end) && e == EventOf(st, period, e.idx))
    && (forall k: nat :: InWindow(st, k, start, end) ==> EventOf(st, period, k) in events)
  }

  method CollectEvents(st: seq<Stage>, period: nat, start: nat, end: nat) returns (events: seq<Event>)
    requires period > 0
    ensures EventsOf(st, period, start, end, events)
  {
    events := [];
    for k := 0 to |st|
      invariant OncePerStage(events)
      invariant forall e :: e in events ==>
          e.idx < k && InWindow(st, e.idx, start, end) && e == EventOf(st, period, e.idx)
      invariant forall x: nat :: x < k && InWindow(st, x, start, end) ==> EventOf(st, period, x) in events
    {
      if st[k].tick != 0 && start <= st[k].tick < end {
        forall j | 0 <= j < |events| ensures events[j].idx < k {
          assert events[j] in events;
        }
        events := events + [EventOf(st, period, k)];
      }
    }
    SortEventsFacts(events);
    events := SortEvents(events);
  }

  // ---------- drawing a line ----------

  datatype Cell = Cell(col: nat, mark: char)

  ghost predicate Known(st: seq<Stage>, events: seq<Event>) {
    forall j :: 0 <= j < |events| ==> events[j].idx < |st|
  }

  function CellOf(st: seq<Stage>, cycle: nat, e: Event): Cell
    requires cycle > 0 && e.idx < |st|
  {
    Cell(e.rem / cycle, st[e.idx].mark)
  }

  function Column(e: Event, cycle: nat): nat
    requires cycle > 0
  {
    e.rem / cycle
  }

  /** What is drawn for a list of events, in drawing order. */
  ghost function Cells(i: Inst, st: seq<Stage>, cycle: nat, events: seq<Event>): seq<Cell>
    requires cycle > 0 && Known(st, events)
  {
    if events == [] then []
    else
      var e := events[|events| - 1];
      Cells(i, st, cycle, events[..|events| - 1]) + if Hides(i, e.idx) then [] else [CellOf(st, cycle, e)]
  }

  /** How often an event falls into the column of the one before it. */
  ghost function Collisions(cells: seq<Cell>): nat {
    if |cells| < 2 then 0
    else Collisions(cells[..|cells| - 1]) + if cells[|cells| - 2].col == cells[|cells| - 1].col then 1 else 0
  }

  ghost predicate Ascending(cells: seq<Cell>) {
    forall j, k :: 0 <= j < k < |cells| ==> cells[j].col <= cells[k].col
  }

  ghost predicate AscendingStrictly(cells: seq<Cell>) {
    forall j, k :: 0 <= j < k < |cells| ==> cells[j].col < cells[k].col
  }

  ghost function NextPos(cells: seq<Cell>): nat {
    if cells == [] then 0 else cells[|cells| - 1].col + 1
  }

  function Dots(dot: char, n: int): (s: string)
    ensures |s| == if n > 0 then n else 0
    ensures forall k :: 0 <= k < |s| ==> s[k] == dot
  {
    if n <= 0 then "" else seq(n, _ => dot)
  }

  /** Where the letter of cell `k` stands: one place to the right for every collision so far. */
  ghost function Place(cells: seq<Cell>, k: nat): nat
    requires k < |cells|
  {
    cells[k].col + Collisions(cells[..k + 1])
  }

  /** Every cell shows its mark at its place, and every other place shows a dot. */
  ghost predicate Shows(line: string, cells: seq<Cell>, dot: char) {
    && (forall k :: 0 <= k < |cells| ==> Place(cells, k) < |line| && line[Place(cells, k)] == cells[k].mark)
    && (forall c :: 0 <= c < |line| && (forall k :: 0 <= k < |cells| ==> Place(cells, k) != c) ==> line[c] == dot)
  }

  /** What has been written after drawing `cells`. */
  ghost predicate DrawnSoFar(line: string, cells: seq<Cell>, dot: char) {
    |line| == NextPos(cells) + Collisions(cells) && Shows(line, cells, dot)
  }

  lemma {:induction false} PlaceKept(cells: seq<Cell>, cell: Cell, k: nat)
    requires k < |cells|
    ensures Place(cells + [cell], k) == Place(cells, k)
  {
    assert (cells + [cell])[..k + 1] == cells[..k + 1];
  }

  lemma {:induction false} PlaceOfLast(line: string, cells: seq<Cell>, cell: Cell, dot: char)
    requires Ascending(cells + [cell]) && |line| == NextPos(cells) + Collisions(cells)
    ensures Place(cells + [cell], |cells|) == |line + Dots(dot, cell.col - NextPos(cells))|
    ensures Place(cells + [cell], |cells|) == cell.col + Collisions(cells + [cell])
  {
    var all := cells + [cell];
    assert all[..|cells| + 1] == all && all[..|all| - 1] == cells;
    if cells != [] {
      assert all[|all| - 2].col <= all[|all| - 1].col;
    }
  }

  lemma {:induction false} ShowsMore(line: string, cells: seq<Cell>, cell: Cell, dot: char, more: string)
    requires Shows(line, cells, dot) && (forall c :: 0 <= c < |more| ==> more[c] == dot)
    requires Place(cells + [cell], |cells|) == |line + more|
    ensures Shows(line + more + [cell.mark], cells + [cell], dot)
  {
    var all, out := cells + [cell], line + more + [cell.mark];
    forall k | 0 <= k < |all| ensures Place(all, k) < |out| && out[Place(all, k)] == all[k].mark {
      if k < |cells| {
        PlaceKept(cells, cell, k);
      }
    }
    forall c | 0 <= c < |out| && (forall k :: 0 <= k < |all| ==> Place(all, k) != c) ensures out[c] == dot {
      assert Place(all, |cells|) != c;
      forall k | 0 <= k < |cells| ensures Place(cells, k) != c {
        PlaceKept(cells, cell, k);
        assert Place(all, k) != c;
      }
    }
  }

  lemma {:induction false} DrawCell(line: string, cells: seq<Cell>, cell: Cell, dot: char)
    requires Ascending(cells + [cell]) && DrawnSoFar(line, cells, dot)
    ensures DrawnSoFar(line + Dots(dot, cell.col - NextPos(cells)) + [cell.mark], cells + [cell], dot)
  {
    PlaceOfLast(line, cells, cell, dot);
    ShowsMore(line, cells, cell, dot, Dots(dot, cell.col - NextPos(cells)));
  }

  lemma {:induction false} CellsWithin(i: Inst, st: seq<Stage>, cycle: nat, events: seq<Event>, bound: nat)
    requires cycle > 0 && Known(st, events) && ByRemainder(events)
    requires forall j :: 0 <= j < |events| ==> events[j].rem <= bound
    ensures var cells := Cells(i, st, cycle, events);
            Ascending(cells) && forall k :: 0 <= k < |cells| ==> cells[k].col <= bound / cycle
  {
    if events != [] {
      var e := events[|events| - 1];
      CellsWithin(i, st, cycle, events[..|events| - 1], e.rem);
      Division.QuotientMonotone(e.rem, bound, cycle);
    }
  }

  /** `Cells` of a longer list of events extends `Cells` of a shorter one. */
  lemma {:induction false} CellsPrefix(i: Inst, st: seq<Stage>, cycle: nat, events: seq<Event>, n: nat)
    requires cycle > 0 && Known(st, events) && n <= |events|
    ensures Cells(i, st, cycle, events[..n]) <= Cells(i, st, cycle, events)
    decreases |events|
  {
    if n == |events| {
      assert events[..n] == events;
    } else {
      CellsPrefix(i, st, cycle, events[..|events| - 1], n);
      assert events[..|events| - 1][..n] == events[..n];
    }
  }

  lemma {:induction false} CellsStep(i: Inst, st: seq<Stage>, cycle: nat, events: seq<Event>, j: nat)
    requires cycle > 0 && Known(st, events) && j < |events|
    ensures Hides(i, events[j].idx) ==> Cells(i, st, cycle, events[..j + 1]) == Cells(i, st, cycle, events[..j])
    ensures !Hides(i, events[j].idx) ==>
              Cells(i, st, cycle, events[..j + 1]) == Cells(i, st, cycle, events[..j]) + [CellOf(st, cycle, events[j])]
  {
    assert events[..j + 1][..j] == events[..j];
    assert Cells(i, st, cycle, events[..j]) + [] == Cells(i, st, cycle, events[..j]);
  }

  lemma {:induction false} AscendingPrefix(a: seq<Cell>, b: seq<Cell>)
    requires Ascending(b) && a <= b
    ensures Ascending(a)
  {
    forall j, k | 0 <= j < k < |a| ensures a[j].col <= a[k].col {
      assert a[j] == b[j] && a[k] == b[k];
    }
  }

  /** `CellsStep`, and the columns still ascend. */
  lemma {:induction false} NextCells(i: Inst, st: seq<Stage>, cycle: nat, events: seq<Event>, j: nat)
    requires cycle > 0 && Known(st, events) && j < |events| && Ascending(Cells(i, st, cycle, events))
    ensures Hides(i, events[j].idx) ==> Cells(i, st, cycle, events[..j + 1]) == Cells(i, st, cycle, events[..j])
    ensures !Hides(i, events[j].idx) ==>
              Cells(i, st, cycle, events[..j + 1]) == Cells(i, st, cycle, events[..j]) + [CellOf(st, cycle, events[j])]
    ensures Ascending(Cells(i, st, cycle, events[..j + 1]))
  {
    CellsStep(i, st, cycle, events, j);
    CellsPrefix(i, st, cycle, events, j + 1);
    AscendingPrefix(Cells(i, st, cycle, events[..j + 1]), Cells(i, st, cycle, events));
  }

  /** Dots up to the column of `cell`, then its letter. */
  method WriteCell(line: string, pos: nat, cell: Cell, dot: char, ghost cells: seq<Cell>)
      returns (line': string, pos': nat)
    requires Ascending(cells + [cell]) && DrawnSoFar(line, cells, dot) && pos == NextPos(cells)
    ensures DrawnSoFar(line', cells + [cell], dot) && pos' == NextPos(cells + [cell])
  {
    DrawCell(line, cells, cell, dot);
    line' := line + Dots(dot, cell.col - pos) + [cell.mark];
    pos' := cell.col + 1;
  }

  method DrawEvents(i: Inst, st: seq<Stage>, events: seq<Event>, cycle: nat, dot: char) returns (line: string, pos: nat)
    requires cycle > 0 && Known(st, events) && Ascending(Cells(i, st, cycle, events))
    ensures var cells := Cells(i, st, cycle, events); pos == NextPos(cells) && DrawnSoFar(line, cells, dot)
  {
    line, pos := "", 0;
    ghost var cells := [];
    for j := 0 to |events|
      invariant cells == Cells(i, st, cycle, events[..j]) && pos == NextPos(cells) && DrawnSoFar(line, cells, dot)
    {
      NextCells(i, st, cycle, events, j);
      if !Hides(i, events[j].idx) {
        var cell := CellOf(st, cycle, events[j]);
        line, pos := WriteCell(line, pos, cell, dot, cells);
        cells := cells + [cell];
      }
    }
    assert events[..|events|] == events;
  }

  /** The text between the brackets of one line: one column too many for every collision. */
  method PrintLine(i: Inst, st: seq<Stage>, events: seq<Event>, cycle: nat, width: nat, dot: char)
      returns (line: string)
    requires width > 0 && cycle > 0 && Known(st, events) && ByRemainder(events)
    requires forall j :: 0 <= j < |events| ==> events[j].rem < width * cycle
    ensures var cells := Cells(i, st, cycle, events);
            Ascending(cells) && |line| == width + Collisions(cells) && Shows(line, cells, dot)
  {
    ColumnsWithin(i, st, events, cycle, width);
    var pos;
    line, pos := DrawEvents(i, st, events, cycle, dot);
    FinishLine(line, Cells(i, st, cycle, events), dot, width);
    line := line + Dots(dot, width - pos);
  }

  lemma {:induction false} ColumnsWithin(i: Inst, st: seq<Stage>, events: seq<Event>, cycle: nat, width: nat)
    requires width > 0 && cycle > 0 && Known(st, events) && ByRemainder(events)
    requires forall j :: 0 <= j < |events| ==> events[j].rem < width * cycle
    ensures var cells := Cells(i, st, cycle, events); Ascending(cells) && NextPos(cells) <= width
  {
    LastColumn(width, cycle);
    CellsWithin(i, st, cycle, events, width * cycle - 1);
  }

  lemma {:induction false} LastColumn(width: nat, cycle: nat)
    requires width > 0 && cycle > 0
    ensures width * cycle > 0 && (width * cycle - 1) / cycle == width - 1
  {
    assert width * cycle == (width - 1) * cycle + cycle;
    Division.ProductGap(0, width, cycle);
    assert (width - 1) * cycle >= 0;
    Division.QuotientUnique(width * cycle - 1, cycle, width - 1, cycle - 1);
  }

  lemma {:induction false} FinishLine(line: string, cells: seq<Cell>, dot: char, width: nat)
    requires DrawnSoFar(line, cells, dot) && NextPos(cells) <= width
    ensures var out := line + Dots(dot, width - NextPos(cells));
            |out| == width + Collisions(cells) && Shows(out, cells, dot)
  {
  }

  /** Without collisions every letter stands in its own column. */
  lemma {:induction false} StrictPlace(cells: seq<Cell>, k: nat)
    requires AscendingStrictly(cells) && k < |cells|
    ensures Place(cells, k) == cells[k].col
  {
    var front := cells[..k + 1];
    forall j, l | 0 <= j < l < |front| ensures front[j].col < front[l].col {
      assert front[j] == cells[j] && front[l] == cells[l];
    }
    NoCollisions(front);
  }

  // ---------- cells and events ----------

  lemma {:induction false} CellFromEvent(i: Inst, st: seq<Stage>, cycle: nat, events: seq<Event>, c: nat)
      returns (j: nat)
    requires cycle > 0 && Known(st, events) && c < |Cells(i, st, cycle, events)|
    ensures j < |events| && !Hides(i, events[j].idx) && Cells(i, st, cycle, events)[c] == CellOf(st, cycle, events[j])
  {
    var front := events[..|events| - 1];
    if c < |Cells(i, st, cycle, front)| {
      j := CellFromEvent(i, st, cycle, front, c);
    } else {
      j := |events| - 1;
    }
  }

  lemma {:induction false} EventHasCell(i: Inst, st: seq<Stage>, cycle: nat, events: seq<Event>, j: nat)
      returns (c: nat)
    requires cycle > 0 && Known(st, events) && j < |events| && !Hides(i, events[j].idx)
    ensures c < |Cells(i, st, cycle, events)| && Cells(i, st, cycle, events)[c] == CellOf(st, cycle, events[j])
  {
    var front := events[..|events| - 1];
    if j < |events| - 1 {
      c := EventHasCell(i, st, cycle, front, j);
    } else {
      c := |Cells(i, st, cycle, front)|;
    }
  }

  /** No two drawn events share a column. */
  ghost predicate ColumnsDiffer(i: Inst, cycle: nat, events: seq<Event>)
    requires cycle > 0
  {
    forall j, k :: 0 <= j < k < |events| && !Hides(i, events[j].idx) && !Hides(i, events[k].idx) ==>
      events[j].rem / cycle != events[k].rem / cycle
  }

  lemma {:induction false} CellsStrict(i: Inst, st: seq<Stage>, cycle: nat, events: seq<Event>)
    requires cycle > 0 && Known(st, events) && Ascending(Cells(i, st, cycle, events)) && ColumnsDiffer(i, cycle, events)
    ensures AscendingStrictly(Cells(i, st, cycle, events))
  {
    if events != [] {
      var n := |events| - 1;
      var front, cells := Cells(i, st, cycle, events[..n]), Cells(i, st, cycle, events);
      assert events[..n + 1] == events;
      CellsStep(i, st, cycle, events, n);
      AscendingPrefix(front, cells);
      assert ColumnsDiffer(i, cycle, events[..n]) by {
        forall j, k | 0 <= j < k < n && !Hides(i, events[..n][j].idx) && !Hides(i, events[..n][k].idx)
          ensures events[..n][j].rem / cycle != events[..n][k].rem / cycle
        {
          assert events[..n][j] == events[j] && events[..n][k] == events[k];
        }
      }
      CellsStrict(i, st, cycle, events[..n]);
      if !Hides(i, events[n].idx) {
        forall c | 0 <= c < |front| ensures cells[c].col < cells[|front|].col {
          var j := CellFromEvent(i, st, cycle, events[..n], c);
          assert events[..n][j] == events[j];
          assert cells[c] == front[c];
        }
      }
    }
  }

  lemma {:induction false} StrictIff(cells: seq<Cell>)
    requires |cells| >= 2
    ensures AscendingStrictly(cells) <==>
        AscendingStrictly(cells[..|cells| - 1]) && cells[|cells| - 2].col < cells[|cells| - 1].col
  {
    var front, n := cells[..|cells| - 1], |cells|;
    assert forall j :: 0 <= j < n - 1 ==> front[j] == cells[j];
    if AscendingStrictly(front) && cells[n - 2].col < cells[n - 1].col {
      forall j, k | 0 <= j < k < n ensures cells[j].col < cells[k].col {
        assert j < n - 2 ==> front[j].col < front[n - 2].col;
        assert k < n - 1 ==> front[j].col < front[k].col;
      }
    }
  }

  lemma {:induction false} NoCollisions(cells: seq<Cell>)
    requires Ascending(cells)
    ensures Collisions(cells) == 0 <==> AscendingStrictly(cells)
  {
    if |cells| >= 2 {
      var front, n := cells[..|cells| - 1], |cells|;
      AscendingPrefix(front, cells);
      NoCollisions(front);
      StrictIff(cells);
      assert cells[n - 2].col <= cells[n - 1].col;
    }
  }

  // ---------- the timeline of an instruction ----------

  /** Too short for a line of its own: drawn on one line, wrapping round (lines 239-240). */
  predicate Compact(i: Inst, st: seq<Stage>, period: nat) {
    MaxTick(st) < i.fetch + period
  }

  /** The line on which stage `k` is drawn. */
  function LineOf(i: Inst, st: seq<Stage>, period: nat, k: nat): int
    requires period > 0 && k < |st|
  {
    if Compact(i, st, period) then 0 else st[k].tick / period - i.fetch / period
  }

  function LineCount(i: Inst, st: seq<Stage>, period: nat): nat
    requires period > 0
  {
    if Compact(i, st, period) || MaxTick(st) / period < i.fetch / period then 1
    else MaxTick(st) / period - i.fetch / period + 1
  }

  /** The first tick of line `n` and the first tick after it. */
  function WindowOf(i: Inst, st: seq<Stage>, period: nat, n: nat): (nat, nat)
    requires period > 0
  {
    var start := (i.fetch / period) * period + n * period;
    (start, start + period + if Compact(i, st, period) then i.fetch % period else 0)
  }

  /** Not before the period in which the instruction was fetched, which is where drawing starts. */
  predicate AfterBase(i: Inst, period: nat, tick: nat)
    requires period > 0
  {
    tick >= (i.fetch / period) * period
  }

  lemma {:induction false} WindowIff(i: Inst, st: seq<Stage>, period: nat, n: nat, k: nat)
    requires period > 0 && k < |st| && st[k].tick != 0 && AfterBase(i, period, st[k].tick)
    requires Compact(i, st, period) ==> n == 0
    ensures InWindow(st, k, WindowOf(i, st, period, n).0, WindowOf(i, st, period, n).1) <==>
        LineOf(i, st, period, k) == n
  {
    MaxTickBounds(st, k);
    WindowHolds(i.fetch, st[k].tick, period, n, Compact(i, st, period));
  }

  lemma {:induction false} WindowHolds(fetch: nat, tick: nat, period: nat, n: nat, compact: bool)
    requires period > 0 && tick >= (fetch / period) * period && (compact ==> n == 0 && tick < fetch + period)
    ensures (var start := (fetch / period) * period + n * period;
             start <= tick < start + period + (if compact then fetch % period else 0))
       <==> (if compact then 0 else tick / period - fetch / period) == n
  {
    WindowBounds(fetch, period, n);
    if !compact {
      Division.PeriodIff(tick, period, fetch / period + n);
    }
  }

  lemma {:induction false} WindowBounds(fetch: nat, period: nat, n: nat)
    requires period > 0
    ensures (fetch / period) * period + n * period == (fetch / period + n) * period
    ensures fetch == (fetch / period) * period + fetch % period
  {
  }

  /** Nothing before the base is in a window. */
  lemma {:induction false} WindowAfterBase(i: Inst, st: seq<Stage>, period: nat, n: nat, k: nat)
    requires period > 0 && InWindow(st, k, WindowOf(i, st, period, n).0, WindowOf(i, st, period, n).1)
    ensures AfterBase(i, period, st[k].tick)
  {
    assert n * period >= 0;
  }

  lemma {:induction false} LineInRange(i: Inst, st: seq<Stage>, period: nat, k: nat)
    requires period > 0 && k < |st| && AfterBase(i, period, st[k].tick)
    ensures 0 <= LineOf(i, st, period, k) < LineCount(i, st, period)
  {
    MaxTickBounds(st, k);
    Division.QuotientAtLeast(st[k].tick, i.fetch / period, period);
    Division.QuotientMonotone(st[k].tick, MaxTick(st), period);
  }

  lemma {:induction false} FetchAfterBase(i: Inst, period: nat, tick: nat)
    requires period > 0 && tick >= i.fetch
    ensures AfterBase(i, period, tick)
  {
    WindowBounds(i.fetch, period, 0);
  }

  /** The line count as the source computes it, from the start of the first line. */
  lemma {:induction false} LineCountBySubtraction(fetch: nat, last: nat, period: nat)
    requires period > 0 && fetch <= last
    ensures last >= (fetch / period) * period
    ensures (last - (fetch / period) * period) / period == last / period - fetch / period
    ensures last >= fetch + period ==> last / period >= fetch / period + 1
  {
    var q, p := fetch / period, last / period;
    Division.QuotientMonotone(fetch, last, period);
    assert fetch == q * period + fetch % period && last == p * period + last % period;
    assert (p - q) * period == p * period - q * period;
    Division.QuotientUnique(last - q * period, period, p - q, last % period);
    Division.PeriodIff(last, period, q);
  }

  datatype Timeline = IndexError | Lines(lines: seq<string>)

  function DotOf(i: Inst): char {
    if i.retire == 0 then '=' else '.'
  }

  /** Line `n` draws exactly `events`, one column too many for every collision. */
  ghost predicate LineDraws(i: Inst, st: seq<Stage>, cycle: nat, width: nat, n: nat, events: seq<Event>, line: string)
    requires cycle > 0 && width * cycle > 0
  {
    var (start, end) := WindowOf(i, st, width * cycle, n);
    && EventsOf(st, width * cycle, start, end, events) && Known(st, events)
    && var cells := Cells(i, st, cycle, events);
       Ascending(cells) && |line| == width + Collisions(cells) && Shows(line, cells, DotOf(i))
  }

  lemma {:induction false} EventsKnown(st: seq<Stage>, period: nat, start: nat, end: nat, events: seq<Event>)
    requires period > 0 && EventsOf(st, period, start, end, events)
    ensures Known(st, events) && forall j :: 0 <= j < |events| ==> events[j].rem < period
  {
    forall j | 0 <= j < |events| ensures events[j].idx < |st| && events[j].rem < period {
      assert events[j] in events;
    }
  }

  /** One line of the timeline. */
  method TimelineLine(i: Inst, st: seq<Stage>, cycle: nat, width: nat, n: nat, start: nat, end: nat)
      returns (line: string, events: seq<Event>)
    requires cycle > 0 && width > 0 && width * cycle > 0 && (start, end) == WindowOf(i, st, width * cycle, n)
    ensures LineDraws(i, st, cycle, width, n, events, line)
  {
    events := CollectEvents(st, width * cycle, start, end);
    EventsKnown(st, width * cycle, start, end, events);
    line := PrintLine(i, st, events, cycle, width, DotOf(i));
  }

  lemma {:induction false} FirstStageIsFetch(i: Inst, stores: bool)
    ensures |StagesOf(i, stores)| >= 7 && StagesOf(i, stores)[0].tick == i.fetch <= MaxTick(StagesOf(i, stores))
  {
    MaxTickBounds(StagesOf(i, stores), 0);
  }

  /** Where the lines start, and how many there are (lines 227-242). */
  method Geometry(i: Inst, st: seq<Stage>, period: nat) returns (base: nat, numLines: nat)
    requires period > 0 && i.fetch <= MaxTick(st)
    ensures base == (i.fetch / period) * period && i.fetch - base == i.fetch % period
    ensures numLines == LineCount(i, st, period) && (numLines == 1 <==> Compact(i, st, period))
  {
    base := (i.fetch / period) * period;
    var last := MaxTick(st);
    LineCountBySubtraction(i.fetch, last, period);
    WindowBounds(i.fetch, period, 0);
    numLines := if last - i.fetch < period then 1 else (last - base) / period + 1;
  }

  lemma {:induction false} MaxTickAttained(st: seq<Stage>) returns (k: nat)
    requires MaxTick(st) > 0
    ensures k < |st| && st[k].tick == MaxTick(st)
  {
    k := |st| - 1;
    if st[k].tick != MaxTick(st) { k := MaxTickAttained(st[..|st| - 1]); }
  }

  /** The single line of the compact form is without events exactly when no stage has a tick. */
  lemma {:induction false} EmptyLineIff(i: Inst, st: seq<Stage>, cycle: nat, width: nat, events: seq<Event>,
                                        line: string)
    requires cycle > 0 && width * cycle > 0 && LineDraws(i, st, cycle, width, 0, events, line)
    requires Compact(i, st, width * cycle) && i.fetch <= MaxTick(st)
    ensures events == [] <==> MaxTick(st) == 0
  {
    if MaxTick(st) > 0 {
      var k := MaxTickAttained(st);
      FetchAfterBase(i, width * cycle, st[k].tick);
      WindowIff(i, st, width * cycle, 0, k);
    } else if events != [] {
      assert events[0] in events;
      MaxTickBounds(st, events[0].idx);
    }
  }

  /** The lines drawn so far. */
  ghost predicate LinesDraw(i: Inst, st: seq<Stage>, cycle: nat, width: nat, events: seq<seq<Event>>,
                            lines: seq<string>)
    requires cycle > 0 && width * cycle > 0
  {
    |lines| == |events| && forall n :: 0 <= n < |lines| ==> LineDraws(i, st, cycle, width, n, events[n], lines[n])
  }

  lemma {:induction false} LinesMore(i: Inst, st: seq<Stage>, cycle: nat, width: nat, events: seq<seq<Event>>,
                                     lines: seq<string>,
                                     es: seq<Event>, line: string)
    requires cycle > 0 && width * cycle > 0 && LinesDraw(i, st, cycle, width, events, lines)
    requires LineDraws(i, st, cycle, width, |lines|, es, line)
    ensures LinesDraw(i, st, cycle, width, events + [es], lines + [line])
  {
  }

  /** print_inst, the part between the brackets; looking at the first event fails exactly if there is none. */
  method PrintInst(i: Inst, cycle: nat, width: nat, stores: bool) returns (r: Timeline, ghost events: seq<seq<Event>>)
    requires cycle > 0 && width > 0
    ensures width * cycle > 0
    ensures r.IndexError? <==> MaxTick(StagesOf(i, stores)) == 0
    ensures r.Lines? ==>
              var st := StagesOf(i, stores);
              && |r.lines| == LineCount(i, st, width * cycle) && (|r.lines| == 1 <==> Compact(i, st, width * cycle))
              && LinesDraw(i, st, cycle, width, events, r.lines)
  {
    LastColumn(width, cycle);
    var period := width * cycle;
    var st := StagesOf(i, stores);
    FirstStageIsFetch(i, stores);
    var base, numLines := Geometry(i, st, period);
    var lines: seq<string> := [];
    events := [];
    for n := 0 to numLines
      invariant |lines| == n && LinesDraw(i, st, cycle, width, events, lines)
      invariant n > 0 && numLines == 1 ==> MaxTick(st) > 0
    {
      var start := base + n * period;
      var end := start + period;
      if numLines == 1 {
        end := end + (i.fetch - base);
      }
      var line, es := TimelineLine(i, st, cycle, width, n, start, end);
      if numLines == 1 {
        EmptyLineIff(i, st, cycle, width, es, line);
        if es == [] {
          return IndexError, events;
        }
      }
      LinesMore(i, st, cycle, width, events, lines, es, line);
      lines, events := lines + [line], events + [es];
    }
    r := Lines(lines);
  }
}
