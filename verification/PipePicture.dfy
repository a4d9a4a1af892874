/**
 What a reader sees in the timeline of one instruction: every stage once, in the
 column of its cycle, and dots everywhere else.
 */
module PipePicture {
  import opened PipeQueue
  import opened PipeTimeline
  import Division

  /** Stage `k` is drawn on some line: ticks before the base of the first line never are. */
  predicate Visible(i: Inst, st: seq<Stage>, period: nat, k: nat)
    requires period > 0
  {
    Drawn(i, st, k) && AfterBase(i, period, st[k].tick)
  }

  /** The cycle of stage `k`, counted within a line. */
  function CycleColumn(st: seq<Stage>, cycle: nat, width: nat, k: nat): nat
    requires cycle > 0 && width > 0 && k < |st|
  {
    (st[k].tick / cycle) % width
  }

  /** Stage `k` is drawn in column `c` of line `n`. */
  ghost predicate StandsAt(i: Inst, st: seq<Stage>, cycle: nat, width: nat, k: nat, n: nat, c: nat)
    requires cycle > 0 && width > 0 && width * cycle > 0
  {
    Visible(i, st, width * cycle, k) && LineOf(i, st, width * cycle, k) == n && CycleColumn(st, cycle, width, k) == c
  }

  /** The picture of line `n`. */
  ghost predicate LinePicture(i: Inst, st: seq<Stage>, cycle: nat, width: nat, n: nat, line: string)
    requires cycle > 0 && width > 0 && width * cycle > 0
  {
    && |line| == width
    && (forall k: nat, c: nat :: StandsAt(i, st, cycle, width, k, n, c) ==> c < width && line[c] == st[k].mark)
    && (forall c: nat :: c < width && (forall k: nat :: !StandsAt(i, st, cycle, width, k, n, c)) ==>
         line[c] == DotOf(i))
  }

  // ---------- which stages share a column ----------

  /** No two visible stages are in one cycle and, in the compact form, none are a whole line of cycles apart. */
  ghost predicate ClearTicks(i: Inst, st: seq<Stage>, cycle: nat, width: nat)
    requires cycle > 0 && width * cycle > 0
  {
    forall j: nat, k: nat :: Visible(i, st, width * cycle, j) && Visible(i, st, width * cycle, k) && j != k ==>
      Apart(i, st, cycle, width, j, k)
  }

  ghost predicate Apart(i: Inst, st: seq<Stage>, cycle: nat, width: nat, j: nat, k: nat)
    requires cycle > 0 && width * cycle > 0 && j < |st| && k < |st|
  {
    && st[j].tick / cycle != st[k].tick / cycle
    && (Compact(i, st, width * cycle) ==>
          st[j].tick / cycle + width != st[k].tick / cycle && st[k].tick / cycle + width != st[j].tick / cycle)
  }

  ghost predicate ShareColumn(i: Inst, st: seq<Stage>, cycle: nat, width: nat, j: nat, k: nat)
    requires cycle > 0 && width > 0 && width * cycle > 0 && j < |st| && k < |st|
  {
    && LineOf(i, st, width * cycle, j) == LineOf(i, st, width * cycle, k)
    && CycleColumn(st, cycle, width, j) == CycleColumn(st, cycle, width, k)
  }

  /** In the compact form all visible cycles are within two lines of each other. */
  lemma {:induction false} CompactCycles(i: Inst, st: seq<Stage>, cycle: nat, width: nat, j: nat, k: nat)
      returns (low: nat)
    requires cycle > 0 && width > 0 && width * cycle > 0 && Compact(i, st, width * cycle)
    requires Visible(i, st, width * cycle, j) && Visible(i, st, width * cycle, k)
    ensures low <= st[j].tick / cycle < low + 2 * width && low <= st[k].tick / cycle < low + 2 * width
  {
    low := Division.FirstCycle(i.fetch, width, cycle);
    CompactCycle(i, st, cycle, width, low, j);
    CompactCycle(i, st, cycle, width, low, k);
  }

  lemma {:induction false} CompactCycle(i: Inst, st: seq<Stage>, cycle: nat, width: nat, low: nat, k: nat)
    requires cycle > 0 && width > 0 && width * cycle > 0 && Compact(i, st, width * cycle)
    requires Visible(i, st, width * cycle, k) && low == (i.fetch / (width * cycle)) * width
    ensures low <= st[k].tick / cycle < low + 2 * width
  {
    MaxTickBounds(st, k);
    Division.QuotientsFromBase(i.fetch, st[k].tick, width, cycle);
  }

  lemma {:induction false} ShareColumnCompact(i: Inst, st: seq<Stage>, cycle: nat, width: nat, j: nat, k: nat)
    requires cycle > 0 && width > 0 && width * cycle > 0 && Compact(i, st, width * cycle)
    requires Visible(i, st, width * cycle, j) && Visible(i, st, width * cycle, k)
    ensures ShareColumn(i, st, cycle, width, j, k) <==> !Apart(i, st, cycle, width, j, k)
  {
    var low := CompactCycles(i, st, cycle, width, j, k);
    var a, b := st[j].tick / cycle, st[k].tick / cycle;
    Division.CongruentEither(a, b, width, low);
  }

  /** Exactly which visible stages fall into one column of one line. */
  lemma {:induction false} ShareColumnIff(i: Inst, st: seq<Stage>, cycle: nat, width: nat, j: nat, k: nat)
    requires cycle > 0 && width > 0 && width * cycle > 0
    requires Visible(i, st, width * cycle, j) && Visible(i, st, width * cycle, k)
    ensures ShareColumn(i, st, cycle, width, j, k) <==> !Apart(i, st, cycle, width, j, k)
  {
    if Compact(i, st, width * cycle) {
      ShareColumnCompact(i, st, cycle, width, j, k);
    } else {
      Division.SameNestedDigits(st[j].tick, st[k].tick, width, cycle);
    }
  }

  // ---------- events and stages of a line ----------

  /** An event of line `n` is a stage of line `n`, and its column is its cycle. */
  lemma {:induction false} EventStands(i: Inst, st: seq<Stage>, cycle: nat, width: nat, n: nat, events: seq<Event>,
                                       line: string, j: nat)
    requires cycle > 0 && width > 0 && width * cycle > 0 && n < LineCount(i, st, width * cycle)
    requires LineDraws(i, st, cycle, width, n, events, line) && j < |events| && !Hides(i, events[j].idx)
    ensures StandsAt(i, st, cycle, width, events[j].idx, n, Column(events[j], cycle))
    ensures Column(events[j], cycle) < width
  {
    var e := events[j];
    assert e in events;
    WindowAfterBase(i, st, width * cycle, n, e.idx);
    WindowIff(i, st, width * cycle, n, e.idx);
    Division.RemainderQuotient(st[e.idx].tick, width, cycle);
  }

  /** A stage of line `n` is an event of line `n`. */
  lemma {:induction false} StageHasEvent(i: Inst, st: seq<Stage>, cycle: nat, width: nat, n: nat, events: seq<Event>,
                                         line: string, k: nat) returns (j: nat)
    requires cycle > 0 && width > 0 && width * cycle > 0 && n < LineCount(i, st, width * cycle)
    requires LineDraws(i, st, cycle, width, n, events, line)
    requires Visible(i, st, width * cycle, k) && LineOf(i, st, width * cycle, k) == n
    ensures j < |events| && events[j].idx == k && Column(events[j], cycle) == CycleColumn(st, cycle, width, k) < width
  {
    WindowIff(i, st, width * cycle, n, k);
    assert EventOf(st, width * cycle, k) in events;
    j :| 0 <= j < |events| && events[j] == EventOf(st, width * cycle, k);
    Division.RemainderQuotient(st[k].tick, width, cycle);
  }

  /** Clear ticks give every line differing columns ... */
  lemma {:induction false} ClearLine(i: Inst, st: seq<Stage>, cycle: nat, width: nat, n: nat, events: seq<Event>,
                                     line: string)
    requires cycle > 0 && width > 0 && width * cycle > 0 && n < LineCount(i, st, width * cycle)
    requires LineDraws(i, st, cycle, width, n, events, line) && ClearTicks(i, st, cycle, width)
    ensures ColumnsDiffer(i, cycle, events)
  {
    forall j, k | 0 <= j < k < |events| && !Hides(i, events[j].idx) && !Hides(i, events[k].idx)
      ensures events[j].rem / cycle != events[k].rem / cycle
    {
      EventStands(i, st, cycle, width, n, events, line, j);
      EventStands(i, st, cycle, width, n, events, line, k);
      ShareColumnIff(i, st, cycle, width, events[j].idx, events[k].idx);
    }
  }

  /** ... and two stages that are not apart collide on their line. */
  lemma {:induction false} StagesCollide(i: Inst, st: seq<Stage>, cycle: nat, width: nat, n: nat, events: seq<Event>,
                                         line: string, j: nat, k: nat)
    requires cycle > 0 && width > 0 && width * cycle > 0 && n < LineCount(i, st, width * cycle)
    requires LineDraws(i, st, cycle, width, n, events, line)
    requires Visible(i, st, width * cycle, j) && Visible(i, st, width * cycle, k) && !Apart(i, st, cycle, width, j, k)
    requires LineOf(i, st, width * cycle, j) == n && j != k
    ensures !ColumnsDiffer(i, cycle, events)
  {
    ShareColumnIff(i, st, cycle, width, j, k);
    var x := StageHasEvent(i, st, cycle, width, n, events, line, j);
    var y := StageHasEvent(i, st, cycle, width, n, events, line, k);
    assert x != y && events[x].rem / cycle == events[y].rem / cycle;
  }

  /** Whatever the ticks, a line has the right width exactly when no two drawn events share a column. */
  lemma {:induction false} LineWidthIff(i: Inst, st: seq<Stage>, cycle: nat, width: nat, n: nat, events: seq<Event>,
                                        line: string)
    requires cycle > 0 && width > 0 && width * cycle > 0 && LineDraws(i, st, cycle, width, n, events, line)
    ensures |line| >= width
    ensures |line| == width <==> ColumnsDiffer(i, cycle, events)
  {
    var cells := Cells(i, st, cycle, events);
    NoCollisions(cells);
    if ColumnsDiffer(i, cycle, events) {
      CellsStrict(i, st, cycle, events);
    } else {
      var j, k :| 0 <= j < k < |events| && !Hides(i, events[j].idx) && !Hides(i, events[k].idx)
                  && events[j].rem / cycle == events[k].rem / cycle;
      SharedColumn(i, st, cycle, events, j, k);
    }
  }

  lemma {:induction false} SharedColumn(i: Inst, st: seq<Stage>, cycle: nat, events: seq<Event>, j: nat, k: nat)
    requires cycle > 0 && Known(st, events) && j < k < |events| && !Hides(i, events[j].idx) && !Hides(i, events[k].idx)
    requires events[j].rem / cycle == events[k].rem / cycle
    ensures !AscendingStrictly(Cells(i, st, cycle, events))
  {
    var front, cells := Cells(i, st, cycle, events[..k]), Cells(i, st, cycle, events);
    var c := EventHasCell(i, st, cycle, events[..k], j);
    CellsStep(i, st, cycle, events, k);
    CellsPrefix(i, st, cycle, events, k + 1);
    assert cells[c].col == cells[|front|].col;
  }

  lemma {:induction false} LineShows(i: Inst, st: seq<Stage>, cycle: nat, width: nat, n: nat, events: seq<Event>,
                                     line: string)
    requires cycle > 0 && width > 0 && width * cycle > 0 && n < LineCount(i, st, width * cycle)
    requires LineDraws(i, st, cycle, width, n, events, line) && ClearTicks(i, st, cycle, width)
    ensures LinePicture(i, st, cycle, width, n, line)
  {
    var cells := Cells(i, st, cycle, events);
    ClearLine(i, st, cycle, width, n, events, line);
    CellsStrict(i, st, cycle, events);
    NoCollisions(cells);
    forall k: nat, c: nat | StandsAt(i, st, cycle, width, k, n, c) ensures c < width && line[c] == st[k].mark {
      var j := StageHasEvent(i, st, cycle, width, n, events, line, k);
      var x := EventHasCell(i, st, cycle, events, j);
      StrictPlace(cells, x);
    }
    forall c: nat | c < width && (forall k: nat :: !StandsAt(i, st, cycle, width, k, n, c))
      ensures line[c] == DotOf(i)
    {
      forall x | 0 <= x < |cells| ensures cells[x].col != c {
        var j := CellFromEvent(i, st, cycle, events, x);
        EventStands(i, st, cycle, width, n, events, line, j);
      }
      forall x | 0 <= x < |cells| ensures Place(cells, x) != c {
        StrictPlace(cells, x);
      }
    }
  }

  // ---------- the whole timeline ----------

  ghost predicate AllOfWidth(lines: seq<string>, width: nat) {
    forall n :: 0 <= n < |lines| ==> |lines[n]| == width
  }

  /** For any ticks, all lines have the requested width exactly when the ticks are clear. */
  lemma {:induction false} WidthIffClear(i: Inst, st: seq<Stage>, cycle: nat, width: nat, events: seq<seq<Event>>,
                                         lines: seq<string>)
    requires cycle > 0 && width > 0 && width * cycle > 0 && |lines| == LineCount(i, st, width * cycle)
    requires LinesDraw(i, st, cycle, width, events, lines)
    ensures AllOfWidth(lines, width) <==> ClearTicks(i, st, cycle, width)
  {
    if ClearTicks(i, st, cycle, width) {
      forall n | 0 <= n < |lines| ensures |lines[n]| == width {
        ClearLine(i, st, cycle, width, n, events[n], lines[n]);
        LineWidthIff(i, st, cycle, width, n, events[n], lines[n]);
      }
    } else {
      var j: nat, k: nat :| Visible(i, st, width * cycle, j) && Visible(i, st, width * cycle, k) && j != k
                            && !Apart(i, st, cycle, width, j, k);
      LineInRange(i, st, width * cycle, j);
      var n := LineOf(i, st, width * cycle, j);
      StagesCollide(i, st, cycle, width, n, events[n], lines[n], j, k);
      LineWidthIff(i, st, cycle, width, n, events[n], lines[n]);
    }
  }

  /**
   The timeline of any instruction.  Every visible stage has a line.  All lines have the requested
   width exactly when the ticks are clear, and then every visible stage stands on exactly one line,
   in the column of its cycle, and all other columns are dots.
   */
  method DrawTimeline(i: Inst, cycle: nat, width: nat, stores: bool)
      returns (r: Timeline, ghost events: seq<seq<Event>>)
    requires cycle > 0 && width > 0
    ensures width * cycle > 0
    ensures var st := StagesOf(i, stores);
            && (r.IndexError? <==> MaxTick(st) == 0)
            && (r.Lines? ==>
                  && |r.lines| == LineCount(i, st, width * cycle) && (|r.lines| == 1 <==> Compact(i, st, width * cycle))
                  && (forall k: nat :: Visible(i, st, width * cycle, k) ==>
                       0 <= LineOf(i, st, width * cycle, k) < |r.lines|)
                  && LinesDraw(i, st, cycle, width, events, r.lines)
                  && (AllOfWidth(r.lines, width) <==> ClearTicks(i, st, cycle, width))
                  && (ClearTicks(i, st, cycle, width) ==>
                        forall n :: 0 <= n < |r.lines| ==> LinePicture(i, st, cycle, width, n, r.lines[n])))
  {
    r, events := PrintInst(i, cycle, width, stores);
    if r.Lines? {
      ghost var st := StagesOf(i, stores);
      WidthIffClear(i, st, cycle, width, events, r.lines);
      if ClearTicks(i, st, cycle, width) {
        forall n | 0 <= n < |r.lines| ensures LinePicture(i, st, cycle, width, n, r.lines[n]) {
          LineShows(i, st, cycle, width, n, events[n], r.lines[n]);
        }
      }
      forall k: nat | Visible(i, st, width * cycle, k) ensures 0 <= LineOf(i, st, width * cycle, k) < |r.lines| {
        LineInRange(i, st, width * cycle, k);
      }
    }
  }

  // ---------- instructions as the simulator writes them ----------

  /** The instruction was fetched, and nothing happens before that. */
  ghost predicate FetchedFirst(i: Inst, st: seq<Stage>) {
    i.fetch > 0 && forall k :: 0 <= k < |st| && st[k].tick != 0 ==> st[k].tick >= i.fetch
  }

  ghost predicate OnePerCycle(i: Inst, st: seq<Stage>, cycle: nat)
    requires cycle > 0
  {
    forall j: nat, k: nat :: Drawn(i, st, j) && Drawn(i, st, k) && j != k ==> st[j].tick / cycle != st[k].tick / cycle
  }

  /** Nothing is a whole line of cycles after fetch. */
  ghost predicate FitsLine(i: Inst, st: seq<Stage>, cycle: nat, width: nat)
    requires cycle > 0
  {
    forall k: nat :: Drawn(i, st, k) ==> st[k].tick / cycle < i.fetch / cycle + width
  }

  /** A compact instruction ends at most `width` cycles after it was fetched. */
  lemma {:induction false} CompactSpan(i: Inst, st: seq<Stage>, cycle: nat, width: nat, k: nat)
    requires cycle > 0 && width > 0 && Compact(i, st, width * cycle) && FetchedFirst(i, st) && Drawn(i, st, k)
    ensures i.fetch / cycle <= st[k].tick / cycle <= i.fetch / cycle + width
  {
    MaxTickBounds(st, k);
    Division.QuotientMonotone(i.fetch, st[k].tick, cycle);
    Division.QuotientSpan(i.fetch, st[k].tick, width, cycle);
  }

  /**
   For an instruction that is fetched first: all lines have the requested width exactly when there is
   one drawn stage per cycle and, in the compact form, none a whole line of cycles after fetch.
   */
  lemma {:induction false} ClearIff(i: Inst, cycle: nat, width: nat, stores: bool)
    requires cycle > 0 && width > 0 && width * cycle > 0 && FetchedFirst(i, StagesOf(i, stores))
    ensures var st := StagesOf(i, stores);
            ClearTicks(i, st, cycle, width) <==>
              OnePerCycle(i, st, cycle) && (Compact(i, st, width * cycle) ==> FitsLine(i, st, cycle, width))
  {
    var st := StagesOf(i, stores);
    forall k: nat | Drawn(i, st, k) ensures Visible(i, st, width * cycle, k) {
      FetchAfterBase(i, width * cycle, st[k].tick);
    }
    if Compact(i, st, width * cycle) {
      forall k: nat | Drawn(i, st, k) ensures i.fetch / cycle <= st[k].tick / cycle <= i.fetch / cycle + width {
        CompactSpan(i, st, cycle, width, k);
      }
      ClearFits(i, st, cycle, width);
    } else {
      ClearWhenLong(i, st, cycle, width);
    }
  }

  lemma {:induction false} ClearWhenLong(i: Inst, st: seq<Stage>, cycle: nat, width: nat)
    requires cycle > 0 && width * cycle > 0 && !Compact(i, st, width * cycle)
    requires forall k: nat :: Drawn(i, st, k) ==> Visible(i, st, width * cycle, k)
    ensures ClearTicks(i, st, cycle, width) <==> OnePerCycle(i, st, cycle)
  {
    if ClearTicks(i, st, cycle, width) {
      forall j: nat, k: nat | Drawn(i, st, j) && Drawn(i, st, k) && j != k
        ensures st[j].tick / cycle != st[k].tick / cycle
      {
        assert Apart(i, st, cycle, width, j, k);
      }
    }
  }

  lemma {:induction false} ClearFits(i: Inst, st: seq<Stage>, cycle: nat, width: nat)
    requires cycle > 0 && width > 0 && width * cycle > 0 && Compact(i, st, width * cycle)
    requires Drawn(i, st, 0) && st[0].tick == i.fetch
    requires forall k: nat :: Drawn(i, st, k) ==> Visible(i, st, width * cycle, k)
    requires forall k: nat :: Drawn(i, st, k) ==> i.fetch / cycle <= st[k].tick / cycle <= i.fetch / cycle + width
    ensures ClearTicks(i, st, cycle, width) <==> OnePerCycle(i, st, cycle) && FitsLine(i, st, cycle, width)
  {
    if ClearTicks(i, st, cycle, width) {
      forall j: nat, k: nat | Drawn(i, st, j) && Drawn(i, st, k) && j != k
        ensures st[j].tick / cycle != st[k].tick / cycle
      {
        assert Apart(i, st, cycle, width, j, k);
      }
      forall k: nat | Drawn(i, st, k) ensures st[k].tick / cycle < i.fetch / cycle + width {
        assert k != 0 ==> Apart(i, st, cycle, width, 0, k);
      }
    }
  }

  /** Whole-cycle ticks always fit, so then one drawn stage per cycle is enough. */
  lemma {:induction false} WholeCyclesClear(i: Inst, cycle: nat, width: nat, stores: bool)
    requires cycle > 0 && width > 0 && width * cycle > 0 && FetchedFirst(i, StagesOf(i, stores))
    requires forall k :: 0 <= k < |StagesOf(i, stores)| ==> StagesOf(i, stores)[k].tick % cycle == 0
    requires OnePerCycle(i, StagesOf(i, stores), cycle)
    ensures ClearTicks(i, StagesOf(i, stores), cycle, width)
  {
    var st := StagesOf(i, stores);
    assert st[0].tick == i.fetch;
    if Compact(i, st, width * cycle) {
      forall k: nat | Drawn(i, st, k) ensures st[k].tick / cycle < i.fetch / cycle + width {
        MaxTickBounds(st, k);
        Division.QuotientSpan(i.fetch, st[k].tick, width, cycle);
      }
    }
    ClearIff(i, cycle, width, stores);
  }

  /**
   Other ticks need not fit: with cycle 2 and width 2, an instruction fetched at tick 1 and retired
   at tick 4 is compact, with its stages in cycles 0 and 2, and both fall into column 0 of the only line.
   */
  lemma {:induction false} UnalignedTicksCollide(i: Inst)
    requires i == Inst(1, 1, 0, 0, 0, 0, 0, 4, 0)
    ensures var st := StagesOf(i, false);
            && FetchedFirst(i, st) && OnePerCycle(i, st, 2) && Compact(i, st, 4)
            && ShareColumn(i, st, 2, 2, 0, 6) && !ClearTicks(i, st, 2, 2)
  {
    var st := StagesOf(i, false);
    assert forall k :: 0 <= k < |st| ==> st[k].tick <= 4;
    MaxTickAtMost(st, 4);
    assert !Apart(i, st, 2, 2, 0, 6);
  }

  lemma {:induction false} MaxTickAtMost(st: seq<Stage>, bound: nat)
    requires forall k :: 0 <= k < |st| ==> st[k].tick <= bound
    ensures MaxTick(st) <= bound
  {
    if st != [] { MaxTickAtMost(st[..|st| - 1], bound); }
  }
}
