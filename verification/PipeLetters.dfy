/**
 The timeline in the reader's terms: which letter stands where, from the ticks of the
 instruction and the stage letters of gem5/util/o3-pipeview.py (lines 198-223).
 */
module PipeLetters {
  import opened PipePicture
  import opened PipeQueue
  import opened PipeTimeline
  import opened Strings

  // ---------- the stages by their letters ----------

  function Letters(stores: bool): string {
    if stores then "fdnpicrs" else "fdnpicr"
  }

  function TickOf(i: Inst, letter: char): nat {
    match letter
    case 'f' => i.fetch
    case 'd' => i.decode
    case 'n' => i.rename
    case 'p' => i.dispatch
    case 'i' => i.issue
    case 'c' => i.complete
    case 'r' => i.retire
    case 's' => i.store
    case _ => 0
  }

  function StageName(letter: char): string {
    match letter
    case 'f' => "fetch"
    case 'd' => "decode"
    case 'n' => "rename"
    case 'p' => "dispatch"
    case 'i' => "issue"
    case 'c' => "complete"
    case 'r' => "retire"
    case 's' => "store"
    case _ => ""
  }

  /** The tick of the last event; stores count only if they are shown. */
  function LastTick(i: Inst, stores: bool): nat {
    var m := Max(Max(Max(i.fetch, i.decode), Max(i.rename, i.dispatch)), Max(Max(i.issue, i.complete), i.retire));
    if stores then Max(m, i.store) else m
  }

  /** An abandoned instruction is drawn on '=' instead of dots. */
  function Ground(i: Inst): char {
    if i.retire == 0 then '=' else '.'
  }

  predicate FitsOneLine(i: Inst, stores: bool, period: nat) {
    LastTick(i, stores) < i.fetch + period
  }

  /** The letter is drawn on line `n`. */
  ghost predicate OnLine(i: Inst, stores: bool, period: nat, letter: char, n: nat)
    requires period > 0
  {
    var t := TickOf(i, letter);
    && letter in Letters(stores) && t != 0 && t >= (i.fetch / period) * period
    && !(letter == 'p' && i.dispatch == i.issue)
    && n == if FitsOneLine(i, stores, period) then 0 else t / period - i.fetch / period
  }

  lemma {:induction false} StageTable(i: Inst, stores: bool, k: nat)
    requires k < |StagesOf(i, stores)|
    ensures var s := StagesOf(i, stores)[k];
            && s.mark in Letters(stores) && s.tick == TickOf(i, s.mark) && s.name == StageName(s.mark)
            && (Hides(i, k) <==> s.mark == 'p' && i.dispatch == i.issue)
            && s.mark != '.' && s.mark != '='
  {
    var l := Letters(stores);
    assert StagesOf(i, stores)[k].mark == l[k];
  }

  lemma {:induction false} LetterHasStage(i: Inst, stores: bool, letter: char) returns (k: nat)
    requires letter in Letters(stores)
    ensures k < |StagesOf(i, stores)| && StagesOf(i, stores)[k].mark == letter
  {
    var l := Letters(stores);
    k :| 0 <= k < |l| && l[k] == letter;
    assert k == 0 || k == 1 || k == 2 || k == 3 || k == 4 || k == 5 || k == 6 || k == 7;
  }

  /** Different stages have different letters and different names. */
  lemma {:induction false} StagesDiffer(i: Inst, stores: bool, j: nat, k: nat)
    requires j < |StagesOf(i, stores)| && k < |StagesOf(i, stores)| && j != k
    ensures StagesOf(i, stores)[j].mark != StagesOf(i, stores)[k].mark
    ensures StagesOf(i, stores)[j].name != StagesOf(i, stores)[k].name
  {
    var st := StagesOf(i, stores);
    NamesDiffer();
    assert j == 0 || j == 1 || j == 2 || j == 3 || j == 4 || j == 5 || j == 6 || j == 7;
    assert k == 0 || k == 1 || k == 2 || k == 3 || k == 4 || k == 5 || k == 6 || k == 7;
  }

  lemma {:induction false} NamesDiffer()
    ensures |{"fetch", "decode", "rename", "dispatch", "issue", "complete", "retire", "store"}| == 8
  {
    assert "fetch"[0] == 'f' && "decode"[0] == 'd' && "rename"[0] == 'r' && "dispatch"[0] == 'd';
    assert "issue"[0] == 'i' && "complete"[0] == 'c' && "retire"[0] == 'r' && "store"[0] == 's';
    assert "decode"[1] == 'e' && "dispatch"[1] == 'i' && "rename"[2] == 'n' && "retire"[2] == 't';
  }

  lemma {:induction false} LastTickIs(i: Inst, stores: bool)
    ensures MaxTick(StagesOf(i, stores)) == LastTick(i, stores)
  {
    var st := StagesOf(i, stores);
    forall k | 0 <= k < |st| ensures st[k].tick <= MaxTick(st) {
      MaxTickBounds(st, k);
    }
    forall k | 0 <= k < |st| ensures st[k].tick <= LastTick(i, stores) {
      assert k == 0 || k == 1 || k == 2 || k == 3 || k == 4 || k == 5 || k == 6 || k == 7;
    }
    MaxTickAtMost(st, LastTick(i, stores));
    assert st[0].tick == i.fetch && st[1].tick == i.decode && st[2].tick == i.rename && st[3].tick == i.dispatch;
    assert st[4].tick == i.issue && st[5].tick == i.complete && st[6].tick == i.retire;
    assert stores ==> st[7].tick == i.store;
  }

  /** A letter is on a line exactly when its stage is. */
  lemma {:induction false} OnLineIff(i: Inst, stores: bool, period: nat, k: nat, n: nat)
    requires period > 0 && k < |StagesOf(i, stores)|
    ensures var st := StagesOf(i, stores);
            OnLine(i, stores, period, st[k].mark, n) <==> Visible(i, st, period, k) && LineOf(i, st, period, k) == n
  {
    StageTable(i, stores, k);
    LastTickIs(i, stores);
  }

  // ---------- the text of a line ----------

  /** Letters are written by the place in the line and, at one place, by the names of their stages. */
  ghost predicate Sooner(i: Inst, period: nat, a: char, b: char)
    requires period > 0
  {
    var x, y := TickOf(i, a) % period, TickOf(i, b) % period;
    x < y || (x == y && Below(StageName(a), StageName(b)))
  }

  /** `letters` are the letters of line `n`, in the order in which they are written. */
  ghost predicate LettersOf(i: Inst, stores: bool, period: nat, n: nat, letters: string)
    requires period > 0
  {
    && (forall ch :: ch in letters <==> OnLine(i, stores, period, ch, n))
    && (forall j, k :: 0 <= j < k < |letters| ==> Sooner(i, period, letters[j], letters[k]))
  }

  ghost function ColumnOf(i: Inst, cycle: nat, period: nat, letter: char): nat
    requires cycle > 0 && period > 0
  {
    (TickOf(i, letter) % period) / cycle
  }

  /** How many of the first `m` letters share the column of the letter before them. */
  ghost function Doubled(i: Inst, cycle: nat, period: nat, letters: string, m: nat): nat
    requires cycle > 0 && period > 0 && m <= |letters|
  {
    if m < 2 then 0
    else
      Doubled(i, cycle, period, letters, m - 1) +
      if ColumnOf(i, cycle, period, letters[m - 2]) == ColumnOf(i, cycle, period, letters[m - 1]) then 1 else 0
  }

  ghost function PlaceOf(i: Inst, cycle: nat, period: nat, letters: string, k: nat): nat
    requires cycle > 0 && period > 0 && k < |letters|
  {
    ColumnOf(i, cycle, period, letters[k]) + Doubled(i, cycle, period, letters, k + 1)
  }

  /** Every letter is in its column, moved to the right by the letters that share one; the rest is ground. */
  ghost predicate TextOf(i: Inst, cycle: nat, period: nat, width: nat, letters: string, line: string)
    requires cycle > 0 && period > 0
  {
    && |line| == width + Doubled(i, cycle, period, letters, |letters|)
    && (forall k :: 0 <= k < |letters| ==>
          PlaceOf(i, cycle, period, letters, k) < |line| && line[PlaceOf(i, cycle, period, letters, k)] == letters[k])
    && (forall c :: 0 <= c < |line| ==>
          (forall k :: 0 <= k < |letters| ==> PlaceOf(i, cycle, period, letters, k) != c) ==> line[c] == Ground(i))
  }

  lemma {:induction false} TwoCells(i: Inst, st: seq<Stage>, cycle: nat, events: seq<Event>, a: nat, b: nat)
      returns (j: nat, k: nat)
    requires cycle > 0 && Known(st, events) && a < b < |Cells(i, st, cycle, events)|
    ensures j < k < |events| && !Hides(i, events[j].idx) && !Hides(i, events[k].idx)
    ensures Cells(i, st, cycle, events)[a] == CellOf(st, cycle, events[j])
    ensures Cells(i, st, cycle, events)[b] == CellOf(st, cycle, events[k])
  {
    var front := events[..|events| - 1];
    if b < |Cells(i, st, cycle, front)| {
      j, k := TwoCells(i, st, cycle, front, a, b);
    } else {
      j := CellFromEvent(i, st, cycle, front, a);
      k := |events| - 1;
    }
  }

  /** What cell `a` of a line shows: the letter of a stage, in the column of its tick. */
  lemma {:induction false} CellLetter(i: Inst, stores: bool, cycle: nat, width: nat, n: nat, events: seq<Event>,
                                      line: string, a: nat)
    requires cycle > 0 && width > 0 && width * cycle > 0 && n < LineCount(i, StagesOf(i, stores), width * cycle)
    requires LineDraws(i, StagesOf(i, stores), cycle, width, n, events, line)
    requires a < |Cells(i, StagesOf(i, stores), cycle, events)|
    ensures var cell := Cells(i, StagesOf(i, stores), cycle, events)[a];
            && OnLine(i, stores, width * cycle, cell.mark, n)
            && cell.col == ColumnOf(i, cycle, width * cycle, cell.mark)
  {
    var st := StagesOf(i, stores);
    var j := CellFromEvent(i, st, cycle, events, a);
    assert events[j] in events;
    EventStands(i, st, cycle, width, n, events, line, j);
    StageTable(i, stores, events[j].idx);
    OnLineIff(i, stores, width * cycle, events[j].idx, n);
  }

  /** ... and every letter of the line is shown. */
  lemma {:induction false} LetterHasCell(i: Inst, stores: bool, cycle: nat, width: nat, n: nat, events: seq<Event>,
                                         line: string, letter: char) returns (a: nat)
    requires cycle > 0 && width > 0 && width * cycle > 0 && n < LineCount(i, StagesOf(i, stores), width * cycle)
    requires LineDraws(i, StagesOf(i, stores), cycle, width, n, events, line)
    requires OnLine(i, stores, width * cycle, letter, n)
    ensures a < |Cells(i, StagesOf(i, stores), cycle, events)|
    ensures Cells(i, StagesOf(i, stores), cycle, events)[a].mark == letter
  {
    var st := StagesOf(i, stores);
    var k := LetterHasStage(i, stores, letter);
    OnLineIff(i, stores, width * cycle, k, n);
    var j := StageHasEvent(i, st, cycle, width, n, events, line, k);
    a := EventHasCell(i, st, cycle, events, j);
  }

  lemma {:induction false} CellsSooner(i: Inst, stores: bool, cycle: nat, width: nat, n: nat, events: seq<Event>,
                                       line: string, a: nat, b: nat)
    requires cycle > 0 && width > 0 && width * cycle > 0
    requires LineDraws(i, StagesOf(i, stores), cycle, width, n, events, line)
    requires a < b < |Cells(i, StagesOf(i, stores), cycle, events)|
    ensures var cells := Cells(i, StagesOf(i, stores), cycle, events);
            Sooner(i, width * cycle, cells[a].mark, cells[b].mark)
  {
    var st := StagesOf(i, stores);
    var j, k := TwoCells(i, st, cycle, events, a, b);
    var x, y := events[j], events[k];
    assert x in events && y in events && EventLeq(x, y) && x.idx != y.idx;
    StageTable(i, stores, x.idx);
    StageTable(i, stores, y.idx);
    StagesDiffer(i, stores, x.idx, y.idx);
    LeqIsSooner(x, y);
  }

  lemma {:induction false} LeqIsSooner(x: Event, y: Event)
    requires EventLeq(x, y) && x.name != y.name
    ensures x.rem < y.rem || (x.rem == y.rem && Below(x.name, y.name))
  {
    StringsAntisymmetric(x.name, y.name);
    BelowIff(x.name, y.name);
  }

  /** The letters of a line of cells. */
  ghost function Marks(cells: seq<Cell>): string {
    seq(|cells|, k requires 0 <= k < |cells| => cells[k].mark)
  }

  lemma {:induction false} DoubledIsCollisions(i: Inst, cycle: nat, period: nat, cells: seq<Cell>, m: nat)
    requires cycle > 0 && period > 0 && m <= |cells|
    requires forall k :: 0 <= k < |cells| ==> cells[k].col == ColumnOf(i, cycle, period, cells[k].mark)
    ensures Doubled(i, cycle, period, Marks(cells), m) == Collisions(cells[..m])
  {
    if m >= 2 {
      DoubledIsCollisions(i, cycle, period, cells, m - 1);
      assert cells[..m][..m - 1] == cells[..m - 1];
    }
  }

  lemma {:induction false} TextOfCells(i: Inst, cycle: nat, period: nat, width: nat, cells: seq<Cell>, line: string)
    requires cycle > 0 && period > 0 && |line| == width + Collisions(cells) && Shows(line, cells, Ground(i))
    requires forall k :: 0 <= k < |cells| ==> cells[k].col == ColumnOf(i, cycle, period, cells[k].mark)
    ensures TextOf(i, cycle, period, width, Marks(cells), line)
  {
    var letters := Marks(cells);
    DoubledIsCollisions(i, cycle, period, cells, |cells|);
    assert cells[..|cells|] == cells;
    forall k | 0 <= k < |cells| ensures PlaceOf(i, cycle, period, letters, k) == Place(cells, k) {
      DoubledIsCollisions(i, cycle, period, cells, k + 1);
    }
    forall c | 0 <= c < |line| && (forall k :: 0 <= k < |letters| ==> PlaceOf(i, cycle, period, letters, k) != c)
      ensures line[c] == Ground(i)
    {
      forall k | 0 <= k < |cells| ensures Place(cells, k) != c {
        assert PlaceOf(i, cycle, period, letters, k) != c;
      }
    }
  }

  /** The text of a line, for any ticks. */
  lemma {:induction false} LineText(i: Inst, stores: bool, cycle: nat, width: nat, n: nat, events: seq<Event>,
                                    line: string) returns (letters: string)
    requires cycle > 0 && width > 0 && width * cycle > 0 && n < LineCount(i, StagesOf(i, stores), width * cycle)
    requires LineDraws(i, StagesOf(i, stores), cycle, width, n, events, line)
    ensures LettersOf(i, stores, width * cycle, n, letters) && TextOf(i, cycle, width * cycle, width, letters, line)
  {
    var cells := Cells(i, StagesOf(i, stores), cycle, events);
    letters := Marks(cells);
    forall k | 0 <= k < |cells|
      ensures OnLine(i, stores, width * cycle, letters[k], n)
      ensures cells[k].col == ColumnOf(i, cycle, width * cycle, cells[k].mark)
    {
      CellLetter(i, stores, cycle, width, n, events, line, k);
    }
    TextOfCells(i, cycle, width * cycle, width, cells, line);
    forall ch | OnLine(i, stores, width * cycle, ch, n) ensures ch in letters {
      var a := LetterHasCell(i, stores, cycle, width, n, events, line, ch);
      assert letters[a] == ch;
    }
    forall j, k | 0 <= j < k < |letters| ensures Sooner(i, width * cycle, letters[j], letters[k]) {
      CellsSooner(i, stores, cycle, width, n, events, line, j, k);
    }
  }

  // ---------- the whole timeline ----------

  /** The letter stands in column `c` of line `n`, the column of its cycle. */
  ghost predicate Stands(i: Inst, stores: bool, cycle: nat, width: nat, letter: char, n: nat, c: nat)
    requires cycle > 0 && width > 0 && width * cycle > 0
  {
    OnLine(i, stores, width * cycle, letter, n) && c == (TickOf(i, letter) / cycle) % width
  }

  /** A line in which no two letters share a column: each letter where it stands, and ground everywhere else. */
  ghost predicate CleanLine(i: Inst, stores: bool, cycle: nat, width: nat, n: nat, line: string)
    requires cycle > 0 && width > 0 && width * cycle > 0
  {
    && |line| == width
    && (forall ch, c: nat :: ch in Letters(stores) && c < width ==>
          (line[c] == ch <==> Stands(i, stores, cycle, width, ch, n, c)))
    && (forall c: nat :: c < width ==> line[c] in Letters(stores) || line[c] == Ground(i))
  }

  lemma {:induction false} CleanCell(i: Inst, stores: bool, cycle: nat, width: nat, n: nat, line: string, c: nat)
    requires cycle > 0 && width > 0 && width * cycle > 0 && c < width
    requires LinePicture(i, StagesOf(i, stores), cycle, width, n, line)
    ensures line[c] in Letters(stores) || line[c] == Ground(i)
    ensures forall ch :: ch in Letters(stores) ==> (line[c] == ch <==> Stands(i, stores, cycle, width, ch, n, c))
  {
    var st := StagesOf(i, stores);
    forall k: nat | k < |st| ensures
        StandsAt(i, st, cycle, width, k, n, c) <==> Stands(i, stores, cycle, width, st[k].mark, n, c)
    {
      OnLineIff(i, stores, width * cycle, k, n);
      StageTable(i, stores, k);
    }
    if exists k: nat :: StandsAt(i, st, cycle, width, k, n, c) {
      var k: nat :| StandsAt(i, st, cycle, width, k, n, c);
      StageTable(i, stores, k);
    }
    forall ch | ch in Letters(stores) ensures line[c] == ch <==> Stands(i, stores, cycle, width, ch, n, c) {
      var k := LetterHasStage(i, stores, ch);
      StageTable(i, stores, k);
      OtherLetters(i, stores, cycle, width, n, line, c, k);
    }
  }

  lemma {:induction false} OtherLetters(i: Inst, stores: bool, cycle: nat, width: nat, n: nat, line: string, c: nat,
                                        k: nat)
    requires cycle > 0 && width > 0 && width * cycle > 0 && c < width && k < |StagesOf(i, stores)|
    requires LinePicture(i, StagesOf(i, stores), cycle, width, n, line)
    ensures line[c] == StagesOf(i, stores)[k].mark <==> StandsAt(i, StagesOf(i, stores), cycle, width, k, n, c)
  {
    var st := StagesOf(i, stores);
    StageTable(i, stores, k);
    if exists j: nat :: StandsAt(i, st, cycle, width, j, n, c) {
      var j: nat :| StandsAt(i, st, cycle, width, j, n, c);
      if j != k {
        StagesDiffer(i, stores, j, k);
        assert line[c] == st[j].mark;
      }
    }
  }

  /**
   print_inst for any instruction, from its ticks and the stage letters.  Looking at the first event fails
   exactly when no tick is set.  The text of every line is determined.  If all lines have the requested
   width, every letter stands in the column of its cycle.
   */
  method ShowInst(i: Inst, cycle: nat, width: nat, stores: bool) returns (r: Timeline, ghost letters: seq<string>)
    requires cycle > 0 && width > 0
    ensures width * cycle > 0
    ensures r.IndexError? <==> forall ch :: ch in Letters(stores) ==> TickOf(i, ch) == 0
    ensures r.Lines? ==>
        && |r.lines| == |letters| ==
             (if FitsOneLine(i, stores, width * cycle) then 1
              else LastTick(i, stores) / (width * cycle) - i.fetch / (width * cycle) + 1)
        && (forall n :: 0 <= n < |r.lines| ==> Spelled(i, stores, cycle, width, n, letters[n], r.lines[n]))
        && (AllOfWidth(r.lines, width) <==> ClearTicks(i, StagesOf(i, stores), cycle, width))
        && (AllOfWidth(r.lines, width) ==>
              forall n :: 0 <= n < |r.lines| ==> CleanLine(i, stores, cycle, width, n, r.lines[n]))
  {
    ghost var events;
    r, events := DrawTimeline(i, cycle, width, stores);
    NoTicks(i, stores);
    letters := [];
    if r.Lines? {
      LastTickIs(i, stores);
      letters := LineTexts(i, stores, cycle, width, events, r.lines);
      if AllOfWidth(r.lines, width) {
        forall n | 0 <= n < |r.lines| ensures CleanLine(i, stores, cycle, width, n, r.lines[n]) {
          CleanCells(i, stores, cycle, width, n, r.lines[n]);
        }
      }
    }
  }

  lemma {:induction false} CleanCells(i: Inst, stores: bool, cycle: nat, width: nat, n: nat, line: string)
    requires cycle > 0 && width > 0 && width * cycle > 0
    requires LinePicture(i, StagesOf(i, stores), cycle, width, n, line)
    ensures CleanLine(i, stores, cycle, width, n, line)
  {
    forall c: nat | c < width
      ensures line[c] in Letters(stores) || line[c] == Ground(i)
      ensures forall ch :: ch in Letters(stores) ==> (line[c] == ch <==> Stands(i, stores, cycle, width, ch, n, c))
    {
      CleanCell(i, stores, cycle, width, n, line, c);
    }
  }

  /** Line `n` has exactly its letters and the text they make. */
  ghost predicate Spelled(i: Inst, stores: bool, cycle: nat, width: nat, n: nat, letters: string, line: string)
    requires cycle > 0 && width > 0 && width * cycle > 0
  {
    LettersOf(i, stores, width * cycle, n, letters) && TextOf(i, cycle, width * cycle, width, letters, line)
  }

  lemma {:induction false} LineTexts(i: Inst, stores: bool, cycle: nat, width: nat, events: seq<seq<Event>>,
                                     lines: seq<string>) returns (letters: seq<string>)
    requires cycle > 0 && width > 0 && width * cycle > 0
    requires |lines| <= LineCount(i, StagesOf(i, stores), width * cycle)
    requires LinesDraw(i, StagesOf(i, stores), cycle, width, events, lines)
    ensures |letters| == |lines|
    ensures forall n :: 0 <= n < |lines| ==> Spelled(i, stores, cycle, width, n, letters[n], lines[n])
  {
    letters := [];
    while |letters| < |lines|
      invariant |letters| <= |lines|
      invariant forall n :: 0 <= n < |letters| ==> Spelled(i, stores, cycle, width, n, letters[n], lines[n])
    {
      var m := |letters|;
      var next := LineText(i, stores, cycle, width, m, events[m], lines[m]);
      letters := letters + [next];
    }
  }

  lemma {:induction false} NoTicks(i: Inst, stores: bool)
    ensures MaxTick(StagesOf(i, stores)) == 0 <==> forall ch :: ch in Letters(stores) ==> TickOf(i, ch) == 0
  {
    var st := StagesOf(i, stores);
    if MaxTick(st) == 0 {
      forall ch | ch in Letters(stores) ensures TickOf(i, ch) == 0 {
        var k := LetterHasStage(i, stores, ch);
        StageTable(i, stores, k);
        MaxTickBounds(st, k);
      }
    } else {
      var k := MaxTickAttained(st);
      StageTable(i, stores, k);
    }
  }
}
