/**
 The text form of instruction dependency traces: the printer in
 gem5/util/decode_inst_dep_trace.py and the parser in
 gem5/util/encode_inst_dep_trace.py.
 */
module TraceText {
  import opened Decimal
  import opened Options

  // ---------- split, join and strip ----------

  lemma {:induction false} Associate(a: string, b: string, c: string)
    ensures a + (b + c) == (a + b) + c
  {
  }

  function Split(s: string, sep: char): (r: seq<string>)
    ensures |r| > 0
  {
    if s == [] then [""]
    else
      var r := Split(s[1..], sep);
      if s[0] == sep then [""] + r else [[s[0]] + r[0]] + r[1..]
  }

  function Join(parts: seq<string>, sep: char): string {
    if parts == [] then "" else if |parts| == 1 then parts[0] else parts[0] + [sep] + Join(parts[1..], sep)
  }

  lemma {:induction false} SplitFirst(a: string, rest: string, sep: char)
    requires sep !in a
    ensures Split(a, sep) == [a]
    ensures Split(a + [sep] + rest, sep) == [a] + Split(rest, sep)
  {
    var s := a + [sep] + rest;
    if a == [] {
      assert s[1..] == rest;
    } else {
      SplitFirst(a[1..], rest, sep);
      assert s[1..] == a[1..] + [sep] + rest;
      assert a == [a[0]] + a[1..];
    }
  }

  lemma {:induction false} SplitJoin(parts: seq<string>, sep: char)
    requires parts != [] && forall k :: 0 <= k < |parts| ==> sep !in parts[k]
    ensures Split(Join(parts, sep), sep) == parts
  {
    if |parts| == 1 {
      SplitFirst(parts[0], [], sep);
    } else {
      var rest := Join(parts[1..], sep);
      SplitJoin(parts[1..], sep);
      SplitFirst(parts[0], rest, sep);
      assert Join(parts, sep) == parts[0] + [sep] + rest;
      assert [parts[0]] + parts[1..] == parts;
    }
  }

  predicate IsSpace(c: char) {
    c in " \t\n\r"
  }

  function StripLeft(s: string): string {
    if s != [] && IsSpace(s[0]) then StripLeft(s[1..]) else s
  }

  function StripRight(s: string): string {
    if s != [] && IsSpace(s[|s| - 1]) then StripRight(s[..|s| - 1]) else s
  }

  function Strip(s: string): string {
    StripRight(StripLeft(s))
  }

  lemma {:induction false} StripNewline(s: string)
    requires s != [] && !IsSpace(s[0]) && !IsSpace(s[|s| - 1])
    ensures Strip(s + "\n") == s && Strip(s) == s
  {
    var t := s + "\n";
    assert t[..|t| - 1] == s;
    assert StripRight(t) == StripRight(s);
  }

  predicate AllSpaces(s: string) {
    forall k :: 0 <= k < |s| ==> s[k] in " \t\n\r"
  }

  /** strip() takes blanks off both ends, and all of them. */
  lemma {:induction false} StripMeaning(s: string)
    ensures exists a, b :: AllSpaces(a) && AllSpaces(b) && s == a + Strip(s) + b
    ensures Strip(s) != [] ==> Strip(s)[0] !in " \t\n\r" && Strip(s)[|Strip(s)| - 1] !in " \t\n\r"
  {
    var a := StrippedLeft(s);
    var t := StripLeft(s);
    var b := StrippedRight(t);
    assert a + (Strip(s) + b) == a + Strip(s) + b;
    if Strip(s) != [] {
      assert t[0] == Strip(s)[0];
    }
  }

  lemma {:induction false} StrippedLeft(s: string) returns (a: string)
    ensures AllSpaces(a) && s == a + StripLeft(s)
    ensures StripLeft(s) != [] ==> StripLeft(s)[0] !in " \t\n\r"
  {
    a := "";
    if s != [] && IsSpace(s[0]) {
      var rest := StrippedLeft(s[1..]);
      a := [s[0]] + rest;
      assert s == [s[0]] + s[1..];
    }
  }

  lemma {:induction false} StrippedRight(s: string) returns (b: string)
    ensures AllSpaces(b) && s == StripRight(s) + b
    ensures StripRight(s) != [] ==> StripRight(s)[|StripRight(s)| - 1] !in " \t\n\r"
  {
    b := "";
    if s != [] && IsSpace(s[|s| - 1]) {
      var t, last := s[..|s| - 1], [s[|s| - 1]];
      assert s == t + last && StripRight(s) == StripRight(t);
      var rest := StrippedRight(t);
      b := rest + last;
      Associate(StripRight(t), rest, last);
    }
  }

  // ---------- records ----------

  datatype RecordType = Invalid | Load | Store | Comp

  function NameOf(t: RecordType): string {
    match t
    case Invalid => "INVALID"
    case Load => "LOAD"
    case Store => "STORE"
    case Comp => "COMP"
  }

  function TypeNamed(s: string): Option<RecordType> {
    if s == "INVALID" then Some(Invalid)
    else if s == "LOAD" then Some(Load)
    else if s == "STORE" then Some(Store)
    else if s == "COMP" then Some(Comp)
    else None
  }

  const U32: nat := 0x1_0000_0000
  const U64: nat := 0x1_0000_0000_0000_0000

  /** An InstDepRecord (gem5/src/proto/inst_dep_record.proto). */
  datatype DepRecord = DepRecord(
    seqNum: nat, pc: Option<nat>, weight: Option<nat>, typ: RecordType,
    pAddr: Option<nat>, size: Option<nat>, flags: Option<nat>, compDelay: nat,
    robDep: seq<nat>, regDep: seq<nat>, vAddr: Option<nat>, asid: Option<nat>)

  /** The field widths of the message definition. */
  predicate InRange(r: DepRecord) {
    && r.seqNum < U64 && r.pc.GetOr(0) < U64 && r.weight.GetOr(1) < U32
    && r.pAddr.GetOr(0) < U64 && r.size.GetOr(0) < U32 && r.flags.GetOr(0) < U32 && r.compDelay < U64
    && (forall k :: 0 <= k < |r.robDep| ==>
         r.robDep[k] < U64) && (forall k :: 0 <= k < |r.regDep| ==> r.regDep[k] < U64)
  }

  /** What the text form can carry: pc and weight always, virtual address and address space never. */
  function Defaulted(r: DepRecord): DepRecord {
    r.(pc := Some(r.pc.GetOr(0)), weight := Some(r.weight.GetOr(1)), vAddr := None, asid := None)
  }

  predicate IsMemory(t: RecordType) {
    t.Load? || t.Store?
  }

  /** Loads and stores have address, size and flags; computations have none of them; nothing is INVALID. */
  predicate Shaped(r: DepRecord) {
    match r.typ
    case Invalid => false
    case Comp => r.pAddr.None? && r.size.None? && r.flags.None?
    case Load => r.pAddr.Some? && r.size.Some? && r.flags.Some?
    case Store => r.pAddr.Some? && r.size.Some? && r.flags.Some?
  }

  // ---------- printing ----------

  function Optional(x: Option<nat>): seq<string> {
    if x.Some? then [Dec(x.value)] else []
  }

  function DecAll(xs: seq<nat>): seq<string> {
    if xs == [] then [] else [Dec(xs[0])] + DecAll(xs[1..])
  }

  function InfoFields(r: DepRecord): seq<string> {
    [Dec(r.seqNum), Dec(r.pc.GetOr(0)), Dec(r.weight.GetOr(1)), NameOf(r.typ)]
    + Optional(r.pAddr) + Optional(r.size) + Optional(r.flags) + [Dec(r.compDelay)]
  }

  function DepsText(xs: seq<nat>): string {
    Join([""] + DecAll(xs), ',')
  }

  function Body(r: DepRecord): string {
    Join([Join(InfoFields(r), ','), DepsText(r.robDep), DepsText(r.regDep)], ':')
  }

  /** The printed line, as comma- and colon-separated fields. */
  function Line(r: DepRecord): string {
    Body(r) + "\n"
  }

  /** The loops at lines 194-204: a comma in front of every dependency. */
  method PrintDeps(xs: seq<nat>) returns (out: string)
    ensures out == DepsText(xs)
  {
    out := "";
    for i := 0 to |xs|
      invariant out == DepsText(xs[..i])
    {
      DepsTextStep(xs[..i], xs[i]);
      assert xs[..i + 1] == xs[..i] + [xs[i]];
      out := out + "," + Dec(xs[i]);
    }
    assert xs[..|xs|] == xs;
  }

  lemma {:induction false} JoinStep(parts: seq<string>, p: string, sep: char)
    requires parts != []
    ensures Join(parts + [p], sep) == Join(parts, sep) + [sep] + p
  {
    if |parts| == 1 {
      assert (parts + [p])[1..] == [p];
    } else {
      JoinStep(parts[1..], p, sep);
      assert (parts + [p])[1..] == parts[1..] + [p];
      var a, b := parts[0] + [sep], Join(parts[1..], sep);
      assert a + (b + [sep] + p) == (a + b) + [sep] + p;
    }
  }

  lemma {:induction false} DecAllStep(xs: seq<nat>, x: nat)
    ensures DecAll(xs + [x]) == DecAll(xs) + [Dec(x)]
  {
    if xs != [] {
      DecAllStep(xs[1..], x);
      assert (xs + [x])[1..] == xs[1..] + [x];
    }
  }

  lemma {:induction false} DepsTextStep(xs: seq<nat>, x: nat)
    ensures DepsText(xs + [x]) == DepsText(xs) + "," + Dec(x)
  {
    DecAllStep(xs, x);
    JoinStep([""] + DecAll(xs), Dec(x), ',');
    assert [""] + DecAll(xs + [x]) == ([""] + DecAll(xs)) + [Dec(x)];
  }

  /** The body of the printing loop (lines 160-206), field by field. */
  method PrintRecord(r: DepRecord) returns (out: string)
    ensures out == Line(r)
  {
    ghost var parts;
    parts, out := PrintHead(r);
    parts, out := AppendOptional(parts, out, r.pAddr);
    parts, out := AppendOptional(parts, out, r.size);
    parts, out := AppendOptional(parts, out, r.flags);
    parts, out := AppendField(parts, out, Dec(r.compDelay));
    assert parts == InfoFields(r);
    var rob := PrintDeps(r.robDep);
    var reg := PrintDeps(r.regDep);
    ThreeParts(out, rob, reg);
    out := out + ":" + rob + ":" + reg + "\n";
  }

  /** Sequence number, pc, weight and type (lines 160-179). */
  method PrintHead(r: DepRecord) returns (ghost parts: seq<string>, out: string)
    ensures parts == [Dec(r.seqNum), Dec(r.pc.GetOr(0)), Dec(r.weight.GetOr(1)), NameOf(r.typ)]
    ensures out == Join(parts, ',')
  {
    parts, out := [Dec(r.seqNum)], Dec(r.seqNum);
    parts, out := AppendField(parts, out, Dec(if r.pc.Some? then r.pc.value else 0));
    parts, out := AppendField(parts, out, Dec(if r.weight.Some? then r.weight.value else 1));
    parts, out := AppendField(parts, out, NameOf(r.typ));
  }

  method AppendField(ghost parts: seq<string>, out: string, field: string)
      returns (ghost parts': seq<string>, out': string)
    requires parts != [] && out == Join(parts, ',')
    ensures parts' == parts + [field] && out' == Join(parts', ',') && parts' != []
  {
    JoinStep(parts, field, ',');
    parts', out' := parts + [field], out + "," + field;
  }

  /** Written only if the message has the field. */
  method AppendOptional(ghost parts: seq<string>, out: string, x: Option<nat>)
      returns (ghost parts': seq<string>, out': string)
    requires parts != [] && out == Join(parts, ',')
    ensures parts' == parts + Optional(x) && out' == Join(parts', ',') && parts' != []
  {
    if x.Some? {
      parts', out' := AppendField(parts, out, Dec(x.value));
    } else {
      parts', out' := parts, out;
      assert parts + [] == parts;
    }
  }

  lemma {:induction false} ThreeParts(a: string, b: string, c: string)
    ensures Join([a, b, c], ':') == a + ":" + b + ":" + c
  {
    assert [a, b, c][1..] == [b, c] && [b, c][1..] == [c];
    assert Join([c], ':') == c;
    assert Join([b, c], ':') == b + [':'] + c;
    assert a + [':'] + (b + [':'] + c) == a + ":" + b + ":" + c;
  }

  // ---------- the printed line, spelled out ----------

  function Written(x: Option<nat>): string {
    if x.Some? then "," + Dec(x.value) else ""
  }

  lemma {:induction false} JoinOptional(parts: seq<string>, x: Option<nat>)
    requires parts != []
    ensures Join(parts + Optional(x), ',') == Join(parts, ',') + Written(x)
  {
    if x.Some? {
      JoinStep(parts, Dec(x.value), ',');
      Associate(Join(parts, ','), ",", Dec(x.value));
    } else {
      assert parts + [] == parts;
    }
  }

  lemma {:induction false} FourFields(a: string, b: string, c: string, d: string)
    ensures Join([a, b, c, d], ',') == a + "," + b + "," + c + "," + d
  {
    JoinStep([a], b, ',');
    JoinStep([a, b], c, ',');
    JoinStep([a, b, c], d, ',');
    assert [a] + [b] == [a, b] && [a, b] + [c] == [a, b, c] && [a, b, c] + [d] == [a, b, c, d];
  }

  lemma {:induction false} InfoSpelled(r: DepRecord)
    ensures Join(InfoFields(r), ',') ==
              Dec(r.seqNum) + "," + Dec(r.pc.GetOr(0)) + "," + Dec(r.weight.GetOr(1)) + "," + NameOf(r.typ) +
              Written(r.pAddr) + Written(r.size) + Written(r.flags) + "," + Dec(r.compDelay)
  {
    var parts := [Dec(r.seqNum), Dec(r.pc.GetOr(0)), Dec(r.weight.GetOr(1)), NameOf(r.typ)];
    FourFields(parts[0], parts[1], parts[2], parts[3]);
    JoinOptional(parts, r.pAddr);
    JoinOptional(parts + Optional(r.pAddr), r.size);
    JoinOptional(parts + Optional(r.pAddr) + Optional(r.size), r.flags);
    JoinStep(parts + Optional(r.pAddr) + Optional(r.size) + Optional(r.flags), Dec(r.compDelay), ',');
  }

  /** A load or store with all its fields. */
  lemma {:induction false} MemoryLine(r: DepRecord, word: string)
    requires r.pAddr.Some? && r.size.Some? && r.flags.Some? && r.pc.Some? && r.weight.Some?
    requires (r.typ.Load? && word == "LOAD") || (r.typ.Store? && word == "STORE")
    ensures Line(r) ==
              Dec(r.seqNum) + "," + Dec(r.pc.value) + "," + Dec(r.weight.value) + "," + word + "," +
              Dec(r.pAddr.value) + "," + Dec(r.size.value) + "," + Dec(r.flags.value) + "," + Dec(r.compDelay) +
              ":" + DepsText(r.robDep) + ":" + DepsText(r.regDep) + "\n"
  {
    InfoSpelled(r);
    ThreeParts(Join(InfoFields(r), ','), DepsText(r.robDep), DepsText(r.regDep));
    var head := Dec(r.seqNum) + "," + Dec(r.pc.value) + "," + Dec(r.weight.value) + "," + word;
    Associate(head, ",", Dec(r.pAddr.value));
    Associate(head + "," + Dec(r.pAddr.value), ",", Dec(r.size.value));
    Associate(head + "," + Dec(r.pAddr.value) + "," + Dec(r.size.value), ",", Dec(r.flags.value));
  }

  /** Anything else, with neither pc nor weight: the program counter is 0 and the weight 1. */
  lemma {:induction false} OtherLine(r: DepRecord, word: string)
    requires r.pAddr.None? && r.size.None? && r.flags.None? && r.pc.None? && r.weight.None?
    requires (r.typ.Comp? && word == "COMP") || (r.typ.Invalid? && word == "INVALID")
    ensures Line(r) ==
              Dec(r.seqNum) + "," + Dec(0) + "," + Dec(1) + "," + word + "," + Dec(r.compDelay) +
              ":" + DepsText(r.robDep) + ":" + DepsText(r.regDep) + "\n"
  {
    InfoSpelled(r);
    ThreeParts(Join(InfoFields(r), ','), DepsText(r.robDep), DepsText(r.regDep));
    var head := Dec(r.seqNum) + "," + Dec(0) + "," + Dec(1) + "," + word;
    assert head + "" == head;
  }

  /** Every dependency is written behind a comma. */
  lemma {:induction false} DepsSpelled(xs: seq<nat>, x: nat)
    ensures DepsText([]) == "" && DepsText(xs + [x]) == DepsText(xs) + "," + Dec(x)
  {
    DepsTextStep(xs, x);
    assert [""] + DecAll([]) == [""];
  }

  // ---------- parsing ----------

  datatype Result<+T> = Error | Ok(value: T)

  /** The dependencies in a comma-separated list; empty items are skipped. */
  function ParseItems(items: seq<string>): Result<seq<nat>> {
    if items == [] then Ok([])
    else
      var front := ParseItems(items[..|items| - 1]);
      var item := items[|items| - 1];
      if front.Error? || item == "" then front
      else
        var v := ParseNat(item, U64);
        if v.Some? then Ok(front.value + [v.value]) else Error
  }

  /** The loops at lines 184-195. */
  method ParseDeps(text: string) returns (r: Result<seq<nat>>)
    ensures r == ParseItems(Split(text, ','))
  {
    var items := Split(text, ',');
    var deps: seq<nat> := [];
    for i := 0 to |items|
      invariant ParseItems(items[..i]) == Ok(deps)
    {
      assert items[..i + 1][..i] == items[..i];
      if items[i] != "" {
        var v := ParseNat(items[i], U64);
        if v.None? {
          FailsEarly(items, i + 1);
          return Error;
        }
        deps := deps + [v.value];
      }
    }
    assert items[..|items|] == items;
    r := Ok(deps);
  }

  lemma {:induction false} FailsEarly(items: seq<string>, i: nat)
    requires i <= |items| && ParseItems(items[..i]).Error?
    ensures ParseItems(items).Error?
    decreases |items|
  {
    if i < |items| {
      assert items[..|items| - 1][..i] == items[..i];
      FailsEarly(items[..|items| - 1], i);
    } else {
      assert items[..i] == items;
    }
  }

  /** The fields after the type: address, size, flags and delay, or the delay alone (lines 172-180). */
  function ParseTail(info: seq<string>, base: DepRecord): Result<DepRecord>
    requires |info| >= 4
  {
    if IsMemory(base.typ) then
      if |info| < 8 then Error
      else
        var a, s, f, c := ParseNat(info[4], U64), ParseNat(info[5], U32), ParseNat(info[6], U32), ParseNat(info[7],
            U64);
        if a.None? || s.None? || f.None? || c.None? then Error
        else Ok(base.(pAddr := a, size := s, flags := f, compDelay := c.value))
    else if |info| < 5 then Error
    else
      var c := ParseNat(info[4], U64);
      if c.None? then Error else Ok(base.(compDelay := c.value))
  }

  function ParseInfo(info: seq<string>): Result<DepRecord> {
    if |info| < 4 then Error
    else
      var n, pc, weight, t := ParseNat(info[0], U64), ParseNat(info[1], U64), ParseNat(info[2], U32),
          TypeNamed(info[3]);
      if n.None? || pc.None? || weight.None? || t.None? || t.value.Invalid? then Error
      else ParseTail(info, DepRecord(n.value, pc, weight, t.value, None, None, None, 0, [], [], None, None))
  }

  function ParseLine(line: string): Result<DepRecord> {
    var parts := Split(Strip(line), ':');
    if |parts| != 3 then Error
    else
      var r, rob, reg := ParseInfo(Split(parts[0], ',')), ParseItems(Split(Strip(parts[1]), ',')),
          ParseItems(Split(parts[2], ','));
      if r.Error? || rob.Error? || reg.Error? then Error
      else Ok(r.value.(robDep := rob.value, regDep := reg.value))
  }

  // ---------- round trip of one record ----------

  predicate Avoids(s: string, bad: string) {
    forall k :: 0 <= k < |s| ==> s[k] !in bad
  }

  const SPACES: string := " \t\n\r"
  const MARKS: string := ",: \t\n\r"
  const NOT_COMMA: string := ": \t\n\r"

  lemma {:induction false} JoinAvoids(parts: seq<string>, sep: char, bad: string)
    requires sep !in bad && forall k :: 0 <= k < |parts| ==> Avoids(parts[k], bad)
    ensures Avoids(Join(parts, sep), bad)
  {
    if |parts| > 1 {
      JoinAvoids(parts[1..], sep, bad);
    }
  }

  lemma {:induction false} DecPlain(n: nat)
    ensures Avoids(Dec(n), MARKS) && Dec(n) != []
  {
    DecFacts(n);
    forall k | 0 <= k < |Dec(n)| ensures Dec(n)[k] !in MARKS {
      assert IsDigit(Dec(n)[k]);
    }
  }

  lemma {:induction false} DecAllPlain(xs: seq<nat>)
    ensures forall k :: 0 <= k < |DecAll(xs)| ==> Avoids(DecAll(xs)[k], MARKS)
  {
    if xs != [] {
      DecPlain(xs[0]);
      DecAllPlain(xs[1..]);
    }
  }

  lemma {:induction false} NamePlain(t: RecordType)
    ensures Avoids(NameOf(t), MARKS) && TypeNamed(NameOf(t)) == Some(t)
  {
  }

  lemma {:induction false} InfoPlain(r: DepRecord)
    ensures forall k :: 0 <= k < |InfoFields(r)| ==> Avoids(InfoFields(r)[k], MARKS)
  {
    DecPlain(r.seqNum);
    DecPlain(r.pc.GetOr(0));
    DecPlain(r.weight.GetOr(1));
    DecPlain(r.compDelay);
    DecPlain(r.pAddr.GetOr(0));
    DecPlain(r.size.GetOr(0));
    DecPlain(r.flags.GetOr(0));
    NamePlain(r.typ);
  }

  lemma {:induction false} AvoidsLess(s: string)
    requires Avoids(s, MARKS)
    ensures Avoids(s, NOT_COMMA) && ',' !in s
  {
    assert ',' in MARKS;
    assert forall c :: c in NOT_COMMA ==> c in MARKS;
  }

  /** Comma-separated plain fields split back into themselves and contain neither colons nor blanks. */
  lemma {:induction false} CommaFields(parts: seq<string>)
    requires parts != [] && forall k :: 0 <= k < |parts| ==> Avoids(parts[k], MARKS)
    ensures Split(Join(parts, ','), ',') == parts && Avoids(Join(parts, ','), NOT_COMMA)
  {
    forall k | 0 <= k < |parts| ensures Avoids(parts[k], NOT_COMMA) && ',' !in parts[k] {
      AvoidsLess(parts[k]);
    }
    SplitJoin(parts, ',');
    JoinAvoids(parts, ',', NOT_COMMA);
  }

  lemma {:induction false} NoBlanks(s: string)
    requires Avoids(s, NOT_COMMA)
    ensures Avoids(s, SPACES) && ':' !in s
  {
    assert ':' in NOT_COMMA;
    assert forall c :: c in SPACES ==> c in NOT_COMMA;
  }

  lemma {:induction false} StripPlain(s: string)
    requires Avoids(s, SPACES)
    ensures Strip(s) == s && (s != [] ==> Strip(s + "\n") == s)
  {
    if s != [] {
      StripNewline(s);
    }
  }

  /** The parser sees exactly the fields that were printed. */
  lemma {:induction false} ParserSees(r: DepRecord)
    ensures var parts := Split(Strip(Line(r)), ':');
            && |parts| == 3 && Split(parts[0], ',') == InfoFields(r)
            && Split(Strip(parts[1]), ',') == [""] + DecAll(r.robDep) && Split(parts[2], ',') == [""] + DecAll(r.regDep)
  {
    InfoPlain(r);
    CommaFields(InfoFields(r));
    DepsPlain(r.robDep);
    DepsPlain(r.regDep);
    var parts := [Join(InfoFields(r), ','), DepsText(r.robDep), DepsText(r.regDep)];
    forall k | 0 <= k < |parts| ensures Avoids(parts[k], SPACES) && ':' !in parts[k] {
      NoBlanks(parts[k]);
    }
    SplitJoin(parts, ':');
    JoinAvoids(parts, ':', SPACES);
    StripPlain(parts[1]);
    ThreeParts(parts[0], parts[1], parts[2]);
    StripPlain(Body(r));
  }

  lemma {:induction false} DepsPlain(xs: seq<nat>)
    ensures Split(DepsText(xs), ',') == [""] + DecAll(xs) && Avoids(DepsText(xs), NOT_COMMA)
  {
    DecAllPlain(xs);
    CommaFields([""] + DecAll(xs));
  }

  lemma {:induction false} ItemsRoundTrip(xs: seq<nat>)
    requires forall k :: 0 <= k < |xs| ==> xs[k] < U64
    ensures ParseItems([""] + DecAll(xs)) == Ok(xs)
  {
    if xs == [] {
      assert [""][..0] == [];
      assert ParseItems([""][..0]) == Ok([]);
    } else {
      var n := |xs| - 1;
      assert xs == xs[..n] + [xs[n]];
      ItemsRoundTrip(xs[..n]);
      DecAllStep(xs[..n], xs[n]);
      var items := [""] + DecAll(xs);
      assert items[..|items| - 1] == [""] + DecAll(xs[..n]);
      ParseDec(xs[n], U64);
      DecFacts(xs[n]);
    }
  }

  /** The first four fields come back. */
  lemma {:induction false} HeadRoundTrip(r: DepRecord)
    requires InRange(r)
    ensures var f := InfoFields(r);
            && |f| >= 5 && ParseNat(f[0], U64) == Some(r.seqNum) && ParseNat(f[1], U64) == Some(r.pc.GetOr(0))
            && ParseNat(f[2], U32) == Some(r.weight.GetOr(1)) && TypeNamed(f[3]) == Some(r.typ)
  {
    ParseDec(r.seqNum, U64);
    ParseDec(r.pc.GetOr(0), U64);
    ParseDec(r.weight.GetOr(1), U32);
    NamePlain(r.typ);
  }

  ghost function Base(r: DepRecord): DepRecord {
    DepRecord(r.seqNum, Some(r.pc.GetOr(0)), Some(r.weight.GetOr(1)), r.typ, None, None, None, 0, [], [], None, None)
  }

  lemma {:induction false} ShapedTail(r: DepRecord)
    requires InRange(r) && Shaped(r)
    ensures ParseTail(InfoFields(r), Base(r)) == Ok(Base(r).(pAddr := r.pAddr, size := r.size, flags := r.flags,
        compDelay := r.compDelay))
  {
    ParseDec(r.compDelay, U64);
    if IsMemory(r.typ) {
      ParseDec(r.pAddr.value, U64);
      ParseDec(r.size.value, U32);
      ParseDec(r.flags.value, U32);
    }
  }

  /** A record of the wrong shape is rejected, or loses the fields it should not have had. */
  lemma {:induction false} MisshapenTail(r: DepRecord)
    requires InRange(r) && !Shaped(r) && !r.typ.Invalid?
    ensures var t := ParseTail(InfoFields(r), Base(r));
            t.Error? || (t.value.pAddr, t.value.size, t.value.flags) != (r.pAddr, r.size, r.flags)
  {
    if IsMemory(r.typ) {
      assert |InfoFields(r)| < 8;
    }
  }

  /** What the parser makes of a printed line, from its three parts. */
  lemma {:induction false} LineParses(r: DepRecord)
    requires InRange(r)
    ensures var info := ParseInfo(InfoFields(r));
            ParseLine(Line(r)) ==
              if info.Error? then Error else Ok(info.value.(robDep := r.robDep, regDep := r.regDep))
    ensures r.typ.Invalid? ==> ParseInfo(InfoFields(r)).Error?
    ensures !r.typ.Invalid? ==> ParseInfo(InfoFields(r)) == ParseTail(InfoFields(r), Base(r))
  {
    ParserSees(r);
    ItemsRoundTrip(r.robDep);
    ItemsRoundTrip(r.regDep);
    HeadRoundTrip(r);
  }

  lemma {:induction false} ShapedRoundTrip(r: DepRecord)
    requires InRange(r) && Shaped(r)
    ensures ParseLine(Line(r)) == Ok(Defaulted(r))
  {
    LineParses(r);
    ShapedTail(r);
  }

  lemma {:induction false} MisshapenLost(r: DepRecord)
    requires InRange(r) && !Shaped(r)
    ensures ParseLine(Line(r)) != Ok(Defaulted(r))
  {
    LineParses(r);
    if !r.typ.Invalid? {
      MisshapenTail(r);
    }
  }

  /**
   Parsing the line printed for a record gives that record back, with pc and weight filled in,
   exactly when the record is of a valid shape.
   */
  lemma {:induction false} LineRoundTripIff(r: DepRecord)
    requires InRange(r)
    ensures ParseLine(Line(r)) == Ok(Defaulted(r)) <==> Shaped(r)
  {
    if Shaped(r) {
      ShapedRoundTrip(r);
    } else {
      MisshapenLost(r);
    }
  }

  /** The four words name the four types, and nothing else names one. */
  lemma {:induction false} TypeNamedIff(s: string, t: RecordType)
    ensures TypeNamed(s) == Some(t) <==> s == NameOf(t)
  {
    NamePlain(t);
    if TypeNamed(s) == Some(t) {
      assert s == NameOf(t);
    }
  }

  lemma {:induction false} ItemsInRange(items: seq<string>)
    requires ParseItems(items).Ok?
    ensures forall k :: 0 <= k < |ParseItems(items).value| ==> ParseItems(items).value[k] < U64
  {
    if items != [] {
      ItemsInRange(items[..|items| - 1]);
    }
  }

  lemma {:induction false} InfoInRange(info: seq<string>)
    requires ParseInfo(info).Ok?
    ensures var r := ParseInfo(info).value; InRange(r) && Shaped(r) && Defaulted(r) == r
    ensures var r := ParseInfo(info).value; |info| >= 4 && info[3] == NameOf(r.typ)
  {
    TypeNamedIff(info[3], ParseInfo(info).value.typ);
  }

  /** Whatever line the parser accepts, the record is of a valid shape and survives printing and parsing. */
  lemma {:induction false} AcceptedIsStable(line: string)
    requires ParseLine(line).Ok?
    ensures var r := ParseLine(line).value; InRange(r) && Shaped(r) && ParseLine(Line(r)) == Ok(r)
  {
    var parts := Split(Strip(line), ':');
    InfoInRange(Split(parts[0], ','));
    ItemsInRange(Split(Strip(parts[1]), ','));
    ItemsInRange(Split(parts[2], ','));
    LineRoundTripIff(ParseLine(line).value);
  }

  // ---------- whole traces ----------

  function PrintAll(rs: seq<DepRecord>): string {
    if rs == [] then "" else Line(rs[0]) + PrintAll(rs[1..])
  }

  /** The lines of a file, each with its newline, as iterating over the file yields them. */
  function Lines(text: string): (r: seq<string>)
    ensures text != [] ==> r != []
  {
    if text == [] then []
    else if text[0] == '\n' then ["\n"] + Lines(text[1..])
    else if |text| == 1 then [text]
    else
      var r := Lines(text[1..]);
      [[text[0]] + r[0]] + r[1..]
  }

  function ParseLines(lines: seq<string>): Result<seq<DepRecord>> {
    if lines == [] then Ok([])
    else
      var r, rest := ParseLine(lines[0]), ParseLines(lines[1..]);
      if r.Error? || rest.Error? then Error else Ok([r.value] + rest.value)
  }

  lemma {:induction false} PrintNext(text: string, rs: seq<DepRecord>, i: nat)
    requires i < |rs|
    ensures text + PrintAll(rs[i..]) == (text + Line(rs[i])) + PrintAll(rs[i + 1..])
  {
    assert rs[i..][0] == rs[i] && rs[i..][1..] == rs[i + 1..];
    Associate(text, Line(rs[i]), PrintAll(rs[i + 1..]));
  }

  method PrintTrace(rs: seq<DepRecord>) returns (text: string)
    ensures text == PrintAll(rs)
  {
    text := "";
    for i := 0 to |rs|
      invariant text + PrintAll(rs[i..]) == PrintAll(rs)
    {
      PrintNext(text, rs, i);
      var line := PrintRecord(rs[i]);
      text := text + line;
    }
  }

  lemma {:induction false} FirstLine(a: string, rest: string)
    requires '\n' !in a
    ensures Lines(a + "\n" + rest) == [a + "\n"] + Lines(rest)
  {
    var s := a + "\n" + rest;
    if a == [] {
      assert s[0] == '\n' && s[1..] == rest;
      assert a + "\n" == "\n";
    } else {
      FirstLine(a[1..], rest);
      assert s[1..] == a[1..] + "\n" + rest;
      assert [a[0]] + (a[1..] + "\n") == a + "\n";
    }
  }

  lemma {:induction false} BodyHasNoNewline(r: DepRecord)
    ensures '\n' !in Body(r)
  {
    InfoPlain(r);
    CommaFields(InfoFields(r));
    DepsPlain(r.robDep);
    DepsPlain(r.regDep);
    var parts := [Join(InfoFields(r), ','), DepsText(r.robDep), DepsText(r.regDep)];
    forall k | 0 <= k < |parts| ensures Avoids(parts[k], SPACES) {
      NoBlanks(parts[k]);
    }
    JoinAvoids(parts, ':', SPACES);
    assert '\n' in SPACES;
  }

  function DefaultedAll(rs: seq<DepRecord>): seq<DepRecord> {
    if rs == [] then [] else [Defaulted(rs[0])] + DefaultedAll(rs[1..])
  }

  ghost predicate AllShaped(rs: seq<DepRecord>) {
    forall k :: 0 <= k < |rs| ==> Shaped(rs[k])
  }

  lemma {:induction false} ShapedCons(rs: seq<DepRecord>)
    requires rs != []
    ensures AllShaped(rs) <==> Shaped(rs[0]) && AllShaped(rs[1..])
  {
    if Shaped(rs[0]) && AllShaped(rs[1..]) {
      forall k | 0 <= k < |rs| ensures Shaped(rs[k]) {
        assert k > 0 ==> rs[k] == rs[1..][k - 1];
      }
    }
  }

  lemma {:induction false} SameCons(a: DepRecord, s: seq<DepRecord>, b: DepRecord, t: seq<DepRecord>)
    ensures [a] + s == [b] + t <==> a == b && s == t
  {
    assert ([a] + s)[0] == a && ([a] + s)[1..] == s && ([b] + t)[0] == b && ([b] + t)[1..] == t;
  }

  lemma {:induction false} ParseFirstLine(r: DepRecord, rest: string)
    ensures var p, tail := ParseLine(Line(r)), ParseLines(Lines(rest));
            ParseLines(Lines(Line(r) + rest)) == if p.Error? || tail.Error? then Error else Ok([p.value] + tail.value)
  {
    BodyHasNoNewline(r);
    FirstLine(Body(r), rest);
    var lines := Lines(Line(r) + rest);
    assert lines[0] == Line(r) && lines[1..] == Lines(rest);
  }

  /** A printed trace parses back, record by record, exactly when every record is of a valid shape. */
  lemma {:induction false} TraceRoundTripIff(rs: seq<DepRecord>)
    requires forall k :: 0 <= k < |rs| ==> InRange(rs[k])
    ensures ParseLines(Lines(PrintAll(rs))) == Ok(DefaultedAll(rs)) <==> AllShaped(rs)
  {
    if rs != [] {
      var r, rest := rs[0], rs[1..];
      TraceRoundTripIff(rest);
      LineRoundTripIff(r);
      ParseFirstLine(r, PrintAll(rest));
      ShapedCons(rs);
      var p, tail := ParseLine(Line(r)), ParseLines(Lines(PrintAll(rest)));
      if p.Ok? && tail.Ok? {
        SameCons(p.value, tail.value, Defaulted(r), DefaultedAll(rest));
      }
    }
  }
}
