/**
 The checkpoint aggregator, gem5/util/checkpoint_aggregator.py: several
 single-process checkpoints become one, each with its own stretch of memory
 and its own numbered cpu sections.
 */
module Aggregator {
  import opened Bytes
  import opened Decimal

  const PAGE: nat := 4096

  // ---------- renaming sections ----------

  const CPU: string := "cpu"

  ghost predicate StartsWithCpu(s: string) {
    |s| >= 3 && s[0] == 'c' && s[1] == 'p' && s[2] == 'u'
  }

  /** re.sub("cpu", "cpu" + inserted, s): every occurrence is followed by the inserted digits. */
  function InsertAfterCpu(s: string, inserted: string): string {
    if |s| < 3 then s
    else if s[0] == 'c' && s[1] == 'p' && s[2] == 'u' then CPU + inserted + InsertAfterCpu(s[3..], inserted)
    else [s[0]] + InsertAfterCpu(s[1..], inserted)
  }

  /** re.search("cpu", s). */
  predicate HasCpu(s: string) {
    |s| >= 3 && ((s[0] == 'c' && s[1] == 'p' && s[2] == 'u') || HasCpu(s[1..]))
  }

  /** str(i).zfill(n). */
  function Zfill(i: nat, n: nat): string {
    if |Dec(i)| >= n then Dec(i) else seq(n - |Dec(i)|, _ => '0') + Dec(i)
  }

  lemma {:induction false} ZeroesKeepValue(k: nat, s: string)
    requires AllDigits(s)
    ensures AllDigits(seq(k, _ => '0') + s) && ToNat(seq(k, _ => '0') + s) == ToNat(s)
    decreases |s|, k
  {
    var z := seq(k, _ => '0');
    var t := z + s;
    if s == [] {
      if k > 0 {
        ZeroesKeepValue(k - 1, s);
        assert t == z && t[..k - 1] == seq(k - 1, _ => '0') + s;
      }
    } else {
      ZeroesKeepValue(k, s[..|s| - 1]);
      assert t[..|t| - 1] == z + s[..|s| - 1];
    }
  }

  lemma {:induction false} ZfillIs(i: nat, n: nat)
    requires n >= |Dec(i)|
    ensures Zfill(i, n) == seq(n - |Dec(i)|, _ => '0') + Dec(i)
  {
    if n == |Dec(i)| {
      assert seq(n - |Dec(i)|, _ => '0') == "";
    }
  }

  /** All indices below `count` pad to the same width, and different indices to different strings. */
  lemma {:induction false} ZfillFacts(i: nat, count: nat)
    requires i < count
    ensures var n := |Dec(count - 1)|; |Zfill(i, n)| == n && AllDigits(Zfill(i, n)) && ToNat(Zfill(i, n)) == i
  {
    var n, s := |Dec(count - 1)|, Dec(i);
    DecLength(i, count - 1);
    DecFacts(i);
    ZeroesKeepValue(n - |s|, s);
    ZfillIs(i, n);
  }

  lemma {:induction false} FirstKept(s: string, d: string)
    ensures |InsertAfterCpu(s, d)| >= |s|
    ensures s != [] ==> InsertAfterCpu(s, d)[0] == s[0]
  {
    if |s| >= 3 {
      FirstKept(if StartsWithCpu(s) then s[3..] else s[1..], d);
    }
  }

  /** Inserting does not make or break an occurrence at the front. */
  lemma {:induction false} SameStart(s: string, d: string)
    ensures StartsWithCpu(InsertAfterCpu(s, d)) <==> StartsWithCpu(s)
  {
    if |s| >= 3 && !StartsWithCpu(s) {
      FirstKept(s[1..], d);
      if s[0] == 'c' && s[1] == 'p' {
        FirstKept(s[2..], d);
        assert InsertAfterCpu(s[1..], d)[1] == s[2];
      }
    }
  }

  lemma {:induction false} SameDigitsInjective(s: string, t: string, d: string)
    requires InsertAfterCpu(s, d) == InsertAfterCpu(t, d)
    ensures s == t
    decreases |s| + |t|
  {
    FirstKept(s, d);
    FirstKept(t, d);
    SameStart(s, d);
    SameStart(t, d);
    var u := InsertAfterCpu(s, d);
    if |s| < 3 || |t| < 3 {
      LengthTells(s, d);
      LengthTells(t, d);
    } else if StartsWithCpu(s) {
      assert u[3 + |d|..] == InsertAfterCpu(s[3..], d) == InsertAfterCpu(t[3..], d);
      SameDigitsInjective(s[3..], t[3..], d);
      assert s == CPU + s[3..] && t == CPU + t[3..];
    } else {
      assert u[1..] == InsertAfterCpu(s[1..], d) == InsertAfterCpu(t[1..], d);
      SameDigitsInjective(s[1..], t[1..], d);
      assert s == [s[0]] + s[1..] && t == [t[0]] + t[1..];
    }
  }

  lemma {:induction false} LengthTells(s: string, d: string)
    ensures |InsertAfterCpu(s, d)| < 3 ==> |s| < 3
    ensures |s| < 3 ==> InsertAfterCpu(s, d) == s
  {
    FirstKept(s, d);
  }

  /** Renamed sections with equally many inserted characters only agree if both name and insertion agree. */
  lemma {:induction false} RenameInjective(s: string, d: string, t: string, e: string)
    requires HasCpu(s) && HasCpu(t) && |d| == |e| && InsertAfterCpu(s, d) == InsertAfterCpu(t, e)
    ensures s == t && d == e
    decreases |s| + |t|
  {
    FirstKept(s, d);
    FirstKept(t, e);
    SameStart(s, d);
    SameStart(t, e);
    var u := InsertAfterCpu(s, d);
    if StartsWithCpu(s) {
      assert u[3..3 + |d|] == d && u[3..3 + |e|] == e;
      assert u[3 + |d|..] == InsertAfterCpu(s[3..], d) == InsertAfterCpu(t[3..], d);
      SameDigitsInjective(s[3..], t[3..], d);
      assert s == CPU + s[3..] && t == CPU + t[3..];
    } else {
      assert u[1..] == InsertAfterCpu(s[1..], d) == InsertAfterCpu(t[1..], e);
      RenameInjective(s[1..], d, t[1..], e);
      assert s == [s[0]] + s[1..] && t == [t[0]] + t[1..];
    }
  }

  /** A renamed section still has "cpu" in its name, so it never meets one that was not renamed. */
  lemma {:induction false} RenamedHasCpu(s: string, d: string)
    requires HasCpu(s)
    ensures HasCpu(InsertAfterCpu(s, d))
  {
    SameStart(s, d);
    if !StartsWithCpu(s) {
      RenamedHasCpu(s[1..], d);
      assert InsertAfterCpu(s, d)[1..] == InsertAfterCpu(s[1..], d);
    }
  }

  /** The new name of section `sec` of checkpoint `i` out of `count`. */
  function NewName(sec: string, i: nat, count: nat): string
    requires i < count
  {
    InsertAfterCpu(sec, Zfill(i, |Dec(count - 1)|))
  }

  /** Over all checkpoints and all their cpu sections, no two get the same new name. */
  lemma {:induction false} NewNamesDistinct(s: string, i: nat, t: string, j: nat, count: nat)
    requires i < count && j < count && HasCpu(s) && HasCpu(t) && NewName(s, i, count) == NewName(t, j, count)
    ensures s == t && i == j
  {
    ZfillFacts(i, count);
    ZfillFacts(j, count);
    RenameInjective(s, Zfill(i, |Dec(count - 1)|), t, Zfill(j, |Dec(count - 1)|));
  }

  // ---------- memory ----------

  /** A checkpoint: its memory image and the number of pages in use (system.pagePtr). */
  datatype Image = Image(pages: nat, memory: seq<Byte>)

  ghost predicate Full(c: Image) {
    |c.memory| >= c.pages * PAGE
  }

  /** The page count before checkpoint `i`: all pages of the checkpoints in front of it. */
  function PagesBefore(cs: seq<Image>, i: nat): nat
    requires i <= |cs|
  {
    if i == 0 then 0 else PagesBefore(cs, i - 1) + cs[i - 1].pages
  }

  /** What `pages` reads of one page each yield. */
  function FirstPages(c: Image): seq<Byte> {
    if |c.memory| >= c.pages * PAGE then c.memory[..c.pages * PAGE] else c.memory
  }

  function Copied(cs: seq<Image>, i: nat): seq<Byte>
    requires i <= |cs|
  {
    if i == 0 then [] else Copied(cs, i - 1) + FirstPages(cs[i - 1])
  }

  /** The page-by-page copy (lines 105-112); a read past the end of the file returns what is left. */
  method CopyPages(c: Image, out: seq<Byte>) returns (out': seq<Byte>)
    ensures out' == out + FirstPages(c)
  {
    out' := out;
    var read: nat := 0;
    for x := 0 to c.pages
      invariant read <= |c.memory| && out' == out + c.memory[..read]
      invariant read == if |c.memory| >= x * PAGE then x * PAGE else |c.memory|
    {
      var n := if read + PAGE <= |c.memory| then PAGE else |c.memory| - read;
      assert c.memory[..read + n] == c.memory[..read] + c.memory[read..read + n];
      out' := out' + c.memory[read..read + n];
      read := read + n;
    }
    assert |c.memory| < c.pages * PAGE ==> c.memory[..read] == c.memory;
  }

  /** `n` characters '0': the padding is text, not zero bytes. */
  function Zeroes(n: nat): (s: seq<Byte>)
    ensures |s| == n
  {
    seq(n, _ => 48)
  }

  /** The padding loop (lines 121-129): whole pages until the memory size is reached. */
  method Pad(copied: seq<Byte>, pagePtr: nat, memorySize: nat) returns (merged: seq<Byte>, pages: nat)
    ensures pages >= pagePtr && pages * PAGE >= memorySize
    ensures merged == copied + Zeroes((pages - pagePtr) * PAGE)
    ensures pages == pagePtr || pages * PAGE < memorySize + PAGE
  {
    merged, pages := copied, pagePtr;
    var fileSize := pages * PAGE;
    while fileSize < memorySize
      invariant fileSize == pages * PAGE && pages >= pagePtr
      invariant merged == copied + Zeroes((pages - pagePtr) * PAGE)
      invariant pages == pagePtr || fileSize < memorySize + PAGE
    {
      assert Zeroes((pages - pagePtr) * PAGE) + Zeroes(PAGE) == Zeroes((pages + 1 - pagePtr) * PAGE);
      merged := merged + Zeroes(PAGE);
      fileSize := fileSize + PAGE;
      pages := pages + 1;
    }
  }

  /** Each base is the size of the pages before. */
  ghost predicate AreBases(cs: seq<Image>, bases: seq<nat>) {
    |bases| == |cs| && forall i :: 0 <= i < |cs| ==> bases[i] == PagesBefore(cs, i) * PAGE
  }

  /** Aggregates the images; `bases[i]` is the shift given to the paddr entries of checkpoint `i`. */
  method AggregateMemory(cs: seq<Image>, memorySize: nat)
      returns (merged: seq<Byte>, bases: seq<nat>, pagePtr: nat, rangeSize: nat)
    ensures pagePtr == PagesBefore(cs, |cs|)
    ensures AreBases(cs, bases)
    ensures rangeSize >= pagePtr * PAGE && rangeSize >= memorySize
    ensures merged == Copied(cs, |cs|) + Zeroes(rangeSize - pagePtr * PAGE)
    ensures rangeSize % PAGE == 0 && (rangeSize == pagePtr * PAGE || rangeSize < memorySize + PAGE)
  {
    var copied;
    copied, bases, pagePtr := CopyImages(cs);
    var pages;
    merged, pages := Pad(copied, pagePtr, memorySize);
    rangeSize := pages * PAGE;
    assert (pages - pagePtr) * PAGE == rangeSize - pagePtr * PAGE;
  }

  method CopyImages(cs: seq<Image>) returns (copied: seq<Byte>, bases: seq<nat>, pagePtr: nat)
    ensures copied == Copied(cs, |cs|) && pagePtr == PagesBefore(cs, |cs|)
    ensures AreBases(cs, bases)
  {
    copied, bases, pagePtr := [], [], 0;
    for i := 0 to |cs|
      invariant pagePtr == PagesBefore(cs, i) && copied == Copied(cs, i)
      invariant |bases| == i && forall k :: 0 <= k < i ==> bases[k] == PagesBefore(cs, k) * PAGE
    {
      bases := bases + [pagePtr * PAGE];
      pagePtr := pagePtr + cs[i].pages;
      copied := CopyPages(cs[i], copied);
      assert Copied(cs, i + 1) == Copied(cs, i) + FirstPages(cs[i]);
    }
  }

  lemma {:induction false} PagesMonotone(cs: seq<Image>, i: nat, j: nat)
    requires i <= j <= |cs|
    ensures PagesBefore(cs, i) <= PagesBefore(cs, j)
    ensures i < j ==> PagesBefore(cs, i) + cs[i].pages <= PagesBefore(cs, j)
  {
    if i < j {
      PagesMonotone(cs, i, j - 1);
    }
  }

  /** If every image up to `i` is full, image `i` starts exactly at its base. */
  lemma {:induction false} CopiedSize(cs: seq<Image>, i: nat)
    requires i <= |cs|
    ensures |Copied(cs, i)| <= PagesBefore(cs, i) * PAGE
    ensures |Copied(cs, i)| == PagesBefore(cs, i) * PAGE <==> forall k :: 0 <= k < i ==> Full(cs[k])
  {
    if i > 0 {
      CopiedSize(cs, i - 1);
      assert PagesBefore(cs, i) * PAGE == PagesBefore(cs, i - 1) * PAGE + cs[i - 1].pages * PAGE;
    }
  }

  lemma {:induction false} CopiedPrefix(cs: seq<Image>, i: nat, j: nat)
    requires i <= j <= |cs|
    ensures Copied(cs, i) <= Copied(cs, j)
  {
    if i < j {
      CopiedPrefix(cs, i, j - 1);
    }
  }

  lemma {:induction false} PieceAt(front: seq<Byte>, own: seq<Byte>, merged: seq<Byte>, a: nat)
    requires front + own <= merged && a < |own|
    ensures |front| + a < |merged| && merged[|front| + a] == own[a]
  {
    assert (front + own)[|front| + a] == own[a];
  }

  /**
   Every byte copied from checkpoint `i` lands at its address plus the base of the checkpoint if all
   images before it are full, and only then; images after it do not matter.
   */
  lemma {:induction false} Relocated(cs: seq<Image>, merged: seq<Byte>, i: nat, a: nat)
    requires i < |cs| && Copied(cs, |cs|) <= merged && a < |FirstPages(cs[i])|
    ensures |Copied(cs, i)| + a < |merged| && a < |cs[i].memory| && merged[|Copied(cs, i)| + a] == cs[i].memory[a]
    ensures |Copied(cs, i)| == PagesBefore(cs, i) * PAGE <==> forall k :: 0 <= k < i ==> Full(cs[k])
  {
    CopiedSize(cs, i);
    CopiedPrefix(cs, i + 1, |cs|);
    PieceAt(Copied(cs, i), FirstPages(cs[i]), merged, a);
  }

  /** The stretches of different checkpoints do not overlap. */
  lemma {:induction false} StretchesDisjoint(cs: seq<Image>, i: nat, a: nat, j: nat, b: nat)
    requires i < j < |cs| && a < cs[i].pages * PAGE && b < cs[j].pages * PAGE
    ensures PagesBefore(cs, i) * PAGE + a < PagesBefore(cs, j) * PAGE + b
  {
    PagesMonotone(cs, i, j);
  }

  /** range_size is the number of bytes written exactly when every image is full. */
  lemma {:induction false} RangeSizeIff(cs: seq<Image>, merged: seq<Byte>, rangeSize: nat)
    requires rangeSize >= PagesBefore(cs, |cs|) * PAGE
    requires |merged| == |Copied(cs, |cs|)| + (rangeSize - PagesBefore(cs, |cs|) * PAGE)
    ensures rangeSize == |merged| <==> forall k :: 0 <= k < |cs| ==> Full(cs[k])
  {
    CopiedSize(cs, |cs|);
  }

  // ---------- configuration ----------

  datatype Value = Text(text: string) | Num(num: int)

  datatype Section = Section(name: string, items: map<string, Value>)

  ghost predicate DistinctNames(s: seq<Section>) {
    forall i, j :: 0 <= i < j < |s| ==> s[i].name != s[j].name
  }

  /** Physical addresses move to the checkpoint's stretch; everything else stays (lines 72-77). */
  function Shifted(items: map<string, Value>, base: nat): map<string, Value> {
    map k | k in items :: if k == "paddr" && items[k].Num? then Num(items[k].num + base) else items[k]
  }

  /** The sections that re.compile("workload.FdMap256$") finds; its dot matches any character. */
  predicate IsFdMap(name: string) {
    && |name| >= 17 && name[|name| - 17..|name| - 9] == "workload" && name[|name| - 9] != '\n'
    && name[|name| - 8..] == "FdMap256"
  }

  /** A cpu section of checkpoint `i`: new name, shifted addresses, and the process id (lines 67-80). */
  function Renamed(s: Section, i: nat, count: nat, base: nat): Section
    requires i < count
  {
    var items := Shifted(s.items, base);
    Section(NewName(s.name, i, count), if IsFdMap(s.name) then items["M5_pid" := Num(i)] else items)
  }

  predicate IsSpecial(name: string) {
    name == "system" || name == "Globals"
  }

  /** What checkpoint `i` contributes to the merged configuration, in order (lines 67-92). */
  function Contribution(sections: seq<Section>, i: nat, count: nat, base: nat): seq<Section>
    requires i < count
  {
    if sections == [] then []
    else
      var s := sections[|sections| - 1];
      Contribution(sections[..|sections| - 1], i, count, base) +
      if HasCpu(s.name) then [Renamed(s, i, count, base)]
      else if !IsSpecial(s.name) && i == count - 1 then [s]
      else []
  }

  function AllContributions(cpts: seq<seq<Section>>, images: seq<Image>, i: nat): seq<Section>
    requires i <= |cpts| == |images|
  {
    if i == 0 then []
    else AllContributions(cpts, images, i - 1) + Contribution(cpts[i - 1], i - 1, |cpts|, PagesBefore(images,
        i - 1) * PAGE)
  }

  method Contribute(sections: seq<Section>, i: nat, count: nat, base: nat) returns (out: seq<Section>)
    requires i < count
    ensures out == Contribution(sections, i, count, base)
  {
    out := [];
    for k := 0 to |sections|
      invariant out == Contribution(sections[..k], i, count, base)
    {
      var s := sections[k];
      assert sections[..k + 1][..k] == sections[..k];
      if HasCpu(s.name) {
        out := out + [Renamed(s, i, count, base)];
      } else if !IsSpecial(s.name) && i == count - 1 {
        out := out + [s];
      } else {
        assert out + [] == out;
      }
    }
    assert sections[..|sections|] == sections;
  }

  method AggregateConfig(cpts: seq<seq<Section>>, images: seq<Image>, memoryPages: nat, curTick: int)
      returns (written: seq<Section>)
    requires |cpts| == |images| > 0
    ensures written == AllContributions(cpts, images, |cpts|) +
                         [Section("system", map["pagePtr" := Num(memoryPages), "nextPID" := Num(|cpts|)]),
                          Section("Globals", map["curTick" := Num(curTick)])]
  {
    written := [];
    var pages := 0;
    for i := 0 to |cpts|
      invariant written == AllContributions(cpts, images, i) && pages == PagesBefore(images, i)
    {
      var part := Contribute(cpts[i], i, |cpts|, pages * PAGE);
      written := written + part;
      pages := pages + images[i].pages;
    }
    written := written + [Section("system", map["pagePtr" := Num(memoryPages), "nextPID" := Num(|cpts|)]),
                          Section("Globals", map["curTick" := Num(curTick)])];
  }

  /** Where a contributed section comes from. */
  ghost predicate Origin(w: Section, s: Section, i: nat, count: nat, base: nat)
    requires i < count
  {
    || (HasCpu(s.name) && w == Renamed(s, i, count, base))
    || (!HasCpu(s.name) && !IsSpecial(s.name) && i == count - 1 && w == s)
  }

  lemma {:induction false} ContributionOrigin(sections: seq<Section>, i: nat, count: nat, base: nat, k: nat)
      returns (j: nat)
    requires i < count && k < |Contribution(sections, i, count, base)|
    ensures j < |sections| && Origin(Contribution(sections, i, count, base)[k], sections[j], i, count, base)
    ensures k < |Contribution(sections[..j + 1], i, count, base)| && k >= |Contribution(sections[..j], i, count, base)|
  {
    var n := |sections| - 1;
    var front := Contribution(sections[..n], i, count, base);
    if k < |front| {
      j := ContributionOrigin(sections[..n], i, count, base, k);
      assert sections[..n][..j] == sections[..j] && sections[..n][..j + 1] == sections[..j + 1];
    } else {
      j := n;
      assert sections[..n + 1] == sections;
    }
  }

  /** Sections from different places, of one checkpoint or of two, have different names. */
  lemma {:induction false} OriginsDistinct(w: Section, s: Section, i: nat, bi: nat, w': Section, s': Section, j: nat,
                                           bj: nat, count: nat)
    requires i < count && j < count && Origin(w, s, i, count, bi) && Origin(w', s', j, count, bj)
    requires i != j || s.name != s'.name
    ensures w.name != w'.name && !IsSpecial(w.name)
  {
    if HasCpu(s.name) {
      RenamedHasCpu(s.name, Zfill(i, |Dec(count - 1)|));
    }
    if HasCpu(s'.name) {
      RenamedHasCpu(s'.name, Zfill(j, |Dec(count - 1)|));
    }
    if HasCpu(s.name) && HasCpu(s'.name) && w.name == w'.name {
      NewNamesDistinct(s.name, i, s'.name, j, count);
    }
    assert !HasCpu("system") && !HasCpu("Globals") by {
      NoCpuInSystem();
    }
  }

  lemma {:induction false} NoCpuInSystem()
    ensures !HasCpu("system") && !HasCpu("Globals")
  {
    assert "system"[1..] == "ystem" && "ystem"[1..] == "stem" && "stem"[1..] == "tem" && "tem"[1..] == "em";
    assert !HasCpu("em") && !HasCpu("tem") && !HasCpu("stem") && !HasCpu("ystem");
    assert "Globals"[1..] == "lobals" && "lobals"[1..] == "obals" && "obals"[1..] == "bals" &&
        "bals"[1..] == "als" && "als"[1..] == "ls";
    assert !HasCpu("ls") && !HasCpu("als") && !HasCpu("bals") && !HasCpu("obals") && !HasCpu("lobals");
  }

  lemma {:induction false} ContributionsOrigin(cpts: seq<seq<Section>>, images: seq<Image>, i: nat, k: nat)
      returns (c: nat, off: nat)
    requires i <= |cpts| == |images| && k < |AllContributions(cpts, images, i)|
    ensures c < i && k == |AllContributions(cpts, images, c)| + off
    ensures var part := Contribution(cpts[c], c, |cpts|, PagesBefore(images, c) * PAGE);
            off < |part| && AllContributions(cpts, images, i)[k] == part[off]
  {
    var front := AllContributions(cpts, images, i - 1);
    if k < |front| {
      c, off := ContributionsOrigin(cpts, images, i - 1, k);
    } else {
      c, off := i - 1, k - |front|;
    }
  }

  /** No two sections of the merged configuration have the same name. */
  lemma {:induction false} MergedNamesDistinct(cpts: seq<seq<Section>>, images: seq<Image>)
    requires |cpts| == |images| && forall c :: 0 <= c < |cpts| ==> DistinctNames(cpts[c])
    ensures DistinctNames(AllContributions(cpts, images, |cpts|))
    ensures forall k :: 0 <= k < |AllContributions(cpts, images, |cpts|)| ==>
        !IsSpecial(AllContributions(cpts, images, |cpts|)[k].name)
  {
    var all, n := AllContributions(cpts, images, |cpts|), |cpts|;
    forall k | 0 <= k < |all| ensures !IsSpecial(all[k].name) {
      var c, off := ContributionsOrigin(cpts, images, n, k);
      var j := ContributionOrigin(cpts[c], c, n, PagesBefore(images, c) * PAGE, off);
      NotSpecial(all[k], cpts[c][j], c, n, PagesBefore(images, c) * PAGE);
    }
    forall k, l | 0 <= k < l < |all| ensures all[k].name != all[l].name {
      var c, off := ContributionsOrigin(cpts, images, n, k);
      var d, off' := ContributionsOrigin(cpts, images, n, l);
      var bc, bd := PagesBefore(images, c) * PAGE, PagesBefore(images, d) * PAGE;
      var j := ContributionOrigin(cpts[c], c, n, bc, off);
      var j' := ContributionOrigin(cpts[d], d, n, bd, off');
      if c == d && j == j' {
        OneEach(cpts[c], c, n, bc, j);
      } else if c == d {
        assert cpts[c][j].name != cpts[c][j'].name;
      }
      if c != d || j != j' {
        OriginsDistinct(all[k], cpts[c][j], c, bc, all[l], cpts[d][j'], d, bd, n);
      }
    }
  }

  lemma {:induction false} NotSpecial(w: Section, s: Section, i: nat, count: nat, base: nat)
    requires i < count && Origin(w, s, i, count, base)
    ensures !IsSpecial(w.name)
  {
    NoCpuInSystem();
    if HasCpu(s.name) {
      RenamedHasCpu(s.name, Zfill(i, |Dec(count - 1)|));
    }
  }

  /** One section contributes at most one section. */
  lemma {:induction false} OneEach(sections: seq<Section>, i: nat, count: nat, base: nat, j: nat)
    requires i < count && j < |sections|
    ensures |Contribution(sections[..j + 1], i, count, base)| <= |Contribution(sections[..j], i, count, base)| + 1
  {
    assert sections[..j + 1][..j] == sections[..j];
  }
}
