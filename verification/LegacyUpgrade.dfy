/**
 Upgrading a checkpoint with a legacy version number, gem5/util/cpt_upgrader.py
 from load_all (lines 160-185) through the conversion of the version (lines 211-218)
 to the migration loop (lines 238-252).
 */
module LegacyUpgrade {
  import opened Options
  import opened Registry
  import opened Scheduler
  import opened Timetable

  // ---------- the rules that loading builds ----------

  ghost function Tagged(files: seq<Script>, kind: Kind): set<Tag> {
    set k | 0 <= k < |files| && files[k].kind == kind :: files[k].tag
  }

  ghost function FileOf(files: seq<Script>, t: Tag): (k: nat)
    requires HasTag(files, t)
    ensures k < |files| && files[k].tag == t
  {
    var k :| 0 <= k < |files| && files[k].tag == t;
    k
  }

  /** Declared dependencies, or the predecessor of a linked legacy version, and those forwarded by other scripts. */
  ghost function DependenciesOf(files: seq<Script>, k: nat): set<Tag>
    requires k < |files| && ChainIntact(files)
  {
    Declared(files, k) + Forwarded(files, k, AllTags(files))
  }

  /** The rules, in terms of the script files alone. */
  ghost function LoadedRules(files: seq<Script>): Rules
    requires ChainIntact(files)
  {
    Rules(Tagged(files, Upgrader), Tagged(files, Downgrader),
          map t | t in AllTags(files) && HasTag(files, t) :: DependenciesOf(files, FileOf(files, t)))
  }

  lemma {:induction false} SameFile(files: seq<Script>, j: nat, k: nat)
    requires UniqueTags(files) && j < |files| && k < |files|
    ensures files[j].tag == files[k].tag ==> j == k
    ensures files[j].legacyVersion.Some? && files[j].legacyVersion == files[k].legacyVersion ==> j == k
  {
  }

  lemma {:induction false} DependenciesLoaded(files: seq<Script>, k: nat)
    requires UniqueTags(files) && ChainIntact(files) && k < |files|
    ensures files[k].tag in LoadedRules(files).deps && LoadedRules(files).deps[files[k].tag] == DependenciesOf(files, k)
  {
    assert HasTag(files, files[k].tag);
    assert files[k].tag in AllTags(files);
    SameFile(files, FileOf(files, files[k].tag), k);
  }

  /** The rules of a loadable registry are valid for the migration loop. */
  lemma {:induction false} LoadedRulesValid(files: seq<Script>)
    requires UniqueTags(files) && ChainIntact(files)
    ensures LoadedRules(files).Valid()
  {
    var r := LoadedRules(files);
    forall t | t in r.ups ensures t !in r.downs {
      var j :| 0 <= j < |files| && files[j].kind == Upgrader && files[j].tag == t;
      forall k | 0 <= k < |files| && files[k].tag == t ensures files[k].kind == Upgrader {
        SameFile(files, j, k);
      }
    }
    forall t | t in r.ups || t in r.downs ensures t in r.deps {
      var k :| 0 <= k < |files| && files[k].tag == t;
      DependenciesLoaded(files, k);
    }
  }

  lemma {:induction false} KindIsTagged(files: seq<Script>, kind: Kind, tags: set<Tag>)
    requires KindIndex(files, kind, tags)
    ensures tags == Tagged(files, kind)
  {
  }

  lemma {:induction false} SameDependencies(files: seq<Script>, depends: seq<seq<Tag>>, byTag: map<Tag, nat>, t: Tag)
    requires UniqueTags(files) && ChainIntact(files) && TagIndex(files, byTag)
    requires Resolved(files, depends, AllTags(files)) && t in byTag
    ensures t in LoadedRules(files).deps && LoadedRules(files).deps[t] == Elements(depends[byTag[t]])
  {
    DependenciesLoaded(files, byTag[t]);
  }

  lemma {:induction false} SameKeys(files: seq<Script>, byTag: map<Tag, nat>)
    requires ChainIntact(files) && TagIndex(files, byTag)
    ensures LoadedRules(files).deps.Keys == byTag.Keys
  {
    TagsKnown(files, byTag);
    forall t | t in byTag ensures HasTag(files, t) {
      assert files[byTag[t]].tag == t;
    }
  }

  lemma {:induction false} SameMap(a: map<Tag, set<Tag>>, b: map<Tag, set<Tag>>)
    requires a.Keys == b.Keys && forall t :: t in a ==> a[t] == b[t]
    ensures a == b
  {
  }

  lemma {:induction false} DependenciesMatch(files: seq<Script>, depends: seq<seq<Tag>>, byTag: map<Tag, nat>,
                                             built: map<Tag, set<Tag>>)
    requires UniqueTags(files) && ChainIntact(files) && TagIndex(files, byTag)
    requires Resolved(files, depends, AllTags(files)) && built.Keys == byTag.Keys
    requires forall t :: t in byTag ==> built[t] == Elements(depends[byTag[t]])
    ensures built == LoadedRules(files).deps
  {
    SameKeys(files, byTag);
    var wanted := LoadedRules(files).deps;
    forall t | t in built ensures built[t] == wanted[t] {
      SameDependencies(files, depends, byTag, t);
    }
    SameMap(built, wanted);
  }

  /** What load_all leaves in its indices are those rules. */
  lemma {:induction false} RulesLoaded(files: seq<Script>, depends: seq<seq<Tag>>, ups: set<Tag>, downs: set<Tag>,
                                       byTag: map<Tag, nat>)
    requires UniqueTags(files) && ChainIntact(files) && TagIndex(files, byTag)
    requires KindIndex(files, Upgrader, ups) && KindIndex(files, Downgrader, downs)
    requires Resolved(files, depends, AllTags(files))
    ensures RulesOf(files, depends, ups, downs, byTag) == LoadedRules(files)
  {
    KindIsTagged(files, Upgrader, ups);
    KindIsTagged(files, Downgrader, downs);
    DependenciesMatch(files, depends, byTag, RulesOf(files, depends, ups, downs, byTag).deps);
  }

  // ---------- legacy versions ----------

  ghost function LegacyTag(files: seq<Script>, v: int): Tag
    requires HasVersion(files, v)
  {
    files[VersionFile(files, v)].tag
  }

  ghost predicate HasVersionsUpTo(files: seq<Script>, high: int) {
    forall v :: 2 <= v <= high ==> HasVersion(files, v)
  }

  /** `tags0` are the tags of versions 2 .. cptVer. */
  ghost predicate Converted(files: seq<Script>, cptVer: int, tags0: set<Tag>) {
    forall t :: t in tags0 <==> IsLegacyTag(files, t, cptVer)
  }

  lemma {:induction false} EarlierVersions(files: seq<Script>, w: int, v: int)
    requires ChainIntact(files) && ChainReaches(files, w) && 2 <= v <= w
    ensures HasVersion(files, v)
  {
    assert HasVersion(files, 3);
    assert v >= 3 ==> HasVersion(files, v);
  }

  /** A linked legacy version depends on the one before it ... */
  lemma {:induction false} DeclaresPredecessor(files: seq<Script>, w: int)
    requires UniqueTags(files) && ChainIntact(files) && ChainReaches(files, w)
    ensures HasVersion(files, w) && HasVersion(files, w - 1)
    ensures Declared(files, VersionFile(files, w)) == {LegacyTag(files, w - 1)}
  {
    EarlierVersions(files, w, w);
    EarlierVersions(files, w, w - 1);
    assert Linked(files, VersionFile(files, w));
  }

  /** ... in the loaded rules. */
  lemma {:induction false} DependsOnPredecessor(files: seq<Script>, w: int, deps: map<Tag, set<Tag>>)
    requires UniqueTags(files) && ChainIntact(files) && ChainReaches(files, w) && deps == LoadedRules(files).deps
    ensures HasVersion(files, w) && HasVersion(files, w - 1)
    ensures LegacyTag(files, w) in deps && LegacyTag(files, w - 1) in deps[LegacyTag(files, w)]
  {
    DeclaresPredecessor(files, w);
    DependenciesLoaded(files, VersionFile(files, w));
  }

  lemma {:induction false} ConvertedIff(files: seq<Script>, cptVer: int, tags0: set<Tag>, v: int)
    requires UniqueTags(files) && Converted(files, cptVer, tags0) && v >= 2 && HasVersion(files, v)
    ensures LegacyTag(files, v) in tags0 <==> v <= cptVer
  {
    var k, t := VersionFile(files, v), LegacyTag(files, v);
    if IsLegacyTag(files, t, cptVer) {
      var j :| 0 <= j < |files| && files[j].tag == t && files[j].legacyVersion.Some? &&
          2 <= files[j].legacyVersion.value <= cptVer;
      SameFile(files, j, k);
    }
  }

  /** The converted tags are closed under the dependencies of the legacy chain. */
  lemma {:induction false} ConvertedClosed(files: seq<Script>, cptVer: int, tags0: set<Tag>, v: int)
    requires UniqueTags(files) && ChainIntact(files) && HasVersionsUpTo(files, cptVer)
    requires Converted(files, cptVer, tags0)
    requires 3 <= v <= cptVer
    ensures HasVersion(files, v) && Declared(files, VersionFile(files, v)) <= tags0
  {
    assert ChainReaches(files, v);
    DeclaresPredecessor(files, v);
    ConvertedIff(files, cptVer, tags0, v - 1);
  }

  // ---------- the order in which they run ----------

  ghost predicate RunsAt(files: seq<Script>, log: seq<Tag>, v: int, p: nat) {
    p < |log| && HasVersion(files, v) && log[p] == LegacyTag(files, v)
  }

  ghost predicate RunsOnce(files: seq<Script>, log: seq<Tag>, v: int) {
    exists p: nat :: RunsAt(files, log, v, p) && forall q: nat :: RunsAt(files, log, v, q) ==> q == p
  }

  lemma {:induction false} DependencyInLog(rules: Rules, tags0: set<Tag>, log: seq<Tag>, p: nat, t: Tag, d: Tag)
      returns (q: nat)
    requires Respects(rules, tags0, log) && p < |log| && log[p] == t && t in rules.deps && d in rules.deps[t]
    requires d !in tags0
    ensures q < p && log[q] == d
  {
    assert RespectsAt(rules, tags0, log, p);
    assert d in Elements(log[..p]);
    q :| 0 <= q < p && log[..p][q] == d;
  }

  /** A later version runs after its predecessor. */
  lemma {:induction false} PredecessorRanBefore(files: seq<Script>, cptVer: int, tags0: set<Tag>, log: seq<Tag>,
                                                w: int, p: nat)
      returns (q: nat)
    requires UniqueTags(files) && ChainIntact(files) && Converted(files, cptVer, tags0) && ChainReaches(files, w)
    requires w - 1 > cptVer
    requires Respects(LoadedRules(files), tags0, log) && RunsAt(files, log, w, p)
    ensures q < p && RunsAt(files, log, w - 1, q)
  {
    var rules := LoadedRules(files);
    DependsOnPredecessor(files, w, rules.deps);
    ConvertedIff(files, cptVer, tags0, w - 1);
    var before, here := LegacyTag(files, w - 1), LegacyTag(files, w);
    q := DependencyInLog(rules, tags0, log, p, here, before);
  }

  /** Whenever a later version has run, all versions between it and the checkpoint's ran before it. */
  lemma {:induction false} EarlierRanBefore(files: seq<Script>, cptVer: int, tags0: set<Tag>, log: seq<Tag>, v: int,
                                            w: int, p: nat)
      returns (q: nat)
    requires UniqueTags(files) && ChainIntact(files) && Converted(files, cptVer, tags0) && ChainReaches(files, w)
    requires 2 <= v < w && cptVer < v && Respects(LoadedRules(files), tags0, log) && RunsAt(files, log, w, p)
    ensures q < p && RunsAt(files, log, v, q)
    decreases w
  {
    q := PredecessorRanBefore(files, cptVer, tags0, log, w, p);
    if v < w - 1 {
      q := EarlierRanBefore(files, cptVer, tags0, log, v, w - 1, q);
    }
  }

  /** The log holds later versions in ascending order. */
  ghost predicate Ascending(files: seq<Script>, cptVer: int, log: seq<Tag>) {
    forall v, w, p: nat, q: nat ::
        2 <= v < w && cptVer < v && ChainReaches(files, w) && RunsAt(files, log, v, p) && RunsAt(files, log, w, q) ==>
      p < q
  }

  lemma {:induction false} LegacyAscending(files: seq<Script>, cptVer: int, tags0: set<Tag>, log: seq<Tag>)
    requires UniqueTags(files) && ChainIntact(files) && Converted(files, cptVer, tags0)
    requires Respects(LoadedRules(files), tags0, log) && NoRepeats(log)
    ensures Ascending(files, cptVer, log)
  {
    forall v, w, p: nat, q: nat | 2 <= v < w && cptVer < v && ChainReaches(files, w) &&
        RunsAt(files, log, v, p) && RunsAt(files, log, w, q)
      ensures p < q
    {
      var e := EarlierRanBefore(files, cptVer, tags0, log, v, w, q);
      assert log[e] == log[p];
    }
  }

  ghost predicate IsUpgraded(files: seq<Script>, v: int) {
    HasVersion(files, v) && files[VersionFile(files, v)].kind == Upgrader
  }

  /** Every later version with an upgrader is applied exactly once. */
  ghost predicate Complete(files: seq<Script>, cptVer: int, log: seq<Tag>) {
    forall v :: v >= 2 && v > cptVer && IsUpgraded(files, v) ==> RunsOnce(files, log, v)
  }

  lemma {:induction false} LegacyComplete(files: seq<Script>, cptVer: int, tags0: set<Tag>, log: seq<Tag>)
    requires UniqueTags(files) && ChainIntact(files) && Converted(files, cptVer, tags0)
    requires NoRepeats(log) && Elements(log) == LoadedRules(files).ToApply(tags0)
    ensures Complete(files, cptVer, log)
  {
    forall v | v >= 2 && v > cptVer && IsUpgraded(files, v) ensures RunsOnce(files, log, v) {
      ConvertedIff(files, cptVer, tags0, v);
      assert LegacyTag(files, v) in Tagged(files, Upgrader);
      assert LegacyTag(files, v) in Elements(log);
      var p :| 0 <= p < |log| && log[p] == LegacyTag(files, v);
      assert RunsAt(files, log, v, p);
    }
  }

  // ---------- from files and a version to the upgraded tags ----------

  datatype Outcome = NotLoaded | KeyError | Aborted(leftover: set<Tag>) | Done(tags: set<Tag>, log: seq<Tag>)

  /** How the migration of a checkpoint with tags `tags0` ends. */
  ghost predicate Ends(files: seq<Script>, cptVer: int, tags0: set<Tag>, r: Outcome)
    requires ChainIntact(files)
  {
    var rules := LoadedRules(files);
    && rules.Valid() && (r.Aborted? || r.Done?)
    && (r.Done? <==> CanBeLevelled(rules, tags0))
    && (r.Aborted? ==> r.leftover == Final(rules, Start(rules, tags0)).pending != {})
    && (r.Done? ==>
         r.tags == (tags0 + rules.ups) - rules.downs && Ascending(files, cptVer, r.log) &&
             Complete(files, cptVer, r.log))
  }

  method Migrate(files: seq<Script>, rules: Rules, cptVer: int, tags0: set<Tag>) returns (r: Outcome)
    requires UniqueTags(files) && ChainIntact(files) && rules == LoadedRules(files) && Converted(files, cptVer, tags0)
    ensures Ends(files, cptVer, tags0, r)
  {
    LoadedRulesValid(files);
    var ok, tags, leftover, log := ApplyAll(rules, tags0);
    FinishesIffLevelled(rules, tags0);
    if !ok {
      return Aborted(leftover);
    }
    SuccessTags(rules, tags0);
    assert rules.ToApply(tags0) - {} == rules.ToApply(tags0);
    LegacyAscending(files, cptVer, tags0, log);
    LegacyComplete(files, cptVer, tags0, log);
    r := Done(tags, log);
  }

  /**
   Loading, conversion and migration together.  Loading and conversion fail exactly for the stated
   reasons.  Otherwise the run ends with all migrations applied exactly when they can be given levels,
   and then the later legacy versions ran once each, in ascending order.
   */
  method UpgradeLegacy(files: seq<Script>, cptVer: int) returns (r: Outcome, tags0: set<Tag>)
    requires UniqueTags(files)
    ensures r.NotLoaded? <==> !Loadable(files)
    ensures r.KeyError? <==> Loadable(files) && !HasVersionsUpTo(files, cptVer)
    ensures Loadable(files) && HasVersionsUpTo(files, cptVer) ==>
              && Converted(files, cptVer, tags0) && Ends(files, cptVer, tags0, r)
              && forall v :: 3 <= v <= cptVer ==>
                   HasVersion(files, v) && Declared(files, VersionFile(files, v)) <= tags0
  {
    tags0 := {};
    var m := new Manager();
    var loaded := m.LoadAll(files);
    if loaded.Failed? {
      return NotLoaded, tags0;
    }
    var converted := ConvertVersion(files, m.legacy, cptVer);
    if converted.KeyError? {
      return Outcome.KeyError, tags0;
    }
    tags0 := converted.tags;
    RulesLoaded(files, m.depends, m.tagSet, m.untagSet, m.byTag);
    r := Migrate(files, RulesOf(files, m.depends, m.tagSet, m.untagSet, m.byTag), cptVer, tags0);
    forall v | 3 <= v <= cptVer ensures HasVersion(files, v) && Declared(files, VersionFile(files, v)) <= tags0 {
      ConvertedClosed(files, cptVer, tags0, v);
    }
  }
}
