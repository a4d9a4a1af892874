/**
 Loading of migration scripts in gem5/util/cpt_upgrader.py: class Upgrader,
 load_all (lines 160-185) and the conversion of a legacy version number into
 tags (lines 211-222).
 */
module Registry {
  import opened Options
  import opened Scheduler

  datatype Kind = Upgrader | Downgrader | Neither

  /** What a script file defines. */
  datatype Script = Script(tag: Tag, depends: seq<Tag>, fwdDepends: seq<Tag>, kind: Kind, legacyVersion: Option<int>)

  /** Ways in which loading stops. */
  datatype Fault = NoMethod | MissingLegacy | UnknownTag

  datatype Loaded = Ok | Failed(fault: Fault)

  ghost predicate UniqueTags(files: seq<Script>) {
    && (forall j, k :: 0 <= j < k < |files| ==> files[j].tag != files[k].tag)
    && (forall j, k :: 0 <= j < k < |files| && files[j].legacyVersion.Some? ==>
         files[j].legacyVersion != files[k].legacyVersion)
  }

  ghost predicate HasTag(files: seq<Script>, t: Tag) {
    exists k :: 0 <= k < |files| && files[k].tag == t
  }

  ghost predicate HasVersion(files: seq<Script>, v: int) {
    exists k :: 0 <= k < |files| && files[k].legacyVersion == Some(v)
  }

  /** Versions 3 .. v are all there, so that the linking loop gets past `v`. */
  ghost predicate ChainReaches(files: seq<Script>, v: int) {
    v >= 3 && forall u :: 3 <= u <= v ==> HasVersion(files, u)
  }

  ghost predicate Linked(files: seq<Script>, i: nat)
    requires i < |files|
  {
    files[i].legacyVersion.Some? && ChainReaches(files, files[i].legacyVersion.value)
  }

  ghost function VersionFile(files: seq<Script>, v: int): (k: nat)
    requires HasVersion(files, v)
    ensures k < |files| && files[k].legacyVersion == Some(v)
  {
    var k :| 0 <= k < |files| && files[k].legacyVersion == Some(v);
    k
  }

  /** Version 3 cannot be linked without version 2. */
  ghost predicate ChainIntact(files: seq<Script>) {
    HasVersion(files, 3) ==> HasVersion(files, 2)
  }

  /** The dependencies of file `i` after the legacy chain is linked: a linked file has only its predecessor. */
  ghost function Declared(files: seq<Script>, i: nat): set<Tag>
    requires i < |files| && ChainIntact(files)
  {
    if Linked(files, i) then
      PredecessorExists(files, i);
      {files[VersionFile(files, files[i].legacyVersion.value - 1)].tag}
    else Elements(files[i].depends)
  }

  lemma {:induction false} PredecessorExists(files: seq<Script>, i: nat)
    requires i < |files| && ChainIntact(files) && Linked(files, i)
    ensures HasVersion(files, files[i].legacyVersion.value - 1)
  {
    var v := files[i].legacyVersion.value;
    assert HasVersion(files, 3);
    assert v > 3 ==> HasVersion(files, v - 1);
  }

  /** The tags, among `from`, whose scripts name file `i` as a forward dependency. */
  ghost function Forwarded(files: seq<Script>, i: nat, from: set<Tag>): set<Tag>
    requires i < |files|
  {
    set t | t in from && Forwards(files, t, files[i].tag)
  }

  ghost predicate Forwards(files: seq<Script>, t: Tag, target: Tag) {
    exists j :: 0 <= j < |files| && files[j].tag == t && target in files[j].fwdDepends
  }

  ghost function AllTags(files: seq<Script>): set<Tag> {
    set k | 0 <= k < |files| :: files[k].tag
  }

  /** What loading demands of the files. */
  ghost predicate Loadable(files: seq<Script>) {
    HaveMethods(files) && ChainIntact(files) && AllAudited(files)
  }

  /** Every script upgrades or downgrades. */
  ghost predicate HaveMethods(files: seq<Script>) {
    forall k :: 0 <= k < |files| ==> files[k].kind != Neither
  }

  ghost predicate AllAudited(files: seq<Script>)
    requires ChainIntact(files)
  {
    forall k :: 0 <= k < |files| ==> Audited(files, k)
  }

  /** Script `k` only names tags that exist. */
  ghost predicate Audited(files: seq<Script>, k: nat)
    requires k < |files| && ChainIntact(files)
  {
    Elements(files[k].fwdDepends) + Declared(files, k) <= AllTags(files)
  }

  // ---------- the indices ----------

  ghost predicate TagIndex(scripts: seq<Script>, byTag: map<Tag, nat>) {
    && (forall k :: 0 <= k < |scripts| ==> scripts[k].tag in byTag && byTag[scripts[k].tag] == k)
    && (forall t :: t in byTag ==> byTag[t] < |scripts| && scripts[byTag[t]].tag == t)
  }

  ghost predicate LegacyIndex(scripts: seq<Script>, legacy: map<int, nat>) {
    && (forall k :: 0 <= k < |scripts| && scripts[k].legacyVersion.Some? ==>
          scripts[k].legacyVersion.value in legacy && legacy[scripts[k].legacyVersion.value] == k)
    && (forall v :: v in legacy ==> legacy[v] < |scripts| && scripts[legacy[v]].legacyVersion == Some(v))
  }

  ghost predicate KindIndex(scripts: seq<Script>, kind: Kind, tags: set<Tag>) {
    && (forall k :: 0 <= k < |scripts| && scripts[k].kind == kind ==> scripts[k].tag in tags)
    && (forall t :: t in tags ==> exists k :: 0 <= k < |scripts| && scripts[k].tag == t && scripts[k].kind == kind)
  }

  lemma {:induction false} TagIndexAppend(scripts: seq<Script>, s: Script, byTag: map<Tag, nat>)
    requires TagIndex(scripts, byTag) && UniqueTags(scripts + [s])
    ensures TagIndex(scripts + [s], byTag[s.tag := |scripts|])
  {
    var all := scripts + [s];
    forall j | 0 <= j < |scripts| ensures scripts[j].tag != s.tag {
      assert all[j] == scripts[j] && all[|scripts|] == s;
    }
  }

  lemma {:induction false} LegacyIndexAppend(scripts: seq<Script>, s: Script, legacy: map<int, nat>)
    requires LegacyIndex(scripts, legacy) && UniqueTags(scripts + [s])
    ensures s.legacyVersion.None? ==> LegacyIndex(scripts + [s], legacy)
    ensures s.legacyVersion.Some? ==> LegacyIndex(scripts + [s], legacy[s.legacyVersion.value := |scripts|])
  {
    var all := scripts + [s];
    forall j | 0 <= j < |scripts| && scripts[j].legacyVersion.Some?
      ensures scripts[j].legacyVersion != s.legacyVersion
    {
      assert all[j] == scripts[j] && all[|scripts|] == s;
    }
  }

  lemma {:induction false} KindIndexAppend(scripts: seq<Script>, s: Script, kind: Kind, tags: set<Tag>)
    requires KindIndex(scripts, kind, tags)
    ensures KindIndex(scripts + [s], kind, if s.kind == kind then tags + {s.tag} else tags)
  {
    var all := scripts + [s];
    forall t | t in tags ensures exists k :: 0 <= k < |all| && all[k].tag == t && all[k].kind == kind {
      var k :| 0 <= k < |scripts| && scripts[k].tag == t && scripts[k].kind == kind;
      assert all[k] == scripts[k];
    }
    assert all[|scripts|] == s;
  }

  /** The linking loop has dealt with versions 3 .. end-1. */
  ghost predicate LinkedBelow(scripts: seq<Script>, legacy: map<int, nat>, depends: seq<seq<Tag>>, end: int) {
    && LegacyIndex(scripts, legacy) && |depends| == |scripts|
    && (forall v :: 3 <= v < end ==> v in legacy) && (end > 3 ==> 2 in legacy)
    && forall k :: 0 <= k < |scripts| ==> LinkedSoFar(scripts, legacy, depends[k], end, k)
  }

  ghost predicate LinkedSoFar(scripts: seq<Script>, legacy: map<int, nat>, deps: seq<Tag>, end: int, k: nat)
    requires LegacyIndex(scripts, legacy) && k < |scripts|
  {
    var v := scripts[k].legacyVersion;
    if v.Some? && 3 <= v.value < end then v.value - 1 in legacy && deps == [scripts[legacy[v.value - 1]].tag]
    else deps == scripts[k].depends
  }

  lemma {:induction false} LinkStep(scripts: seq<Script>, legacy: map<int, nat>, depends: seq<seq<Tag>>, i: int)
    requires LinkedBelow(scripts, legacy, depends, i) && i >= 3 && i in legacy && i - 1 in legacy
    ensures LinkedBelow(scripts, legacy, depends[legacy[i] := [scripts[legacy[i - 1]].tag]], i + 1)
  {
    var after := depends[legacy[i] := [scripts[legacy[i - 1]].tag]];
    forall k | 0 <= k < |scripts| ensures LinkedSoFar(scripts, legacy, after[k], i + 1, k) {
      LinkStepAt(scripts, legacy, depends[k], i, k);
    }
  }

  lemma {:induction false} LinkStepAt(scripts: seq<Script>, legacy: map<int, nat>, deps: seq<Tag>, i: int, k: nat)
    requires LegacyIndex(scripts, legacy) && k < |scripts| && i >= 3 && i in legacy && i - 1 in legacy
    requires LinkedSoFar(scripts, legacy, deps, i, k)
    ensures LinkedSoFar(scripts, legacy, if k == legacy[i] then [scripts[legacy[i - 1]].tag] else deps, i + 1, k)
  {
    assert scripts[legacy[i]].legacyVersion == Some(i);
  }

  lemma {:induction false} VersionsInLegacy(scripts: seq<Script>, legacy: map<int, nat>, v: int)
    requires LegacyIndex(scripts, legacy)
    ensures HasVersion(scripts, v) <==> v in legacy
    ensures HasVersion(scripts, v) ==> legacy[v] == VersionFile(scripts, v)
  {
  }

  /** Where the linking loop stopped decides which files are linked. */
  lemma {:induction false} LinkedDeclared(scripts: seq<Script>, legacy: map<int, nat>, depends: seq<seq<Tag>>,
                                          end: int, k: nat)
    requires LinkedBelow(scripts, legacy, depends, end) && end >= 3 && end !in legacy && k < |scripts|
    requires ChainIntact(scripts)
    ensures Elements(depends[k]) == Declared(scripts, k)
  {
    assert LinkedSoFar(scripts, legacy, depends[k], end, k);
    if scripts[k].legacyVersion.Some? {
      var v := scripts[k].legacyVersion.value;
      VersionsInLegacy(scripts, legacy, end);
      if 3 <= v < end {
        forall u | 3 <= u <= v ensures HasVersion(scripts, u) {
          VersionsInLegacy(scripts, legacy, u);
        }
        PredecessorExists(scripts, k);
        VersionsInLegacy(scripts, legacy, v - 1);
      } else if v >= end {
        assert !ChainReaches(scripts, v);
      }
    }
  }

  /** The forward dependencies of the tags in `from` have been added to the declared ones. */
  ghost predicate Resolved(scripts: seq<Script>, depends: seq<seq<Tag>>, from: set<Tag>)
    requires ChainIntact(scripts)
  {
    |depends| == |scripts|
    && forall k :: 0 <= k < |scripts| ==> Elements(depends[k]) == Declared(scripts, k) + Forwarded(scripts, k, from)
  }

  /** ... and so have the first `m` of script `j`. */
  ghost predicate PartlyResolved(scripts: seq<Script>, depends: seq<seq<Tag>>, from: set<Tag>, j: nat, m: nat)
    requires ChainIntact(scripts) && j < |scripts| && m <= |scripts[j].fwdDepends|
  {
    |depends| == |scripts|
    && forall k :: 0 <= k < |scripts| ==> PartlyResolvedAt(scripts, depends[k], from, j, m, k)
  }

  ghost predicate PartlyResolvedAt(scripts: seq<Script>, deps: seq<Tag>, from: set<Tag>, j: nat, m: nat, k: nat)
    requires ChainIntact(scripts) && j < |scripts| && m <= |scripts[j].fwdDepends| && k < |scripts|
  {
    Elements(deps) == Declared(scripts, k) + Forwarded(scripts, k, from) +
                        if scripts[k].tag in scripts[j].fwdDepends[..m] then {scripts[j].tag} else {}
  }

  lemma {:induction false} ResolveStep(scripts: seq<Script>, depends: seq<seq<Tag>>, from: set<Tag>, j: nat, m: nat,
                                       target: nat)
    requires ChainIntact(scripts) && UniqueTags(scripts) && j < |scripts| && m < |scripts[j].fwdDepends|
    requires PartlyResolved(scripts, depends, from, j, m)
    requires target < |scripts| && scripts[target].tag == scripts[j].fwdDepends[m]
    ensures PartlyResolved(scripts, depends[target := depends[target] + [scripts[j].tag]], from, j, m + 1)
  {
    var after := depends[target := depends[target] + [scripts[j].tag]];
    var fd := scripts[j].fwdDepends;
    assert fd[..m + 1] == fd[..m] + [fd[m]];
    forall k | 0 <= k < |scripts| ensures PartlyResolvedAt(scripts, after[k], from, j, m + 1, k) {
      assert PartlyResolvedAt(scripts, depends[k], from, j, m, k);
      if k == target {
        assert Elements(after[k]) == Elements(depends[k]) + {scripts[j].tag};
      } else {
        assert scripts[k].tag != scripts[target].tag;
      }
    }
  }

  lemma {:induction false} ResolveStart(scripts: seq<Script>, depends: seq<seq<Tag>>, from: set<Tag>, j: nat)
    requires ChainIntact(scripts) && j < |scripts| && Resolved(scripts, depends, from)
    ensures PartlyResolved(scripts, depends, from, j, 0)
  {
    forall k | 0 <= k < |scripts| ensures PartlyResolvedAt(scripts, depends[k], from, j, 0, k) {
      assert scripts[j].fwdDepends[..0] == [];
    }
  }

  lemma {:induction false} ResolveDone(scripts: seq<Script>, depends: seq<seq<Tag>>, from: set<Tag>, j: nat)
    requires ChainIntact(scripts) && UniqueTags(scripts) && j < |scripts|
    requires PartlyResolved(scripts, depends, from, j, |scripts[j].fwdDepends|)
    ensures Resolved(scripts, depends, from + {scripts[j].tag})
  {
    var all, t := scripts[j].fwdDepends, scripts[j].tag;
    assert all[..|all|] == all;
    forall k | 0 <= k < |scripts|
      ensures Elements(depends[k]) == Declared(scripts, k) + Forwarded(scripts, k, from + {t})
    {
      assert PartlyResolvedAt(scripts, depends[k], from, j, |all|, k);
      OnlyOneScript(scripts, j, scripts[k].tag);
      assert Forwarded(scripts, k, from + {t}) == Forwarded(scripts, k, from) +
          if scripts[k].tag in all then {t} else {};
    }
  }

  lemma {:induction false} OnlyOneScript(scripts: seq<Script>, j: nat, target: Tag)
    requires UniqueTags(scripts) && j < |scripts|
    ensures Forwards(scripts, scripts[j].tag, target) <==> target in scripts[j].fwdDepends
  {
  }

  // ---------- the loader ----------

  class Manager {
    var scripts: seq<Script>
    var depends: seq<seq<Tag>>
    var tagSet: set<Tag>
    var untagSet: set<Tag>
    var byTag: map<Tag, nat>
    var legacy: map<int, nat>

    constructor ()
      ensures Indexed() && scripts == [] && depends == []
    {
      scripts, depends, tagSet, untagSet, byTag, legacy := [], [], {}, {}, map[], map[];
    }

    /** The indices built while loading agree with the scripts loaded so far. */
    ghost predicate Indexed()
      reads this
    {
      && TagIndex(scripts, byTag) && LegacyIndex(scripts, legacy)
      && KindIndex(scripts, Upgrader, tagSet) && KindIndex(scripts, Downgrader, untagSet)
      && forall k :: 0 <= k < |scripts| ==> scripts[k].kind != Neither
    }

    lemma {:induction false} IndexAppend(s: Script)
      requires Indexed() && UniqueTags(scripts + [s]) && s.kind != Neither
      ensures TagIndex(scripts + [s], byTag[s.tag := |scripts|])
      ensures LegacyIndex(scripts + [s],
          if s.legacyVersion.Some? then legacy[s.legacyVersion.value := |scripts|] else legacy)
      ensures KindIndex(scripts + [s], Upgrader, if s.kind == Upgrader then tagSet + {s.tag} else tagSet)
      ensures KindIndex(scripts + [s], Downgrader, if s.kind == Downgrader then untagSet + {s.tag} else untagSet)
      ensures forall k :: 0 <= k < |scripts + [s]| ==> (scripts + [s])[k].kind != Neither
    {
      TagIndexAppend(scripts, s, byTag);
      LegacyIndexAppend(scripts, s, legacy);
      KindIndexAppend(scripts, s, Upgrader, tagSet);
      KindIndexAppend(scripts, s, Downgrader, untagSet);
    }

    /** Upgrader.__init__ for one script. */
    method Load(s: Script) returns (r: Loaded)
      requires Indexed() && UniqueTags(scripts + [s])
      modifies this
      ensures r.Ok? <==> s.kind != Neither
      ensures r.Failed? ==> r == Failed(NoMethod)
      ensures r.Ok? ==> Indexed() && scripts == old(scripts) + [s] && depends == old(depends) + [s.depends]
    {
      if s.kind == Neither {
        return Failed(NoMethod);
      }
      IndexAppend(s);
      tagSet := if s.kind == Upgrader then tagSet + {s.tag} else tagSet;
      untagSet := if s.kind == Downgrader then untagSet + {s.tag} else untagSet;
      legacy := if s.legacyVersion.Some? then legacy[s.legacyVersion.value := |scripts|] else legacy;
      byTag, scripts, depends := byTag[s.tag := |scripts|], scripts + [s], depends + [s.depends];
      r := Ok;
    }

    /** The linear dependences between legacy versions (lines 167-171). */
    method LinkLegacy() returns (r: Loaded)
      requires LinkedBelow(scripts, legacy, depends, 3)
      modifies this`depends
      ensures r.Ok? <==> ChainIntact(scripts)
      ensures r.Failed? ==> r == Failed(MissingLegacy)
      ensures r.Ok? ==> |depends| == |scripts|
      ensures r.Ok? ==> forall k :: 0 <= k < |scripts| ==> Elements(depends[k]) == Declared(scripts, k)
    {
      var i := 3;
      ghost var ahead := legacy.Keys;
      VersionsInLegacy(scripts, legacy, 3);
      VersionsInLegacy(scripts, legacy, 2);
      while i in legacy
        invariant forall v :: v in legacy && v >= i ==> v in ahead
        invariant 3 <= i && LinkedBelow(scripts, legacy, depends, i)
        decreases ahead
      {
        if i - 1 !in legacy {
          return Failed(MissingLegacy);
        }
        ahead := ahead - {i};
        LinkStep(scripts, legacy, depends, i);
        depends := depends[legacy[i] := [scripts[legacy[i - 1]].tag]];
        i := i + 1;
      }
      r := Ok;
      forall k | 0 <= k < |scripts| ensures Elements(depends[k]) == Declared(scripts, k) {
        LinkedDeclared(scripts, legacy, depends, i, k);
      }
    }

    /** The audit of a list of dependencies (lines 181-185). */
    method AllKnown(deps: seq<Tag>) returns (known: bool)
      ensures known <==> Elements(deps) <= byTag.Keys
    {
      for m := 0 to |deps|
        invariant Elements(deps[..m]) <= byTag.Keys
      {
        if deps[m] !in byTag {
          assert deps[m] in Elements(deps);
          return false;
        }
        assert deps[..m + 1] == deps[..m] + [deps[m]];
      }
      assert deps[..|deps|] == deps;
      known := true;
    }

    /** One script's forward dependencies and the audit of its own (lines 175-185). */
    method ResolveOne(tag: Tag, ghost from: set<Tag>) returns (r: Loaded)
      requires TagIndex(scripts, byTag) && UniqueTags(scripts) && tag in byTag
      requires ChainIntact(scripts) && Resolved(scripts, depends, from)
      modifies this`depends
      ensures r.Ok? <==> Audited(scripts, byTag[tag])
      ensures r.Failed? ==> r == Failed(UnknownTag)
      ensures r.Ok? ==> Resolved(scripts, depends, from + {tag})
    {
      var j := byTag[tag];
      TagsKnown(scripts, byTag);
      ResolveStart(scripts, depends, from, j);
      for m := 0 to |scripts[j].fwdDepends|
        invariant PartlyResolved(scripts, depends, from, j, m)
        invariant Elements(scripts[j].fwdDepends[..m]) <= byTag.Keys
      {
        var fd := scripts[j].fwdDepends[m];
        if fd !in byTag {
          assert fd in Elements(scripts[j].fwdDepends);
          return Failed(UnknownTag);
        }
        assert scripts[j].fwdDepends[..m + 1] == scripts[j].fwdDepends[..m] + [fd];
        ResolveStep(scripts, depends, from, j, m, byTag[fd]);
        depends := depends[byTag[fd] := depends[byTag[fd]] + [tag]];
      }
      assert scripts[j].fwdDepends[..|scripts[j].fwdDepends|] == scripts[j].fwdDepends;
      ResolveDone(scripts, depends, from, j);
      ForwardedKnown(scripts, j, from + {tag});
      var known := AllKnown(depends[j]);
      r := if known then Ok else Failed(UnknownTag);
    }

    /** Forward dependencies of all scripts, in whatever order the dictionary yields them. */
    method Resolve() returns (r: Loaded)
      requires TagIndex(scripts, byTag) && UniqueTags(scripts) && ChainIntact(scripts) && Resolved(scripts, depends, {})
      modifies this`depends
      ensures r.Ok? <==> AllAudited(scripts)
      ensures r.Failed? ==> r == Failed(UnknownTag)
      ensures r.Ok? ==> Resolved(scripts, depends, AllTags(scripts))
    {
      var rest := byTag.Keys;
      ghost var done: set<Tag> := {};
      while rest != {}
        invariant done + rest == byTag.Keys && Resolved(scripts, depends, done)
        invariant AuditedIn(scripts, byTag, done)
        decreases rest
      {
        var tag :| tag in rest;
        r := ResolveOne(tag, done);
        if r.Failed? {
          AuditFails(scripts, byTag[tag]);
          return;
        }
        AuditedMore(scripts, byTag, done, tag);
        rest, done := rest - {tag}, done + {tag};
      }
      assert done == byTag.Keys;
      TagsKnown(scripts, byTag);
      AuditedByTag(scripts, byTag);
      r := Ok;
    }

    /** The glob loop: every script in turn. */
    method LoadScripts(files: seq<Script>) returns (r: Loaded)
      requires Indexed() && scripts == [] && depends == [] && UniqueTags(files)
      modifies this
      ensures r.Ok? <==> HaveMethods(files)
      ensures r.Failed? ==> r == Failed(NoMethod)
      ensures r.Ok? ==> Indexed() && scripts == files && LinkedBelow(files, legacy, depends, 3)
    {
      for i := 0 to |files|
        invariant Indexed() && scripts == files[..i] && |depends| == i
        invariant forall k :: 0 <= k < i ==> depends[k] == files[k].depends
      {
        assert files[..i] + [files[i]] == files[..i + 1];
        assert UniqueTags(files[..i + 1]);
        r := Load(files[i]);
        if r.Failed? {
          return;
        }
      }
      assert files[..|files|] == files;
      r := Ok;
    }

    /** load_all: succeeds exactly on loadable files, and then every script has its declared and forwarded
        dependencies. */
    method LoadAll(files: seq<Script>) returns (r: Loaded)
      requires Indexed() && scripts == [] && depends == [] && UniqueTags(files)
      modifies this
      ensures r.Ok? <==> Loadable(files)
      ensures r == Failed(NoMethod) <==> !HaveMethods(files)
      ensures r == Failed(MissingLegacy) <==> HaveMethods(files) && !ChainIntact(files)
      ensures r.Ok? ==> Indexed() && scripts == files && Resolved(files, depends, AllTags(files))
    {
      r := LoadScripts(files);
      if r.Ok? {
        r := LinkAll();
      }
    }

    /** The dependences of loaded scripts (lines 167-185). */
    method LinkAll() returns (r: Loaded)
      requires LinkedBelow(scripts, legacy, depends, 3) && TagIndex(scripts, byTag) && UniqueTags(scripts)
      modifies this`depends
      ensures r.Ok? <==> ChainIntact(scripts) && AllAudited(scripts)
      ensures r.Failed? ==> r == Failed(if ChainIntact(scripts) then UnknownTag else MissingLegacy)
      ensures r.Ok? ==> Resolved(scripts, depends, AllTags(scripts))
    {
      r := LinkLegacy();
      if r.Ok? {
        NothingForwarded(scripts, depends);
        r := Resolve();
      }
    }
  }

  lemma {:induction false} NothingForwarded(scripts: seq<Script>, depends: seq<seq<Tag>>)
    requires ChainIntact(scripts) && |depends| == |scripts|
    requires forall k :: 0 <= k < |scripts| ==> Elements(depends[k]) == Declared(scripts, k)
    ensures Resolved(scripts, depends, {})
  {
    forall k | 0 <= k < |scripts| ensures Elements(depends[k]) == Declared(scripts, k) + Forwarded(scripts, k, {}) {
      assert Forwarded(scripts, k, {}) == {};
    }
  }

  /** All scripts with a tag in `done` have been audited. */
  ghost predicate AuditedIn(scripts: seq<Script>, byTag: map<Tag, nat>, done: set<Tag>)
    requires TagIndex(scripts, byTag) && ChainIntact(scripts)
  {
    forall t :: t in done && t in byTag ==> Audited(scripts, byTag[t])
  }

  lemma {:induction false} AuditFails(scripts: seq<Script>, k: nat)
    requires ChainIntact(scripts) && k < |scripts| && !Audited(scripts, k)
    ensures !AllAudited(scripts)
  {
  }

  lemma {:induction false} AuditedMore(scripts: seq<Script>, byTag: map<Tag, nat>, done: set<Tag>, tag: Tag)
    requires TagIndex(scripts, byTag) && ChainIntact(scripts) && AuditedIn(scripts, byTag, done)
    requires tag in byTag && Audited(scripts, byTag[tag])
    ensures AuditedIn(scripts, byTag, done + {tag})
  {
  }

  lemma {:induction false} AuditedByTag(scripts: seq<Script>, byTag: map<Tag, nat>)
    requires TagIndex(scripts, byTag) && ChainIntact(scripts)
    ensures AuditedIn(scripts, byTag, byTag.Keys) <==> AllAudited(scripts)
  {
    if AuditedIn(scripts, byTag, byTag.Keys) {
      forall k | 0 <= k < |scripts| ensures Audited(scripts, k) {
        assert scripts[k].tag in byTag && byTag[scripts[k].tag] == k;
      }
    }
  }

  lemma {:induction false} TagsKnown(scripts: seq<Script>, byTag: map<Tag, nat>)
    requires TagIndex(scripts, byTag)
    ensures AllTags(scripts) == byTag.Keys
  {
    forall t | t in byTag ensures t in AllTags(scripts) {
      assert scripts[byTag[t]].tag == t;
    }
  }

  lemma {:induction false} ForwardedKnown(scripts: seq<Script>, k: nat, from: set<Tag>)
    requires k < |scripts|
    ensures Forwarded(scripts, k, from) <= AllTags(scripts)
  {
  }

  // ---------- legacy checkpoints ----------

  /** The loaded scripts as rules for the migration loop. */
  function RulesOf(files: seq<Script>, depends: seq<seq<Tag>>, ups: set<Tag>, downs: set<Tag>,
                   byTag: map<Tag, nat>): Rules
    requires TagIndex(files, byTag) && |depends| == |files|
  {
    Rules(ups, downs, map t | t in byTag :: Elements(depends[byTag[t]]))
  }

  datatype LegacyTags = KeyError | Tags(tags: set<Tag>)

  /** `t` is the tag of a legacy version from 2 up to `high`. */
  ghost predicate IsLegacyTag(files: seq<Script>, t: Tag, high: int) {
    exists k :: 0 <= k < |files| && files[k].tag == t && files[k].legacyVersion.Some? &&
        2 <= files[k].legacyVersion.value <= high
  }

  /** A legacy checkpoint of version `cptVer` has exactly the tags of versions 2 .. cptVer (lines 216-218). */
  method ConvertVersion(files: seq<Script>, legacy: map<int, nat>, cptVer: int) returns (r: LegacyTags)
    requires LegacyIndex(files, legacy)
    ensures r.Tags? <==> forall v :: 2 <= v <= cptVer ==> HasVersion(files, v)
    ensures r.Tags? ==> forall t :: t in r.tags <==> IsLegacyTag(files, t, cptVer)
  {
    var tags := {};
    for i := 2 to if cptVer >= 2 then cptVer + 1 else 2
      invariant forall v :: 2 <= v < i ==> HasVersion(files, v)
      invariant forall t :: t in tags <==> IsLegacyTag(files, t, i - 1)
    {
      VersionsInLegacy(files, legacy, i);
      if i !in legacy {
        return KeyError;
      }
      LegacyTagStep(files, legacy, i);
      tags := tags + {files[legacy[i]].tag};
    }
    r := Tags(tags);
    assert cptVer < 2 ==> forall t :: !IsLegacyTag(files, t, cptVer);
  }

  lemma {:induction false} LegacyTagStep(files: seq<Script>, legacy: map<int, nat>, i: int)
    requires LegacyIndex(files, legacy) && i >= 2 && i in legacy
    ensures forall t :: IsLegacyTag(files, t, i) <==> IsLegacyTag(files, t, i - 1) || t == files[legacy[i]].tag
  {
    forall t ensures IsLegacyTag(files, t, i) <==> IsLegacyTag(files, t, i - 1) || t == files[legacy[i]].tag {
      assert files[legacy[i]].legacyVersion == Some(i);
    }
  }
}
