/**
 The round-based migration loop of gem5/util/cpt_upgrader.py (process_file,
 lines 238-252): in each round everything that is ready is applied, and the
 loop aborts when nothing is.

 The bodies of upgraders and downgraders are not modelled; applying one is an
 entry in a log.
 */
module Scheduler {

  type Tag = string

  /** The loaded migrations: tags with an upgrader, tags with a downgrader, and dependencies. */
  datatype Rules = Rules(ups: set<Tag>, downs: set<Tag>, deps: map<Tag, set<Tag>>)
  {
    /** Every tag is used once, and has a (possibly empty) list of dependencies. */
    ghost predicate Valid() {
      ups !! downs && forall t :: t in ups || t in downs ==> t in deps
    }

    /** Upgrader.ready: all dependencies are among the tags, for a downgraded dependency too. */
    predicate IsReady(t: Tag, tags: set<Tag>)
      requires t in deps
    {
      deps[t] <= tags
    }

    function ToApply(tags: set<Tag>): set<Tag> {
      (ups - tags) + (downs * tags)
    }

    function ReadyOf(pending: set<Tag>, tags: set<Tag>): set<Tag>
      requires forall t :: t in pending ==> t in deps
    {
      set t | t in pending && IsReady(t, tags)
    }

    /** The tags after applying the migrations in `done`, in any order. */
    function After(tags: set<Tag>, done: set<Tag>): set<Tag> {
      (tags + (done * ups)) - (done * downs)
    }
  }

  datatype State = State(tags: set<Tag>, pending: set<Tag>)

  ghost predicate Known(r: Rules, s: State) {
    r.Valid() && forall t :: t in s.pending ==> t in r.ups || t in r.downs
  }

  function Round(r: Rules, s: State): State
    requires Known(r, s)
  {
    var ready := r.ReadyOf(s.pending, s.tags);
    State(r.After(s.tags, ready), s.pending - ready)
  }

  lemma {:induction false} ReadyShrinks(r: Rules, s: State)
    requires Known(r, s) && r.ReadyOf(s.pending, s.tags) != {}
    ensures Known(r, Round(r, s)) && Round(r, s).pending < s.pending
  {
    var t :| t in r.ReadyOf(s.pending, s.tags);
    assert t in s.pending && t !in Round(r, s).pending;
  }

  /** The state in which the loop stops: nothing pending, or nothing ready. */
  ghost function Final(r: Rules, s: State): (f: State)
    requires Known(r, s)
    ensures Known(r, f) && f.pending <= s.pending && r.ReadyOf(f.pending, f.tags) == {}
    decreases s.pending
  {
    var ready := r.ReadyOf(s.pending, s.tags);
    if ready == {} then s else
      ReadyShrinks(r, s);
      Final(r, Round(r, s))
  }

  ghost function Start(r: Rules, tags: set<Tag>): State {
    State(tags, r.ToApply(tags))
  }

  // ---------- the loop ----------

  /** Applies one migration to the set of tags. */
  function Update(r: Rules, tags: set<Tag>, t: Tag): set<Tag> {
    if t in r.ups then tags + {t} else tags - {t}
  }

  function Elements(s: seq<Tag>): set<Tag> {
    set t | t in s
  }

  ghost predicate NoRepeats(s: seq<Tag>) {
    forall j, k :: 0 <= j < k < |s| ==> s[j] != s[k]
  }

  /** The inner loop: updates for everything that is ready, in an arbitrary order. */
  method ApplyRound(r: Rules, tags0: set<Tag>, ready: set<Tag>, log0: seq<Tag>) returns (tags: set<Tag>, log: seq<Tag>)
    requires r.Valid() && forall t :: t in ready ==> t in r.ups || t in r.downs
    requires NoRepeats(log0) && Elements(log0) !! ready
    ensures tags == r.After(tags0, ready)
    ensures log0 <= log && Elements(log) == Elements(log0) + ready && NoRepeats(log)
  {
    tags, log := tags0, log0;
    var rest := ready;
    while rest != {}
      invariant rest <= ready && tags == r.After(tags0, ready - rest)
      invariant log0 <= log && Elements(log) == Elements(log0) + (ready - rest) && NoRepeats(log)
      decreases rest
    {
      var t :| t in rest;
      assert t !in Elements(log);
      tags := Update(r, tags, t);
      log := log + [t];
      rest := rest - {t};
    }
  }

  /** The outer loop.  `log` lists the migrations in the order they ran. */
  method ApplyAll(r: Rules, tags0: set<Tag>) returns (ok: bool, tags: set<Tag>, leftover: set<Tag>, log: seq<Tag>)
    requires r.Valid()
    ensures State(tags, leftover) == Final(r, Start(r, tags0))
    ensures ok <==> leftover == {}
    ensures NoRepeats(log) && Elements(log) == r.ToApply(tags0) - leftover
    ensures Respects(r, tags0, log)
  {
    tags, log := tags0, [];
    var toApply := r.ToApply(tags0);
    leftover := toApply;
    while leftover != {}
      invariant Known(r, State(tags, leftover)) && leftover <= toApply
      invariant Final(r, State(tags, leftover)) == Final(r, Start(r, tags0))
      invariant NoRepeats(log) && Elements(log) == toApply - leftover
      invariant Respects(r, tags0, log) && tags <= tags0 + Elements(log)
      decreases leftover
    {
      var ready := r.ReadyOf(leftover, tags);
      if ready == {} {
        return false, tags, leftover, log;
      }
      ReadyShrinks(r, State(tags, leftover));
      ghost var tags1, log1 := tags, log;
      tags, log := ApplyRound(r, tags, ready, log);
      RoundRespects(r, tags0, tags1, log1, log, ready);
      leftover := leftover - ready;
    }
    ok := true;
  }

  // ---------- what a run without downgraders guarantees ----------

  /** Every migration of `log` finds its dependencies among the initial tags and the migrations before it. */
  ghost predicate Respects(r: Rules, tags0: set<Tag>, log: seq<Tag>) {
    forall k :: 0 <= k < |log| ==> RespectsAt(r, tags0, log, k)
  }

  ghost predicate RespectsAt(r: Rules, tags0: set<Tag>, log: seq<Tag>, k: nat)
    requires k < |log|
  {
    log[k] in r.deps && r.deps[log[k]] <= tags0 + Elements(log[..k])
  }

  lemma {:induction false} RoundRespects(r: Rules, tags0: set<Tag>, tags: set<Tag>, log: seq<Tag>, log': seq<Tag>,
                                         ready: set<Tag>)
    requires Respects(r, tags0, log) && tags <= tags0 + Elements(log) && log <= log'
    requires Elements(log') == Elements(log) + ready && NoRepeats(log')
    requires forall t :: t in ready ==> t in r.deps && r.deps[t] <= tags
    ensures Respects(r, tags0, log')
  {
    forall k | 0 <= k < |log'| ensures RespectsAt(r, tags0, log', k) {
      if k < |log| {
        assert RespectsAt(r, tags0, log, k) && log'[..k] == log[..k];
      } else {
        assert log'[k] in Elements(log');
        assert log'[k] !in log;
        assert Elements(log) <= Elements(log'[..k]) by {
          forall t | t in log ensures t in log'[..k] {
            var j :| 0 <= j < |log| && log[j] == t;
            assert log'[..k][j] == t;
          }
        }
      }
    }
  }

  /** An order in which all of `todo` could be migrated one by one. */
  ghost predicate IsSchedule(r: Rules, tags0: set<Tag>, todo: set<Tag>, order: seq<Tag>) {
    NoRepeats(order) && Elements(order) == todo && Respects(r, tags0, order)
  }

  /** Without downgraders the tags are the initial ones and whatever is no longer pending. */
  lemma {:induction false} FinalTags(r: Rules, tags0: set<Tag>, s: State)
    requires Known(r, s) && r.downs == {} && s.tags == tags0 + (r.ToApply(tags0) - s.pending)
    requires s.pending <= r.ToApply(tags0)
    ensures Final(r, s).tags == tags0 + (r.ToApply(tags0) - Final(r, s).pending)
    decreases s.pending
  {
    var ready := r.ReadyOf(s.pending, s.tags);
    if ready != {} {
      ReadyShrinks(r, s);
      FinalTags(r, tags0, Round(r, s));
    }
  }

  /** Everything in `stuck` has a dependency that is neither present nor migrated outside `stuck`. */
  ghost predicate IsStuck(r: Rules, tags0: set<Tag>, stuck: set<Tag>)
    requires r.Valid()
  {
    && stuck <= r.ToApply(tags0)
    && forall t :: t in stuck ==> !(r.deps[t] <= tags0 + (r.ToApply(tags0) - stuck))
  }

  lemma {:induction false} StuckStays(r: Rules, tags0: set<Tag>, stuck: set<Tag>, s: State)
    requires Known(r, s) && r.downs == {} && s.tags == tags0 + (r.ToApply(tags0) - s.pending)
    requires s.pending <= r.ToApply(tags0)
    requires IsStuck(r, tags0, stuck) && stuck <= s.pending
    ensures stuck <= Final(r, s).pending
    decreases s.pending
  {
    var ready := r.ReadyOf(s.pending, s.tags);
    if ready != {} {
      ReadyShrinks(r, s);
      forall t | t in stuck ensures t !in ready {
        assert !(r.deps[t] <= tags0 + (r.ToApply(tags0) - stuck));
      }
      StuckStays(r, tags0, stuck, Round(r, s));
    }
  }

  /** On abort the leftover is the greatest stuck set, whatever order sets are iterated in. */
  lemma {:induction false} LeftoverIsGreatestStuck(r: Rules, tags0: set<Tag>)
    requires r.Valid() && r.downs == {}
    ensures IsStuck(r, tags0, Final(r, Start(r, tags0)).pending)
    ensures forall stuck :: IsStuck(r, tags0, stuck) ==> stuck <= Final(r, Start(r, tags0)).pending
  {
    var s := Start(r, tags0);
    assert r.ToApply(tags0) - s.pending == {};
    FinalTags(r, tags0, s);
    var f := Final(r, s);
    forall t | t in f.pending ensures !(r.deps[t] <= tags0 + (r.ToApply(tags0) - f.pending)) {
      assert t !in r.ReadyOf(f.pending, f.tags);
    }
    forall stuck | IsStuck(r, tags0, stuck) ensures stuck <= f.pending {
      StuckStays(r, tags0, stuck, s);
    }
  }

  /** The part of a schedule that is in `stuck` cannot start. */
  lemma {:induction false} ScheduleAvoidsStuck(r: Rules, tags0: set<Tag>, order: seq<Tag>, stuck: set<Tag>, k: nat)
    requires r.Valid() && IsSchedule(r, tags0, r.ToApply(tags0), order) && IsStuck(r, tags0, stuck) && k <= |order|
    ensures Elements(order[..k]) !! stuck
  {
    if k > 0 {
      ScheduleAvoidsStuck(r, tags0, order, stuck, k - 1);
      assert RespectsAt(r, tags0, order, k - 1);
      assert order[..k] == order[..k - 1] + [order[k - 1]];
      assert Elements(order[..k - 1]) <= Elements(order) by {
        forall t | t in order[..k - 1] ensures t in order {
          var j :| 0 <= j < k - 1 && order[..k - 1][j] == t;
          assert order[j] == t;
        }
      }
    }
  }

  /** Rounds, laid end to end, are a schedule of what they migrate. */
  lemma {:induction false} RunGivesSchedule(r: Rules, tags0: set<Tag>, s: State, log: seq<Tag>)
      returns (order: seq<Tag>)
    requires Known(r, s) && r.downs == {} && s.pending <= r.ToApply(tags0)
    requires s.tags == tags0 + Elements(log) && IsSchedule(r, tags0, r.ToApply(tags0) - s.pending, log)
    ensures IsSchedule(r, tags0, r.ToApply(tags0) - Final(r, s).pending, order)
    decreases s.pending
  {
    var ready := r.ReadyOf(s.pending, s.tags);
    if ready == {} {
      order := log;
    } else {
      ReadyShrinks(r, s);
      var line := Enumerate(ready);
      order := log + line;
      assert Elements(order) == Elements(log) + ready;
      assert NoRepeats(order) by {
        forall j, k | 0 <= j < k < |order| ensures order[j] != order[k] {
          if j < |log| <= k {
            assert order[j] in Elements(log) && order[k] in Elements(line);
          }
        }
      }
      RoundRespects(r, tags0, s.tags, log, order, ready);
      order := RunGivesSchedule(r, tags0, Round(r, s), order);
    }
  }

  lemma {:induction false} Enumerate(s: set<Tag>) returns (line: seq<Tag>)
    ensures NoRepeats(line) && Elements(line) == s
  {
    if s == {} {
      line := [];
    } else {
      var t :| t in s;
      var rest := Enumerate(s - {t});
      line := [t] + rest;
      assert forall k :: 0 <= k < |rest| ==> rest[k] in Elements(rest);
      assert Elements(line) == {t} + Elements(rest) == {t} + (s - {t});
    }
  }

  /** Without downgraders the loop finishes exactly when some order respects all dependencies. */
  lemma {:induction false} FinishesIffSchedulable(r: Rules, tags0: set<Tag>)
    requires r.Valid() && r.downs == {}
    ensures Final(r, Start(r, tags0)).pending == {} <==> Schedulable(r, tags0)
  {
    if Final(r, Start(r, tags0)).pending == {} {
      FinishedIsSchedulable(r, tags0);
    }
    if Schedulable(r, tags0) {
      SchedulableFinishes(r, tags0);
    }
  }

  ghost predicate Schedulable(r: Rules, tags0: set<Tag>) {
    exists order :: IsSchedule(r, tags0, r.ToApply(tags0), order)
  }

  lemma {:induction false} FinishedIsSchedulable(r: Rules, tags0: set<Tag>)
    requires r.Valid() && r.downs == {} && Final(r, Start(r, tags0)).pending == {}
    ensures Schedulable(r, tags0)
  {
    var s := Start(r, tags0);
    assert IsSchedule(r, tags0, r.ToApply(tags0) - s.pending, []);
    var order := RunGivesSchedule(r, tags0, s, []);
    assert r.ToApply(tags0) - Final(r, s).pending == r.ToApply(tags0);
  }

  lemma {:induction false} SchedulableFinishes(r: Rules, tags0: set<Tag>)
    requires r.Valid() && r.downs == {} && Schedulable(r, tags0)
    ensures Final(r, Start(r, tags0)).pending == {}
  {
    var order :| IsSchedule(r, tags0, r.ToApply(tags0), order);
    LeftoverIsGreatestStuck(r, tags0);
    ScheduleAvoidsStuck(r, tags0, order, Final(r, Start(r, tags0)).pending, |order|);
    assert order[..|order|] == order;
  }

  // ---------- downgraders ----------

  lemma {:induction false} FinalTagsAfter(r: Rules, tags0: set<Tag>, s: State)
    requires Known(r, s) && s.pending <= r.ToApply(tags0) && s.tags == r.After(tags0, r.ToApply(tags0) - s.pending)
    ensures Final(r, s).tags == r.After(tags0, r.ToApply(tags0) - Final(r, s).pending)
    decreases s.pending
  {
    var ready := r.ReadyOf(s.pending, s.tags);
    if ready != {} {
      ReadyShrinks(r, s);
      assert r.ToApply(tags0) - Round(r, s).pending == (r.ToApply(tags0) - s.pending) + ready;
      FinalTagsAfter(r, tags0, Round(r, s));
    }
  }

  /** A successful run ends with every upgraded tag present and every downgraded tag gone; running again does
      nothing. */
  lemma {:induction false} SuccessTags(r: Rules, tags0: set<Tag>)
    requires r.Valid() && Final(r, Start(r, tags0)).pending == {}
    ensures Final(r, Start(r, tags0)).tags == (tags0 + r.ups) - r.downs
    ensures r.ToApply(Final(r, Start(r, tags0)).tags) == {}
  {
    var s := Start(r, tags0);
    assert r.ToApply(tags0) - s.pending == {};
    FinalTagsAfter(r, tags0, s);
    assert r.ToApply(tags0) - {} == r.ToApply(tags0);
  }

  /**
   A dependency on a tag with a downgrader is met while the tag is present, and never
   again: whatever is still pending when it is gone stays pending.  The header comment
   (lines 60-65) says the opposite, that the tag must have been removed.
   */
  lemma {:induction false} StrandedByDowngrade(r: Rules, s: State, t: Tag, d: Tag)
    requires Known(r, s) && t in s.pending && d in r.deps[t] && d in r.downs && d !in s.tags
    ensures t in Final(r, s).pending
    decreases s.pending
  {
    var ready := r.ReadyOf(s.pending, s.tags);
    assert t !in ready;
    if ready != {} {
      ReadyShrinks(r, s);
      StrandedByDowngrade(r, Round(r, s), t, d);
    }
  }

  /** So a run aborts whenever a pending tag depends on a downgraded tag that the checkpoint no longer has. */
  lemma {:induction false} AlreadyDowngradedAborts(r: Rules, tags0: set<Tag>, t: Tag, d: Tag)
    requires r.Valid() && t in r.ToApply(tags0) && d in r.deps[t] && d in r.downs && d !in tags0
    ensures t in Final(r, Start(r, tags0)).pending
  {
    StrandedByDowngrade(r, Start(r, tags0), t, d);
  }

  /** Applied in this order, every migration of the round finds its dependencies among the tags. */
  ghost predicate SeesDependencies(r: Rules, tags: set<Tag>, order: seq<Tag>) {
    forall k :: 0 <= k < |order| ==> order[k] in r.deps && r.deps[order[k]] <= r.After(tags, Elements(order[..k]))
  }

  ghost predicate Lists(order: seq<Tag>, s: set<Tag>) {
    NoRepeats(order) && Elements(order) == s
  }

  /** No migration of the round depends on a tag that the same round downgrades. */
  ghost predicate NoClash(r: Rules, ready: set<Tag>) {
    forall t, d :: t in ready && t in r.deps && d in ready && t != d && d in r.downs ==> d !in r.deps[t]
  }

  lemma {:induction false} NoClashSees(r: Rules, s: State, order: seq<Tag>)
    requires Known(r, s) && Lists(order, r.ReadyOf(s.pending, s.tags)) && NoClash(r, r.ReadyOf(s.pending, s.tags))
    ensures SeesDependencies(r, s.tags, order)
  {
    var ready := r.ReadyOf(s.pending, s.tags);
    forall k | 0 <= k < |order|
      ensures order[k] in r.deps && r.deps[order[k]] <= r.After(s.tags, Elements(order[..k]))
    {
      var t := order[k];
      assert t in Elements(order);
      assert Elements(order[..k]) <= ready && t !in Elements(order[..k]);
    }
  }

  lemma {:induction false} ClashBreaks(r: Rules, s: State, t: Tag, d: Tag) returns (order: seq<Tag>)
    requires Known(r, s)
    requires t in r.ReadyOf(s.pending, s.tags) && d in r.ReadyOf(s.pending, s.tags)
    requires t != d && d in r.downs && d in r.deps[t]
    ensures Lists(order, r.ReadyOf(s.pending, s.tags)) && !SeesDependencies(r, s.tags, order)
  {
    var ready := r.ReadyOf(s.pending, s.tags);
    var rest := Enumerate(ready - {t, d});
    order := [d, t] + rest;
    assert forall k :: 0 <= k < |rest| ==> rest[k] in Elements(rest);
    assert Elements(order) == {d, t} + Elements(rest);
    assert order[..1] == [d];
    assert Elements(order[..1]) == {d};
    assert order[1] == t;
  }

  /**
   Ready is computed once per round, so with downgraders the order inside a round matters.
   Every order is safe exactly when no migration of the round depends on a tag that the same
   round downgrades.
   */
  lemma {:induction false} RoundSafeIff(r: Rules, s: State)
    requires Known(r, s)
    ensures (forall order :: Lists(order, r.ReadyOf(s.pending, s.tags)) ==> SeesDependencies(r, s.tags, order))
       <==> NoClash(r, r.ReadyOf(s.pending, s.tags))
  {
    var ready := r.ReadyOf(s.pending, s.tags);
    if NoClash(r, ready) {
      forall order | Lists(order, ready) ensures SeesDependencies(r, s.tags, order) {
        NoClashSees(r, s, order);
      }
    } else {
      var t, d :| t in ready && t in r.deps && d in ready && t != d && d in r.downs && d in r.deps[t];
      var order := ClashBreaks(r, s, t, d);
    }
  }
}
