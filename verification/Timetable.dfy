/**
 When each migration of gem5/util/cpt_upgrader.py (process_file, lines 238-252) runs,
 for registries with upgraders and downgraders: a timetable gives the round of every
 migration that runs at all.  It is unique, what is left over is what is not in it, and
 a run finishes exactly when the tags can be given levels.
 */
module Timetable {
  import opened Scheduler

  type Levels = map<Tag, nat>

  // ---------- timetables ----------

  /** The migrations that `level` puts before round `n`. */
  ghost function Applied(level: Levels, n: nat): set<Tag> {
    set t | t in level && level[t] < n
  }

  ghost function TagsAt(r: Rules, tags0: set<Tag>, level: Levels, n: nat): set<Tag> {
    r.After(tags0, Applied(level, n))
  }

  ghost predicate ReadyAt(r: Rules, tags0: set<Tag>, level: Levels, t: Tag, n: nat)
    requires t in r.deps
  {
    r.deps[t] <= TagsAt(r, tags0, level, n)
  }

  /** No round before `n` finds `t` ready. */
  ghost predicate NotBefore(r: Rules, tags0: set<Tag>, level: Levels, t: Tag, n: nat)
    requires t in r.deps
  {
    forall m: nat :: m < n ==> !ReadyAt(r, tags0, level, t, m)
  }

  ghost predicate Never(r: Rules, tags0: set<Tag>, level: Levels, t: Tag)
    requires t in r.deps
  {
    forall m: nat :: !ReadyAt(r, tags0, level, t, m)
  }

  /** Every migration has the first round that finds it ready; those without a round are never ready. */
  ghost predicate IsTimetable(r: Rules, tags0: set<Tag>, level: Levels)
    requires r.Valid()
  {
    && level.Keys <= r.ToApply(tags0)
    && (forall t :: t in level ==> ReadyAt(r, tags0, level, t, level[t]) && NotBefore(r, tags0, level, t, level[t]))
    && (forall t :: t in r.ToApply(tags0) - level.Keys ==> Never(r, tags0, level, t))
  }

  /** The state of the loop before round `n`. */
  ghost function StateAt(r: Rules, tags0: set<Tag>, level: Levels, n: nat): State {
    State(TagsAt(r, tags0, level, n), r.ToApply(tags0) - Applied(level, n))
  }

  lemma {:induction false} NothingBeforeZero(r: Rules, tags0: set<Tag>, level: Levels)
    ensures StateAt(r, tags0, level, 0) == Start(r, tags0)
  {
    assert Applied(level, 0) == {};
    assert r.After(tags0, {}) == tags0;
  }

  ghost function InRound(level: Levels, n: nat): set<Tag> {
    set t | t in level && level[t] == n
  }

  /** Round `n` of a timetable is round `n` of the loop. */
  lemma {:induction false} RoundIsReady(r: Rules, tags0: set<Tag>, level: Levels, n: nat)
    requires r.Valid() && IsTimetable(r, tags0, level)
    ensures Known(r, StateAt(r, tags0, level, n))
    ensures var s := StateAt(r, tags0, level, n); r.ReadyOf(s.pending, s.tags) == InRound(level, n)
  {
    var s := StateAt(r, tags0, level, n);
    forall t | t in s.pending ensures t in r.ReadyOf(s.pending, s.tags) <==> t in InRound(level, n) {
      if t in level {
        assert NotBefore(r, tags0, level, t, level[t]);
        assert n < level[t] ==> !ReadyAt(r, tags0, level, t, n);
      } else {
        assert Never(r, tags0, level, t);
        assert !ReadyAt(r, tags0, level, t, n);
      }
    }
  }

  lemma {:induction false} NextState(r: Rules, tags0: set<Tag>, level: Levels, n: nat)
    requires r.Valid() && IsTimetable(r, tags0, level) && Known(r, StateAt(r, tags0, level, n))
    ensures Round(r, StateAt(r, tags0, level, n)) == StateAt(r, tags0, level, n + 1)
  {
    RoundIsReady(r, tags0, level, n);
    AppliedStep(level, n);
    AfterAfter(r, tags0, Applied(level, n), InRound(level, n));
  }

  lemma {:induction false} AppliedStep(level: Levels, n: nat)
    ensures Applied(level, n + 1) == Applied(level, n) + InRound(level, n)
  {
  }

  lemma {:induction false} AfterAfter(r: Rules, tags: set<Tag>, a: set<Tag>, b: set<Tag>)
    requires r.Valid()
    ensures r.After(r.After(tags, a), b) == r.After(tags, a + b)
  {
  }

  /** A migration that becomes ready was waiting for an upgrade of the round before. */
  lemma {:induction false} WaitedFor(r: Rules, tags0: set<Tag>, level: Levels, t: Tag, n: nat) returns (e: Tag)
    requires r.Valid() && t in r.deps && ReadyAt(r, tags0, level, t, n + 1) && !ReadyAt(r, tags0, level, t, n)
    ensures e in r.deps[t] && e in r.ups && e in InRound(level, n)
  {
    e :| e in r.deps[t] && e !in TagsAt(r, tags0, level, n);
    AppliedStep(level, n);
  }

  /** No round is empty while later ones are not. */
  lemma {:induction false} NoGap(r: Rules, tags0: set<Tag>, level: Levels, t: Tag, n: nat) returns (e: Tag)
    requires r.Valid() && IsTimetable(r, tags0, level) && t in level && n <= level[t]
    ensures e in InRound(level, n)
    decreases level[t]
  {
    if level[t] == n {
      e := t;
    } else {
      assert NotBefore(r, tags0, level, t, level[t]);
      e := WaitedFor(r, tags0, level, t, level[t] - 1);
      e := NoGap(r, tags0, level, e, n);
    }
  }

  /** The loop leaves over exactly what is not in the timetable. */
  lemma {:induction false} FinalFrom(r: Rules, tags0: set<Tag>, level: Levels, n: nat)
    requires r.Valid() && IsTimetable(r, tags0, level) && Known(r, StateAt(r, tags0, level, n))
    ensures Final(r, StateAt(r, tags0, level, n)).pending == r.ToApply(tags0) - level.Keys
    decreases StateAt(r, tags0, level, n).pending
  {
    var s := StateAt(r, tags0, level, n);
    RoundIsReady(r, tags0, level, n);
    if InRound(level, n) == {} {
      forall t | t in level ensures t in Applied(level, n) {
        if level[t] >= n {
          var e := NoGap(r, tags0, level, t, n);
        }
      }
      assert Applied(level, n) == level.Keys;
    } else {
      ReadyShrinks(r, s);
      NextState(r, tags0, level, n);
      FinalFrom(r, tags0, level, n + 1);
    }
  }

  // ---------- every run has a timetable ----------

  /** The loop is at round `n`, and `level` records the rounds so far. */
  ghost predicate Recorded(r: Rules, tags0: set<Tag>, level: Levels, n: nat)
    requires r.Valid()
  {
    && level.Keys <= r.ToApply(tags0)
    && (forall t :: t in level ==> level[t] < n)
    && (forall t :: t in level ==> ReadyAt(r, tags0, level, t, level[t]) && NotBefore(r, tags0, level, t, level[t]))
    && (forall t :: t in r.ToApply(tags0) - level.Keys ==> NotBefore(r, tags0, level, t, n))
  }

  ghost function Record(level: Levels, ready: set<Tag>, n: nat): Levels {
    map t | t in level.Keys + ready :: if t in level then level[t] else n
  }

  /** Recording round `n` does not change what earlier rounds saw. */
  lemma {:induction false} SameEarlier(r: Rules, tags0: set<Tag>, level: Levels, ready: set<Tag>, n: nat, t: Tag,
                                       m: nat)
    requires (forall x :: x in level ==> level[x] < n) && m <= n && t in r.deps
    ensures ReadyAt(r, tags0, Record(level, ready, n), t, m) == ReadyAt(r, tags0, level, t, m)
  {
    assert Applied(Record(level, ready, n), m) == Applied(level, m);
  }

  lemma {:induction false} SameNotBefore(r: Rules, tags0: set<Tag>, level: Levels, ready: set<Tag>, n: nat, t: Tag,
                                         m: nat)
    requires (forall x :: x in level ==> level[x] < n) && m <= n && t in r.deps && NotBefore(r, tags0, level, t, m)
    ensures NotBefore(r, tags0, Record(level, ready, n), t, m)
  {
    forall k: nat | k < m ensures !ReadyAt(r, tags0, Record(level, ready, n), t, k) {
      SameEarlier(r, tags0, level, ready, n, t, k);
    }
  }

  /** Before round `n` the recorded migrations are all the applied ones. */
  lemma {:induction false} AppliedIsRecorded(level: Levels, n: nat)
    requires forall t :: t in level ==> level[t] < n
    ensures Applied(level, n) == level.Keys
  {
  }

  lemma {:induction false} RecordedMigration(r: Rules, tags0: set<Tag>, level: Levels, ready: set<Tag>, n: nat, t: Tag)
    requires r.Valid() && Recorded(r, tags0, level, n) && t in r.ToApply(tags0)
    requires ready == r.ReadyOf(r.ToApply(tags0) - level.Keys, TagsAt(r, tags0, level, n))
    ensures var next := Record(level, ready, n);
            if t in next then ReadyAt(r, tags0, next, t, next[t]) && NotBefore(r, tags0, next, t, next[t])
            else NotBefore(r, tags0, next, t, n + 1)
  {
    var next := Record(level, ready, n);
    var m := if t in level then level[t] else n;
    SameEarlier(r, tags0, level, ready, n, t, m);
    SameNotBefore(r, tags0, level, ready, n, t, m);
    if t !in next {
      forall k: nat | k < n + 1 ensures !ReadyAt(r, tags0, next, t, k) {
        assert k < n ==> !ReadyAt(r, tags0, next, t, k);
      }
    }
  }

  lemma {:induction false} RecordStep(r: Rules, tags0: set<Tag>, level: Levels, ready: set<Tag>, n: nat)
    requires r.Valid() && Recorded(r, tags0, level, n)
    requires ready == r.ReadyOf(r.ToApply(tags0) - level.Keys, TagsAt(r, tags0, level, n))
    ensures Recorded(r, tags0, Record(level, ready, n), n + 1)
  {
    var next := Record(level, ready, n);
    forall t | t in next ensures ReadyAt(r, tags0, next, t, next[t]) && NotBefore(r, tags0, next, t, next[t]) {
      RecordedMigration(r, tags0, level, ready, n, t);
    }
    forall t | t in r.ToApply(tags0) - next.Keys ensures NotBefore(r, tags0, next, t, n + 1) {
      RecordedMigration(r, tags0, level, ready, n, t);
    }
  }

  /** With nothing ready in round `n`, nothing becomes ready any more. */
  lemma {:induction false} RecordedIsTimetable(r: Rules, tags0: set<Tag>, level: Levels, n: nat)
    requires r.Valid() && Recorded(r, tags0, level, n)
    requires r.ReadyOf(r.ToApply(tags0) - level.Keys, TagsAt(r, tags0, level, n)) == {}
    ensures IsTimetable(r, tags0, level)
  {
    forall t | t in r.ToApply(tags0) - level.Keys ensures Never(r, tags0, level, t) {
      assert t !in r.ReadyOf(r.ToApply(tags0) - level.Keys, TagsAt(r, tags0, level, n));
      forall m: nat ensures !ReadyAt(r, tags0, level, t, m) {
        if m >= n {
          AppliedIsRecorded(level, n);
          AppliedIsRecorded(level, m);
        } else {
          assert NotBefore(r, tags0, level, t, n);
        }
      }
    }
  }

  lemma {:induction false} Tabulate(r: Rules, tags0: set<Tag>, level0: Levels, n: nat) returns (level: Levels)
    requires r.Valid() && Recorded(r, tags0, level0, n)
    ensures IsTimetable(r, tags0, level)
    decreases r.ToApply(tags0) - level0.Keys
  {
    var ready := r.ReadyOf(r.ToApply(tags0) - level0.Keys, TagsAt(r, tags0, level0, n));
    if ready == {} {
      RecordedIsTimetable(r, tags0, level0, n);
      level := level0;
    } else {
      RecordStep(r, tags0, level0, ready, n);
      var t :| t in ready;
      assert t in r.ToApply(tags0) - level0.Keys && t in Record(level0, ready, n).Keys;
      level := Tabulate(r, tags0, Record(level0, ready, n), n + 1);
    }
  }

  /** Every registry and every checkpoint have a timetable. */
  lemma {:induction false} TimetableExists(r: Rules, tags0: set<Tag>) returns (level: Levels)
    requires r.Valid()
    ensures IsTimetable(r, tags0, level)
  {
    assert Recorded(r, tags0, map[], 0);
    level := Tabulate(r, tags0, map[], 0);
  }

  /** What the loop leaves over is exactly what is not in the timetable, with downgraders too. */
  lemma {:induction false} LeftoverIsOffTimetable(r: Rules, tags0: set<Tag>, level: Levels)
    requires r.Valid() && IsTimetable(r, tags0, level)
    ensures Final(r, Start(r, tags0)).pending == r.ToApply(tags0) - level.Keys
  {
    NothingBeforeZero(r, tags0, level);
    FinalFrom(r, tags0, level, 0);
  }

  lemma {:induction false} SameApplied(r: Rules, tags0: set<Tag>, a: Levels, b: Levels, n: nat)
    requires r.Valid() && IsTimetable(r, tags0, a) && IsTimetable(r, tags0, b)
    ensures Applied(a, n) == Applied(b, n) && InRound(a, n) == InRound(b, n)
  {
    if n > 0 {
      SameApplied(r, tags0, a, b, n - 1);
      AppliedStep(a, n - 1);
      AppliedStep(b, n - 1);
    } else {
      assert Applied(a, 0) == Applied(b, 0);
    }
    RoundIsReady(r, tags0, a, n);
    RoundIsReady(r, tags0, b, n);
  }

  /** There is only one timetable: rounds do not depend on the order in which sets are iterated. */
  lemma {:induction false} TimetableUnique(r: Rules, tags0: set<Tag>, a: Levels, b: Levels)
    requires r.Valid() && IsTimetable(r, tags0, a) && IsTimetable(r, tags0, b)
    ensures a == b
  {
    forall t | t in a ensures t in b && b[t] == a[t] {
      SameApplied(r, tags0, a, b, a[t]);
      assert t in InRound(a, a[t]);
    }
    forall t | t in b ensures t in a {
      SameApplied(r, tags0, a, b, b[t]);
      assert t in InRound(b, b[t]);
    }
  }

  /**
   A dependent of a downgraded tag never runs in a later round than the downgrade, and not at
   all when the tag is absent.  The header comment (lines 60-65) asks for the downgrade to come first.
   */
  lemma {:induction false} DowngradeNotFirst(r: Rules, tags0: set<Tag>, level: Levels, t: Tag, d: Tag)
    requires r.Valid() && IsTimetable(r, tags0, level) && t in level && d in r.deps[t] && d in r.downs
    ensures d in tags0 && (d in level ==> level[t] <= level[d])
  {
    assert ReadyAt(r, tags0, level, t, level[t]);
    assert d in TagsAt(r, tags0, level, level[t]);
  }

  // ---------- when the loop finishes ----------

  /** Dependency `e` of `t` is met: a downgraded tag while it is still there, anything else once it is there. */
  ghost predicate Met(r: Rules, tags0: set<Tag>, level: Levels, t: Tag, e: Tag)
    requires t in level
  {
    if e in r.downs then e in tags0 && e in level && level[t] <= level[e]
    else e in tags0 || (e in level && level[e] < level[t])
  }

  /** `t` is in the first round, or waits for an upgrade of the round before its own. */
  ghost predicate Prompt(r: Rules, level: Levels, t: Tag)
    requires t in level && t in r.deps
  {
    level[t] == 0 || exists e :: e in r.deps[t] && e in r.ups && e in level && level[e] + 1 == level[t]
  }

  ghost predicate IsLevelling(r: Rules, tags0: set<Tag>, level: Levels)
    requires r.Valid()
  {
    && level.Keys == r.ToApply(tags0)
    && (forall t, e :: t in level && e in r.deps[t] ==> Met(r, tags0, level, t, e))
    && (forall t :: t in level ==> Prompt(r, level, t))
  }

  lemma {:induction false} LevellingIsTimetable(r: Rules, tags0: set<Tag>, level: Levels)
    requires r.Valid() && IsLevelling(r, tags0, level)
    ensures IsTimetable(r, tags0, level)
  {
    forall t | t in level ensures ReadyAt(r, tags0, level, t, level[t]) && NotBefore(r, tags0, level, t, level[t]) {
      forall e | e in r.deps[t] ensures e in TagsAt(r, tags0, level, level[t]) {
        assert Met(r, tags0, level, t, e);
      }
      assert Prompt(r, level, t);
      forall m: nat | m < level[t] ensures !ReadyAt(r, tags0, level, t, m) {
        var e :| e in r.deps[t] && e in r.ups && e in level && level[e] + 1 == level[t];
        assert e !in TagsAt(r, tags0, level, m);
      }
    }
  }

  lemma {:induction false} TimetableMeets(r: Rules, tags0: set<Tag>, level: Levels, t: Tag, e: Tag)
    requires r.Valid() && IsTimetable(r, tags0, level) && level.Keys == r.ToApply(tags0) && t in level && e in r.deps[t]
    ensures Met(r, tags0, level, t, e)
  {
    assert ReadyAt(r, tags0, level, t, level[t]);
    assert e in TagsAt(r, tags0, level, level[t]);
  }

  lemma {:induction false} TimetableIsLevelling(r: Rules, tags0: set<Tag>, level: Levels)
    requires r.Valid() && IsTimetable(r, tags0, level) && level.Keys == r.ToApply(tags0)
    ensures IsLevelling(r, tags0, level)
  {
    forall t, e | t in level && e in r.deps[t] ensures Met(r, tags0, level, t, e) {
      TimetableMeets(r, tags0, level, t, e);
    }
    forall t | t in level ensures Prompt(r, level, t) {
      if level[t] > 0 {
        assert NotBefore(r, tags0, level, t, level[t]);
        var e := WaitedFor(r, tags0, level, t, level[t] - 1);
      }
    }
  }

  ghost predicate CanBeLevelled(r: Rules, tags0: set<Tag>)
    requires r.Valid()
  {
    exists level: Levels :: IsLevelling(r, tags0, level)
  }

  lemma {:induction false} NothingElse(a: set<Tag>, b: set<Tag>)
    requires a - b == {} && b <= a
    ensures a == b
  {
    forall t | t in a ensures t in b {
      assert t !in a - b;
    }
  }

  /** With upgraders and downgraders alike, the loop finishes exactly when the migrations can be given levels. */
  lemma {:induction false} FinishesIffLevelled(r: Rules, tags0: set<Tag>)
    requires r.Valid()
    ensures Final(r, Start(r, tags0)).pending == {} <==> CanBeLevelled(r, tags0)
  {
    var table := TimetableExists(r, tags0);
    LeftoverIsOffTimetable(r, tags0, table);
    if Final(r, Start(r, tags0)).pending == {} {
      NothingElse(r.ToApply(tags0), table.Keys);
      TimetableIsLevelling(r, tags0, table);
    }
    if CanBeLevelled(r, tags0) {
      var level :| IsLevelling(r, tags0, level);
      LevellingIsTimetable(r, tags0, level);
      LeftoverIsOffTimetable(r, tags0, level);
    }
  }

  // ---------- a schedule that the rounds miss ----------

  /** t depends on an upgrade and on a tag with a downgrader; the checkpoint has only the latter. */
  ghost function MissedRules(): Rules {
    Rules({"u", "t"}, {"d"}, map["u" := {}, "d" := {}, "t" := {"u", "d"}])
  }

  /**
   With downgraders an order in which every migration sees its dependencies is not enough:
   u, t, d is one, but the first round applies u together with d, and t is left over.
   */
  lemma {:induction false} ScheduleMissed()
    ensures var r := MissedRules();
            && r.Valid() && IsSchedule(r, {"d"}, r.ToApply({"d"}), ["u", "t", "d"])
            && SeesDependencies(r, {"d"}, ["u", "t", "d"])
            && Final(r, Start(r, {"d"})).pending == {"t"} && !CanBeLevelled(r, {"d"})
  {
    var r, order := MissedRules(), ["u", "t", "d"];
    MissedOrder();
    var s := Start(r, {"d"});
    assert s == State({"d"}, {"u", "t", "d"});
    assert r.ReadyOf(s.pending, s.tags) == {"u", "d"};
    var s1 := Round(r, s);
    assert s1 == State({"u"}, {"t"});
    assert r.ReadyOf(s1.pending, s1.tags) == {};
    assert Final(r, s) == Final(r, s1);
    FinishesIffLevelled(r, {"d"});
  }

  lemma {:induction false} MissedOrder()
    ensures var r := MissedRules();
            && r.Valid() && IsSchedule(r, {"d"}, r.ToApply({"d"}), ["u", "t", "d"])
            && SeesDependencies(r, {"d"}, ["u", "t", "d"])
  {
    var r, order := MissedRules(), ["u", "t", "d"];
    assert order[0] == "u" && order[1] == "t" && order[2] == "d";
    assert order[..0] == [] && order[..1] == ["u"] && order[..2] == ["u", "t"];
    assert Elements(order[..0]) == {} && Elements(order[..1]) == {"u"} && Elements(order[..2]) == {"u", "t"};
    assert Elements(order) == {"u", "t", "d"} == r.ToApply({"d"});
    forall k | 0 <= k < 3
      ensures RespectsAt(r, {"d"}, order, k) && r.deps[order[k]] <= r.After({"d"}, Elements(order[..k]))
    {
      assert k == 0 || k == 1 || k == 2;
    }
  }
}
