/** The escalation ladder, and what any sequence of sweeps over one deadline notifies. */
module Escalation {
  import opened Wrappers
  import opened Dates
  import opened Rules

  datatype Level = Owner | BackupOwner | Reviewer | Manager | Counsel | Executive | OtherLevel(name: string)

  type Ladder = map<int, Level>

  const DEFAULT_LADDER: Ladder := map[
    120 := Owner, 90 := Owner, 60 := Owner, 30 := Reviewer, 14 := Reviewer, 7 := Manager, 3 := Manager, 0 := Manager]

  const DEFAULT_OVERDUE_LADDER: Ladder := map[0 := Manager, 3 := Manager, 7 := Counsel, 14 := Executive]

  const TOP_RANK := 6

  function LevelRank(level: Option<Level>): (r: int)
    ensures 0 <= r <= TOP_RANK
  {
    match level
    case Some(Owner) => 1
    case Some(BackupOwner) => 2
    case Some(Reviewer) => 3
    case Some(Manager) => 4
    case Some(Counsel) => 5
    case Some(Executive) => 6
    case _ => 0
  }

  datatype Decision = Decision(
    shouldNotify: bool, level: Option<Level>, windowDays: Option<int>, daysRemaining: int, isOverdue: bool, severity: Severity)

  /** One deadline and the configuration it is evaluated under. */
  datatype Watch = Watch(dueDay: Day, ladder: Ladder, overdueLadder: Ladder, overdueEnabled: bool)

  lemma {:induction false} LeastExists(s: set<int>)
    requires s != {}
    ensures exists m :: m in s && forall x :: x in s ==> m <= x
  {
    EmptyOrInhabited(s);
    var y :| y in s;
    var rest := s - {y};
    assert forall x :: x in s ==> x == y || x in rest;
    if rest == {} {
      assert y in s && forall x :: x in s ==> y <= x;
    } else {
      LeastExists(rest);
      var n :| n in rest && forall x :: x in rest ==> n <= x;
      var m := if n < y then n else y;
      assert m in s && forall x :: x in s ==> m <= x;
    }
  }

  /** The first of a sorted list of day counts. */
  function Least(s: set<int>): (m: int)
    requires s != {}
    ensures m in s && forall x :: x in s ==> m <= x
  {
    LeastExists(s);
    var m :| m in s && forall x :: x in s ==> m <= x;
    m
  }

  /** The last of a sorted list of day counts. */
  function Greatest(s: set<int>): (m: int)
    requires s != {}
    ensures m in s && forall x :: x in s ==> x <= m
  {
    var negated := set x | x in s :: -x;
    EmptyOrInhabited(s);
    assert forall x :: x in s ==> -x in negated;
    -Least(negated)
  }

  function EffectiveLadder(w: Watch): Ladder {
    if w.ladder == map[] then DEFAULT_LADDER else w.ladder
  }

  function EffectiveOverdue(w: Watch): Ladder {
    if w.overdueLadder == map[] then DEFAULT_OVERDUE_LADDER else w.overdueLadder
  }

  /** The overdue thresholds passed, `delta` days from due. */
  function Crossed(w: Watch, delta: int): set<int> {
    set t | t in EffectiveOverdue(w) && -delta >= t
  }

  /** The windows entered, `delta` days from due. */
  function Entered(w: Watch, delta: int): set<int> {
    set t | t in EffectiveLadder(w) && delta <= t
  }

  /** Decide whether the deadline has crossed into a new window, given the level last recorded. */
  function Evaluate(w: Watch, last: Option<Level>, today: Day): Decision {
    var delta := w.dueDay - today;
    if delta < 0 then
      if !w.overdueEnabled then Decision(false, None, None, delta, true, RegulatoryRisk)
      else
        var crossed := Crossed(w, delta);
        if crossed == {} then Decision(false, None, None, delta, true, RegulatoryRisk)
        else
          var threshold := Greatest(crossed);
          var level := Some(EffectiveOverdue(w)[threshold]);
          Decision(LevelRank(level) > LevelRank(last), level, Some(threshold), delta, true, RegulatoryRisk)
    else
      var entered := Entered(w, delta);
      if entered == {} then Decision(false, None, None, delta, false, Informational)
      else
        var window := Least(entered);
        var level := Some(EffectiveLadder(w)[window]);
        Decision(LevelRank(level) > LevelRank(last), level, Some(window), delta, false,
                 if delta <= 3 then Critical else if delta <= 14 then Important else Normal)
  }

  /** The level the deadline calls for today depends on the date only, and a notification is due exactly
      when it outranks the recorded one. */
  lemma NotifiesExactlyOnEscalation(w: Watch, last: Option<Level>, today: Day)
    ensures var d := Evaluate(w, last, today);
            && d.level == Evaluate(w, None, today).level
            && (d.shouldNotify <==> LevelRank(d.level) > LevelRank(last))
            && (d.shouldNotify ==> d.level.Some?)
  {
  }

  ghost predicate TightestWindow(ladder: Ladder, delta: int, t: int, level: Level) {
    t in ladder && delta <= t && level == ladder[t] && forall u :: u in ladder && delta <= u ==> t <= u
  }

  ghost predicate FurthestThreshold(ladder: Ladder, past: int, t: int, level: Level) {
    t in ladder && t <= past && level == ladder[t] && forall u :: u in ladder && u <= past ==> u <= t
  }

  /** Before the due date the window is the tightest one entered; after it, the furthest one crossed. */
  lemma WindowIsTightest(w: Watch, last: Option<Level>, today: Day)
    ensures var d, delta := Evaluate(w, last, today), w.dueDay - today;
            var up := if w.ladder == map[] then DEFAULT_LADDER else w.ladder;
            var over := if w.overdueLadder == map[] then DEFAULT_OVERDUE_LADDER else w.overdueLadder;
            && d.daysRemaining == delta && (d.isOverdue <==> delta < 0)
            && (d.level.Some? <==> d.windowDays.Some?)
            && (delta >= 0 && d.level.None? ==> forall t :: t in up ==> t < delta)
            && (delta >= 0 && d.level.Some? ==> TightestWindow(up, delta, d.windowDays.value, d.level.value))
            && (delta < 0 && d.level.None? ==> !w.overdueEnabled || forall t :: t in over ==> -delta < t)
            && (delta < 0 && d.level.Some? ==> w.overdueEnabled && FurthestThreshold(over, -delta, d.windowDays.value, d.level.value))
  {
    var delta := w.dueDay - today;
    EmptyOrInhabited(Entered(w, delta));
    EmptyOrInhabited(Crossed(w, delta));
    assert forall t :: t in EffectiveLadder(w) && delta <= t <==> t in Entered(w, delta);
    assert forall t :: t in EffectiveOverdue(w) && -delta >= t <==> t in Crossed(w, delta);
  }

  /** Severity by the days that are left, where a window or threshold is reached at all. */
  lemma EscalatedSeverity(w: Watch, last: Option<Level>, today: Day)
    ensures var d, delta := Evaluate(w, last, today), w.dueDay - today;
            && (d.severity == RegulatoryRisk <==> delta < 0)
            && (d.severity == Informational <==> delta >= 0 && d.level.None?)
            && (d.severity == Critical <==> 0 <= delta <= 3 && d.level.Some?)
            && (d.severity == Important <==> 4 <= delta <= 14 && d.level.Some?)
            && (d.severity == Normal <==> delta > 14 && d.level.Some?)
  {
  }

  /** The levels rise from the owner to the executive, above no level and unknown ones. */
  lemma LevelsRise(name: string)
    ensures LevelRank(None) == LevelRank(Some(OtherLevel(name))) < LevelRank(Some(Owner)) < LevelRank(Some(BackupOwner))
            < LevelRank(Some(Reviewer)) < LevelRank(Some(Manager)) < LevelRank(Some(Counsel)) < LevelRank(Some(Executive))
  {
  }

  // ------------------------------------------------------------------------------- runs of sweeps

  /** One sweep: when it ran, over which configuration, and whether its notification was recorded. */
  datatype Sweep = Sweep(watch: Watch, today: Day, recorded: bool)

  function CalledFor(s: Sweep): int {
    LevelRank(Evaluate(s.watch, None, s.today).level)
  }

  predicate Notifies(last: Option<Level>, s: Sweep) {
    Evaluate(s.watch, last, s.today).shouldNotify && s.recorded
  }

  /** The level recorded on the deadline after a run of sweeps. */
  function LevelAfter(initial: Option<Level>, sweeps: seq<Sweep>): Option<Level> {
    if sweeps == [] then initial
    else
      var before := LevelAfter(initial, sweeps[..|sweeps| - 1]);
      var s := sweeps[|sweeps| - 1];
      if Notifies(before, s) then Evaluate(s.watch, before, s.today).level else before
  }

  /** The ranks notified, in order. */
  function Notified(initial: Option<Level>, sweeps: seq<Sweep>): seq<int> {
    if sweeps == [] then []
    else
      var front := sweeps[..|sweeps| - 1];
      var s := sweeps[|sweeps| - 1];
      var before := LevelAfter(initial, front);
      Notified(initial, front) + if Notifies(before, s) then [LevelRank(Evaluate(s.watch, before, s.today).level)] else []
  }

  /** Any run of sweeps notifies at strictly rising ranks above the initial one, so at most six times. */
  lemma {:induction false} NotifiedRanksRise(initial: Option<Level>, sweeps: seq<Sweep>)
    ensures var ranks := Notified(initial, sweeps);
            && (forall i, j :: 0 <= i < j < |ranks| ==> ranks[i] < ranks[j])
            && (forall i :: 0 <= i < |ranks| ==> LevelRank(initial) < ranks[i] <= LevelRank(LevelAfter(initial, sweeps)))
            && LevelRank(LevelAfter(initial, sweeps)) >= LevelRank(initial) + |ranks|
            && |ranks| <= TOP_RANK - LevelRank(initial)
  {
    if sweeps != [] {
      NotifiedRanksRise(initial, sweeps[..|sweeps| - 1]);
    }
  }

  /** The highest rank called for by a recorded sweep of the run, or the initial rank. */
  function HighestCalledFor(initial: Option<Level>, sweeps: seq<Sweep>): int {
    if sweeps == [] then LevelRank(initial)
    else
      var s := sweeps[|sweeps| - 1];
      var before := HighestCalledFor(initial, sweeps[..|sweeps| - 1]);
      if s.recorded then Max(before, CalledFor(s)) else before
  }

  /** For any ladders, any times and any gaps, the recorded rank ends at the highest rank called for. */
  lemma {:induction false} FinalRankIsHighest(initial: Option<Level>, sweeps: seq<Sweep>)
    ensures LevelRank(LevelAfter(initial, sweeps)) == HighestCalledFor(initial, sweeps)
  {
    if sweeps != [] {
      var front, s := sweeps[..|sweeps| - 1], sweeps[|sweeps| - 1];
      FinalRankIsHighest(initial, front);
      NotifiesExactlyOnEscalation(s.watch, LevelAfter(initial, front), s.today);
    }
  }

  ghost predicate DefaultWatch(w: Watch, dueDay: Day) {
    w == Watch(dueDay, map[], map[], true)
  }

  /** The default ladders, as one schedule of ranks in days remaining. */
  function DefaultRank(delta: int): int {
    if delta > 120 then 0
    else if delta > 30 then 1
    else if delta > 7 then 3
    else if delta > -7 then 4
    else if delta > -14 then 5
    else 6
  }

  lemma DefaultLaddersRank(w: Watch, dueDay: Day, today: Day)
    requires DefaultWatch(w, dueDay)
    ensures LevelRank(Evaluate(w, None, today).level) == DefaultRank(dueDay - today)
  {
    var delta := dueDay - today;
    if delta >= 0 {
      var entered := Entered(w, delta);
      if delta <= 120 {
        var window := if delta == 0 then 0 else if delta <= 3 then 3 else if delta <= 7 then 7 else if delta <= 14 then 14
                      else if delta <= 30 then 30 else if delta <= 60 then 60 else if delta <= 90 then 90 else 120;
        assert window in entered;
        assert Least(entered) == window;
        assert Evaluate(w, None, today).level == Some(DEFAULT_LADDER[window]);
      }
    } else {
      var crossed := Crossed(w, delta);
      var top := if -delta >= 14 then 14 else if -delta >= 7 then 7 else if -delta >= 3 then 3 else 0;
      assert 0 in crossed && top in crossed;
      assert Greatest(crossed) == top;
      assert Evaluate(w, None, today).level == Some(DEFAULT_OVERDUE_LADDER[top]);
    }
  }

  /** With the default ladders and times that never go back, only the last sweep matters: whatever
      sweeps were skipped before it, the rank ends at the maximum of the initial rank and its own. */
  lemma {:induction false} SkippedSweepsLoseNothing(initial: Option<Level>, sweeps: seq<Sweep>, dueDay: Day)
    requires sweeps != [] && sweeps[|sweeps| - 1].recorded
    requires forall i :: 0 <= i < |sweeps| ==> DefaultWatch(sweeps[i].watch, dueDay)
    requires forall i, j :: 0 <= i < j < |sweeps| ==> sweeps[i].today <= sweeps[j].today
    ensures LevelRank(LevelAfter(initial, sweeps)) == Max(LevelRank(initial), DefaultRank(dueDay - sweeps[|sweeps| - 1].today))
  {
    FinalRankIsHighest(initial, sweeps);
    HighestIsLast(initial, sweeps, dueDay, sweeps[|sweeps| - 1].today);
    DefaultLaddersRank(sweeps[|sweeps| - 1].watch, dueDay, sweeps[|sweeps| - 1].today);
    HighestIsLast(initial, sweeps[..|sweeps| - 1], dueDay, sweeps[|sweeps| - 1].today);
  }

  lemma {:induction false} HighestIsLast(initial: Option<Level>, sweeps: seq<Sweep>, dueDay: Day, today: Day)
    requires forall i :: 0 <= i < |sweeps| ==> DefaultWatch(sweeps[i].watch, dueDay) && sweeps[i].today <= today
    ensures LevelRank(initial) <= HighestCalledFor(initial, sweeps) <= Max(LevelRank(initial), DefaultRank(dueDay - today))
  {
    if sweeps != [] {
      HighestIsLast(initial, sweeps[..|sweeps| - 1], dueDay, today);
      var s := sweeps[|sweeps| - 1];
      DefaultLaddersRank(s.watch, dueDay, s.today);
    }
  }
}
