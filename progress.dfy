/**
  The learner's progress tracker: experience points, points, the daily streak,
  lessons completed today, a coarse per-subject progress map and the
  append-only list of achievements. Wall-clock dates are day numbers passed in
  by the caller (`today`); an achievement keeps the day it was earned.
*/
module Progress {

  datatype Achievement = Achievement(name: string, description: string, icon: string, earnedDay: int)

  const FirstLessonName := "First Lesson"
  const PerfectDayName := "Perfect Day"

  /** The streak milestones, in the order the source lists (and checks) them. */
  const Milestones: seq<(int, string)> := [(7, "Week Warrior"), (30, "Monthly Master"), (100, "Centurion")]

  /** Decimal text of an integer, as Python's `str(n)`. */
  function IntToString(n: int): (s: string)
    ensures s != []
    decreases if n < 0 then 1 - n else n
  {
    if n < 0 then "-" + IntToString(-n)
    else if n < 10 then [Digit(n)]
    else IntToString(n / 10) + [Digit(n % 10)]
  }

  function Digit(d: int): char
    requires 0 <= d < 10
  {
    "0123456789"[d]
  }

  function FirstLessonAward(today: int): Achievement {
    Achievement(FirstLessonName, "Complete your first lesson", "\U{1F31F}", today)
  }

  function PerfectDayAward(dailyGoal: int, today: int): Achievement {
    Achievement(PerfectDayName, "Complete " + IntToString(dailyGoal) + " lessons in one day", "\U{1F3AF}", today)
  }

  function MilestoneAward(days: int, name: string, today: int): Achievement {
    Achievement(name, "Maintain a " + IntToString(days) + "-day streak", "\U{1F525}", today)
  }

  /** `any(a.name == name for a in achievements)` */
  predicate HasNamed(achievements: seq<Achievement>, name: string) {
    exists i :: 0 <= i < |achievements| && achievements[i].name == name
  }

  /** A "Perfect Day" earned on `today` is already present. */
  predicate HasPerfectDayOn(achievements: seq<Achievement>, today: int) {
    exists i :: 0 <= i < |achievements| && achievements[i].name == PerfectDayName && achievements[i].earnedDay == today
  }

  /** Number of achievements called `name`. */
  function NameCount(achievements: seq<Achievement>, name: string): nat {
    if achievements == [] then 0
    else NameCount(achievements[..|achievements| - 1], name) + (if achievements[|achievements| - 1].name == name then 1 else 0)
  }

  /** Number of "Perfect Day" achievements earned on `day`. */
  function PerfectDaysOn(achievements: seq<Achievement>, day: int): nat {
    if achievements == [] then 0
    else
      var last := achievements[|achievements| - 1];
      PerfectDaysOn(achievements[..|achievements| - 1], day) + (if last.name == PerfectDayName && last.earnedDay == day then 1 else 0)
  }

  /**
    The achievement list after checking the milestones `ms` in order: each one
    reached and not yet held by name is appended.
  */
  function AwardMilestones(achievements: seq<Achievement>, streak: int, today: int, ms: seq<(int, string)>): (r: seq<Achievement>)
    ensures |achievements| <= |r| <= |achievements| + |ms|
    ensures r[..|achievements|] == achievements
    ensures forall i :: |achievements| <= i < |r| ==> r[i].earnedDay == today
  {
    if ms == [] then achievements
    else
      var prev := AwardMilestones(achievements, streak, today, ms[..|ms| - 1]);
      var m := ms[|ms| - 1];
      if streak >= m.0 && !HasNamed(prev, m.1) then
        assert (prev + [MilestoneAward(m.0, m.1, today)])[..|achievements|] == prev[..|achievements|];
        prev + [MilestoneAward(m.0, m.1, today)]
      else prev
  }

  /** The "First Lesson" rule: on the first lesson of the day, unless already held. */
  function AwardFirstLesson(achievements: seq<Achievement>, lessonsToday: int, today: int): (r: seq<Achievement>)
    ensures achievements <= r && |r| <= |achievements| + 1
    ensures forall k :: |achievements| <= k < |r| ==> r[k].name == FirstLessonName && r[k].earnedDay == today
  {
    if lessonsToday == 1 && !HasNamed(achievements, FirstLessonName)
    then achievements + [FirstLessonAward(today)] else achievements
  }

  /** The "Perfect Day" rule: once the daily goal is met, unless one was earned today. */
  function AwardPerfectDay(achievements: seq<Achievement>, lessonsToday: int, dailyGoal: int, today: int): (r: seq<Achievement>)
    ensures achievements <= r && |r| <= |achievements| + 1
    ensures forall k :: |achievements| <= k < |r| ==> r[k].name == PerfectDayName && r[k].earnedDay == today
  {
    if lessonsToday >= dailyGoal && !HasPerfectDayOn(achievements, today)
    then achievements + [PerfectDayAward(dailyGoal, today)] else achievements
  }

  /** The achievement list after `_check_achievements`, given the counters it reads. */
  function CheckedAchievements(achievements: seq<Achievement>, lessonsToday: int, dailyGoal: int, streak: int, today: int): (r: seq<Achievement>)
    ensures |achievements| <= |r| <= |achievements| + 2 + |Milestones|
    ensures r[..|achievements|] == achievements
    ensures forall i :: |achievements| <= i < |r| ==> r[i].earnedDay == today
  {
    var a1 := AwardFirstLesson(achievements, lessonsToday, today);
    var a2 := AwardPerfectDay(a1, lessonsToday, dailyGoal, today);
    assert a1[..|achievements|] == achievements;
    assert a2[..|achievements|] == achievements;
    var r := AwardMilestones(a2, streak, today, Milestones);
    assert r[..|achievements|] == r[..|a2|][..|achievements|];
    r
  }

  class UserProgress {
    var xp: int
    var points: int
    var streak: int
    var dailyGoal: int
    var lessonsCompletedToday: int
    var lastActivityDate: int
    var achievements: seq<Achievement>
    var subjectProgress: map<string, real>

    /** Every recorded subject progress lies in [0, 100]. */
    ghost predicate ProgressInRange()
      reads this
    {
      forall s :: s in subjectProgress ==> 0.0 <= subjectProgress[s] <= 100.0
    }

    constructor (today: int)
      ensures xp == 0 && points == 0 && streak == 0 && dailyGoal == 5 && lessonsCompletedToday == 0
      ensures lastActivityDate == today && achievements == [] && subjectProgress == map[]
      ensures ProgressInRange()
    {
      xp, points, streak, dailyGoal, lessonsCompletedToday := 0, 0, 0, 5, 0;
      lastActivityDate := today;
      achievements, subjectProgress := [], map[];
    }

    /** Adds `amount` to the experience points and `amount // 2` to the points. */
    method AddXp(amount: int)
      modifies this`xp, this`points
      ensures xp == old(xp) + amount
      ensures points == old(points) + amount / 2
    {
      xp := xp + amount;
      points := points + amount / 2;
    }

    /**
      A gap of exactly one day extends the streak, a longer gap resets it, a
      gap of zero or less leaves it; the activity date becomes `today`.
    */
    method UpdateStreak(today: int)
      modifies this`streak, this`lastActivityDate
      ensures today - old(lastActivityDate) == 1 ==> streak == old(streak) + 1
      ensures today - old(lastActivityDate) > 1 ==> streak == 0
      ensures today - old(lastActivityDate) <= 0 ==> streak == old(streak)
      ensures lastActivityDate == today
    {
      if today - lastActivityDate == 1 {
        streak := streak + 1;
      } else if today - lastActivityDate > 1 {
        streak := 0;
      }
      lastActivityDate := today;
    }

    /** Records one completed lesson in `subject` and awards what it earns. */
    method CompleteLesson(subject: string, today: int)
      modifies this`lessonsCompletedToday, this`xp, this`points, this`subjectProgress, this`achievements
      ensures lessonsCompletedToday == old(lessonsCompletedToday) + 1
      ensures xp == old(xp) + 10 && points == old(points) + 5
      ensures subjectProgress == BumpProgress(old(subjectProgress), subject)
      ensures old(ProgressInRange()) ==> ProgressInRange()
      ensures achievements == CheckedAchievements(old(achievements), lessonsCompletedToday, dailyGoal, streak, today)
    {
      lessonsCompletedToday := lessonsCompletedToday + 1;
      AddXp(10);
      var current := if subject in subjectProgress then subjectProgress[subject] else 0.0;
      subjectProgress := subjectProgress[subject := Min(100.0, current + 5.0)];
      assert subjectProgress == BumpProgress(old(subjectProgress), subject);
      CheckAchievements(today);
    }

    /** Appends every achievement whose rule now holds and that is not yet held. */
    method CheckAchievements(today: int)
      modifies this`achievements
      ensures achievements == CheckedAchievements(old(achievements), lessonsCompletedToday, dailyGoal, streak, today)
    {
      if lessonsCompletedToday == 1 && !HasNamed(achievements, FirstLessonName) {
        achievements := achievements + [FirstLessonAward(today)];
      }
      if lessonsCompletedToday >= dailyGoal {
        if !HasPerfectDayOn(achievements, today) {
          achievements := achievements + [PerfectDayAward(dailyGoal, today)];
        }
      }
      ghost var checked := achievements;
      for k := 0 to |Milestones|
        invariant achievements == AwardMilestones(checked, streak, today, Milestones[..k])
      {
        var (days, name) := Milestones[k];
        assert Milestones[..k + 1][..k] == Milestones[..k];
        if streak >= days && !HasNamed(achievements, name) {
          achievements := achievements + [MilestoneAward(days, name, today)];
        }
      }
      assert Milestones[..|Milestones|] == Milestones;
    }
  }

  /**
    The per-subject progress after one lesson in `subject`: its entry (0 when
    absent) grows by 5 and is capped at 100; every other entry is kept.
  */
  function BumpProgress(m: map<string, real>, subject: string): (r: map<string, real>)
    ensures r.Keys == m.Keys + {subject}
    ensures forall s :: s in m && s != subject ==> r[s] == m[s]
    ensures var before := if subject in m then m[subject] else 0.0;
            r[subject] <= 100.0 && (before + 5.0 <= 100.0 ==> r[subject] == before + 5.0)
            && (before + 5.0 >= 100.0 ==> r[subject] == 100.0)
  {
    var before := if subject in m then m[subject] else 0.0;
    m[subject := Min(100.0, before + 5.0)]
  }

  function Min(a: real, b: real): (m: real)
    ensures m <= a && m <= b && (m == a || m == b)
  {
    if a <= b then a else b
  }

  lemma {:induction false} NameCountAppend(a: seq<Achievement>, b: seq<Achievement>, name: string)
    ensures NameCount(a + b, name) == NameCount(a, name) + NameCount(b, name)
  {
    if b == [] {
      assert a + b == a;
    } else {
      assert (a + b)[..|a + b| - 1] == a + b[..|b| - 1];
      NameCountAppend(a, b[..|b| - 1], name);
    }
  }

  lemma {:induction false} HasNamedIffCounted(a: seq<Achievement>, name: string)
    ensures HasNamed(a, name) <==> NameCount(a, name) > 0
  {
    if a != [] {
      var init := a[..|a| - 1];
      HasNamedIffCounted(init, name);
      if HasNamed(init, name) {
        var i :| 0 <= i < |init| && init[i].name == name;
        assert a[i] == init[i];
      }
      if HasNamed(a, name) && a[|a| - 1].name != name {
        var i :| 0 <= i < |a| && a[i].name == name;
        assert init[i] == a[i];
      }
    }
  }

  lemma {:induction false} PerfectDaysAppend(a: seq<Achievement>, b: seq<Achievement>, day: int)
    ensures PerfectDaysOn(a + b, day) == PerfectDaysOn(a, day) + PerfectDaysOn(b, day)
  {
    if b == [] {
      assert a + b == a;
    } else {
      assert (a + b)[..|a + b| - 1] == a + b[..|b| - 1];
      PerfectDaysAppend(a, b[..|b| - 1], day);
    }
  }

  lemma {:induction false} HasPerfectDayIffCounted(a: seq<Achievement>, day: int)
    ensures HasPerfectDayOn(a, day) <==> PerfectDaysOn(a, day) > 0
  {
    if a != [] {
      var init := a[..|a| - 1];
      HasPerfectDayIffCounted(init, day);
      if HasPerfectDayOn(init, day) {
        var i :| 0 <= i < |init| && init[i].name == PerfectDayName && init[i].earnedDay == day;
        assert a[i] == init[i];
      }
      var last := a[|a| - 1];
      if HasPerfectDayOn(a, day) && !(last.name == PerfectDayName && last.earnedDay == day) {
        var i :| 0 <= i < |a| && a[i].name == PerfectDayName && a[i].earnedDay == day;
        assert init[i] == a[i];
      }
    }
  }

  /** No two milestones share a name. */
  predicate DistinctNames(ms: seq<(int, string)>) {
    forall i, j :: 0 <= i < j < |ms| ==> ms[i].1 != ms[j].1
  }

  /** Milestone checks leave the count of every other name alone. */
  lemma {:induction false} AwardMilestonesOtherName(a: seq<Achievement>, streak: int, today: int, ms: seq<(int, string)>, name: string)
    requires forall k :: 0 <= k < |ms| ==> ms[k].1 != name
    ensures NameCount(AwardMilestones(a, streak, today, ms), name) == NameCount(a, name)
    ensures name == PerfectDayName ==>
              forall day :: PerfectDaysOn(AwardMilestones(a, streak, today, ms), day) == PerfectDaysOn(a, day)
  {
    if ms != [] {
      var init := ms[..|ms| - 1];
      var m := ms[|ms| - 1];
      AwardMilestonesOtherName(a, streak, today, init, name);
      var prev := AwardMilestones(a, streak, today, init);
      NameCountAppend(prev, [MilestoneAward(m.0, m.1, today)], name);
      forall day {
        PerfectDaysAppend(prev, [MilestoneAward(m.0, m.1, today)], day);
      }
    }
  }

  /** Milestone `k` is appended exactly when it is reached and not yet held. */
  lemma {:induction false} AwardMilestonesCount(a: seq<Achievement>, streak: int, today: int, ms: seq<(int, string)>, k: nat)
    requires DistinctNames(ms) && k < |ms|
    ensures NameCount(AwardMilestones(a, streak, today, ms), ms[k].1) ==
            NameCount(a, ms[k].1) + (if streak >= ms[k].0 && NameCount(a, ms[k].1) == 0 then 1 else 0)
  {
    var init := ms[..|ms| - 1];
    var m := ms[|ms| - 1];
    var prev := AwardMilestones(a, streak, today, init);
    NameCountAppend(prev, [MilestoneAward(m.0, m.1, today)], ms[k].1);
    if k == |ms| - 1 {
      AwardMilestonesOtherName(a, streak, today, init, m.1);
      HasNamedIffCounted(prev, m.1);
    } else {
      assert init[k] == ms[k];
      AwardMilestonesCount(a, streak, today, init, k);
    }
  }

  /**
    "First Lesson" is added exactly when this is the first lesson of the day and
    none is held, so it is never held twice.
  */
  lemma FirstLessonRule(achievements: seq<Achievement>, lessonsToday: int, dailyGoal: int, streak: int, today: int)
    ensures var r := CheckedAchievements(achievements, lessonsToday, dailyGoal, streak, today);
            && NameCount(r, FirstLessonName) ==
               NameCount(achievements, FirstLessonName) + (if lessonsToday == 1 && NameCount(achievements, FirstLessonName) == 0 then 1 else 0)
            && (NameCount(achievements, FirstLessonName) <= 1 ==> NameCount(r, FirstLessonName) <= 1)
  {
    var a1 := AwardFirstLesson(achievements, lessonsToday, today);
    var a2 := AwardPerfectDay(a1, lessonsToday, dailyGoal, today);
    HasNamedIffCounted(achievements, FirstLessonName);
    NameCountAppend(achievements, [FirstLessonAward(today)], FirstLessonName);
    NameCountAppend(a1, [PerfectDayAward(dailyGoal, today)], FirstLessonName);
    AwardMilestonesOtherName(a2, streak, today, Milestones, FirstLessonName);
  }

  /**
    "Perfect Day" is added for `today` exactly when the daily goal is met and
    none was earned today; on every other day the count is unchanged, so each
    calendar day holds at most one.
  */
  lemma PerfectDayRule(achievements: seq<Achievement>, lessonsToday: int, dailyGoal: int, streak: int, today: int, day: int)
    ensures var r := CheckedAchievements(achievements, lessonsToday, dailyGoal, streak, today);
            && PerfectDaysOn(r, day) ==
               PerfectDaysOn(achievements, day) +
               (if day == today && lessonsToday >= dailyGoal && PerfectDaysOn(achievements, today) == 0 then 1 else 0)
            && (PerfectDaysOn(achievements, day) <= 1 ==> PerfectDaysOn(r, day) <= 1)
  {
    var a1 := AwardFirstLesson(achievements, lessonsToday, today);
    var a2 := AwardPerfectDay(a1, lessonsToday, dailyGoal, today);
    PerfectDaysAppend(achievements, [FirstLessonAward(today)], day);
    PerfectDaysAppend(achievements, [FirstLessonAward(today)], today);
    HasPerfectDayIffCounted(a1, today);
    PerfectDaysAppend(a1, [PerfectDayAward(dailyGoal, today)], day);
    AwardMilestonesOtherName(a2, streak, today, Milestones, PerfectDayName);
  }

  /**
    Each streak milestone is added exactly when the streak reaches its
    threshold and it is not yet held, so none is ever held twice.
  */
  lemma MilestoneRule(achievements: seq<Achievement>, lessonsToday: int, dailyGoal: int, streak: int, today: int, k: nat)
    requires k < |Milestones|
    ensures var r := CheckedAchievements(achievements, lessonsToday, dailyGoal, streak, today);
            var (days, name) := Milestones[k];
            && NameCount(r, name) == NameCount(achievements, name) + (if streak >= days && NameCount(achievements, name) == 0 then 1 else 0)
            && (NameCount(achievements, name) <= 1 ==> NameCount(r, name) <= 1)
  {
    var name := Milestones[k].1;
    MilestoneNames(k);
    var a1 := AwardFirstLesson(achievements, lessonsToday, today);
    var a2 := AwardPerfectDay(a1, lessonsToday, dailyGoal, today);
    assert NameCount(a1, name) == NameCount(achievements, name) by {
      NameCountAppend(achievements, [FirstLessonAward(today)], name);
    }
    assert NameCount(a2, name) == NameCount(a1, name) by {
      NameCountAppend(a1, [PerfectDayAward(dailyGoal, today)], name);
    }
    AwardMilestonesCount(a2, streak, today, Milestones, k);
  }

  /** The milestone names are distinct and differ from the two other rules' names. */
  lemma MilestoneNames(k: nat)
    requires k < |Milestones|
    ensures DistinctNames(Milestones)
    ensures Milestones[k].1 != FirstLessonName && Milestones[k].1 != PerfectDayName
  {
  }

  /** Position of a rule in the order `_check_achievements` evaluates the rules. */
  function AwardRank(name: string): nat {
    if name == FirstLessonName then 0
    else if name == PerfectDayName then 1
    else if name == Milestones[0].1 then 2
    else if name == Milestones[1].1 then 3
    else if name == Milestones[2].1 then 4
    else 5
  }

  /** The entries from position `from` on rank in `[lo, hi)`. */
  predicate RanksWithin(r: seq<Achievement>, from: nat, lo: nat, hi: nat) {
    forall i :: from <= i < |r| ==> lo <= AwardRank(r[i].name) < hi
  }

  /** The entries from position `from` on come in strictly ascending rank. */
  predicate RanksAscending(r: seq<Achievement>, from: nat) {
    forall i, j :: from <= i < j < |r| ==> AwardRank(r[i].name) < AwardRank(r[j].name)
  }

  /** Achievements appended while checking `Milestones[..k]` come in ascending threshold order. */
  lemma {:induction false} MilestonesInOrder(a: seq<Achievement>, streak: int, today: int, k: nat)
    requires k <= |Milestones|
    ensures RanksWithin(AwardMilestones(a, streak, today, Milestones[..k]), |a|, 2, 2 + k)
    ensures RanksAscending(AwardMilestones(a, streak, today, Milestones[..k]), |a|)
  {
    if k > 0 {
      var ms := Milestones[..k];
      assert ms[..k - 1] == Milestones[..k - 1];
      var m := Milestones[k - 1];
      assert ms[k - 1] == m;
      var prev := AwardMilestones(a, streak, today, Milestones[..k - 1]);
      var award := MilestoneAward(m.0, m.1, today);
      assert AwardRank(award.name) == 2 + (k - 1);
      MilestonesInOrder(a, streak, today, k - 1);
      var r := AwardMilestones(a, streak, today, ms);
      assert r == prev || r == prev + [award];
      forall i | |a| <= i < |r| ensures 2 <= AwardRank(r[i].name) < 2 + k {
        if i < |prev| {
          assert r[i] == prev[i];
        } else {
          assert r[i] == award;
        }
      }
      forall i, j | |a| <= i < j < |r| ensures AwardRank(r[i].name) < AwardRank(r[j].name) {
        assert r[i] == prev[i];
        if j < |prev| {
          assert r[j] == prev[j];
        } else {
          assert r[j] == award;
        }
      }
    } else {
      assert Milestones[..k] == [];
    }
  }

  /**
    Within one check, new achievements appear in rule order: "First Lesson",
    then "Perfect Day", then the streak milestones by ascending threshold.
  */
  lemma AwardsInRuleOrder(achievements: seq<Achievement>, lessonsToday: int, dailyGoal: int, streak: int, today: int)
    ensures RanksAscending(CheckedAchievements(achievements, lessonsToday, dailyGoal, streak, today), |achievements|)
  {
    var n := |achievements|;
    var a1 := AwardFirstLesson(achievements, lessonsToday, today);
    var a2 := AwardPerfectDay(a1, lessonsToday, dailyGoal, today);
    MilestonesInOrder(a2, streak, today, |Milestones|);
    assert Milestones[..|Milestones|] == Milestones;
    var r := AwardMilestones(a2, streak, today, Milestones);
    assert r[..|a2|] == a2;
    assert forall i :: 0 <= i < |a2| ==> r[i] == a2[i];
    assert |a1| > n ==> a2[n] == a1[n] && a1[n].name == FirstLessonName;
    assert |a2| > |a1| ==> a2[|a1|].name == PerfectDayName;
    forall i, j | n <= i < j < |r| ensures AwardRank(r[i].name) < AwardRank(r[j].name) {
      if j < |a2| {
        assert i == n && j == n + 1 && |a1| == n + 1;
      } else if i < |a2| {
        assert AwardRank(r[i].name) <= 1;
      }
    }
  }

  /** The very first lesson of a fresh tracker earns "First Lesson" and nothing else. */
  lemma FirstLessonOfFreshTracker(today: int)
    ensures CheckedAchievements([], 1, 5, 0, today) == [FirstLessonAward(today)]
  {
    var a := AwardPerfectDay(AwardFirstLesson([], 1, today), 1, 5, today);
    assert a == [FirstLessonAward(today)];
    assert Milestones[..0] == [];
    assert Milestones[..1][..0] == Milestones[..0];
    assert Milestones[..2][..1] == Milestones[..1];
    assert Milestones[..3][..2] == Milestones[..2];
    assert AwardMilestones(a, 0, today, Milestones[..1]) == a;
    assert AwardMilestones(a, 0, today, Milestones[..2]) == a;
    assert Milestones[..3] == Milestones;
  }

  /**
    Points are halved per call: on two equal trackers, `add_xp(a); add_xp(b)`
    gives the same xp as `add_xp(a + b)` and never more points, at most one fewer.
  */
  method PointsPerCall(today: int, a: int, b: int) returns (splitXp: int, splitPoints: int, wholeXp: int, wholePoints: int)
    ensures splitXp == wholeXp == a + b
    ensures wholePoints - 1 <= splitPoints <= wholePoints
  {
    var p := new UserProgress(today);
    p.AddXp(a);
    p.AddXp(b);
    var q := new UserProgress(today);
    q.AddXp(a + b);
    splitXp, splitPoints, wholeXp, wholePoints := p.xp, p.points, q.xp, q.points;
  }

  /** `add_xp(3); add_xp(3)` earns 2 points where `add_xp(6)` earns 3. */
  method PointsAsymmetry(today: int) returns (split: int, whole: int)
    ensures split == 2 && whole == 3
  {
    var p := new UserProgress(today);
    p.AddXp(3);
    p.AddXp(3);
    var q := new UserProgress(today);
    q.AddXp(6);
    split, whole := p.points, q.points;
  }

  /**
    Seven lessons on one day against the default goal of five: "Perfect Day" is
    earned once, at the fifth lesson, and "First Lesson" once, at the first.
  */
  method PerfectDayOnce(today: int) returns (p: UserProgress)
    ensures fresh(p) && p.lessonsCompletedToday == 7 && p.xp == 70 && p.points == 35
    ensures PerfectDaysOn(p.achievements, today) == 1
    ensures NameCount(p.achievements, FirstLessonName) == 1
  {
    p := new UserProgress(today);
    for k := 0 to 7
      invariant p.lessonsCompletedToday == k && p.dailyGoal == 5
      invariant p.xp == 10 * k && p.points == 5 * k
      invariant PerfectDaysOn(p.achievements, today) == if k >= 5 then 1 else 0
      invariant NameCount(p.achievements, FirstLessonName) == if k >= 1 then 1 else 0
    {
      PerfectDayRule(p.achievements, k + 1, 5, p.streak, today, today);
      FirstLessonRule(p.achievements, k + 1, 5, p.streak, today);
      p.CompleteLesson("Math", today);
    }
  }

  /**
    A streak of 6 extended by activity on the next day reaches 7 and earns
    "Week Warrior"; checking again does not earn it twice.
  */
  method WeekWarrior(today: int) returns (p: UserProgress)
    ensures fresh(p) && p.streak == 7 && p.lastActivityDate == today
    ensures NameCount(p.achievements, "Week Warrior") == 1
  {
    p := new UserProgress(today - 1);
    p.streak := 6;
    p.UpdateStreak(today);
    MilestoneRule(p.achievements, p.lessonsCompletedToday, p.dailyGoal, p.streak, today, 0);
    p.CheckAchievements(today);
    MilestoneRule(p.achievements, p.lessonsCompletedToday, p.dailyGoal, p.streak, today, 0);
    p.CheckAchievements(today);
  }
}
