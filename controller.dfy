/**
  The session controller: it owns the loaded subjects and the learner's
  progress, keeps the current subject / unit / topic selection, and announces
  every successful change through its observer list. Each announcement is
  recorded in `events`; the calls it makes on the registered observers are
  recorded in `deliveries`.
*/
module Controller {
  import opened Options
  import opened Curriculum
  import opened Progress
  import opened Observers

  /** Configuration of one unit: its name and its topic names in order. */
  datatype UnitConfig = UnitConfig(name: string, topics: seq<string>)

  /** Configuration of one subject. */
  datatype SubjectConfig = SubjectConfig(icon: string, color: string, units: seq<UnitConfig>)

  /** What an announcement carries: a subject name, a unit index, a topic name, or the progress tracker. */
  datatype Payload = SubjectName(name: string) | UnitIndex(index: int) | TopicName(topic: string) | ProgressOf(user: UserProgress)

  datatype Event = Event(eventType: string, payload: Payload)

  type ObserverId = nat

  /** The topics of the `i`-th configured unit: only topic 0 of unit 0 starts unlocked. */
  function LoadTopics(i: nat, names: seq<string>): (ts: seq<Topic>)
    ensures |ts| == |names|
  {
    seq(|names|, j requires 0 <= j < |names| => Topic(names[j], i > 0 || j > 0, 0.0))
  }

  /** The units of a subject as loaded from its configuration. */
  function LoadUnits(cs: seq<UnitConfig>): (us: seq<Unit>)
    ensures |us| == |cs|
  {
    seq(|cs|, i requires 0 <= i < |cs| => Unit(cs[i].name, LoadTopics(i, cs[i].topics), 0.0))
  }

  /**
    In a freshly loaded subject exactly the first topic of the first unit is
    unlocked, every topic has progress 0, and names and order follow the
    configuration.
  */
  lemma LoadedUnlockRule(cs: seq<UnitConfig>, i: nat, j: nat)
    requires i < |cs| && j < |cs[i].topics|
    ensures var t := LoadUnits(cs)[i].topics[j];
            && t.name == cs[i].topics[j]
            && t.progress == 0.0
            && (!t.isLocked <==> i == 0 && j == 0)
  {
  }

  /** Index of the first topic called `name`, or `|ts|` when there is none. */
  function FirstNamed(ts: seq<Topic>, name: string): (k: nat)
    ensures k <= |ts|
    ensures k < |ts| ==> ts[k].name == name
    ensures forall j :: 0 <= j < k ==> ts[j].name != name
  {
    if ts == [] then 0
    else if ts[0].name == name then 0
    else 1 + FirstNamed(ts[1..], name)
  }

  /**
    The topic list after completing `name`: its first occurrence gets progress
    100 and the topic right after it, if any, is unlocked.
  */
  function MarkCompleted(ts: seq<Topic>, name: string): (r: seq<Topic>)
    ensures |r| == |ts|
    ensures forall j :: 0 <= j < |r| ==> r[j].name == ts[j].name
    ensures forall j :: 0 <= j < |r| ==>
              r[j].progress == if j == FirstNamed(ts, name) then 100.0 else ts[j].progress
    ensures forall j :: 0 <= j < |r| ==>
              r[j].isLocked == (ts[j].isLocked && j != FirstNamed(ts, name) + 1)
  {
    var k := FirstNamed(ts, name);
    if k == |ts| then ts
    else
      var done := ts[k := ts[k].(progress := 100.0)];
      if k + 1 < |ts| then done[k + 1 := done[k + 1].(isLocked := false)] else done
  }

  /** The loop of `complete_topic` over the selected unit's topics. */
  method CompleteFirstNamed(ts: seq<Topic>, name: string) returns (r: seq<Topic>)
    ensures r == MarkCompleted(ts, name)
  {
    r := ts;
    var k := 0;
    while k < |r| && r[k].name != name
      invariant 0 <= k <= |r| && r == ts
      invariant forall j :: 0 <= j < k ==> r[j].name != name
    {
      k := k + 1;
    }
    if k < |r| {
      r := r[k := r[k].(progress := 100.0)];
      if k + 1 < |r| {
        r := r[k + 1 := r[k + 1].(isLocked := false)];
      }
    }
  }

  /** The units after completing topic `name` of unit `u`. */
  function MarkedUnits(us: seq<Unit>, u: nat, name: string): (r: seq<Unit>)
    requires u < |us|
    ensures |r| == |us|
    ensures forall k :: 0 <= k < |r| ==> r[k].name == us[k].name && |r[k].topics| == |us[k].topics|
    ensures forall k :: 0 <= k < |r| && k != u ==> r[k] == us[k]
    ensures r[u].topics == MarkCompleted(us[u].topics, name)
    ensures r[u].progress == us[u].progress
  {
    us[u := us[u].(topics := MarkCompleted(us[u].topics, name))]
  }

  /** Completing a topic never locks one and touches no topic but the completed one and its successor. */
  lemma MarkCompletedOnlyUnlocks(ts: seq<Topic>, name: string, j: nat)
    requires j < |ts|
    ensures !ts[j].isLocked ==> !MarkCompleted(ts, name)[j].isLocked
    ensures j != FirstNamed(ts, name) && j != FirstNamed(ts, name) + 1 ==> MarkCompleted(ts, name)[j] == ts[j]
  {
  }

  /** Completing `name` in one topic list adds one completed topic exactly when its first occurrence was not completed. */
  lemma MarkCompletedCount(ts: seq<Topic>, name: string)
    ensures var k := FirstNamed(ts, name);
            CountCompleted(MarkCompleted(ts, name)) ==
              CountCompleted(ts) + (if k < |ts| && !Completed(ts[k]) then 1 else 0)
  {
    var k := FirstNamed(ts, name);
    if k < |ts| {
      var done := ts[k := ts[k].(progress := 100.0)];
      CountCompletedUpdate(ts, k, done[k]);
      if k + 1 < |ts| {
        CountCompletedUpdate(done, k + 1, done[k + 1].(isLocked := false));
      }
    }
  }

  /**
    Completing a topic adds exactly one completed topic to its subject when the
    name occurs and its first occurrence was not yet completed, and none
    otherwise; so a subject's progress never goes down.
  */
  lemma CompletionCountsOne(us: seq<Unit>, u: nat, name: string)
    requires u < |us|
    ensures var ts := us[u].topics;
            var k := FirstNamed(ts, name);
            CompletedCount(MarkedUnits(us, u, name)) ==
              CompletedCount(us) + (if k < |ts| && !Completed(ts[k]) then 1 else 0)
    ensures TopicCount(us) > 0 ==>
              TopicCount(MarkedUnits(us, u, name)) == TopicCount(us) &&
              Percentage(CompletedCount(us), TopicCount(us)) <=
              Percentage(CompletedCount(MarkedUnits(us, u, name)), TopicCount(us))
  {
    var marked := MarkedUnits(us, u, name);
    MarkCompletedCount(us[u].topics, name);
    CompletedCountUpdate(us, u, marked[u]);
    assert marked == us[u := marked[u]];
    TopicCountSameShape(us, marked);
    if TopicCount(us) > 0 {
      PercentageMonotone(CompletedCount(us), CompletedCount(marked), TopicCount(us));
    }
  }

  /** After completing a topic that has a successor, the successor can be selected. */
  lemma NextTopicSelectable(ts: seq<Topic>, name: string)
    requires FirstNamed(ts, name) + 1 < |ts|
    ensures HasUnlockedNamed(MarkCompleted(ts, name), ts[FirstNamed(ts, name) + 1].name)
  {
    var k := FirstNamed(ts, name) + 1;
    assert MarkCompleted(ts, name)[k].name == ts[k].name && !MarkCompleted(ts, name)[k].isLocked;
  }

  /**
    The curriculum half of `complete_topic`: marks topic `name` of unit `u`
    completed and recomputes the subject's progress.
  */
  method CompleteInSubject(subject: Subject, u: nat, name: string)
    requires u < |subject.units|
    requires TopicCount(subject.units) > 0 ==> NonEmptyUnits(subject.units)
    modifies subject
    ensures var marked := MarkedUnits(old(subject.units), u, name);
            && (TopicCount(marked) > 0 ==>
                  subject.progress == Percentage(CompletedCount(marked), TopicCount(marked)) &&
                  UnitProgressRecomputed(marked, subject.units))
            && (TopicCount(marked) == 0 ==> subject.units == marked && subject.progress == old(subject.progress))
  {
    var before := subject.units;
    var topics := CompleteFirstNamed(before[u].topics, name);
    subject.units := before[u := before[u].(topics := topics)];
    TopicCountSameShape(before, subject.units);
    subject.UpdateProgress();
  }

  /** Some topic called `name` is unlocked. */
  predicate HasUnlockedNamed(ts: seq<Topic>, name: string) {
    exists k :: 0 <= k < |ts| && ts[k].name == name && !ts[k].isLocked
  }

  class AppController {
    const userProgress: UserProgress
    const notifier: Observable<ObserverId, Payload>
    var subjects: map<string, Subject>
    var currentSubject: Option<string>
    var currentUnit: Option<int>
    var currentTopic: Option<string>
    var events: seq<Event>
    var deliveries: seq<Notification<ObserverId, Payload>>

    /** Each subject name owns its own object, and a selection only refers to a loaded subject. */
    ghost predicate Valid()
      reads this, notifier
    {
      && notifier.Valid()
      && (forall a, b :: a in subjects && b in subjects && a != b ==> subjects[a] != subjects[b])
      && (currentSubject.Some? ==> currentSubject.value in subjects)
      && (currentUnit.Some? ==> Truthy(currentSubject) && currentUnit.value >= 0)
      && (currentTopic.Some? ==> currentUnit.Some?)
    }

    /**
      The selected unit index lies within the selected subject. Only re-loading
      the selected subject with fewer units breaks this; the source then raises
      an `IndexError` when it indexes the unit list.
    */
    predicate SelectionInRange()
      reads this, subjects.Values
    {
      Truthy(currentSubject) && currentSubject.value in subjects && currentUnit.Some? ==>
        0 <= currentUnit.value < |subjects[currentSubject.value].units|
    }

    constructor (today: int)
      ensures Valid() && fresh(userProgress) && fresh(notifier)
      ensures subjects == map[] && currentSubject == None && currentUnit == None && currentTopic == None
      ensures events == [] && deliveries == [] && notifier.observers == []
      ensures userProgress.xp == 0 && userProgress.points == 0 && userProgress.streak == 0
      ensures userProgress.lessonsCompletedToday == 0 && userProgress.dailyGoal == 5
      ensures userProgress.achievements == [] && userProgress.subjectProgress == map[]
      ensures userProgress.lastActivityDate == today
    {
      userProgress := new UserProgress(today);
      notifier := new Observable();
      subjects := map[];
      currentSubject, currentUnit, currentTopic := None, None, None;
      events, deliveries := [], [];
    }

    /** `notify_observers`: records the event and the call made on every observer. */
    method Notify(eventType: string, payload: Payload)
      modifies this`events, this`deliveries
      ensures events == old(events) + [Event(eventType, payload)]
      ensures deliveries == old(deliveries) + Broadcast(notifier.observers, eventType, payload)
    {
      var calls := notifier.NotifyObservers(eventType, payload);
      events := events + [Event(eventType, payload)];
      deliveries := deliveries + calls;
    }

    /**
      Builds a fresh subject for every configured name; a name loaded before
      is overwritten, every other entry is kept.
    */
    method LoadSubjects(data: map<string, SubjectConfig>)
      requires Valid()
      modifies this`subjects
      ensures Valid()
      ensures subjects.Keys == old(subjects).Keys + data.Keys
      ensures forall name :: name in old(subjects) && name !in data ==> subjects[name] == old(subjects)[name]
      ensures forall name :: name in data ==>
                && fresh(subjects[name])
                && subjects[name].name == name
                && subjects[name].icon == data[name].icon
                && subjects[name].color == data[name].color
                && subjects[name].units == LoadUnits(data[name].units)
                && subjects[name].progress == 0.0
    {
      var pending := data.Keys;
      while pending != {}
        invariant pending <= data.Keys
        invariant subjects.Keys == old(subjects).Keys + (data.Keys - pending)
        invariant forall name :: name in old(subjects) && name !in data ==> subjects[name] == old(subjects)[name]
        invariant forall name :: name in old(subjects) && name in pending ==> subjects[name] == old(subjects)[name]
        invariant forall name :: name in data.Keys - pending ==>
                    && fresh(subjects[name])
                    && subjects[name].name == name
                    && subjects[name].icon == data[name].icon
                    && subjects[name].color == data[name].color
                    && subjects[name].units == LoadUnits(data[name].units)
                    && subjects[name].progress == 0.0
        invariant forall a, b :: a in subjects && b in subjects && a != b ==> subjects[a] != subjects[b]
        decreases pending
      {
        var name :| name in pending;
        var config := data[name];
        var units: seq<Unit> := [];
        var i := 0;
        while i < |config.units|
          invariant 0 <= i <= |config.units|
          invariant units == LoadUnits(config.units)[..i]
        {
          units := units + [Unit(config.units[i].name, LoadTopics(i, config.units[i].topics), 0.0)];
          i := i + 1;
        }
        assert units == LoadUnits(config.units);
        var subject := new Subject(name, config.icon, config.color, units);
        subjects := subjects[name := subject];
        pending := pending - {name};
      }
    }

    /** Selects a loaded subject and clears the unit and topic; an unknown name changes nothing. */
    method SelectSubject(name: string)
      requires Valid()
      modifies this`currentSubject, this`currentUnit, this`currentTopic, this`events, this`deliveries
      ensures Valid()
      ensures name in subjects ==>
                && currentSubject == Some(name) && currentUnit == None && currentTopic == None
                && events == old(events) + [Event("subject_changed", SubjectName(name))]
                && deliveries == old(deliveries) + Broadcast(notifier.observers, "subject_changed", SubjectName(name))
      ensures name !in subjects ==>
                && currentSubject == old(currentSubject) && currentUnit == old(currentUnit)
                && currentTopic == old(currentTopic)
                && events == old(events) && deliveries == old(deliveries)
    {
      if name in subjects {
        currentSubject := Some(name);
        currentUnit := None;
        currentTopic := None;
        Notify("subject_changed", SubjectName(name));
      }
    }

    /** Selects unit `index` of the selected subject and clears the topic; otherwise nothing changes. */
    method SelectUnit(index: int)
      requires Valid()
      modifies this`currentUnit, this`currentTopic, this`events, this`deliveries
      ensures Valid()
      ensures var ok := Truthy(currentSubject) && 0 <= index < |subjects[currentSubject.value].units|;
              && (ok ==>
                    && currentUnit == Some(index) && currentTopic == None
                    && events == old(events) + [Event("unit_changed", UnitIndex(index))]
                    && deliveries == old(deliveries) + Broadcast(notifier.observers, "unit_changed", UnitIndex(index)))
              && (!ok ==>
                    && currentUnit == old(currentUnit) && currentTopic == old(currentTopic)
                    && events == old(events) && deliveries == old(deliveries))
    {
      if Truthy(currentSubject) && 0 <= index < |subjects[currentSubject.value].units| {
        currentUnit := Some(index);
        currentTopic := None;
        Notify("unit_changed", UnitIndex(index));
      }
    }

    /** Selects the topic `name` if the selected unit holds an unlocked topic of that name; otherwise nothing changes. */
    method SelectTopic(name: string)
      requires Valid() && SelectionInRange()
      modifies this`currentTopic, this`events, this`deliveries
      ensures Valid()
      ensures var ok := Truthy(currentSubject) && currentUnit.Some? &&
                        HasUnlockedNamed(subjects[currentSubject.value].units[currentUnit.value].topics, name);
              && (ok ==>
                    && currentTopic == Some(name)
                    && events == old(events) + [Event("topic_changed", TopicName(name))]
                    && deliveries == old(deliveries) + Broadcast(notifier.observers, "topic_changed", TopicName(name)))
              && (!ok ==>
                    && currentTopic == old(currentTopic)
                    && events == old(events) && deliveries == old(deliveries))
    {
      if !(Truthy(currentSubject) && currentUnit.Some?) {
        return;
      }
      var topics := subjects[currentSubject.value].units[currentUnit.value].topics;
      for k := 0 to |topics|
        invariant forall j :: 0 <= j < k ==> !(topics[j].name == name && !topics[j].isLocked)
        invariant currentTopic == old(currentTopic) && events == old(events) && deliveries == old(deliveries)
      {
        if topics[k].name == name && !topics[k].isLocked {
          currentTopic := Some(name);
          Notify("topic_changed", TopicName(name));
          return;
        }
      }
    }

    /** The selection is complete: a (non-empty) subject, a unit and a (non-empty) topic. */
    predicate TopicSelected()
      reads this
    {
      Truthy(currentSubject) && currentUnit.Some? && Truthy(currentTopic)
    }

    /**
      Completes the selected topic: its first occurrence in the selected unit
      gets progress 100 and the next topic of the same unit is unlocked; the
      subject's progress is recomputed, the lesson is recorded and one
      `progress_updated` is announced. Without a complete selection nothing
      changes. `today` stands for the wall-clock date the tracker reads.
    */
    method CompleteTopic(today: int)
      requires Valid() && SelectionInRange()
      requires TopicSelected() && TopicCount(subjects[currentSubject.value].units) > 0 ==>
                 NonEmptyUnits(subjects[currentSubject.value].units)
      modifies this`events, this`deliveries, subjects.Values, userProgress
      ensures Valid()
      ensures subjects == old(subjects) && currentSubject == old(currentSubject)
      ensures currentUnit == old(currentUnit) && currentTopic == old(currentTopic)
      ensures forall name :: name in subjects && (!old(TopicSelected()) || name != currentSubject.value) ==>
                subjects[name].units == old(subjects[name].units) && subjects[name].progress == old(subjects[name].progress)
      ensures !old(TopicSelected()) ==>
                && events == old(events) && deliveries == old(deliveries)
                && unchanged(userProgress)
      ensures old(TopicSelected()) ==>
                var s := subjects[currentSubject.value];
                var marked := MarkedUnits(old(s.units), currentUnit.value, currentTopic.value);
                && (TopicCount(marked) > 0 ==>
                      s.progress == Percentage(CompletedCount(marked), TopicCount(marked)) &&
                      UnitProgressRecomputed(marked, s.units))
                && (TopicCount(marked) == 0 ==> s.units == marked && s.progress == old(s.progress))
      ensures old(TopicSelected()) ==>
                && userProgress.lessonsCompletedToday == old(userProgress.lessonsCompletedToday) + 1
                && userProgress.xp == old(userProgress.xp) + 10
                && userProgress.points == old(userProgress.points) + 5
      ensures old(TopicSelected()) ==>
                && userProgress.streak == old(userProgress.streak)
                && userProgress.dailyGoal == old(userProgress.dailyGoal)
                && userProgress.lastActivityDate == old(userProgress.lastActivityDate)
      ensures old(TopicSelected()) ==>
                userProgress.subjectProgress == BumpProgress(old(userProgress.subjectProgress), currentSubject.value)
      ensures old(TopicSelected()) ==>
                userProgress.achievements ==
                CheckedAchievements(old(userProgress.achievements), userProgress.lessonsCompletedToday,
                                    userProgress.dailyGoal, userProgress.streak, today)
      ensures old(TopicSelected()) ==>
                && events == old(events) + [Event("progress_updated", ProgressOf(userProgress))]
                && deliveries == old(deliveries) + Broadcast(notifier.observers, "progress_updated", ProgressOf(userProgress))
    {
      if TopicSelected() {
        CompleteSelected(today);
      }
    }

    /** The completion itself, once a subject, a unit and a topic are selected. */
    method CompleteSelected(today: int)
      requires Valid() && SelectionInRange() && TopicSelected()
      requires TopicCount(subjects[currentSubject.value].units) > 0 ==> NonEmptyUnits(subjects[currentSubject.value].units)
      modifies this`events, this`deliveries, subjects[currentSubject.value], userProgress
      ensures var s := subjects[currentSubject.value];
              var marked := MarkedUnits(old(s.units), currentUnit.value, currentTopic.value);
              && (TopicCount(marked) > 0 ==>
                    s.progress == Percentage(CompletedCount(marked), TopicCount(marked)) &&
                    UnitProgressRecomputed(marked, s.units))
              && (TopicCount(marked) == 0 ==> s.units == marked && s.progress == old(s.progress))
      ensures userProgress.lessonsCompletedToday == old(userProgress.lessonsCompletedToday) + 1
              && userProgress.xp == old(userProgress.xp) + 10
              && userProgress.points == old(userProgress.points) + 5
      ensures userProgress.streak == old(userProgress.streak)
              && userProgress.dailyGoal == old(userProgress.dailyGoal)
              && userProgress.lastActivityDate == old(userProgress.lastActivityDate)
      ensures userProgress.subjectProgress == BumpProgress(old(userProgress.subjectProgress), currentSubject.value)
      ensures userProgress.achievements ==
              CheckedAchievements(old(userProgress.achievements), userProgress.lessonsCompletedToday,
                                  userProgress.dailyGoal, userProgress.streak, today)
      ensures events == old(events) + [Event("progress_updated", ProgressOf(userProgress))]
              && deliveries == old(deliveries) + Broadcast(notifier.observers, "progress_updated", ProgressOf(userProgress))
    {
      CompleteInSubject(subjects[currentSubject.value], currentUnit.value, currentTopic.value);
      userProgress.CompleteLesson(currentSubject.value, today);
      Notify("progress_updated", ProgressOf(userProgress));
    }

    /** The selected subject, if a (non-empty) subject name is selected. */
    function GetCurrentSubject(): (r: Option<Subject>)
      reads this
      ensures r.Some? <==> Truthy(currentSubject) && currentSubject.value in subjects
      ensures r.Some? ==> r.value == subjects[currentSubject.value]
    {
      if Truthy(currentSubject) && currentSubject.value in subjects then Some(subjects[currentSubject.value]) else None
    }

    /** The selected unit, if a subject and a unit are selected. */
    function GetCurrentUnit(): (r: Option<Unit>)
      requires SelectionInRange()
      reads this, subjects.Values
      ensures r.Some? <==> GetCurrentSubject().Some? && currentUnit.Some?
      ensures r.Some? ==> 0 <= currentUnit.value && r.value == GetCurrentSubject().value.units[currentUnit.value]
    {
      var subject := GetCurrentSubject();
      if subject.Some? && currentUnit.Some? then Some(subject.value.units[currentUnit.value]) else None
    }

    /** The first topic of the selected unit with the selected name, if there is one. */
    function GetCurrentTopic(): (r: Option<Topic>)
      requires SelectionInRange()
      reads this, subjects.Values
      ensures r.Some? <==>
                && GetCurrentUnit().Some? && Truthy(currentTopic)
                && exists j :: 0 <= j < |GetCurrentUnit().value.topics| && GetCurrentUnit().value.topics[j].name == currentTopic.value
      ensures r.Some? ==>
                var ts := GetCurrentUnit().value.topics;
                var k := FirstNamed(ts, currentTopic.value);
                k < |ts| && r.value == ts[k]
    {
      var unit := GetCurrentUnit();
      if unit.Some? && Truthy(currentTopic) then
        var k := FirstNamed(unit.value.topics, currentTopic.value);
        if k < |unit.value.topics| then Some(unit.value.topics[k]) else None
      else None
    }
  }

  /** The units of Math = [U1: A, B; U2: C] as loaded. */
  function MathUnits(): seq<Unit> {
    [Unit("U1", [Topic("A", false, 0.0), Topic("B", true, 0.0)], 0.0), Unit("U2", [Topic("C", true, 0.0)], 0.0)]
  }

  lemma MathLoaded()
    ensures LoadUnits([UnitConfig("U1", ["A", "B"]), UnitConfig("U2", ["C"])]) == MathUnits()
  {
    assert LoadTopics(0, ["A", "B"]) == [Topic("A", false, 0.0), Topic("B", true, 0.0)];
    assert LoadTopics(1, ["C"]) == [Topic("C", true, 0.0)];
  }

  /** Completing A in a freshly loaded Math: A done, B unlocked, one of three topics completed. */
  lemma MathCompletedA()
    ensures var marked := MarkedUnits(MathUnits(), 0, "A");
            && marked == [Unit("U1", [Topic("A", false, 100.0), Topic("B", false, 0.0)], 0.0),
                          Unit("U2", [Topic("C", true, 0.0)], 0.0)]
            && TopicCount(marked) == 3 && CompletedCount(marked) == 1
            && Percentage(CompletedCount(marked), TopicCount(marked)) == 100.0 / 3.0
  {
    var ts := MathUnits()[0].topics;
    assert FirstNamed(ts, "A") == 0;
    var u1 := [Topic("A", false, 100.0), Topic("B", false, 0.0)];
    assert MarkCompleted(ts, "A") == u1;
    var marked := MarkedUnits(MathUnits(), 0, "A");
    assert marked == [Unit("U1", u1, 0.0), Unit("U2", [Topic("C", true, 0.0)], 0.0)];
    assert CountCompleted(u1) == 1 by {
      assert u1[..1] == [Topic("A", false, 100.0)];
      assert [Topic("A", false, 100.0)][..0] == [];
    }
    assert CountCompleted([Topic("C", true, 0.0)]) == 0;
    assert marked[..1] == [Unit("U1", u1, 0.0)];
    assert marked[..1][..0] == [];
  }

  /** Then U1 is at 50% and U2 at 0%. */
  lemma MathUnitsAfterA(after: seq<Unit>)
    requires UnitProgressRecomputed(MarkedUnits(MathUnits(), 0, "A"), after)
    ensures after == [Unit("U1", [Topic("A", false, 100.0), Topic("B", false, 0.0)], 50.0),
                      Unit("U2", [Topic("C", true, 0.0)], 0.0)]
  {
    MathCompletedA();
    var marked := MarkedUnits(MathUnits(), 0, "A");
    var u1 := [Topic("A", false, 100.0), Topic("B", false, 0.0)];
    assert CountCompleted(u1) == 1 by {
      assert u1[..1] == [Topic("A", false, 100.0)];
      assert [Topic("A", false, 100.0)][..0] == [];
    }
    assert after[0] == WithProgress(marked[0]);
    assert after[1] == WithProgress(marked[1]);
  }
  /** A fresh controller with Math = [U1: A, B; U2: C] loaded. */
  method LoadMath(today: int) returns (c: AppController)
    ensures fresh(c) && fresh(c.userProgress) && c.Valid()
    ensures c.subjects.Keys == {"Math"} && fresh(c.subjects["Math"]) && c.subjects["Math"].units == MathUnits()
    ensures c.currentSubject == None && c.currentUnit == None && c.currentTopic == None
    ensures c.events == [] && c.deliveries == []
    ensures c.userProgress.xp == 0 && c.userProgress.points == 0 && c.userProgress.lessonsCompletedToday == 0
    ensures c.userProgress.achievements == [] && c.userProgress.subjectProgress == map[]
    ensures c.userProgress.dailyGoal == 5 && c.userProgress.streak == 0
  {
    c := new AppController(today);
    var config := SubjectConfig("icon", "color", [UnitConfig("U1", ["A", "B"]), UnitConfig("U2", ["C"])]);
    c.LoadSubjects(map["Math" := config]);
    MathLoaded();
  }

  /** Selects Math, its unit 0 and topic A, which is unlocked. */
  method SelectMathA(c: AppController)
    requires c.Valid() && c.subjects.Keys == {"Math"} && c.subjects["Math"].units == MathUnits()
    modifies c
    ensures c.Valid() && c.subjects == old(c.subjects)
    ensures c.currentSubject == Some("Math") && c.currentUnit == Some(0) && c.currentTopic == Some("A")
    ensures c.events == old(c.events) + [Event("subject_changed", SubjectName("Math")), Event("unit_changed", UnitIndex(0)),
                                         Event("topic_changed", TopicName("A"))]
  {
    var math := c.subjects["Math"];
    c.SelectSubject("Math");
    c.SelectUnit(0);
    assert HasUnlockedNamed(math.units[0].topics, "A") by {
      assert math.units[0].topics[0].name == "A" && !math.units[0].topics[0].isLocked;
    }
    c.SelectTopic("A");
  }

  /**
    A session over the curriculum Math = [U1: A, B; U2: C]: select Math, unit 0
    and topic A, then complete it. A is completed, B is unlocked, C stays
    locked, U1 is at 50%, Math at a third, and the first lesson is recorded
    with its achievement.
  */
  method MathSession(today: int) returns (c: AppController)
    ensures fresh(c) && c.Valid()
    ensures "Math" in c.subjects && |c.subjects["Math"].units| == 2
    ensures var units := c.subjects["Math"].units;
            && |units[0].topics| == 2 && |units[1].topics| == 1
            && units[0].topics[0] == Topic("A", false, 100.0)
            && units[0].topics[1] == Topic("B", false, 0.0)
            && units[1].topics[0] == Topic("C", true, 0.0)
            && units[0].progress == 50.0 && units[1].progress == 0.0
            && c.subjects["Math"].progress == 100.0 / 3.0
    ensures c.userProgress.xp == 10 && c.userProgress.points == 5 && c.userProgress.lessonsCompletedToday == 1
    ensures c.userProgress.achievements == [FirstLessonAward(today)]
    ensures c.userProgress.subjectProgress == map["Math" := 5.0]
    ensures c.events == [Event("subject_changed", SubjectName("Math")), Event("unit_changed", UnitIndex(0)),
                         Event("topic_changed", TopicName("A")), Event("progress_updated", ProgressOf(c.userProgress))]
  {
    c := LoadMath(today);
    var math := c.subjects["Math"];
    SelectMathA(c);
    assert FirstNamed(math.units[0].topics, "A") == 0;
    FirstLessonOfFreshTracker(today);
    MathCompletedA();
    assert NonEmptyUnits(math.units);
    assert c.Valid() && c.SelectionInRange() && c.TopicSelected();
    assert c.subjects[c.currentSubject.value] == math;
    assert c.userProgress.xp == 0 && c.userProgress.points == 0 && c.userProgress.lessonsCompletedToday == 0;
    assert c.userProgress.achievements == [] && c.userProgress.subjectProgress == map[];
    assert c.userProgress.dailyGoal == 5 && c.userProgress.streak == 0;
    c.CompleteTopic(today);
    MathUnitsAfterA(math.units);
    assert c.userProgress.xp == 10 && c.userProgress.points == 5 && c.userProgress.lessonsCompletedToday == 1;
    assert c.userProgress.achievements == [FirstLessonAward(today)];
    assert BumpProgress(map[], "Math") == map["Math" := 5.0];
  }
}
