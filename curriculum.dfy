/**
  The curriculum tree: a `Subject` owns an ordered list of units, each unit an
  ordered list of topics. Topics and units are values inside the subject's
  list; the subject is an object whose `UpdateProgress` rewrites its own
  progress and the progress of each of its units. Percentages are exact reals.
*/
module Curriculum {

  /** A lesson topic; a fresh one is locked and has progress 0. */
  datatype Topic = Topic(name: string, isLocked: bool := true, progress: real := 0.0)

  datatype Unit = Unit(name: string, topics: seq<Topic>, progress: real := 0.0)

  /** A topic counts as completed once its progress reaches 100. */
  predicate Completed(t: Topic) {
    t.progress >= 100.0
  }

  /** The default field values of a new topic. */
  lemma NewTopicDefaults(name: string)
    ensures Topic(name).isLocked && Topic(name).progress == 0.0
    ensures !Completed(Topic(name))
  {
  }

  /** `(completed / total) * 100`, exactly. */
  function Percentage(completed: nat, total: nat): (p: real)
    requires total > 0
    ensures completed <= total ==> 0.0 <= p <= 100.0
    ensures p == 100.0 <==> completed == total
    ensures p == 0.0 <==> completed == 0
  {
    PercentageBounds(completed, total);
    (completed as real / total as real) * 100.0
  }

  lemma PercentageBounds(completed: nat, total: nat)
    requires total > 0
    ensures var p := (completed as real / total as real) * 100.0;
            (completed <= total ==> 0.0 <= p <= 100.0) &&
            (p == 100.0 <==> completed == total) &&
            (p == 0.0 <==> completed == 0)
  {
    var c, t := completed as real, total as real;
    var q := c / t;
    assert q * t == c;
    if q < 0.0 {
      assert q * t < 0.0;
    }
    if q > 1.0 {
      assert (q - 1.0) * t > 0.0;
      assert q * t > t;
    }
    if q == 0.0 {
      assert c == 0.0;
    }
    if q == 1.0 {
      assert c == t;
    }
  }

  /** More completed topics never give a lower percentage. */
  lemma PercentageMonotone(a: nat, b: nat, total: nat)
    requires total > 0 && a <= b
    ensures Percentage(a, total) <= Percentage(b, total)
  {
    var t := total as real;
    assert a as real / t <= b as real / t by {
      assert (a as real / t) * t == a as real;
      assert (b as real / t) * t == b as real;
    }
  }

  /** Number of completed topics, counted from the back of the list. */
  function CountCompleted(ts: seq<Topic>): (n: nat)
    ensures n <= |ts|
    ensures n == |ts| <==> forall i :: 0 <= i < |ts| ==> Completed(ts[i])
    ensures n == 0 <==> forall i :: 0 <= i < |ts| ==> !Completed(ts[i])
  {
    if ts == [] then 0
    else
      var init := ts[..|ts| - 1];
      assert forall i :: 0 <= i < |init| ==> init[i] == ts[i];
      CountCompleted(init) + (if Completed(ts[|ts| - 1]) then 1 else 0)
  }

  /** Positions of the completed topics. */
  ghost function CompletedPositions(ts: seq<Topic>): set<nat> {
    set i: nat | i < |ts| && Completed(ts[i])
  }

  /** `CountCompleted` counts exactly the completed topics. */
  lemma {:induction false} CountCompletedIsCardinality(ts: seq<Topic>)
    ensures CountCompleted(ts) == |CompletedPositions(ts)|
  {
    if ts != [] {
      var n := |ts| - 1;
      var init := ts[..n];
      assert CountCompleted(ts) == CountCompleted(init) + (if Completed(ts[n]) then 1 else 0);
      CountCompletedIsCardinality(init);
      PositionsOfInit(ts);
      var q := CompletedPositions(init);
      if Completed(ts[n]) {
        assert |q + {n}| == |q| + 1;
      }
    }
  }

  /** The positions of a list are those of all but its last topic, plus the last one if completed. */
  lemma PositionsOfInit(ts: seq<Topic>)
    requires ts != []
    ensures var n := |ts| - 1;
            && n !in CompletedPositions(ts[..n])
            && CompletedPositions(ts) ==
               CompletedPositions(ts[..n]) + (if Completed(ts[n]) then {n} else {})
  {
    var n := |ts| - 1;
    var init := ts[..n];
    var p, q := CompletedPositions(ts), CompletedPositions(init);
    var last: set<nat> := if Completed(ts[n]) then {n} else {};
    forall i | i in p ensures i in q + last {
      if i < n {
        assert init[i] == ts[i];
      }
    }
    forall i | i in q + last ensures i in p {
      if i in q {
        assert init[i] == ts[i];
      }
    }
  }

  lemma {:induction false} CountCompletedAppend(a: seq<Topic>, b: seq<Topic>)
    ensures CountCompleted(a + b) == CountCompleted(a) + CountCompleted(b)
  {
    if b != [] {
      var n := |b| - 1;
      assert (a + b)[..|a + b| - 1] == a + b[..n];
      CountCompletedAppend(a, b[..n]);
    } else {
      assert a + b == a;
    }
  }

  /** Replacing one topic changes the count by that topic's own contribution. */
  lemma {:induction false} CountCompletedUpdate(ts: seq<Topic>, k: nat, t: Topic)
    requires k < |ts|
    ensures CountCompleted(ts[k := t]) ==
            CountCompleted(ts) - (if Completed(ts[k]) then 1 else 0) + (if Completed(t) then 1 else 0)
  {
    var n := |ts| - 1;
    var updated := ts[k := t];
    assert CountCompleted(ts) == CountCompleted(ts[..n]) + (if Completed(ts[n]) then 1 else 0);
    assert CountCompleted(updated) ==
           CountCompleted(updated[..n]) + (if Completed(updated[n]) then 1 else 0);
    if k == n {
      assert updated[..n] == ts[..n];
    } else {
      assert updated[..n] == ts[..n][k := t];
      assert updated[n] == ts[n];
      CountCompletedUpdate(ts[..n], k, t);
    }
  }

  /** `sum(len(unit.topics) for unit in units)`. */
  function TopicCount(us: seq<Unit>): nat {
    if us == [] then 0 else TopicCount(us[..|us| - 1]) + |us[|us| - 1].topics|
  }

  /** Completed topics over all units. */
  function CompletedCount(us: seq<Unit>): (n: nat)
    ensures n <= TopicCount(us)
  {
    if us == [] then 0
    else CompletedCount(us[..|us| - 1]) + CountCompleted(us[|us| - 1].topics)
  }

  /** Replacing one unit changes the completed count by the difference of that unit's counts. */
  lemma {:induction false} CompletedCountUpdate(us: seq<Unit>, u: nat, x: Unit)
    requires u < |us|
    ensures CompletedCount(us[u := x]) ==
            CompletedCount(us) - CountCompleted(us[u].topics) + CountCompleted(x.topics)
  {
    var n := |us| - 1;
    var updated := us[u := x];
    assert CompletedCount(us) == CompletedCount(us[..n]) + CountCompleted(us[n].topics);
    assert CompletedCount(updated) == CompletedCount(updated[..n]) + CountCompleted(updated[n].topics);
    if u == n {
      assert updated[..n] == us[..n];
    } else {
      assert updated[..n] == us[..n][u := x];
      assert updated[n] == us[n];
      CompletedCountUpdate(us[..n], u, x);
    }
  }

  /** All topics of the units, in order. */
  function AllTopics(us: seq<Unit>): seq<Topic> {
    if us == [] then [] else AllTopics(us[..|us| - 1]) + us[|us| - 1].topics
  }

  /** The two sums agree with the length and the completed count of the flattened list. */
  lemma {:induction false} CountsOfAllTopics(us: seq<Unit>)
    ensures TopicCount(us) == |AllTopics(us)|
    ensures CompletedCount(us) == CountCompleted(AllTopics(us))
  {
    if us != [] {
      var init := us[..|us| - 1];
      CountsOfAllTopics(init);
      CountCompletedAppend(AllTopics(init), us[|us| - 1].topics);
    }
  }

  /** No unit has an empty topic list. */
  predicate NonEmptyUnits(us: seq<Unit>) {
    forall k :: 0 <= k < |us| ==> |us[k].topics| > 0
  }

  /** The unit with its progress set from its own topics. */
  function WithProgress(u: Unit): (r: Unit)
    requires |u.topics| > 0
    ensures r.name == u.name && r.topics == u.topics
    ensures 0.0 <= r.progress <= 100.0
    ensures r.progress == 100.0 <==> forall i :: 0 <= i < |u.topics| ==> Completed(u.topics[i])
    ensures r.progress == 0.0 <==> forall i :: 0 <= i < |u.topics| ==> !Completed(u.topics[i])
  {
    u.(progress := Percentage(CountCompleted(u.topics), |u.topics|))
  }

  /** `units` are `before` with each unit's progress set from its own topics. */
  ghost predicate UnitProgressRecomputed(before: seq<Unit>, units: seq<Unit>) {
    && |units| == |before|
    && forall k :: 0 <= k < |units| ==> |before[k].topics| > 0 && units[k] == WithProgress(before[k])
  }

  class Subject {
    const name: string
    const icon: string
    const color: string
    var units: seq<Unit>
    var progress: real

    constructor (name: string, icon: string, color: string, units: seq<Unit>)
      ensures this.name == name && this.icon == icon && this.color == color
      ensures this.units == units && progress == 0.0
    {
      this.name, this.icon, this.color := name, icon, color;
      this.units := units;
      progress := 0.0;
    }

    /** Number of topics over all units. */
    function TotalTopics(): (n: nat)
      reads this
      ensures n == |AllTopics(units)|
    {
      CountsOfAllTopics(units);
      TopicCount(units)
    }

    /** Number of topics with progress at least 100, over all units. */
    function CompletedTopics(): (n: nat)
      reads this
      ensures n == CountCompleted(AllTopics(units))
      ensures n <= TotalTopics()
    {
      CountsOfAllTopics(units);
      CompletedCount(units)
    }

    /**
      Recomputes the subject's and every unit's progress from topic counts.
      Nothing happens when the subject has no topics; otherwise every unit
      must have a topic, or the source divides by zero.
    */
    method UpdateProgress()
      requires TotalTopics() > 0 ==> NonEmptyUnits(units)
      modifies this
      ensures TopicCount(old(units)) == 0 ==> units == old(units) && progress == old(progress)
      ensures TopicCount(old(units)) > 0 ==>
                && progress == Percentage(CompletedCount(old(units)), TopicCount(old(units)))
                && UnitProgressRecomputed(old(units), units)
    {
      var total := TopicCount(units);
      if total > 0 {
        progress := Percentage(CompletedCount(units), total);
        units := RecomputeUnits(units);
      }
    }
  }

  /** The loop `for unit in self.units: unit.progress = ...` over the subject's units. */
  method RecomputeUnits(before: seq<Unit>) returns (units: seq<Unit>)
    requires NonEmptyUnits(before)
    ensures UnitProgressRecomputed(before, units)
  {
    units := before;
    for k := 0 to |units|
      invariant |units| == |before|
      invariant forall j :: 0 <= j < k ==> units[j] == WithProgress(before[j])
      invariant forall j :: k <= j < |units| ==> units[j] == before[j]
    {
      var unitCompleted := CountCompleted(units[k].topics);
      units := units[k := units[k].(progress := Percentage(unitCompleted, |units[k].topics|))];
    }
  }

  /** Recomputing unit progress changes neither the topic count nor the completed count. */
  lemma {:induction false} UnitOrderAndTopicsKept(before: seq<Unit>, units: seq<Unit>)
    requires |units| == |before|
    requires forall k :: 0 <= k < |units| ==> units[k].topics == before[k].topics
    ensures TopicCount(units) == TopicCount(before)
    ensures CompletedCount(units) == CompletedCount(before)
    ensures AllTopics(units) == AllTopics(before)
  {
    if units != [] {
      var n := |units| - 1;
      UnitOrderAndTopicsKept(before[..n], units[..n]);
    }
  }

  /** The topic count depends only on how many topics each unit has. */
  lemma {:induction false} TopicCountSameShape(a: seq<Unit>, b: seq<Unit>)
    requires |a| == |b|
    requires forall k :: 0 <= k < |a| ==> |a[k].topics| == |b[k].topics|
    ensures TopicCount(a) == TopicCount(b)
  {
    if a != [] {
      var n := |a| - 1;
      TopicCountSameShape(a[..n], b[..n]);
    }
  }

  /** A unit reaches 100 exactly when all of its topics are completed. */
  lemma UnitFullIffAllCompleted(ts: seq<Topic>)
    requires |ts| > 0
    ensures Percentage(CountCompleted(ts), |ts|) == 100.0 <==> forall i :: 0 <= i < |ts| ==> Completed(ts[i])
  {
  }
}
