/** The per-task bar chart of `src/components/dashboard/RegularTaskChart.tsx`:
    the kids a task is for, each with the number of completions, scaled by
    the largest count and flagged when behind it. */
module RegularTaskChart {
  import opened Collections
  import opened Records
  import opened Analytics
  import opened KidSelection

  /** `completion?.count || 0`. */
  function KidCountOf(task: TaskStats, kidId: Id): nat
  {
    CountFor(task.completionsByKid, kidId)
  }

  /** The kids shown for the task. */
  function ChartKids(task: TaskStats, kids: seq<KidRef>): seq<KidRef>
  {
    AvailableKids(kids, task.assignedKids)
  }

  function ChartCounts(task: TaskStats, kids: seq<KidRef>): (r: seq<int>)
    ensures |r| == |ChartKids(task, kids)|
    ensures forall i :: 0 <= i < |r| ==> r[i] == KidCountOf(task, ChartKids(task, kids)[i].id) && r[i] >= 0
  {
    Map(ChartKids(task, kids), (k: KidRef) => KidCountOf(task, k.id) as int)
  }

  /** `maxCount`: `Math.max` of the shown kids' counts and 1. */
  function MaxCount(task: TaskStats, kids: seq<KidRef>): (m: int)
    ensures m >= 1
    ensures forall k :: k in ChartKids(task, kids) ==> KidCountOf(task, k.id) <= m
    ensures m == 1 || exists k :: k in ChartKids(task, kids) && KidCountOf(task, k.id) == m
  {
    var counts := ChartCounts(task, kids);
    var shown := ChartKids(task, kids);
    var m := MaxWithFloor(counts, 1);
    assert forall k :: k in shown ==> KidCountOf(task, k.id) <= m by {
      forall k | k in shown ensures KidCountOf(task, k.id) <= m {
        var i :| 0 <= i < |shown| && shown[i] == k;
        assert counts[i] == KidCountOf(task, k.id);
      }
    }
    assert m == 1 || exists k :: k in shown && KidCountOf(task, k.id) == m by {
      if m != 1 {
        var i :| 0 <= i < |counts| && counts[i] == m;
        assert shown[i] in shown;
      }
    }
    m
  }

  /** `count < maxCount && maxCount > 0`. */
  predicate IsFallingBehind(task: TaskStats, kids: seq<KidRef>, kidId: Id)
  {
    var m := MaxCount(task, kids);
    KidCountOf(task, kidId) < m && m > 0
  }

  /** Whether the chart shows 'No kids assigned to this task'. */
  predicate ShowsNoKidsAssigned(task: TaskStats, kids: seq<KidRef>)
  {
    |ChartKids(task, kids)| == 0
  }

  /** The chart lists a kid iff the task is for the kid: everyone when the
      task has no assignment, else the assigned kids, in the order of `kids`. */
  lemma ChartKidsAreAssigned(task: TaskStats, kids: seq<KidRef>)
    ensures |task.assignedKids| == 0 ==> ChartKids(task, kids) == kids
    ensures forall k :: k in ChartKids(task, kids) <==> k in kids && IsAssigned(task.assignedKids, k.id)
    ensures ChartKids(task, kids) == Filter(kids, (k: KidRef) => IsAssigned(task.assignedKids, k.id))
  {
    AvailableKidsIsFilter(kids, task.assignedKids);
  }

  /** The message shows exactly when the task is for none of the kids;
      a task without assignments shows it only when there are no kids. */
  lemma NoKidsMessageIffNobodyAssigned(task: TaskStats, kids: seq<KidRef>)
    ensures ShowsNoKidsAssigned(task, kids) <==> forall k :: k in kids ==> !IsAssigned(task.assignedKids, k.id)
    ensures |task.assignedKids| == 0 ==> (ShowsNoKidsAssigned(task, kids) <==> |kids| == 0)
  {
    var shown := ChartKids(task, kids);
    ChartKidsAreAssigned(task, kids);
    if |shown| > 0 {
      assert shown[0] in shown;
    }
  }

  /** The shown count is the kid's number of completions of the task. */
  lemma ChartCountIsKidsCompletions(cs: seq<CompletionLog>, allKids: seq<Kid>, task: TaskStats, kidId: Id)
    requires task.completionsByKid == CompletionsByKid(cs, allKids)
    ensures KidCountOf(task, kidId) == KidCompletions(cs, kidId)
  {
    CountForCompletionsByKid(cs, allKids, kidId);
  }

  /** Every shown kid is falling behind exactly when no shown kid has a
      completion; a kid with the largest positive count never is. */
  lemma AllFallingBehindIffNoCompletions(task: TaskStats, kids: seq<KidRef>)
    ensures (forall k :: k in ChartKids(task, kids) ==> IsFallingBehind(task, kids, k.id))
        <==> (forall k :: k in ChartKids(task, kids) ==> KidCountOf(task, k.id) == 0)
  {
    var shown := ChartKids(task, kids);
    var counts := ChartCounts(task, kids);
    var m := MaxCount(task, kids);
    assert m == MaxWithFloor(counts, 1);
    AllBelowUnitMaxIffAllZero(counts);
    if forall k :: k in shown ==> IsFallingBehind(task, kids, k.id) {
      forall i | 0 <= i < |counts| ensures counts[i] < m {
        assert shown[i] in shown;
      }
    }
    if forall k :: k in shown ==> KidCountOf(task, k.id) == 0 {
      forall k | k in shown ensures IsFallingBehind(task, kids, k.id) {
        var i :| 0 <= i < |shown| && shown[i] == k;
        assert counts[i] == 0;
      }
    }
  }
}
