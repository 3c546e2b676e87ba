/** The points board of `src/components/dashboard/TenMinTasksOverview.tsx`:
    one point per completion of a 10-minute task, counted only on the tasks
    that are the kid's, shown highest first. */
module TenMinOverview {
  import opened Collections
  import opened Records
  import opened Analytics
  import opened KidSelection

  datatype KidPoints = KidPoints(kidId: Id, kidName: string, points: int)

  /** `completion?.count || 0` on a task the kid is assigned to, else nothing. */
  function TaskPoints(t: TaskStats, kidId: Id): nat
  {
    if IsAssigned(t.assignedKids, kidId) then CountFor(t.completionsByKid, kidId) else 0
  }

  function TaskPointsFor(kidId: Id): TaskStats -> int
  {
    (t: TaskStats) => TaskPoints(t, kidId)
  }

  /** The `tasks.reduce` giving one kid's points. */
  function Points(tasks: seq<TaskStats>, kidId: Id): int
  {
    SumBy(tasks, TaskPointsFor(kidId))
  }

  /** A kid's points are the kid's completions summed over exactly the tasks
      assigned to the kid; other tasks add nothing. */
  lemma PointsOverAssignedTasks(tasks: seq<TaskStats>, kidId: Id)
    ensures Points(tasks, kidId)
         == SumBy(Filter(tasks, (t: TaskStats) => IsAssigned(t.assignedKids, kidId)),
                  (t: TaskStats) => CountFor(t.completionsByKid, kidId))
    ensures Points(tasks, kidId) >= 0
  {
    SumByFilter(tasks, (t: TaskStats) => IsAssigned(t.assignedKids, kidId),
      (t: TaskStats) => CountFor(t.completionsByKid, kidId), TaskPointsFor(kidId));
    SumByNonNegative(tasks, TaskPointsFor(kidId));
  }

  /** `kidPoints`: one entry per kid, in the order of `kids`. */
  function KidPointsOf(tasks: seq<TaskStats>, kids: seq<KidRef>): (r: seq<KidPoints>)
    ensures |r| == |kids|
    ensures forall i :: 0 <= i < |r| ==>
      && r[i].kidId == kids[i].id && r[i].kidName == kids[i].firstName
      && r[i].points == Points(tasks, kids[i].id)
      && r[i].points >= 0
  {
    forall k | k in kids ensures Points(tasks, k.id) >= 0 {
      PointsOverAssignedTasks(tasks, k.id);
    }
    Map(kids, (k: KidRef) => KidPoints(k.id, k.firstName, Points(tasks, k.id)))
  }

  /** `Math.max(...kidPoints.map(k => k.points), 1)`. */
  function MaxPoints(kidPoints: seq<KidPoints>): (m: int)
    ensures m >= 1
    ensures forall i :: 0 <= i < |kidPoints| ==> kidPoints[i].points <= m
    ensures m == 1 || exists i :: 0 <= i < |kidPoints| && kidPoints[i].points == m
  {
    var all := Map(kidPoints, (p: KidPoints) => p.points);
    var m := MaxWithFloor(all, 1);
    assert forall i :: 0 <= i < |kidPoints| ==> all[i] == kidPoints[i].points;
    m
  }

  predicate MorePoints(a: KidPoints, b: KidPoints)
  {
    a.points >= b.points
  }

  /** `[...kidPoints].sort((a, b) => b.points - a.points)`. */
  function SortedKidPoints(kidPoints: seq<KidPoints>): (r: seq<KidPoints>)
    ensures multiset(r) == multiset(kidPoints)
    ensures forall i, j :: 0 <= i < j < |r| ==> r[i].points >= r[j].points
  {
    assert IsTotalPreorder(MorePoints);
    SortBySorted(kidPoints, MorePoints);
    var r := SortBy(kidPoints, MorePoints);
    assert forall i, j :: 0 <= i < j < |r| ==> MorePoints(r[i], r[j]);
    r
  }

  /** `index === 0 && kidPoint.points > 0`. */
  predicate IsLeader(sorted: seq<KidPoints>, index: nat)
  {
    index == 0 && index < |sorted| && sorted[index].points > 0
  }

  /** `kidPoint.points < maxPoints && maxPoints > 0`. */
  predicate IsFallingBehind(p: KidPoints, maxPoints: int)
  {
    p.points < maxPoints && maxPoints > 0
  }

  /** A leader holds the maximum, so it is never flagged as falling behind,
      and a kid falls behind exactly when it has fewer points than the
      leader. */
  lemma LeaderHoldsMaximum(kidPoints: seq<KidPoints>)
    requires IsLeader(SortedKidPoints(kidPoints), 0)
    ensures SortedKidPoints(kidPoints)[0].points == MaxPoints(kidPoints)
    ensures !IsFallingBehind(SortedKidPoints(kidPoints)[0], MaxPoints(kidPoints))
    ensures forall i :: 0 <= i < |kidPoints| ==>
      (IsFallingBehind(SortedKidPoints(kidPoints)[i], MaxPoints(kidPoints))
       <==> SortedKidPoints(kidPoints)[i].points < SortedKidPoints(kidPoints)[0].points)
  {
    var sorted := SortedKidPoints(kidPoints);
    var m := MaxPoints(kidPoints);
    forall j | 0 <= j < |kidPoints| ensures kidPoints[j].points <= sorted[0].points {
      assert kidPoints[j] in multiset(sorted);
      var k :| 0 <= k < |sorted| && sorted[k] == kidPoints[j];
    }
    assert sorted[0] in multiset(kidPoints);
  }

  /** Sorting keeps the entries: each position of one list holds an entry
      of the other. */
  lemma SortedSameEntries(kidPoints: seq<KidPoints>)
    ensures |SortedKidPoints(kidPoints)| == |kidPoints|
    ensures forall j :: 0 <= j < |kidPoints| ==> kidPoints[j] in SortedKidPoints(kidPoints)
    ensures forall k :: 0 <= k < |kidPoints| ==> SortedKidPoints(kidPoints)[k] in kidPoints
  {
    SameElements(SortedKidPoints(kidPoints), kidPoints);
  }

  /** There is no leader exactly when nobody has a point. */
  lemma NoLeaderIffNoPoints(kidPoints: seq<KidPoints>)
    requires forall i :: 0 <= i < |kidPoints| ==> kidPoints[i].points >= 0
    ensures !IsLeader(SortedKidPoints(kidPoints), 0) <==> forall i :: 0 <= i < |kidPoints| ==> kidPoints[i].points == 0
  {
    var sorted := SortedKidPoints(kidPoints);
    SortedSameEntries(kidPoints);
    if !IsLeader(sorted, 0) && |sorted| > 0 {
      forall j | 0 <= j < |kidPoints| ensures kidPoints[j].points == 0 {
        var k :| 0 <= k < |sorted| && sorted[k] == kidPoints[j];
        assert k == 0 || sorted[0].points >= sorted[k].points;
      }
    }
    if IsLeader(sorted, 0) {
      var j :| 0 <= j < |kidPoints| && kidPoints[j] == sorted[0];
      assert kidPoints[j].points != 0;
    }
  }

  /** Every kid is shown as falling behind exactly when nobody has a point. */
  lemma AllFallingBehindIffNoPoints(kidPoints: seq<KidPoints>)
    requires forall i :: 0 <= i < |kidPoints| ==> kidPoints[i].points >= 0
    ensures (forall i :: 0 <= i < |kidPoints| ==> IsFallingBehind(SortedKidPoints(kidPoints)[i], MaxPoints(kidPoints)))
        <==> forall i :: 0 <= i < |kidPoints| ==> kidPoints[i].points == 0
  {
    var sorted := SortedKidPoints(kidPoints);
    var m := MaxPoints(kidPoints);
    var all := Map(kidPoints, (p: KidPoints) => p.points);
    assert MaxWithFloor(all, 1) == m;
    AllBelowUnitMaxIffAllZero(all);
    SortedSameEntries(kidPoints);
    if forall i :: 0 <= i < |kidPoints| ==> IsFallingBehind(sorted[i], m) {
      forall j | 0 <= j < |kidPoints| ensures all[j] < m {
        var k :| 0 <= k < |sorted| && sorted[k] == kidPoints[j];
        assert IsFallingBehind(sorted[k], m);
      }
    }
    if forall i :: 0 <= i < |kidPoints| ==> kidPoints[i].points == 0 {
      forall k | 0 <= k < |sorted| ensures IsFallingBehind(sorted[k], m) {
        var j :| 0 <= j < |kidPoints| && kidPoints[j] == sorted[k];
        assert all[j] == 0;
      }
    }
  }

  /** The summary's `tasks.reduce((sum, task) => sum + task.totalCompletions, 0)`. */
  function TotalCompletions(tasks: seq<TaskStats>): int
  {
    SumBy(tasks, (t: TaskStats) => t.totalCompletions as int)
  }

  /** Counts that add up to the total. */
  predicate CountsAddUp(t: TaskStats)
  {
    SumBy(t.completionsByKid, (e: KidCount) => e.count as int) == t.totalCompletions
  }

  /** One kid's count never exceeds the sum of all kids' counts. */
  lemma CountForAtMostSum(byKid: seq<KidCount>, kidId: Id)
    ensures CountFor(byKid, kidId) <= SumBy(byKid, (e: KidCount) => e.count as int)
  {
    var f := (e: KidCount) => e.count as int;
    match IndexOfKid(byKid, kidId)
    case Some(j) =>
      SumByRemove(byKid, j, f);
      SumByNonNegative(byKid[..j] + byKid[j + 1..], f);
    case None =>
      SumByNonNegative(byKid, f);
  }

  /** With the statistics `getTaskStats` produces, no kid's points exceed the
      total shown in the summary. */
  lemma PointsAtMostTotal(tasks: seq<TaskStats>, kidId: Id)
    requires forall i :: 0 <= i < |tasks| ==> CountsAddUp(tasks[i])
    ensures Points(tasks, kidId) <= TotalCompletions(tasks)
  {
    forall i | 0 <= i < |tasks| ensures TaskPointsFor(kidId)(tasks[i]) <= tasks[i].totalCompletions as int {
      CountForAtMostSum(tasks[i].completionsByKid, kidId);
    }
    SumByMonotone(tasks, TaskPointsFor(kidId), (t: TaskStats) => t.totalCompletions as int);
  }
}
