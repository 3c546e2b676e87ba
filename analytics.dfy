/** The statistics of `src/lib/analytics.ts`, computed from the tables of
    the store: per-kid completion counts and minute sums in an inclusive
    time window, per-task statistics with completions grouped by kid, the
    TV-penalty statistics and the fairness score. */
module Analytics {
  import opened Collections
  import opened Records

  datatype KidStats = KidStats(kidId: Id, kidName: string, totalCompletions: nat, totalMinutes: int)

  datatype KidCount = KidCount(kidId: Id, kidName: string, count: nat)

  datatype AssignedKid = AssignedKid(kidId: Id, kidName: string)

  datatype TaskStats = TaskStats(
    taskId: Id,
    taskTitle: string,
    totalCompletions: nat,
    completionsByKid: seq<KidCount>,
    assignedKids: seq<AssignedKid>)

  datatype PenaltyStats = PenaltyStats(kidId: Id, kidName: string, totalMinutes: int, count: nat)

  /** `createdAt: { gte: startDate, lte: endDate }`. */
  predicate InWindow(c: CompletionLog, startDate: int, endDate: int)
  {
    startDate <= c.createdAt <= endDate
  }

  /** `completion.minutes || 0`. */
  function MinutesOrZero(c: CompletionLog): int
  {
    if c.minutes.Some? then c.minutes.value else 0
  }

  /** Number of completions logged by one kid. */
  function KidCompletions(cs: seq<CompletionLog>, kidId: Id): nat
  {
    Count(cs, (c: CompletionLog) => c.kidId == kidId)
  }

  lemma KidCompletionsSnoc(cs: seq<CompletionLog>, c: CompletionLog, kidId: Id)
    ensures KidCompletions(cs + [c], kidId) == KidCompletions(cs, kidId) + (if c.kidId == kidId then 1 else 0)
  {
    FilterAppend(cs, [c], (x: CompletionLog) => x.kidId == kidId);
  }

  // ---------------------------------------------------------------------
  // getKidStats

  /** A kid's completions inside the window. */
  function KidWindowLogs(logs: seq<CompletionLog>, kidId: Id, startDate: int, endDate: int): seq<CompletionLog>
  {
    Filter(logs, (c: CompletionLog) => c.kidId == kidId && InWindow(c, startDate, endDate))
  }

  function KidStatsOf(k: Kid, logs: seq<CompletionLog>, startDate: int, endDate: int): KidStats
  {
    var cs := KidWindowLogs(logs, k.id, startDate, endDate);
    KidStats(k.id, k.firstName, |cs|, SumBy(cs, MinutesOrZero))
  }

  /** `getKidStats(startDate, endDate)`: one entry per active kid, in the
      order the store returns them. */
  function GetKidStats(kids: seq<Kid>, logs: seq<CompletionLog>, startDate: int, endDate: int): (r: seq<KidStats>)
    ensures |r| == |ActiveKidsInStore(kids)|
    ensures forall i :: 0 <= i < |r| ==>
      var k := ActiveKidsInStore(kids)[i];
      && r[i].kidId == k.id && r[i].kidName == k.firstName
      && r[i].totalCompletions == Count(logs, (c: CompletionLog) => c.kidId == k.id && InWindow(c, startDate, endDate))
      && r[i].totalMinutes == SumBy(KidWindowLogs(logs, k.id, startDate, endDate), MinutesOrZero)
  {
    Map(ActiveKidsInStore(kids), (k: Kid) => KidStatsOf(k, logs, startDate, endDate))
  }

  lemma GetKidStatsCons(kids: seq<Kid>, logs: seq<CompletionLog>, startDate: int, endDate: int)
    requires kids != []
    ensures GetKidStats(kids, logs, startDate, endDate)
         == (if kids[0].isActive then [KidStatsOf(kids[0], logs, startDate, endDate)] else [])
            + GetKidStats(kids[1..], logs, startDate, endDate)
  {
  }

  /** In-window logs written by any of the kids `ids`. */
  function WindowCount(logs: seq<CompletionLog>, ids: set<Id>, startDate: int, endDate: int): nat
  {
    Count(logs, (c: CompletionLog) => InWindow(c, startDate, endDate) && c.kidId in ids)
  }

  lemma WindowCountEmpty(logs: seq<CompletionLog>, ids: set<Id>, startDate: int, endDate: int)
    requires ids == {}
    ensures WindowCount(logs, ids, startDate, endDate) == 0
  {
    FilterNone(logs, (c: CompletionLog) => InWindow(c, startDate, endDate) && c.kidId in ids);
  }

  lemma WindowCountSplit(logs: seq<CompletionLog>, id: Id, ids: set<Id>, startDate: int, endDate: int)
    requires id !in ids
    ensures WindowCount(logs, {id} + ids, startDate, endDate)
         == Count(logs, (c: CompletionLog) => c.kidId == id && InWindow(c, startDate, endDate))
          + WindowCount(logs, ids, startDate, endDate)
  {
    CountDisjointUnion(logs,
      (c: CompletionLog) => c.kidId == id && InWindow(c, startDate, endDate),
      (c: CompletionLog) => InWindow(c, startDate, endDate) && c.kidId in ids,
      (c: CompletionLog) => InWindow(c, startDate, endDate) && c.kidId in {id} + ids);
  }

  lemma ActiveKidIdsCons(kids: seq<Kid>)
    requires kids != [] && Distinct(Map(kids, (k: Kid) => k.id))
    ensures kids[0].id !in ActiveKidIds(kids[1..])
    ensures ActiveKidIds(kids) == (if kids[0].isActive then {kids[0].id} else {}) + ActiveKidIds(kids[1..])
  {
    DistinctMapTail(kids, (k: Kid) => k.id);
    assert kids == [kids[0]] + kids[1..];
  }

  /** Completions of every task group count: the stats of all active kids
      add up to the number of in-window logs written by an active kid. */
  lemma {:induction false} KidStatsCountEveryLog(kids: seq<Kid>, logs: seq<CompletionLog>, startDate: int, endDate: int)
    requires Distinct(Map(kids, (k: Kid) => k.id))
    ensures SumBy(GetKidStats(kids, logs, startDate, endDate), (s: KidStats) => s.totalCompletions)
         == WindowCount(logs, ActiveKidIds(kids), startDate, endDate)
  {
    var f := (s: KidStats) => s.totalCompletions as int;
    if kids == [] {
      WindowCountEmpty(logs, ActiveKidIds(kids), startDate, endDate);
    } else {
      var k := kids[0];
      var rest := kids[1..];
      DistinctMapTail(kids, (x: Kid) => x.id);
      ActiveKidIdsCons(kids);
      KidStatsCountEveryLog(rest, logs, startDate, endDate);
      GetKidStatsCons(kids, logs, startDate, endDate);
      var head := if k.isActive then [KidStatsOf(k, logs, startDate, endDate)] else [];
      SumByAppend(head, GetKidStats(rest, logs, startDate, endDate), f);
      if k.isActive {
        WindowCountSplit(logs, k.id, ActiveKidIds(rest), startDate, endDate);
      } else {
        assert ActiveKidIds(kids) == ActiveKidIds(rest);
      }
    }
  }

  /** Minutes are summed with absent minutes counted as 0, so a kid's total
      is non-negative whenever no stored minute value is negative. */
  lemma KidStatsMinutesNonNegative(kids: seq<Kid>, logs: seq<CompletionLog>, startDate: int, endDate: int, i: nat)
    requires forall c :: c in logs && c.minutes.Some? ==> c.minutes.value >= 0
    requires i < |GetKidStats(kids, logs, startDate, endDate)|
    ensures GetKidStats(kids, logs, startDate, endDate)[i].totalMinutes >= 0
  {
    var k := ActiveKidsInStore(kids)[i];
    var cs := KidWindowLogs(logs, k.id, startDate, endDate);
    SumByNonNegative(cs, MinutesOrZero);
  }

  // ---------------------------------------------------------------------
  // completionsByKid: the reduce over a task's completions.

  /** `acc.find(item => item.kidId === kidId)`, as the index of the first match. */
  function IndexOfKid(acc: seq<KidCount>, kidId: Id): (r: Option<nat>)
    ensures r.Some? ==> r.value < |acc| && acc[r.value].kidId == kidId
    ensures r.Some? ==> forall i :: 0 <= i < r.value ==> acc[i].kidId != kidId
    ensures r.None? ==> forall i :: 0 <= i < |acc| ==> acc[i].kidId != kidId
  {
    if acc == [] then None
    else if acc[0].kidId == kidId then Some(0)
    else match IndexOfKid(acc[1..], kidId)
      case Some(j) => Some(j + 1)
      case None => None
  }

  /** One step of the reduce: bump the kid's entry, or push a new one. */
  function GroupStep(acc: seq<KidCount>, c: CompletionLog, kids: seq<Kid>): seq<KidCount>
  {
    match IndexOfKid(acc, c.kidId)
    case Some(j) => acc[j := acc[j].(count := acc[j].count + 1)]
    case None => acc + [KidCount(c.kidId, KidName(kids, c.kidId), 1)]
  }

  /** The reduce, folded from the left over the completions. */
  function CompletionsByKid(cs: seq<CompletionLog>, kids: seq<Kid>): (r: seq<KidCount>)
    decreases |cs|
    ensures |r| <= |cs|
    ensures r == [] <==> cs == []
    ensures forall i :: 0 <= i < |r| ==> r[i].kidName == KidName(kids, r[i].kidId)
  {
    if cs == [] then [] else GroupStep(CompletionsByKid(cs[..|cs| - 1], kids), cs[|cs| - 1], kids)
  }

  /** Position of a kid's first completion (`|cs|` when there is none). */
  function FirstIndex(cs: seq<CompletionLog>, kidId: Id): (n: nat)
    ensures n <= |cs|
    ensures n < |cs| ==> cs[n].kidId == kidId
    ensures forall i :: 0 <= i < n ==> cs[i].kidId != kidId
  {
    if cs == [] then 0 else if cs[0].kidId == kidId then 0 else 1 + FirstIndex(cs[1..], kidId)
  }

  lemma FirstIndexSnoc(cs: seq<CompletionLog>, c: CompletionLog, kidId: Id)
    ensures FirstIndex(cs + [c], kidId) == if FirstIndex(cs, kidId) < |cs| || c.kidId == kidId then FirstIndex(cs, kidId) else |cs| + 1
  {
    var t := cs + [c];
    assert forall i :: 0 <= i < |cs| ==> t[i] == cs[i];
    assert t[|cs|] == c;
  }

  /** No kid has two entries. */
  ghost predicate GroupDistinct(r: seq<KidCount>)
  {
    Distinct(Map(r, (e: KidCount) => e.kidId))
  }

  /** Each entry counts its kid's completions, and so is at least 1. */
  ghost predicate GroupCounts(r: seq<KidCount>, cs: seq<CompletionLog>)
  {
    forall i :: 0 <= i < |r| ==> r[i].count == KidCompletions(cs, r[i].kidId) && r[i].count >= 1
  }

  /** Every kid that occurs in `cs` has an entry. */
  ghost predicate GroupCovers(r: seq<KidCount>, cs: seq<CompletionLog>)
  {
    forall j :: 0 <= j < |cs| ==> exists i :: 0 <= i < |r| && r[i].kidId == cs[j].kidId
  }

  /** Entries come in the order of their kids' first completions. */
  ghost predicate GroupOrdered(r: seq<KidCount>, cs: seq<CompletionLog>)
  {
    forall i, j :: 0 <= i < j < |r| ==> FirstIndex(cs, r[i].kidId) < FirstIndex(cs, r[j].kidId)
  }

  /** What the grouping promises about a completion list `cs`: one entry per
      kid that occurs in `cs`, no kid twice, each count the kid's number of
      completions (so at least 1), entries in order of first occurrence. */
  ghost predicate IsGrouping(r: seq<KidCount>, cs: seq<CompletionLog>)
  {
    GroupDistinct(r) && GroupCounts(r, cs) && GroupCovers(r, cs) && GroupOrdered(r, cs)
  }

  /** A kid that occurs in the list has a first occurrence inside it. */
  lemma KidCompletionsPositive'(cs: seq<CompletionLog>, kidId: Id)
    requires KidCompletions(cs, kidId) >= 1
    ensures FirstIndex(cs, kidId) < |cs|
  {
    var p := (c: CompletionLog) => c.kidId == kidId;
    var x := Filter(cs, p)[0];
    var n :| 0 <= n < |cs| && cs[n] == x;
    assert FirstIndex(cs, kidId) <= n;
  }

  /** A kid without an entry in a covering grouping does not occur at all. */
  lemma AbsentKid(acc: seq<KidCount>, cs: seq<CompletionLog>, kidId: Id)
    requires GroupCovers(acc, cs)
    requires IndexOfKid(acc, kidId).None?
    ensures FirstIndex(cs, kidId) == |cs|
    ensures KidCompletions(cs, kidId) == 0
  {
    if FirstIndex(cs, kidId) < |cs| {
      assert false;
    }
    if KidCompletions(cs, kidId) > 0 {
      KidCompletionsPositive'(cs, kidId);
      assert false;
    }
  }

  lemma GroupStepDistinct(acc: seq<KidCount>, c: CompletionLog, kids: seq<Kid>)
    requires GroupDistinct(acc)
    ensures GroupDistinct(GroupStep(acc, c, kids))
  {
    var r := GroupStep(acc, c, kids);
    var accIds := Map(acc, (e: KidCount) => e.kidId);
    var rIds := Map(r, (e: KidCount) => e.kidId);
    match IndexOfKid(acc, c.kidId)
    case Some(j) =>
      assert rIds == accIds;
    case None =>
      forall a, b | 0 <= a < b < |rIds| ensures rIds[a] != rIds[b] {
        if b < |acc| {
          assert rIds[a] == accIds[a] && rIds[b] == accIds[b];
        }
      }
  }

  lemma GroupStepCovers(acc: seq<KidCount>, cs: seq<CompletionLog>, c: CompletionLog, kids: seq<Kid>)
    requires GroupCovers(acc, cs)
    ensures GroupCovers(GroupStep(acc, c, kids), cs + [c])
  {
    var r := GroupStep(acc, c, kids);
    var cs' := cs + [c];
    var at: nat;
    match IndexOfKid(acc, c.kidId)
    case Some(k) =>
      assert forall i :: 0 <= i < |acc| ==> r[i].kidId == acc[i].kidId;
      at := k;
    case None =>
      assert forall i :: 0 <= i < |acc| ==> r[i] == acc[i];
      at := |acc|;
    assert at < |r| && r[at].kidId == c.kidId;
    forall j | 0 <= j < |cs'| ensures exists i :: 0 <= i < |r| && r[i].kidId == cs'[j].kidId {
      if j < |cs| {
        assert cs'[j] == cs[j];
        var i :| 0 <= i < |acc| && acc[i].kidId == cs[j].kidId;
        assert r[i].kidId == cs'[j].kidId;
      } else {
        assert r[at].kidId == cs'[j].kidId;
      }
    }
  }

  lemma GroupStepCounts(acc: seq<KidCount>, cs: seq<CompletionLog>, c: CompletionLog, kids: seq<Kid>)
    requires GroupDistinct(acc) && GroupCounts(acc, cs) && GroupCovers(acc, cs)
    ensures GroupCounts(GroupStep(acc, c, kids), cs + [c])
  {
    var r := GroupStep(acc, c, kids);
    forall i | 0 <= i < |r| ensures r[i].count == KidCompletions(cs + [c], r[i].kidId) {
      KidCompletionsSnoc(cs, c, r[i].kidId);
      match IndexOfKid(acc, c.kidId)
      case Some(j) =>
        if i != j {
          var ids := Map(acc, (e: KidCount) => e.kidId);
          assert ids[i] != ids[j];
        }
      case None =>
        if i == |acc| {
          AbsentKid(acc, cs, c.kidId);
        }
    }
  }

  /** The kids that already have an entry keep their first occurrence. */
  lemma FirstIndexKept(acc: seq<KidCount>, cs: seq<CompletionLog>, c: CompletionLog)
    requires GroupCounts(acc, cs)
    ensures forall i :: 0 <= i < |acc| ==> FirstIndex(cs + [c], acc[i].kidId) == FirstIndex(cs, acc[i].kidId) < |cs|
  {
    forall i | 0 <= i < |acc| ensures FirstIndex(cs + [c], acc[i].kidId) == FirstIndex(cs, acc[i].kidId) < |cs| {
      KidCompletionsPositive'(cs, acc[i].kidId);
      FirstIndexSnoc(cs, c, acc[i].kidId);
    }
  }

  lemma GroupStepOrdered(acc: seq<KidCount>, cs: seq<CompletionLog>, c: CompletionLog, kids: seq<Kid>)
    requires GroupCounts(acc, cs) && GroupCovers(acc, cs) && GroupOrdered(acc, cs)
    ensures GroupOrdered(GroupStep(acc, c, kids), cs + [c])
  {
    var r := GroupStep(acc, c, kids);
    var cs' := cs + [c];
    FirstIndexKept(acc, cs, c);
    match IndexOfKid(acc, c.kidId)
    case Some(j) =>
      forall a, b | 0 <= a < b < |r| ensures FirstIndex(cs', r[a].kidId) < FirstIndex(cs', r[b].kidId) {
        assert r[a].kidId == acc[a].kidId && r[b].kidId == acc[b].kidId;
      }
    case None =>
      AbsentKid(acc, cs, c.kidId);
      FirstIndexSnoc(cs, c, c.kidId);
      forall a, b | 0 <= a < b < |r| ensures FirstIndex(cs', r[a].kidId) < FirstIndex(cs', r[b].kidId) {
        if b < |acc| {
          assert r[a] == acc[a] && r[b] == acc[b];
        } else {
          assert r[a] == acc[a] && r[b].kidId == c.kidId;
        }
      }
  }

  /** `completionsByKid` lists each kid that completed the task once, in
      order of first occurrence, with the kid's number of completions. */
  lemma {:induction false} CompletionsByKidIsGrouping(cs: seq<CompletionLog>, kids: seq<Kid>)
    ensures IsGrouping(CompletionsByKid(cs, kids), cs)
    decreases |cs|
  {
    if cs != [] {
      var n := |cs| - 1;
      var prefix, c := cs[..n], cs[n];
      var acc := CompletionsByKid(prefix, kids);
      CompletionsByKidIsGrouping(prefix, kids);
      GroupStepDistinct(acc, c, kids);
      GroupStepCovers(acc, prefix, c, kids);
      GroupStepCounts(acc, prefix, c, kids);
      GroupStepOrdered(acc, prefix, c, kids);
      var r := GroupStep(acc, c, kids);
      assert IsGrouping(r, prefix + [c]);
      assert prefix + [c] == cs;
      assert r == CompletionsByKid(cs, kids);
    }
  }

  lemma SumByUpdate(s: seq<KidCount>, j: nat, x: KidCount, f: KidCount -> int)
    requires j < |s|
    ensures SumBy(s[j := x], f) == SumBy(s, f) - f(s[j]) + f(x)
  {
    SumByRemove(s, j, f);
    SumByRemove(s[j := x], j, f);
    assert s[j := x][..j] + s[j := x][j + 1..] == s[..j] + s[j + 1..];
  }

  /** The counts of `completionsByKid` add up to `totalCompletions`. */
  lemma {:induction false} CompletionsByKidSum(cs: seq<CompletionLog>, kids: seq<Kid>)
    ensures SumBy(CompletionsByKid(cs, kids), (e: KidCount) => e.count) == |cs|
    decreases |cs|
  {
    if cs != [] {
      var n := |cs| - 1;
      var acc := CompletionsByKid(cs[..n], kids);
      var f := (e: KidCount) => e.count as int;
      CompletionsByKidSum(cs[..n], kids);
      match IndexOfKid(acc, cs[n].kidId)
      case Some(j) =>
        SumByUpdate(acc, j, acc[j].(count := acc[j].count + 1), f);
      case None =>
        SumByAppend(acc, [KidCount(cs[n].kidId, KidName(kids, cs[n].kidId), 1)], f);
    }
  }

  /** One more completion folds one more `GroupStep` into the grouping. */
  lemma CompletionsByKidStep(completions: seq<CompletionLog>, kids: seq<Kid>, i: nat)
    requires i < |completions|
    ensures CompletionsByKid(completions[..i + 1], kids)
         == GroupStep(CompletionsByKid(completions[..i], kids), completions[i], kids)
  {
    assert completions[..i + 1][..i] == completions[..i];
  }

  /** One step of the source's reduce: find the kid's entry and bump it,
      or push a new entry with count 1. */
  method AddCompletion(acc: seq<KidCount>, c: CompletionLog, kids: seq<Kid>) returns (r: seq<KidCount>)
    ensures r == GroupStep(acc, c, kids)
  {
    var j := 0;
    while j < |acc| && acc[j].kidId != c.kidId
      invariant 0 <= j <= |acc|
      invariant forall k :: 0 <= k < j ==> acc[k].kidId != c.kidId
    {
      j := j + 1;
    }
    if j < |acc| {
      assert IndexOfKid(acc, c.kidId) == Some(j);
      r := acc[j := acc[j].(count := acc[j].count + 1)];
    } else {
      assert IndexOfKid(acc, c.kidId) == None;
      r := acc + [KidCount(c.kidId, KidName(kids, c.kidId), 1)];
    }
  }

  /** The source's `reduce` over the completions, one step per completion. */
  method GroupCompletionsByKid(completions: seq<CompletionLog>, kids: seq<Kid>) returns (acc: seq<KidCount>)
    ensures acc == CompletionsByKid(completions, kids)
  {
    acc := [];
    var i := 0;
    while i < |completions|
      invariant 0 <= i <= |completions|
      invariant acc == CompletionsByKid(completions[..i], kids)
    {
      CompletionsByKidStep(completions, kids, i);
      acc := AddCompletion(acc, completions[i], kids);
      i := i + 1;
    }
    assert completions[..|completions|] == completions;
  }

  /** The count a component reads for a kid: `find(c => c.kidId === kidId)?.count || 0`. */
  function CountFor(byKid: seq<KidCount>, kidId: Id): (n: nat)
    ensures n > 0 ==> exists i :: 0 <= i < |byKid| && byKid[i].kidId == kidId
  {
    match IndexOfKid(byKid, kidId)
    case Some(j) => byKid[j].count
    case None => 0
  }

  /** Looking a kid up in `completionsByKid` gives that kid's number of
      completions, 0 for a kid that has none. */
  lemma CountForCompletionsByKid(cs: seq<CompletionLog>, kids: seq<Kid>, kidId: Id)
    ensures CountFor(CompletionsByKid(cs, kids), kidId) == KidCompletions(cs, kidId)
  {
    var r := CompletionsByKid(cs, kids);
    CompletionsByKidIsGrouping(cs, kids);
    if KidCompletions(cs, kidId) > 0 {
      KidCompletionsPositive'(cs, kidId);
      var n := FirstIndex(cs, kidId);
      var i :| 0 <= i < |r| && r[i].kidId == cs[n].kidId;
    }
  }

  // ---------------------------------------------------------------------
  // getTaskStats

  /** `where: { isActive: true, ...(group ? { group } : {}) }`. */
  predicate TaskSelected(t: Task, group: Option<TaskGroup>)
  {
    t.isActive && (group.None? || t.group == group.value)
  }

  /** The tasks `getTaskStats` reports on, in the order it reports them. */
  function StatsTasks(tasks: seq<Task>, group: Option<TaskGroup>): seq<Task>
  {
    SortBy(Filter(tasks, (t: Task) => TaskSelected(t, group)), TaskOrderLe)
  }

  /** Only active tasks of the requested group, each of them exactly once
      as often as stored, ordered by `order` and then `title`. */
  lemma StatsTasksSelection(tasks: seq<Task>, group: Option<TaskGroup>)
    ensures var ts := StatsTasks(tasks, group);
      && (forall i :: 0 <= i < |ts| ==> ts[i] in tasks && TaskSelected(ts[i], group))
      && (forall t :: t in tasks && TaskSelected(t, group) ==> t in ts)
      && multiset(ts) == multiset(Filter(tasks, (t: Task) => TaskSelected(t, group)))
      && SortedBy(ts, TaskOrderLe)
  {
    var selected := Filter(tasks, (t: Task) => TaskSelected(t, group));
    var ts := StatsTasks(tasks, group);
    TaskOrderIsTotalPreorder();
    SortBySorted(selected, TaskOrderLe);
    forall i | 0 <= i < |ts| ensures ts[i] in tasks && TaskSelected(ts[i], group) {
      assert ts[i] in multiset(selected);
    }
    forall t | t in tasks && TaskSelected(t, group) ensures t in ts {
      var k :| 0 <= k < |tasks| && tasks[k] == t;
      assert t in multiset(selected);
    }
  }

  /** `assignedKids`: the task's assignments whose kid is active. */
  function AssignedKidsOf(assignments: seq<Assignment>, kids: seq<Kid>, taskId: Id): (r: seq<AssignedKid>)
    ensures forall i :: 0 <= i < |r| ==>
      KidIsActive(kids, r[i].kidId) && Assignment(taskId, r[i].kidId) in assignments
    ensures forall a :: a in assignments && a.taskId == taskId && KidIsActive(kids, a.kidId) ==>
      exists i :: 0 <= i < |r| && r[i].kidId == a.kidId
    ensures forall i :: 0 <= i < |r| ==> r[i].kidName == KidName(kids, r[i].kidId)
  {
    var rows := ActiveAssignments(assignments, kids, taskId);
    var r := Map(rows, (a: Assignment) => AssignedKid(a.kidId, KidName(kids, a.kidId)));
    assert forall a :: a in rows ==> exists i :: 0 <= i < |r| && r[i].kidId == a.kidId by {
      forall a | a in rows ensures exists i :: 0 <= i < |r| && r[i].kidId == a.kidId {
        var i :| 0 <= i < |rows| && rows[i] == a;
        assert r[i].kidId == a.kidId;
      }
    }
    assert forall i :: 0 <= i < |r| ==> rows[i] == Assignment(taskId, r[i].kidId);
    r
  }

  /** A task's completions inside the window. */
  function TaskWindowLogs(logs: seq<CompletionLog>, taskId: Id, startDate: int, endDate: int): seq<CompletionLog>
  {
    Filter(logs, (c: CompletionLog) => c.taskId == taskId && InWindow(c, startDate, endDate))
  }

  function TaskStatsOf(t: Task, kids: seq<Kid>, assignments: seq<Assignment>, logs: seq<CompletionLog>, startDate: int, endDate: int): (r: TaskStats)
    ensures r.taskId == t.id && r.taskTitle == t.title
    ensures r.totalCompletions == Count(logs, (c: CompletionLog) => c.taskId == t.id && InWindow(c, startDate, endDate))
    ensures SumBy(r.completionsByKid, (e: KidCount) => e.count) == r.totalCompletions
    ensures IsGrouping(r.completionsByKid, TaskWindowLogs(logs, t.id, startDate, endDate))
    ensures r.assignedKids == AssignedKidsOf(assignments, kids, t.id)
  {
    var cs := TaskWindowLogs(logs, t.id, startDate, endDate);
    CompletionsByKidSum(cs, kids);
    CompletionsByKidIsGrouping(cs, kids);
    TaskStats(t.id, t.title, |cs|, CompletionsByKid(cs, kids), AssignedKidsOf(assignments, kids, t.id))
  }

  /** `getTaskStats(startDate, endDate, group?)`. */
  function GetTaskStats(
    kids: seq<Kid>, tasks: seq<Task>, assignments: seq<Assignment>, logs: seq<CompletionLog>,
    startDate: int, endDate: int, group: Option<TaskGroup>): (r: seq<TaskStats>)
    ensures |r| == |StatsTasks(tasks, group)|
    ensures forall i :: 0 <= i < |r| ==>
      r[i] == TaskStatsOf(StatsTasks(tasks, group)[i], kids, assignments, logs, startDate, endDate)
  {
    Map(StatsTasks(tasks, group), (t: Task) => TaskStatsOf(t, kids, assignments, logs, startDate, endDate))
  }

  // ---------------------------------------------------------------------
  // getTvPenaltyStats

  /** An in-window completion by the kid of a task in the TV_PENALTY group. */
  predicate IsPenaltyOf(c: CompletionLog, kidId: Id, tasks: seq<Task>, startDate: int, endDate: int)
  {
    c.kidId == kidId && InWindow(c, startDate, endDate) && GroupOf(tasks, c.taskId) == Some(TvPenalty)
  }

  function PenaltyStatsOf(k: Kid, tasks: seq<Task>, logs: seq<CompletionLog>, startDate: int, endDate: int): PenaltyStats
  {
    var ps := Filter(logs, (c: CompletionLog) => IsPenaltyOf(c, k.id, tasks, startDate, endDate));
    PenaltyStats(k.id, k.firstName, SumBy(ps, MinutesOrZero), |ps|)
  }

  /** `getTvPenaltyStats(startDate, endDate)`. */
  function GetTvPenaltyStats(kids: seq<Kid>, tasks: seq<Task>, logs: seq<CompletionLog>, startDate: int, endDate: int): (r: seq<PenaltyStats>)
    ensures |r| == |ActiveKidsInStore(kids)|
    ensures forall i :: 0 <= i < |r| ==>
      var k := ActiveKidsInStore(kids)[i];
      && r[i].kidId == k.id && r[i].kidName == k.firstName
      && r[i].count == Count(logs, (c: CompletionLog) => IsPenaltyOf(c, k.id, tasks, startDate, endDate))
      && r[i].totalMinutes == SumBy(KidWindowLogs(logs, k.id, startDate, endDate), (c: CompletionLog) => PenaltyMinutes(tasks, c))
  {
    var active := ActiveKidsInStore(kids);
    forall k | k in active
      ensures PenaltyStatsOf(k, tasks, logs, startDate, endDate).totalMinutes
           == SumBy(KidWindowLogs(logs, k.id, startDate, endDate), (c: CompletionLog) => PenaltyMinutes(tasks, c))
    {
      PenaltyStatsOfIsRestriction(k, tasks, logs, startDate, endDate);
    }
    Map(active, (k: Kid) => PenaltyStatsOf(k, tasks, logs, startDate, endDate))
  }

  /** The minutes a log adds to the penalty total: its minutes when its
      task is a TV_PENALTY task, 0 otherwise. */
  function PenaltyMinutes(tasks: seq<Task>, c: CompletionLog): int
  {
    if GroupOf(tasks, c.taskId) == Some(TvPenalty) then MinutesOrZero(c) else 0
  }

  lemma PenaltyStatsOfIsRestriction(k: Kid, tasks: seq<Task>, logs: seq<CompletionLog>, startDate: int, endDate: int)
    ensures PenaltyStatsOf(k, tasks, logs, startDate, endDate).count
         == Count(logs, (c: CompletionLog) => IsPenaltyOf(c, k.id, tasks, startDate, endDate))
    ensures PenaltyStatsOf(k, tasks, logs, startDate, endDate).count <= KidStatsOf(k, logs, startDate, endDate).totalCompletions
    ensures PenaltyStatsOf(k, tasks, logs, startDate, endDate).totalMinutes
         == SumBy(KidWindowLogs(logs, k.id, startDate, endDate), (c: CompletionLog) => PenaltyMinutes(tasks, c))
  {
    var window := (c: CompletionLog) => c.kidId == k.id && InWindow(c, startDate, endDate);
    var penalty := (c: CompletionLog) => IsPenaltyOf(c, k.id, tasks, startDate, endDate);
    assert KidWindowLogs(logs, k.id, startDate, endDate) == Filter(logs, window);
    assert PenaltyStatsOf(k, tasks, logs, startDate, endDate).count == Count(logs, penalty);
    CountMonotone(logs, penalty, window);
    var h := (c: CompletionLog) => if penalty(c) then MinutesOrZero(c) else 0;
    SumByFilter(logs, penalty, MinutesOrZero, h);
    SumByFilter(logs, window, (c: CompletionLog) => PenaltyMinutes(tasks, c), h);
  }

  /** The penalty statistics are the kid statistics restricted to logs of
      TV_PENALTY tasks: entry by entry the same kid, exactly the kid's
      in-window logs of penalty tasks, so no more completions,
      and the minutes are the kid's in-window minutes of penalty tasks only. */
  lemma TvPenaltyIsRestriction(kids: seq<Kid>, tasks: seq<Task>, logs: seq<CompletionLog>, startDate: int, endDate: int, i: nat)
    requires i < |GetTvPenaltyStats(kids, tasks, logs, startDate, endDate)|
    ensures var p := GetTvPenaltyStats(kids, tasks, logs, startDate, endDate)[i];
      var s := GetKidStats(kids, logs, startDate, endDate)[i];
      && p.kidId == s.kidId
      && p.count == Count(logs, (c: CompletionLog) => IsPenaltyOf(c, s.kidId, tasks, startDate, endDate))
      && p.count <= s.totalCompletions
      && p.totalMinutes == SumBy(KidWindowLogs(logs, s.kidId, startDate, endDate), (c: CompletionLog) => PenaltyMinutes(tasks, c))
  {
    PenaltyStatsOfIsRestriction(ActiveKidsInStore(kids)[i], tasks, logs, startDate, endDate);
  }

  // ---------------------------------------------------------------------
  // calculateFairness

  function CompletionCounts(stats: seq<KidStats>): seq<int>
  {
    Map(stats, (s: KidStats) => s.totalCompletions as int)
  }

  /** `calculateFairness`: the spread between the most and the fewest
      completions, 0 for an empty list. */
  function CalculateFairness(stats: seq<KidStats>): (f: nat)
    ensures stats == [] ==> f == 0
    ensures forall i, j :: 0 <= i < |stats| && 0 <= j < |stats| ==>
      stats[i].totalCompletions - stats[j].totalCompletions <= f
    ensures stats != [] ==>
      exists i, j :: 0 <= i < |stats| && 0 <= j < |stats| && f == stats[i].totalCompletions - stats[j].totalCompletions
    ensures f == 0 <==> forall i, j :: 0 <= i < |stats| && 0 <= j < |stats| ==>
      stats[i].totalCompletions == stats[j].totalCompletions
  {
    if |stats| == 0 then 0
    else
      var counts := CompletionCounts(stats);
      var hi, lo := Max(counts), Min(counts);
      var i :| 0 <= i < |stats| && counts[i] == hi;
      var j :| 0 <= j < |stats| && counts[j] == lo;
      assert hi - lo == stats[i].totalCompletions - stats[j].totalCompletions;
      assert forall a, b :: 0 <= a < |stats| && 0 <= b < |stats| ==>
        stats[a].totalCompletions - stats[b].totalCompletions <= hi - lo by {
        forall a, b | 0 <= a < |stats| && 0 <= b < |stats|
          ensures stats[a].totalCompletions - stats[b].totalCompletions <= hi - lo
        {
          assert counts[a] <= hi && lo <= counts[b];
        }
      }
      hi - lo
  }
}
