/** The task server actions of `src/actions/tasks.ts`: validated, pin-gated
    mutations of the task and assignment tables, and the ordered getters. */
module TaskActions {
  import opened Collections
  import opened Records
  import opened Pin
  import opened Store

  const TitleRequired: string := "Title is required"
  const InvalidGroup: string := "Invalid enum value"

  /** Applying a patch to the task table keeps the store's integrity. */
  lemma PatchTaskKeepsValid(db: Store, id: Id, patch: TaskPatch)
    requires db.Valid()
    ensures var tasks := PatchTask(db.tasks, id, patch);
      && Distinct(Map(tasks, (t: Task) => t.id))
      && (forall i :: 0 <= i < |tasks| ==> tasks[i].id < db.nextId)
  {
    var tasks := PatchTask(db.tasks, id, patch);
    forall i | 0 <= i < |tasks| ensures tasks[i].id == db.tasks[i].id {
      assert Map(tasks, (t: Task) => t.id)[i] == Map(db.tasks, (t: Task) => t.id)[i];
    }
  }

  /** The assignment rows `createMany` inserts for one task. */
  function AssignmentRows(taskId: Id, kidIds: seq<Id>): (r: seq<Assignment>)
    ensures |r| == |kidIds|
    ensures forall i :: 0 <= i < |r| ==> r[i] == Assignment(taskId, kidIds[i])
  {
    Map(kidIds, (k: Id) => Assignment(taskId, k))
  }

  /** The kids a new task is assigned to: the given ids when there are
      any, otherwise every kid active at that moment. */
  function DefaultAssignees(kidIds: Option<seq<Id>>, kids: seq<Kid>): (r: seq<Id>)
    ensures kidIds.Some? && kidIds.value != [] ==> r == kidIds.value
    ensures !(kidIds.Some? && kidIds.value != []) ==> forall k :: k in r <==> k in ActiveKidIds(kids)
  {
    if kidIds.Some? && |kidIds.value| > 0 then kidIds.value
    else
      var active := ActiveKidsInStore(kids);
      var r := Map(active, (k: Kid) => k.id);
      FilterMembers(kids, (k: Kid) => k.isActive);
      assert forall x :: x in r ==> x in ActiveKidIds(kids);
      assert forall x :: x in ActiveKidIds(kids) ==> x in r by {
        forall x | x in ActiveKidIds(kids) ensures x in r {
          var k :| k in kids && k.isActive && k.id == x;
          var i :| 0 <= i < |active| && active[i] == k;
          assert r[i] == x;
        }
      }
      r
  }

  /** Whether inserting these rows satisfies the foreign keys. */
  predicate RowsReferToStore(rows: seq<Assignment>, kids: seq<Kid>, tasks: seq<Task>)
  {
    forall a :: a in rows ==> a.kidId in KidIds(kids) && a.taskId in TaskIds(tasks)
  }

  /** `createTask`: insert the task, then insert its assignments in one
      statement. A failing assignment insert does not undo the task. */
  method CreateTask(db: Store, adminPin: Option<string>, title: string, group: string, kidIds: Option<seq<Id>>, pin: string)
    returns (r: Result<Task>)
    requires db.Valid()
    modifies db
    ensures db.Valid()
    ensures title == "" ==> r == Err(Validation(TitleRequired)) && unchanged(db)
    ensures title != "" && ParseGroup(group).None? ==> r == Err(Validation(InvalidGroup)) && unchanged(db)
    ensures title != "" && ParseGroup(group).Some? && !ValidatePin(adminPin, pin) ==> r == Err(InvalidPin) && unchanged(db)
    ensures title != "" && ParseGroup(group).Some? && ValidatePin(adminPin, pin) ==>
      var task := Task(old(db.nextId), title, ParseGroup(group).value, true, DefaultOrder);
      var rows := AssignmentRows(task.id, DefaultAssignees(kidIds, old(db.kids)));
      && db.tasks == old(db.tasks) + [task]
      && db.nextId == old(db.nextId) + 1
      && (RowsReferToStore(rows, db.kids, db.tasks) ==> r == Ok(task) && db.assignments == old(db.assignments) + rows)
      && (!RowsReferToStore(rows, db.kids, db.tasks) ==> r == Err(ForeignKeyViolation) && db.assignments == old(db.assignments))
      && db.kids == old(db.kids) && db.logs == old(db.logs) && db.arrangements == old(db.arrangements)
  {
    if title == "" {
      return Err(Validation(TitleRequired));
    }
    var g := ParseGroup(group);
    if g.None? {
      return Err(Validation(InvalidGroup));
    }
    if !ValidatePin(adminPin, pin) {
      return Err(InvalidPin);
    }
    var task := db.InsertTask(title, g.value, true, DefaultOrder);
    var assignees := DefaultAssignees(kidIds, db.kids);
    var rows := AssignmentRows(task.id, assignees);
    if |assignees| > 0 {
      if !RowsReferToStore(rows, db.kids, db.tasks) {
        return Err(ForeignKeyViolation);
      }
      db.InsertAssignments(rows);
    } else {
      assert rows == [];
      assert db.assignments + rows == db.assignments;
    }
    r := Ok(task);
  }

  /** `updateTask`: only `title` changes. */
  method UpdateTask(db: Store, adminPin: Option<string>, id: Id, title: string, pin: string) returns (r: Result<Task>)
    requires db.Valid()
    modifies db
    ensures db.Valid()
    ensures title == "" ==> r == Err(Validation(TitleRequired)) && unchanged(db)
    ensures title != "" && !ValidatePin(adminPin, pin) ==> r == Err(InvalidPin) && unchanged(db)
    ensures title != "" && ValidatePin(adminPin, pin) && id !in TaskIds(old(db.tasks)) ==>
      r == Err(RecordNotFound) && unchanged(db)
    ensures title != "" && ValidatePin(adminPin, pin) && id in TaskIds(old(db.tasks)) ==>
      && r == Ok(FindTask(old(db.tasks), id).value.(title := title))
      && db.tasks == PatchTask(old(db.tasks), id, Retitle(title))
      && db.nextId == old(db.nextId) && db.kids == old(db.kids) && db.assignments == old(db.assignments)
      && db.logs == old(db.logs) && db.arrangements == old(db.arrangements)
  {
    if title == "" {
      return Err(Validation(TitleRequired));
    }
    if !ValidatePin(adminPin, pin) {
      return Err(InvalidPin);
    }
    var found := FindTask(db.tasks, id);
    if found.None? {
      return Err(RecordNotFound);
    }
    PatchTaskKeepsValid(db, id, Retitle(title));
    db.tasks := PatchTask(db.tasks, id, Retitle(title));
    r := Ok(found.value.(title := title));
  }

  /** The task table after `toggleTaskActive` on a task that exists. */
  function ToggledTasks(tasks: seq<Task>, id: Id): seq<Task>
    requires id in TaskIds(tasks)
  {
    PatchTask(tasks, id, SetTaskActive(!FindTask(tasks, id).value.isActive))
  }

  /** `toggleTaskActive`: read the task, then write the negated flag. */
  method ToggleTaskActive(db: Store, adminPin: Option<string>, id: Id, pin: string) returns (r: Result<Task>)
    requires db.Valid()
    modifies db
    ensures db.Valid()
    ensures !ValidatePin(adminPin, pin) ==> r == Err(InvalidPin) && unchanged(db)
    ensures ValidatePin(adminPin, pin) && id !in TaskIds(old(db.tasks)) ==> r == Err(TaskNotFound) && unchanged(db)
    ensures ValidatePin(adminPin, pin) && id in TaskIds(old(db.tasks)) ==>
      var t := FindTask(old(db.tasks), id).value;
      && r == Ok(t.(isActive := !t.isActive))
      && db.tasks == ToggledTasks(old(db.tasks), id)
      && db.nextId == old(db.nextId) && db.kids == old(db.kids) && db.assignments == old(db.assignments)
      && db.logs == old(db.logs) && db.arrangements == old(db.arrangements)
  {
    if !ValidatePin(adminPin, pin) {
      return Err(InvalidPin);
    }
    var found := FindTask(db.tasks, id);
    if found.None? {
      return Err(TaskNotFound);
    }
    var task := found.value;
    PatchTaskKeepsValid(db, id, SetTaskActive(!task.isActive));
    db.tasks := PatchTask(db.tasks, id, SetTaskActive(!task.isActive));
    r := Ok(task.(isActive := !task.isActive));
  }

  /** With unique identities a patch by identity touches one position. */
  lemma PatchTaskAt(tasks: seq<Task>, i: nat, patch: TaskPatch)
    requires i < |tasks|
    requires Distinct(Map(tasks, (t: Task) => t.id))
    ensures PatchTask(tasks, tasks[i].id, patch) == tasks[i := ApplyTaskPatch(tasks[i], patch)]
  {
    var ids := Map(tasks, (t: Task) => t.id);
    forall j | 0 <= j < |tasks| && j != i ensures tasks[j].id != tasks[i].id {
      assert ids[j] == tasks[j].id && ids[i] == tasks[i].id;
    }
  }

  /** Toggling a task flips exactly its flag; toggling twice restores the table. */
  lemma ToggleTaskTwiceRestores(tasks: seq<Task>, id: Id)
    requires Distinct(Map(tasks, (t: Task) => t.id))
    requires id in TaskIds(tasks)
    ensures id in TaskIds(ToggledTasks(tasks, id))
    ensures ToggledTasks(ToggledTasks(tasks, id), id) == tasks
  {
    var i :| 0 <= i < |tasks| && tasks[i].id == id;
    FindTaskUnique(tasks, i);
    var t := tasks[i];
    PatchTaskAt(tasks, i, SetTaskActive(!t.isActive));
    var once := tasks[i := t.(isActive := !t.isActive)];
    assert Map(once, (x: Task) => x.id) == Map(tasks, (x: Task) => x.id);
    FindTaskUnique(once, i);
    PatchTaskAt(once, i, SetTaskActive(t.isActive));
    assert once[i := t] == tasks;
  }

  /** `deleteTask`: a soft delete, the record, its assignments and its
      history stay. */
  method DeleteTask(db: Store, adminPin: Option<string>, id: Id, pin: string) returns (r: Result<Task>)
    requires db.Valid()
    modifies db
    ensures db.Valid()
    ensures !ValidatePin(adminPin, pin) ==> r == Err(InvalidPin) && unchanged(db)
    ensures ValidatePin(adminPin, pin) && id !in TaskIds(old(db.tasks)) ==> r == Err(RecordNotFound) && unchanged(db)
    ensures ValidatePin(adminPin, pin) && id in TaskIds(old(db.tasks)) ==>
      && r == Ok(FindTask(old(db.tasks), id).value.(isActive := false))
      && db.tasks == PatchTask(old(db.tasks), id, SetTaskActive(false))
      && db.nextId == old(db.nextId) && db.kids == old(db.kids) && db.assignments == old(db.assignments)
      && db.logs == old(db.logs) && db.arrangements == old(db.arrangements)
  {
    if !ValidatePin(adminPin, pin) {
      return Err(InvalidPin);
    }
    var found := FindTask(db.tasks, id);
    if found.None? {
      return Err(RecordNotFound);
    }
    PatchTaskKeepsValid(db, id, SetTaskActive(false));
    db.tasks := PatchTask(db.tasks, id, SetTaskActive(false));
    r := Ok(found.value.(isActive := false));
  }

  /** Deleting a task twice is deleting it once. */
  lemma {:induction false} DeleteTaskIdempotent(tasks: seq<Task>, id: Id)
    ensures PatchTask(PatchTask(tasks, id, SetTaskActive(false)), id, SetTaskActive(false))
         == PatchTask(tasks, id, SetTaskActive(false))
  {
    var once := PatchTask(tasks, id, SetTaskActive(false));
    var twice := PatchTask(once, id, SetTaskActive(false));
    forall j | 0 <= j < |tasks| ensures twice[j] == once[j] { }
  }

  // ---------------------------------------------------------------------
  // updateTaskKids

  /** The assignment table after `deleteMany` of one task's rows. */
  function WithoutTask(assignments: seq<Assignment>, taskId: Id): (r: seq<Assignment>)
    ensures forall a :: a in r <==> a in assignments && a.taskId != taskId
  {
    FilterMembers(assignments, (a: Assignment) => a.taskId != taskId);
    Filter(assignments, (a: Assignment) => a.taskId != taskId)
  }

  /** The assignment table after a successful `updateTaskKids`. */
  function ReplaceAssignments(assignments: seq<Assignment>, taskId: Id, kidIds: seq<Id>): seq<Assignment>
  {
    WithoutTask(assignments, taskId) + AssignmentRows(taskId, kidIds)
  }

  /** After a reassignment the task is assigned to exactly the given kids,
      and the rows of every other task are kept, in their order. */
  lemma ReplaceAssignmentsExact(assignments: seq<Assignment>, taskId: Id, kidIds: seq<Id>)
    ensures var r := ReplaceAssignments(assignments, taskId, kidIds);
      && (forall k :: Assignment(taskId, k) in r <==> k in kidIds)
      && (forall a: Assignment :: a.taskId != taskId ==> (a in r <==> a in assignments))
      && WithoutTask(r, taskId) == WithoutTask(assignments, taskId)
  {
    var kept := WithoutTask(assignments, taskId);
    var rows := AssignmentRows(taskId, kidIds);
    var r := kept + rows;
    forall k ensures Assignment(taskId, k) in r <==> k in kidIds {
      if k in kidIds {
        var i :| 0 <= i < |kidIds| && kidIds[i] == k;
        assert rows[i] == Assignment(taskId, k);
      }
      if Assignment(taskId, k) in rows {
        var i :| 0 <= i < |rows| && rows[i] == Assignment(taskId, k);
        assert kidIds[i] == k;
      }
    }
    var p := (a: Assignment) => a.taskId != taskId;
    FilterAppend(kept, rows, p);
    FilterAll(kept, p);
    FilterNone(rows, p);
    assert kept + [] == kept;
  }

  /** `updateTaskKids`: delete the task's rows, then insert one row per
      given kid. The two statements are separate: when the insert fails the
      task is left without assignments. An empty list inserts nothing. */
  method UpdateTaskKids(db: Store, adminPin: Option<string>, taskId: Id, kidIds: seq<Id>, pin: string)
    returns (r: Result<Success>)
    requires db.Valid()
    modifies db
    ensures db.Valid()
    ensures !ValidatePin(adminPin, pin) ==> r == Err(InvalidPin) && unchanged(db)
    ensures ValidatePin(adminPin, pin) ==>
      var rows := AssignmentRows(taskId, kidIds);
      && (RowsReferToStore(rows, db.kids, db.tasks) ==>
           r == Ok(Success) && db.assignments == ReplaceAssignments(old(db.assignments), taskId, kidIds))
      && (!RowsReferToStore(rows, db.kids, db.tasks) ==>
           r == Err(ForeignKeyViolation) && db.assignments == WithoutTask(old(db.assignments), taskId))
      && db.nextId == old(db.nextId) && db.kids == old(db.kids) && db.tasks == old(db.tasks)
      && db.logs == old(db.logs) && db.arrangements == old(db.arrangements)
  {
    if !ValidatePin(adminPin, pin) {
      return Err(InvalidPin);
    }
    db.assignments := WithoutTask(db.assignments, taskId);
    var rows := AssignmentRows(taskId, kidIds);
    if |kidIds| > 0 {
      if !RowsReferToStore(rows, db.kids, db.tasks) {
        return Err(ForeignKeyViolation);
      }
      db.assignments := db.assignments + rows;
    } else {
      assert db.assignments + rows == db.assignments;
      db.assignments := db.assignments + rows;
    }
    r := Ok(Success);
  }

  // ---------------------------------------------------------------------
  // Display order

  /** `updateTaskOrder`: only `order` changes. */
  method UpdateTaskOrder(db: Store, adminPin: Option<string>, taskId: Id, newOrder: int, pin: string) returns (r: Result<Task>)
    requires db.Valid()
    modifies db
    ensures db.Valid()
    ensures !ValidatePin(adminPin, pin) ==> r == Err(InvalidPin) && unchanged(db)
    ensures ValidatePin(adminPin, pin) && taskId !in TaskIds(old(db.tasks)) ==> r == Err(RecordNotFound) && unchanged(db)
    ensures ValidatePin(adminPin, pin) && taskId in TaskIds(old(db.tasks)) ==>
      && r == Ok(FindTask(old(db.tasks), taskId).value.(order := newOrder))
      && db.tasks == PatchTask(old(db.tasks), taskId, SetOrder(newOrder))
      && db.nextId == old(db.nextId) && db.kids == old(db.kids) && db.assignments == old(db.assignments)
      && db.logs == old(db.logs) && db.arrangements == old(db.arrangements)
  {
    if !ValidatePin(adminPin, pin) {
      return Err(InvalidPin);
    }
    var found := FindTask(db.tasks, taskId);
    if found.None? {
      return Err(RecordNotFound);
    }
    PatchTaskKeepsValid(db, taskId, SetOrder(newOrder));
    db.tasks := PatchTask(db.tasks, taskId, SetOrder(newOrder));
    r := Ok(found.value.(order := newOrder));
  }

  /** The task table after the updates `order = index` for every listed
      id, applied in list order. */
  function Reordered(tasks: seq<Task>, taskIds: seq<Id>): (r: seq<Task>)
    decreases |taskIds|
    ensures |r| == |tasks|
    ensures forall j :: 0 <= j < |tasks| ==> r[j].(order := 0) == tasks[j].(order := 0)
  {
    if taskIds == [] then tasks
    else
      var n := |taskIds| - 1;
      PatchTask(Reordered(tasks, taskIds[..n]), taskIds[n], SetOrder(n))
  }

  /** Where a task ends up after a reorder: at the index of its id in the
      list, or where it was when the list does not mention it. */
  function Placed(t: Task, taskIds: seq<Id>): Task
  {
    if t.id in taskIds then t.(order := IndexOf(taskIds, t.id)) else t
  }

  /** With distinct ids the sequence of updates amounts to placing every
      task independently: a listed task gets its index as `order`, and an
      unlisted task keeps its record. */
  lemma {:induction false} ReorderedPlacesEachTask(tasks: seq<Task>, taskIds: seq<Id>)
    requires Distinct(taskIds)
    ensures |Reordered(tasks, taskIds)| == |tasks|
    ensures forall j :: 0 <= j < |tasks| ==> Reordered(tasks, taskIds)[j] == Placed(tasks[j], taskIds)
    decreases |taskIds|
  {
    if taskIds != [] {
      var n := |taskIds| - 1;
      var front := taskIds[..n];
      assert Distinct(front) by {
        forall a, b | 0 <= a < b < |front| ensures front[a] != front[b] {
          assert front[a] == taskIds[a] && front[b] == taskIds[b];
        }
      }
      ReorderedPlacesEachTask(tasks, front);
      assert taskIds[n] !in front by {
        forall a | 0 <= a < n ensures front[a] != taskIds[n] {
          assert front[a] == taskIds[a];
        }
      }
      forall j | 0 <= j < |tasks| ensures Reordered(tasks, taskIds)[j] == Placed(tasks[j], taskIds) {
        var t := tasks[j];
        if t.id == taskIds[n] {
          assert IndexOf(taskIds, t.id) == n;
        } else if t.id in front {
          var k := IndexOf(front, t.id);
          assert taskIds[k] == t.id;
          assert IndexOf(taskIds, t.id) == k;
        } else {
          assert t.id !in taskIds by {
            assert taskIds == front + [taskIds[n]];
          }
        }
      }
    }
  }

  /** Reordering changes no identity. */
  lemma {:induction false} ReorderedKeepsIds(tasks: seq<Task>, taskIds: seq<Id>)
    ensures Map(Reordered(tasks, taskIds), (t: Task) => t.id) == Map(tasks, (t: Task) => t.id)
    ensures TaskIds(Reordered(tasks, taskIds)) == TaskIds(tasks)
    decreases |taskIds|
  {
    if taskIds != [] {
      ReorderedKeepsIds(tasks, taskIds[..|taskIds| - 1]);
    }
  }

  /** One more update of the reorder: a no-op when the id names no task. */
  lemma ReorderedStep(start: seq<Task>, taskIds: seq<Id>, i: nat)
    requires i < |taskIds|
    ensures Reordered(start, taskIds[..i + 1])
         == if taskIds[i] in TaskIds(start) then PatchTask(Reordered(start, taskIds[..i]), taskIds[i], SetOrder(i))
            else Reordered(start, taskIds[..i])
  {
    assert taskIds[..i + 1][..i] == taskIds[..i];
    var before := Reordered(start, taskIds[..i]);
    ReorderedKeepsIds(start, taskIds[..i]);
    if taskIds[i] !in TaskIds(start) {
      assert forall j :: 0 <= j < |before| ==> before[j].id != taskIds[i];
    }
  }

  /** Every listed id names a task. */
  predicate AllKnown(taskIds: seq<Id>, tasks: seq<Task>)
  {
    forall i :: 0 <= i < |taskIds| ==> taskIds[i] in TaskIds(tasks)
  }

  lemma AllKnownSnoc(taskIds: seq<Id>, tasks: seq<Task>, i: nat)
    requires i < |taskIds|
    ensures AllKnown(taskIds[..i + 1], tasks) == (AllKnown(taskIds[..i], tasks) && taskIds[i] in TaskIds(tasks))
  {
    assert taskIds[..i + 1] == taskIds[..i] + [taskIds[i]];
  }

  /** `reorderTasks`: every listed task gets `order = index`; all updates
      are issued, and the call fails when any of them found no task. */
  method ReorderTasks(db: Store, adminPin: Option<string>, taskIds: seq<Id>, pin: string) returns (r: Result<Success>)
    requires db.Valid()
    modifies db
    ensures db.Valid()
    ensures !ValidatePin(adminPin, pin) ==> r == Err(InvalidPin) && unchanged(db)
    ensures ValidatePin(adminPin, pin) ==>
      && db.tasks == Reordered(old(db.tasks), taskIds)
      && (r == Ok(Success) <==> AllKnown(taskIds, old(db.tasks)))
      && (r.Err? ==> r.error == RecordNotFound)
      && db.nextId == old(db.nextId) && db.kids == old(db.kids) && db.assignments == old(db.assignments)
      && db.logs == old(db.logs) && db.arrangements == old(db.arrangements)
  {
    if !ValidatePin(adminPin, pin) {
      return Err(InvalidPin);
    }
    var start := db.tasks;
    var tasks := db.tasks;
    var missing := false;
    var i := 0;
    while i < |taskIds|
      invariant 0 <= i <= |taskIds|
      invariant tasks == Reordered(start, taskIds[..i])
      invariant missing == !AllKnown(taskIds[..i], start)
      invariant unchanged(db)
    {
      ReorderedStep(start, taskIds, i);
      ReorderedKeepsIds(start, taskIds[..i]);
      AllKnownSnoc(taskIds, start, i);
      if taskIds[i] in TaskIds(tasks) {
        tasks := PatchTask(tasks, taskIds[i], SetOrder(i));
      } else {
        missing := true;
      }
      i := i + 1;
    }
    assert taskIds[..|taskIds|] == taskIds;
    ReorderedKeepsIds(start, taskIds);
    db.SetTasks(tasks);
    if missing {
      return Err(RecordNotFound);
    }
    r := Ok(Success);
  }

  // ---------------------------------------------------------------------
  // Getters

  /** `orderBy: { title: 'asc' }`. */
  predicate TitleLe(a: Task, b: Task)
  {
    StrLe(a.title, b.title)
  }

  lemma TitleOrderIsTotalPreorder()
    ensures IsTotalPreorder(TitleLe)
  {
    forall a: Task, b: Task ensures TitleLe(a, b) || TitleLe(b, a) {
      StrLeTotal(a.title, b.title);
    }
    forall a: Task, b: Task, c: Task | TitleLe(a, b) && TitleLe(b, c) ensures TitleLe(a, c) {
      StrLeTransitive(a.title, b.title, c.title);
    }
  }

  /** `getTasks`: every task, sorted by title. */
  function GetTasks(tasks: seq<Task>): (r: seq<Task>)
    ensures multiset(r) == multiset(tasks)
    ensures SortedBy(r, TitleLe)
  {
    TitleOrderIsTotalPreorder();
    SortBySorted(tasks, TitleLe);
    SortBy(tasks, TitleLe)
  }

  /** `getActiveTasks`: exactly the active tasks, by `order` then `title`. */
  function GetActiveTasks(tasks: seq<Task>): (r: seq<Task>)
    ensures multiset(r) == multiset(Filter(tasks, (t: Task) => t.isActive))
    ensures forall t :: t in r <==> t in tasks && t.isActive
    ensures SortedBy(r, TaskOrderLe)
  {
    var active := Filter(tasks, (t: Task) => t.isActive);
    TaskOrderIsTotalPreorder();
    SortBySorted(active, TaskOrderLe);
    SortByMembers(active, TaskOrderLe);
    FilterMembers(tasks, (t: Task) => t.isActive);
    SortBy(active, TaskOrderLe)
  }

  /** The `select: { id, title, order }` row of `getActiveTasksWithOrder`. */
  datatype TaskOrderRow = TaskOrderRow(id: Id, title: string, order: int)

  predicate IsRegularActive(t: Task)
  {
    t.isActive && t.group == Regular
  }

  /** The tasks `getActiveTasksWithOrder` selects: exactly the active
      REGULAR tasks, by `order` then `title`. */
  function RegularActiveTasks(tasks: seq<Task>): (r: seq<Task>)
    ensures multiset(r) == multiset(Filter(tasks, IsRegularActive))
    ensures forall t :: t in r <==> t in tasks && IsRegularActive(t)
    ensures SortedBy(r, TaskOrderLe)
  {
    var selected := Filter(tasks, IsRegularActive);
    TaskOrderIsTotalPreorder();
    SortBySorted(selected, TaskOrderLe);
    SortByMembers(selected, TaskOrderLe);
    FilterMembers(tasks, IsRegularActive);
    SortBy(selected, TaskOrderLe)
  }

  /** The REGULAR selection is the active list restricted to one group. */
  lemma RegularIsActiveRestricted(tasks: seq<Task>)
    ensures forall t :: t in RegularActiveTasks(tasks) <==> t in GetActiveTasks(tasks) && t.group == Regular
  {
  }

  /** `getActiveTasksWithOrder`: the selection projected on id, title and order. */
  function GetActiveTasksWithOrder(tasks: seq<Task>): (r: seq<TaskOrderRow>)
    ensures |r| == |RegularActiveTasks(tasks)|
    ensures forall i :: 0 <= i < |r| ==>
      var t := RegularActiveTasks(tasks)[i];
      r[i].id == t.id && r[i].title == t.title && r[i].order == t.order
  {
    Map(RegularActiveTasks(tasks), (t: Task) => TaskOrderRow(t.id, t.title, t.order))
  }

  /** A task together with the assignment rows `include` attaches to it. */
  datatype TaskWithKids = TaskWithKids(task: Task, kidAssignments: seq<Assignment>)

  /** `getActiveTasksWithKids`: the active tasks in display order, each
      with its assignments to active kids. */
  function GetActiveTasksWithKids(tasks: seq<Task>, assignments: seq<Assignment>, kids: seq<Kid>): (r: seq<TaskWithKids>)
    ensures |r| == |GetActiveTasks(tasks)|
    ensures forall i :: 0 <= i < |r| ==> r[i].task == GetActiveTasks(tasks)[i]
    ensures forall i, a :: 0 <= i < |r| ==>
      (a in r[i].kidAssignments <==> a in assignments && a.taskId == r[i].task.id && KidIsActive(kids, a.kidId))
  {
    Map(GetActiveTasks(tasks), (t: Task) => TaskWithKids(t, ActiveAssignments(assignments, kids, t.id)))
  }

  /** `getTasksWithKids`: every task by title, each with all its assignments. */
  function GetTasksWithKids(tasks: seq<Task>, assignments: seq<Assignment>): (r: seq<TaskWithKids>)
    ensures |r| == |tasks|
    ensures forall i :: 0 <= i < |r| ==> r[i].task == GetTasks(tasks)[i]
    ensures forall i, a :: 0 <= i < |r| ==>
      (a in r[i].kidAssignments <==> a in assignments && a.taskId == r[i].task.id)
  {
    var sorted := GetTasks(tasks);
    assert |sorted| == |tasks| by {
      assert |multiset(sorted)| == |multiset(tasks)|;
    }
    forall t: Task ensures forall a: Assignment :: a in Filter(assignments, (x: Assignment) => x.taskId == t.id) <==> a in assignments && a.taskId == t.id {
      FilterMembers(assignments, (x: Assignment) => x.taskId == t.id);
    }
    Map(sorted, (t: Task) => TaskWithKids(t, Filter(assignments, (a: Assignment) => a.taskId == t.id)))
  }
}
