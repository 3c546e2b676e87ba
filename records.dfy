/** The persisted records of the chore tracker (Kid, Task, TaskKidAssignment,
    CompletionLog, SleepingArrangement), the errors the server actions raise,
    and the lookups and single-record updates the storage layer performs. */
module Records {
  import opened Collections

  /** Record identities. The database generates them; the model draws them
      from a counter in the store. */
  type Id = nat

  datatype Option<T> = None | Some(value: T)

  datatype TaskGroup = Regular | TenMin | TvPenalty

  /** The wire name of a task group, as in `'REGULAR' | 'TEN_MIN' | 'TV_PENALTY'`. */
  function GroupName(g: TaskGroup): string
  {
    match g
    case Regular => "REGULAR"
    case TenMin => "TEN_MIN"
    case TvPenalty => "TV_PENALTY"
  }

  /** The `z.enum(['REGULAR', 'TEN_MIN', 'TV_PENALTY'])` check of `createTask`. */
  function ParseGroup(s: string): (g: Option<TaskGroup>)
    ensures g.Some? <==> (s == "REGULAR" || s == "TEN_MIN" || s == "TV_PENALTY")
    ensures g.Some? ==> GroupName(g.value) == s
  {
    if s == "REGULAR" then Some(Regular)
    else if s == "TEN_MIN" then Some(TenMin)
    else if s == "TV_PENALTY" then Some(TvPenalty)
    else None
  }

  /** Parsing inverts naming, so every group survives the round trip. */
  lemma ParseGroupName(g: TaskGroup)
    ensures ParseGroup(GroupName(g)) == Some(g)
  {
    match g
    case Regular =>
    case TenMin =>
      assert "TEN_MIN" != "REGULAR" by { assert "TEN_MIN"[0] != "REGULAR"[0]; }
    case TvPenalty =>
      assert "TV_PENALTY" != "REGULAR" by { assert "TV_PENALTY"[1] != "REGULAR"[1]; }
      assert "TV_PENALTY" != "TEN_MIN" by { assert "TV_PENALTY"[1] != "TEN_MIN"[1]; }
  }

  datatype Kid = Kid(id: Id, firstName: string, isActive: bool)

  datatype Task = Task(id: Id, title: string, group: TaskGroup, isActive: bool, order: int)

  /** A TaskKidAssignment row: the kid may log completions of the task. */
  datatype Assignment = Assignment(taskId: Id, kidId: Id)

  /** `minutes` is absent (`null`) for plain completions. */
  datatype CompletionLog = CompletionLog(id: Id, kidId: Id, taskId: Id, minutes: Option<int>, createdAt: int)

  datatype SleepingArrangement = SleepingArrangement(id: Id, combination: string)

  /** Why a server action throws. */
  datatype Error =
    | InvalidPin                 // 'Invalid PIN'
    | KidNotFound                // 'Kid not found'
    | TaskNotFound               // 'Task not found'
    | Validation(message: string) // the zod schema rejected the input
    | RecordNotFound             // the database's update/delete found no row with that id
    | ForeignKeyViolation        // an insert referred to a kid or task that does not exist

  datatype Result<T> = Ok(value: T) | Err(error: Error)

  /** The text a client shows for a thrown error (`err.message`). */
  function Message(e: Error): string
  {
    match e
    case InvalidPin => "Invalid PIN"
    case KidNotFound => "Kid not found"
    case TaskNotFound => "Task not found"
    case Validation(m) => m
    case RecordNotFound => "Record not found"
    case ForeignKeyViolation => "Foreign key constraint failed"
  }

  /** The display order a new task gets from the schema's default. */
  const DefaultOrder: int := 0

  /** The `{ success: true }` some actions return. */
  datatype Success = Success

  // ---------------------------------------------------------------------
  // Lookups by identity.

  function KidIds(kids: seq<Kid>): set<Id> { set k | k in kids :: k.id }

  function TaskIds(tasks: seq<Task>): set<Id> { set t | t in tasks :: t.id }

  function LogIds(logs: seq<CompletionLog>): set<Id> { set c | c in logs :: c.id }

  function ArrangementIds(arrangements: seq<SleepingArrangement>): set<Id> { set a | a in arrangements :: a.id }

  /** `findUnique({ where: { id } })` on kids. */
  function FindKid(kids: seq<Kid>, id: Id): (r: Option<Kid>)
    ensures r.Some? <==> id in KidIds(kids)
    ensures r.Some? ==> r.value in kids && r.value.id == id
  {
    if kids == [] then None
    else if kids[0].id == id then Some(kids[0])
    else
      var r := FindKid(kids[1..], id);
      assert KidIds(kids) == {kids[0].id} + KidIds(kids[1..]) by {
        assert kids == [kids[0]] + kids[1..];
      }
      r
  }

  /** `findUnique({ where: { id } })` on tasks. */
  function FindTask(tasks: seq<Task>, id: Id): (r: Option<Task>)
    ensures r.Some? <==> id in TaskIds(tasks)
    ensures r.Some? ==> r.value in tasks && r.value.id == id
  {
    if tasks == [] then None
    else if tasks[0].id == id then Some(tasks[0])
    else
      var r := FindTask(tasks[1..], id);
      assert TaskIds(tasks) == {tasks[0].id} + TaskIds(tasks[1..]) by {
        assert tasks == [tasks[0]] + tasks[1..];
      }
      r
  }

  /** With distinct identities, the kid found is THE kid with that id. */
  lemma FindKidUnique(kids: seq<Kid>, i: nat)
    requires i < |kids|
    requires Distinct(Map(kids, (k: Kid) => k.id))
    ensures FindKid(kids, kids[i].id) == Some(kids[i])
  {
    if i > 0 {
      var ids := Map(kids, (k: Kid) => k.id);
      var tail := Map(kids[1..], (k: Kid) => k.id);
      assert ids[0] != ids[i];
      forall a, b | 0 <= a < b < |tail| ensures tail[a] != tail[b] {
        assert tail[a] == ids[a + 1] && tail[b] == ids[b + 1];
      }
      FindKidUnique(kids[1..], i - 1);
    }
  }

  /** With distinct identities, the task found is THE task with that id. */
  lemma FindTaskUnique(tasks: seq<Task>, i: nat)
    requires i < |tasks|
    requires Distinct(Map(tasks, (t: Task) => t.id))
    ensures FindTask(tasks, tasks[i].id) == Some(tasks[i])
  {
    if i > 0 {
      DistinctMapTail(tasks, (t: Task) => t.id);
      FindTaskUnique(tasks[1..], i - 1);
    }
  }

  /** `kid.firstName` of the kid a row refers to. */
  function KidName(kids: seq<Kid>, id: Id): string
  {
    match FindKid(kids, id)
    case Some(k) => k.firstName
    case None => ""
  }

  /** The kid exists and has not been soft-deleted. */
  predicate KidIsActive(kids: seq<Kid>, id: Id)
  {
    match FindKid(kids, id)
    case Some(k) => k.isActive
    case None => false
  }

  /** The group of the task a row refers to. */
  function GroupOf(tasks: seq<Task>, id: Id): Option<TaskGroup>
  {
    match FindTask(tasks, id)
    case Some(t) => Some(t.group)
    case None => None
  }

  /** The task's assignment rows whose kid is active, in storage order:
      `kidAssignments` with `where: { kid: { isActive: true } }`. */
  function ActiveAssignments(assignments: seq<Assignment>, kids: seq<Kid>, taskId: Id): (r: seq<Assignment>)
    ensures forall i :: 0 <= i < |r| ==> r[i] in assignments && r[i].taskId == taskId && KidIsActive(kids, r[i].kidId)
    ensures forall a :: a in assignments && a.taskId == taskId && KidIsActive(kids, a.kidId) ==> a in r
  {
    Filter(assignments, (a: Assignment) => a.taskId == taskId && KidIsActive(kids, a.kidId))
  }

  /** `kid.findMany({ where: { isActive: true } })`, in storage order. */
  function ActiveKidsInStore(kids: seq<Kid>): seq<Kid>
  {
    Filter(kids, (k: Kid) => k.isActive)
  }

  /** The identities of the active kids. */
  function ActiveKidIds(kids: seq<Kid>): set<Id>
  {
    set k | k in kids && k.isActive :: k.id
  }

  /** `orderBy: [{ order: 'asc' }, { title: 'asc' }]`. */
  predicate TaskOrderLe(a: Task, b: Task)
  {
    a.order < b.order || (a.order == b.order && StrLe(a.title, b.title))
  }

  lemma TaskOrderIsTotalPreorder()
    ensures IsTotalPreorder(TaskOrderLe)
  {
    forall a: Task, b: Task ensures TaskOrderLe(a, b) || TaskOrderLe(b, a) {
      StrLeTotal(a.title, b.title);
    }
    forall a: Task, b: Task, c: Task | TaskOrderLe(a, b) && TaskOrderLe(b, c) ensures TaskOrderLe(a, c) {
      if a.order == b.order == c.order {
        StrLeTransitive(a.title, b.title, c.title);
      }
    }
  }

  // ---------------------------------------------------------------------
  // `update({ where: { id }, data })` on one record.

  /** The `data` of a kid update. */
  datatype KidPatch = Rename(firstName: string) | SetKidActive(active: bool)

  function ApplyKidPatch(k: Kid, patch: KidPatch): Kid
  {
    match patch
    case Rename(name) => k.(firstName := name)
    case SetKidActive(b) => k.(isActive := b)
  }

  /** Every kid with identity `id` receives the patch; the others are untouched. */
  function PatchKid(kids: seq<Kid>, id: Id, patch: KidPatch): (r: seq<Kid>)
    ensures |r| == |kids|
    ensures forall i :: 0 <= i < |kids| ==> r[i] == if kids[i].id == id then ApplyKidPatch(kids[i], patch) else kids[i]
    ensures Map(r, (k: Kid) => k.id) == Map(kids, (k: Kid) => k.id)
    ensures KidIds(r) == KidIds(kids)
  {
    var r := seq(|kids|, i requires 0 <= i < |kids| => if kids[i].id == id then ApplyKidPatch(kids[i], patch) else kids[i]);
    assert forall k :: k in kids ==> k.id in KidIds(r) by {
      forall k | k in kids ensures k.id in KidIds(r) {
        var i :| 0 <= i < |kids| && kids[i] == k;
        assert r[i].id == k.id;
      }
    }
    r
  }

  /** The `data` of a task update. */
  datatype TaskPatch = Retitle(title: string) | SetTaskActive(active: bool) | SetOrder(order: int)

  function ApplyTaskPatch(t: Task, patch: TaskPatch): Task
  {
    match patch
    case Retitle(title) => t.(title := title)
    case SetTaskActive(b) => t.(isActive := b)
    case SetOrder(n) => t.(order := n)
  }

  /** Every task with identity `id` receives the patch; the others are untouched. */
  function PatchTask(tasks: seq<Task>, id: Id, patch: TaskPatch): (r: seq<Task>)
    ensures |r| == |tasks|
    ensures forall i :: 0 <= i < |tasks| ==> r[i] == if tasks[i].id == id then ApplyTaskPatch(tasks[i], patch) else tasks[i]
    ensures Map(r, (t: Task) => t.id) == Map(tasks, (t: Task) => t.id)
    ensures TaskIds(r) == TaskIds(tasks)
  {
    var r := seq(|tasks|, i requires 0 <= i < |tasks| => if tasks[i].id == id then ApplyTaskPatch(tasks[i], patch) else tasks[i]);
    assert forall t :: t in tasks ==> t.id in TaskIds(r) by {
      forall t | t in tasks ensures t.id in TaskIds(r) {
        var i :| 0 <= i < |tasks| && tasks[i] == t;
        assert r[i].id == t.id;
      }
    }
    r
  }
}
