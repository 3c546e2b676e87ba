/** The database the server actions talk to, held in memory: one table per
    record kind, kept in insertion order. `findMany` without `orderBy`
    promises no order at all; the model fixes insertion order as one
    possible answer. */
module Store {
  import opened Collections
  import opened Records

  class Store {
    var kids: seq<Kid>
    var tasks: seq<Task>
    var assignments: seq<Assignment>
    var logs: seq<CompletionLog>
    var arrangements: seq<SleepingArrangement>
    /** Every identity handed out so far is below `nextId`. */
    var nextId: Id

    /** The integrity the database enforces: unique primary keys, and
        foreign keys from assignments and logs to existing kids and tasks. */
    ghost predicate Valid()
      reads this
    {
      && Distinct(Map(kids, (k: Kid) => k.id))
      && Distinct(Map(tasks, (t: Task) => t.id))
      && Distinct(Map(logs, (c: CompletionLog) => c.id))
      && Distinct(Map(arrangements, (a: SleepingArrangement) => a.id))
      && (forall i :: 0 <= i < |kids| ==> kids[i].id < nextId)
      && (forall i :: 0 <= i < |tasks| ==> tasks[i].id < nextId)
      && (forall i :: 0 <= i < |logs| ==> logs[i].id < nextId)
      && (forall i :: 0 <= i < |arrangements| ==> arrangements[i].id < nextId)
      && (forall a :: a in assignments ==> a.kidId in KidIds(kids) && a.taskId in TaskIds(tasks))
      && (forall c :: c in logs ==> c.kidId in KidIds(kids) && c.taskId in TaskIds(tasks))
    }

    constructor ()
      ensures Valid()
      ensures kids == [] && tasks == [] && assignments == [] && logs == [] && arrangements == []
    {
      kids, tasks, assignments, logs, arrangements := [], [], [], [], [];
      nextId := 0;
    }

    /** The identity the database gives the next inserted row. */
    method NewId() returns (id: Id)
      requires Valid()
      modifies this`nextId
      ensures Valid()
      ensures id == old(nextId) && nextId == id + 1
      ensures id !in KidIds(kids) && id !in TaskIds(tasks) && id !in LogIds(logs) && id !in ArrangementIds(arrangements)
    {
      id := nextId;
      nextId := nextId + 1;
      forall k | k in kids ensures k.id != id {
        var i :| 0 <= i < |kids| && kids[i] == k;
      }
      forall t | t in tasks ensures t.id != id {
        var i :| 0 <= i < |tasks| && tasks[i] == t;
      }
      forall c | c in logs ensures c.id != id {
        var i :| 0 <= i < |logs| && logs[i] == c;
      }
      forall a | a in arrangements ensures a.id != id {
        var i :| 0 <= i < |arrangements| && arrangements[i] == a;
      }
    }

    /** `task.create`: insert a task under the next identity. */
    method InsertTask(title: string, group: TaskGroup, isActive: bool, order: int) returns (t: Task)
      requires Valid()
      modifies this`nextId, this`tasks
      ensures Valid()
      ensures t == Task(old(nextId), title, group, isActive, order)
      ensures tasks == old(tasks) + [t] && nextId == old(nextId) + 1
    {
      var id := NewId();
      t := Task(id, title, group, isActive, order);
      AppendFreshId(tasks, t, (x: Task) => x.id);
      assert TaskIds(tasks + [t]) == TaskIds(tasks) + {id};
      tasks := tasks + [t];
    }

    /** `taskKidAssignment.createMany` of rows whose foreign keys hold. */
    method InsertAssignments(rows: seq<Assignment>)
      requires Valid()
      requires forall a :: a in rows ==> a.kidId in KidIds(kids) && a.taskId in TaskIds(tasks)
      modifies this`assignments
      ensures Valid()
      ensures assignments == old(assignments) + rows
    {
      assignments := assignments + rows;
    }

    /** Overwrite the task table with rows that carry the same identities
        in the same positions. */
    method SetTasks(rows: seq<Task>)
      requires Valid()
      requires Map(rows, (t: Task) => t.id) == Map(tasks, (t: Task) => t.id)
      modifies this`tasks
      ensures Valid()
      ensures tasks == rows
    {
      var ids := Map(tasks, (t: Task) => t.id);
      forall j | 0 <= j < |rows| ensures rows[j].id == tasks[j].id {
        assert Map(rows, (t: Task) => t.id)[j] == ids[j];
      }
      forall x ensures x in TaskIds(rows) <==> x in TaskIds(tasks) {
        if x in TaskIds(rows) {
          var t :| t in rows && t.id == x;
          var j :| 0 <= j < |rows| && rows[j] == t;
          assert tasks[j].id == x;
        }
        if x in TaskIds(tasks) {
          var t :| t in tasks && t.id == x;
          var j :| 0 <= j < |tasks| && tasks[j] == t;
          assert rows[j].id == x;
        }
      }
      tasks := rows;
    }
  }

  /** Appending a row whose identity is new keeps the identities distinct. */
  lemma AppendFreshId<T>(rows: seq<T>, row: T, id: T -> Id)
    requires Distinct(Map(rows, id))
    requires forall i :: 0 <= i < |rows| ==> id(rows[i]) != id(row)
    ensures Distinct(Map(rows + [row], id))
  {
    var m := Map(rows + [row], id);
    forall a, b | 0 <= a < b < |m| ensures m[a] != m[b] {
      if b < |rows| {
        assert m[a] == Map(rows, id)[a] && m[b] == Map(rows, id)[b];
      } else {
        assert (rows + [row])[a] == rows[a];
      }
    }
  }
}
