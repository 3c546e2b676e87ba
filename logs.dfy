/** The completion-log server actions of `src/actions/logs.ts`: a pin-gated
    append, a pin-gated hard delete, and the recent-history query. */
module LogActions {
  import opened Collections
  import opened Records
  import opened Pin
  import opened Store

  /** `minutes || null`: an absent or zero input is stored as null. */
  function StoredMinutes(minutes: Option<int>): (r: Option<int>)
    ensures r.None? <==> (minutes.None? || minutes.value == 0)
    ensures r.Some? ==> r == minutes
  {
    if minutes.Some? && minutes.value != 0 then minutes else None
  }

  /** `createCompletion`: the log gets the next identity and the creation
      time `now` (the database's `now()` default). */
  method CreateCompletion(db: Store, adminPin: Option<string>, kidId: Id, taskId: Id, minutes: Option<int>, pin: string, now: int)
    returns (r: Result<CompletionLog>)
    requires db.Valid()
    modifies db
    ensures db.Valid()
    ensures !ValidatePin(adminPin, pin) ==> r == Err(InvalidPin) && unchanged(db)
    ensures ValidatePin(adminPin, pin) && (kidId !in KidIds(old(db.kids)) || taskId !in TaskIds(old(db.tasks))) ==>
      r == Err(ForeignKeyViolation) && unchanged(db)
    ensures ValidatePin(adminPin, pin) && kidId in KidIds(old(db.kids)) && taskId in TaskIds(old(db.tasks)) ==>
      && r == Ok(CompletionLog(old(db.nextId), kidId, taskId, StoredMinutes(minutes), now))
      && db.logs == old(db.logs) + [r.value]
      && db.nextId == old(db.nextId) + 1
      && db.kids == old(db.kids) && db.tasks == old(db.tasks)
      && db.assignments == old(db.assignments) && db.arrangements == old(db.arrangements)
  {
    if !ValidatePin(adminPin, pin) {
      return Err(InvalidPin);
    }
    if kidId !in KidIds(db.kids) || taskId !in TaskIds(db.tasks) {
      return Err(ForeignKeyViolation);
    }
    var id := db.NewId();
    var log := CompletionLog(id, kidId, taskId, StoredMinutes(minutes), now);
    AppendFreshId(db.logs, log, (c: CompletionLog) => c.id);
    db.logs := db.logs + [log];
    r := Ok(log);
  }

  /** `findUnique({ where: { id } })` on logs. */
  function FindLog(logs: seq<CompletionLog>, id: Id): (r: Option<CompletionLog>)
    ensures r.Some? <==> id in LogIds(logs)
    ensures r.Some? ==> r.value in logs && r.value.id == id
  {
    if logs == [] then None
    else if logs[0].id == id then Some(logs[0])
    else
      assert LogIds(logs) == {logs[0].id} + LogIds(logs[1..]) by {
        assert logs == [logs[0]] + logs[1..];
      }
      FindLog(logs[1..], id)
  }

  /** The log table without the row `id`. */
  function RemoveLog(logs: seq<CompletionLog>, id: Id): (r: seq<CompletionLog>)
    ensures forall c :: c in r <==> c in logs && c.id != id
  {
    FilterMembers(logs, (c: CompletionLog) => c.id != id);
    Filter(logs, (c: CompletionLog) => c.id != id)
  }

  /** With unique identities exactly one row goes, the others keep their order. */
  lemma RemoveLogRemovesOne(logs: seq<CompletionLog>, i: nat)
    requires i < |logs|
    requires Distinct(Map(logs, (c: CompletionLog) => c.id))
    ensures RemoveLog(logs, logs[i].id) == logs[..i] + logs[i + 1..]
  {
    var id := logs[i].id;
    var ids := Map(logs, (c: CompletionLog) => c.id);
    forall j | 0 <= j < |logs| && j != i ensures logs[j].id != id {
      if j < i {
        assert ids[j] != ids[i];
      } else {
        assert ids[i] != ids[j];
      }
    }
    FilterDropsOne(logs, i, (c: CompletionLog) => c.id != id);
  }

  /** `deleteCompletion`: removes the row for good. */
  method DeleteCompletion(db: Store, adminPin: Option<string>, id: Id, pin: string) returns (r: Result<CompletionLog>)
    requires db.Valid()
    modifies db
    ensures db.Valid()
    ensures !ValidatePin(adminPin, pin) ==> r == Err(InvalidPin) && unchanged(db)
    ensures ValidatePin(adminPin, pin) && id !in LogIds(old(db.logs)) ==> r == Err(RecordNotFound) && unchanged(db)
    ensures ValidatePin(adminPin, pin) && id in LogIds(old(db.logs)) ==>
      && r == Ok(FindLog(old(db.logs), id).value)
      && db.logs == RemoveLog(old(db.logs), id)
      && db.nextId == old(db.nextId) && db.kids == old(db.kids) && db.tasks == old(db.tasks)
      && db.assignments == old(db.assignments) && db.arrangements == old(db.arrangements)
  {
    if !ValidatePin(adminPin, pin) {
      return Err(InvalidPin);
    }
    var found := FindLog(db.logs, id);
    if found.None? {
      return Err(RecordNotFound);
    }
    var rest := RemoveLog(db.logs, id);
    var i :| 0 <= i < |db.logs| && db.logs[i] == found.value;
    RemoveLogRemovesOne(db.logs, i);
    DistinctSlices(db.logs, i);
    db.logs := rest;
    r := Ok(found.value);
  }

  /** Dropping one row keeps the remaining identities distinct. */
  lemma DistinctSlices(logs: seq<CompletionLog>, i: nat)
    requires i < |logs|
    requires Distinct(Map(logs, (c: CompletionLog) => c.id))
    ensures Distinct(Map(logs[..i] + logs[i + 1..], (c: CompletionLog) => c.id))
  {
    var rest := logs[..i] + logs[i + 1..];
    var ids := Map(logs, (c: CompletionLog) => c.id);
    var restIds := Map(rest, (c: CompletionLog) => c.id);
    forall a, b | 0 <= a < b < |restIds| ensures restIds[a] != restIds[b] {
      var a' := if a < i then a else a + 1;
      var b' := if b < i then b else b + 1;
      assert rest[a] == logs[a'] && rest[b] == logs[b'];
      assert ids[a'] != ids[b'];
    }
  }

  // ---------------------------------------------------------------------
  // getRecentCompletions

  /** `orderBy: { createdAt: 'desc' }`. */
  predicate NewestFirst(a: CompletionLog, b: CompletionLog)
  {
    a.createdAt >= b.createdAt
  }

  /** `getRecentCompletions`: the logs created at or after `startDate`,
      newest first. */
  function RecentCompletions(logs: seq<CompletionLog>, startDate: int): (r: seq<CompletionLog>)
    ensures multiset(r) == multiset(Filter(logs, (c: CompletionLog) => c.createdAt >= startDate))
    ensures forall c :: c in r <==> c in logs && c.createdAt >= startDate
    ensures forall i, j :: 0 <= i < j < |r| ==> r[i].createdAt >= r[j].createdAt
  {
    var recent := Filter(logs, (c: CompletionLog) => c.createdAt >= startDate);
    assert IsTotalPreorder(NewestFirst);
    SortBySorted(recent, NewestFirst);
    SortByMembers(recent, NewestFirst);
    FilterMembers(logs, (c: CompletionLog) => c.createdAt >= startDate);
    var r := SortBy(recent, NewestFirst);
    assert forall i, j :: 0 <= i < j < |r| ==> NewestFirst(r[i], r[j]);
    r
  }
}
