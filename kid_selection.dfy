/** The rule the dashboard applies in `RegularTaskChart`,
    `AddCompletionModal` and `TenMinTasksOverview`: a task with no assigned
    kids is everyone's task, otherwise it belongs to the assigned kids. */
module KidSelection {
  import opened Collections
  import opened Records
  import opened Analytics

  /** The `{ id, firstName }` a component receives for each kid. */
  datatype KidRef = KidRef(id: Id, firstName: string)

  /** `assignedKids.some(ak => ak.kidId === kidId)`. */
  predicate Listed(assignedKids: seq<AssignedKid>, kidId: Id)
  {
    exists ak :: ak in assignedKids && ak.kidId == kidId
  }

  /** `!assignedKids || assignedKids.length === 0 || assignedKids.some(...)`:
      whether the task counts for the kid. */
  predicate IsAssigned(assignedKids: seq<AssignedKid>, kidId: Id)
  {
    |assignedKids| == 0 || Listed(assignedKids, kidId)
  }

  /** `assignedKids && assignedKids.length > 0 ? kids.filter(...) : kids`. */
  function AvailableKids(kids: seq<KidRef>, assignedKids: seq<AssignedKid>): (r: seq<KidRef>)
    ensures |assignedKids| == 0 ==> r == kids
    ensures forall k :: k in r <==> k in kids && IsAssigned(assignedKids, k.id)
  {
    if |assignedKids| > 0 then
      var listed := (k: KidRef) => Listed(assignedKids, k.id);
      FilterMembers(kids, listed);
      Filter(kids, listed)
    else kids
  }

  /** Both branches are one order-preserving filter by `IsAssigned`, so the
      component and the points computation agree on who a task is for. */
  lemma AvailableKidsIsFilter(kids: seq<KidRef>, assignedKids: seq<AssignedKid>)
    ensures AvailableKids(kids, assignedKids) == Filter(kids, (k: KidRef) => IsAssigned(assignedKids, k.id))
  {
    var p := (k: KidRef) => IsAssigned(assignedKids, k.id);
    if |assignedKids| > 0 {
      FilterCongruent(kids, (k: KidRef) => Listed(assignedKids, k.id), p);
    } else {
      FilterAll(kids, p);
    }
  }
}
