/** The "Add Completion" dialog of
    `src/components/dashboard/AddCompletionModal.tsx`: it offers the kids the
    task is for and, on submit, logs one completion for the selected kid
    through `createCompletion`. */
module AddCompletionModal {
  import opened Records
  import opened Pin
  import opened Store
  import opened Analytics
  import opened KidSelection
  import opened LogActions

  const SelectKidFirst: string := "Please select a kid"

  /** `sessionStorage.getItem('haushalt_pin') || ''`. */
  function SessionPin(storedPin: Option<string>): (pin: string)
    ensures storedPin.None? ==> pin == ""
    ensures storedPin.Some? ==> pin == storedPin.value
  {
    if storedPin.Some? then storedPin.value else ""
  }

  class CompletionForm {
    const taskId: Id
    const assignedKids: seq<AssignedKid>
    /** `selectedKidId`; `None` is the empty "Select a kid..." choice. */
    var selectedKid: Option<Id>
    var loading: bool
    var error: string
    /** Whether `onClose()` has been called. */
    var closed: bool

    constructor(taskId: Id, assignedKids: seq<AssignedKid>)
      ensures this.taskId == taskId && this.assignedKids == assignedKids
      ensures selectedKid.None? && !loading && error == "" && !closed
    {
      this.taskId := taskId;
      this.assignedKids := assignedKids;
      selectedKid := None;
      loading := false;
      error := "";
      closed := false;
    }

    /** `availableKids`: the kids offered in the drop-down. */
    function AvailableKidsOf(kids: seq<KidRef>): seq<KidRef>
    {
      AvailableKids(kids, assignedKids)
    }

    /** The 'No kids are assigned to this task' alert. */
    predicate ShowsNoKidsAlert(kids: seq<KidRef>)
    {
      |AvailableKidsOf(kids)| == 0
    }

    /** The alert shows exactly when the task is for none of the kids. */
    lemma NoKidsAlertIffNobodyAssigned(kids: seq<KidRef>)
      ensures ShowsNoKidsAlert(kids) <==> forall k :: k in kids ==> !IsAssigned(assignedKids, k.id)
      ensures |assignedKids| == 0 ==> (ShowsNoKidsAlert(kids) <==> |kids| == 0)
    {
      var r := AvailableKidsOf(kids);
      if |r| > 0 {
        assert r[0] in r;
      }
    }

    /** The drop-down's `onChange`. */
    method Select(kidId: Option<Id>)
      modifies this
      ensures selectedKid == kidId
      ensures loading == old(loading) && error == old(error) && closed == old(closed)
    {
      selectedKid := kidId;
    }

    /** `handleSubmit`: refuses an empty selection, otherwise calls
        `createCompletion` with the selected kid, this task, the stored pin
        and no minutes; closes on success, shows the error otherwise. */
    method HandleSubmit(db: Store, adminPin: Option<string>, storedPin: Option<string>, now: int)
      requires db.Valid()
      modifies this, db
      ensures db.Valid()
      ensures selectedKid == old(selectedKid)
      ensures old(selectedKid).None? ==>
        error == SelectKidFirst && loading == old(loading) && closed == old(closed) && unchanged(db)
      ensures old(selectedKid).Some? ==> !loading
      ensures old(selectedKid).Some? && !ValidatePin(adminPin, SessionPin(storedPin)) ==>
        error == Message(InvalidPin) && closed == old(closed) && unchanged(db)
      ensures (&& old(selectedKid).Some? && ValidatePin(adminPin, SessionPin(storedPin))
               && (old(selectedKid).value !in KidIds(old(db.kids)) || taskId !in TaskIds(old(db.tasks)))) ==>
        error == Message(ForeignKeyViolation) && closed == old(closed) && unchanged(db)
      ensures (&& old(selectedKid).Some? && ValidatePin(adminPin, SessionPin(storedPin))
               && old(selectedKid).value in KidIds(old(db.kids)) && taskId in TaskIds(old(db.tasks))) ==>
        && error == "" && closed
        && db.logs == old(db.logs) + [CompletionLog(old(db.nextId), old(selectedKid).value, taskId, None, now)]
        && db.nextId == old(db.nextId) + 1
        && db.kids == old(db.kids) && db.tasks == old(db.tasks)
        && db.assignments == old(db.assignments) && db.arrangements == old(db.arrangements)
    {
      error := "";
      if selectedKid.None? {
        error := SelectKidFirst;
        return;
      }
      loading := true;
      var pin := SessionPin(storedPin);
      var r := CreateCompletion(db, adminPin, selectedKid.value, taskId, None, pin, now);
      if r.Ok? {
        closed := true;
      } else {
        error := Message(r.error);
      }
      loading := false;
    }
  }
}
