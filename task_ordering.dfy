/** The reorder panel of `src/components/dashboard/TaskOrdering.tsx`: a
    working copy of the task list that the arrows permute by swapping
    neighbours, saved through `reorderTasks` or reset to the props. */
module TaskOrdering {
  import opened Collections
  import opened Records
  import opened Pin
  import opened Store
  import opened TaskActions

  datatype Direction = Up | Down

  /** Where `moveTask(index, direction)` moves the element, if anywhere. */
  function SwapIndex(n: nat, index: nat, direction: Direction): Option<nat>
  {
    match direction
    case Up => if index == 0 then None else Some(index - 1)
    case Down => if index == n - 1 then None else Some(index + 1)
  }

  /** The list `moveTask` leaves: unchanged at the boundaries, otherwise the
      element and its neighbour trade places. */
  function Moved<T>(s: seq<T>, index: nat, direction: Direction): (r: seq<T>)
    requires index < |s|
    ensures |r| == |s|
    ensures multiset(r) == multiset(s)
    ensures SwapIndex(|s|, index, direction).None? ==> r == s
    ensures SwapIndex(|s|, index, direction).Some? ==>
      var j := SwapIndex(|s|, index, direction).value;
      && j < |s| && r[index] == s[j] && r[j] == s[index]
      && forall k :: 0 <= k < |s| && k != index && k != j ==> r[k] == s[k]
  {
    match SwapIndex(|s|, index, direction)
    case None => s
    case Some(j) =>
      SwapPermutes(s, index, j);
      s[index := s[j]][j := s[index]]
  }

  /** Exchanging two positions permutes the sequence. */
  lemma SwapPermutes<T>(s: seq<T>, i: nat, j: nat)
    requires i < |s| && j < |s|
    ensures multiset(s[i := s[j]][j := s[i]]) == multiset(s)
  {
    var a := s[i := s[j]];
    assert multiset(a) == multiset(s) - multiset{s[i]} + multiset{s[j]};
    assert multiset(a[j := s[i]]) == multiset(a) - multiset{a[j]} + multiset{s[i]};
  }

  /** Moving an element down and then moving it back up restores the list,
      and so does the reverse. */
  lemma MoveBackRestores<T>(s: seq<T>, index: nat)
    requires index + 1 < |s|
    ensures Moved(Moved(s, index, Down), index + 1, Up) == s
    ensures Moved(Moved(s, index + 1, Up), index, Down) == s
  {
    MovedNeighbours(s, index);
    MovedNeighbours(Moved(s, index, Down), index);
    MovedNeighbours(Moved(s, index + 1, Up), index);
    SwappedTwice(s, index);
  }

  /** Around an inner pair, both moves are the same exchange. */
  lemma MovedNeighbours<T>(s: seq<T>, index: nat)
    requires index + 1 < |s|
    ensures Moved(s, index, Down) == Moved(s, index + 1, Up) == Swapped(s, index)
  {
    assert SwapIndex(|s|, index, Down) == Some(index + 1);
    assert SwapIndex(|s|, index + 1, Up) == Some(index);
    var x := Moved(s, index, Down);
    var y := Moved(s, index + 1, Up);
    var z := Swapped(s, index);
    assert x == z by {
      forall k | 0 <= k < |s| ensures x[k] == z[k] {
      }
    }
    assert y == z by {
      forall k | 0 <= k < |s| ensures y[k] == z[k] {
      }
    }
  }

  /** `s` with positions `index` and `index + 1` exchanged. */
  function Swapped<T>(s: seq<T>, index: nat): (r: seq<T>)
    requires index + 1 < |s|
    ensures |r| == |s| && r[index] == s[index + 1] && r[index + 1] == s[index]
    ensures forall k :: 0 <= k < |s| && k != index && k != index + 1 ==> r[k] == s[k]
  {
    s[..index] + [s[index + 1], s[index]] + s[index + 2..]
  }

  /** Exchanging the same pair twice restores the sequence. */
  lemma SwappedTwice<T>(s: seq<T>, index: nat)
    requires index + 1 < |s|
    ensures Swapped(Swapped(s, index), index) == s
  {
    var t := Swapped(Swapped(s, index), index);
    forall k | 0 <= k < |s| ensures t[k] == s[k] {
    }
  }

  const PleaseUnlock: string := "Please unlock first"
  const PinNotFound: string := "PIN not found. Please unlock again."

  class TaskOrderingPanel {
    /** The `tasks` prop. */
    var tasks: seq<TaskOrderRow>
    var orderedTasks: seq<TaskOrderRow>
    var hasChanges: bool
    var error: Option<string>

    constructor(tasks: seq<TaskOrderRow>)
      ensures this.tasks == tasks && orderedTasks == tasks
      ensures !hasChanges && error.None?
    {
      this.tasks := tasks;
      orderedTasks := tasks;
      hasChanges := false;
      error := None;
    }

    /** The effect on `[tasks]`: new props replace the working copy. */
    method TasksChanged(newTasks: seq<TaskOrderRow>)
      modifies this
      ensures tasks == newTasks && orderedTasks == newTasks
      ensures hasChanges == old(hasChanges) && error == old(error)
    {
      tasks := newTasks;
      orderedTasks := newTasks;
    }

    /** `moveTask`: swaps on a copy of the list, then installs the copy. */
    method MoveTask(index: nat, direction: Direction)
      requires index < |orderedTasks|
      modifies this
      ensures orderedTasks == Moved(old(orderedTasks), index, direction)
      ensures SwapIndex(|old(orderedTasks)|, index, direction).None? ==> hasChanges == old(hasChanges)
      ensures SwapIndex(|old(orderedTasks)|, index, direction).Some? ==> hasChanges
      ensures tasks == old(tasks) && error == old(error)
    {
      var swapIndex := SwapIndex(|orderedTasks|, index, direction);
      if swapIndex.None? {
        return;
      }
      var j := swapIndex.value;
      var current := orderedTasks;
      var newTasks := new TaskOrderRow[|current|](k requires 0 <= k < |current| => current[k]);
      newTasks[index], newTasks[j] := newTasks[j], newTasks[index];
      orderedTasks := newTasks[..];
      hasChanges := true;
    }

    /** `handleSave`: needs an unlocked session and a stored pin, then sends
        the ids in the displayed order. */
    method HandleSave(db: Store, adminPin: Option<string>, isAuthenticated: bool, storedPin: Option<string>)
      requires db.Valid()
      modifies this, db
      ensures db.Valid()
      ensures tasks == old(tasks) && orderedTasks == old(orderedTasks)
      ensures !isAuthenticated ==>
        error == Some(PleaseUnlock) && hasChanges == old(hasChanges) && unchanged(db)
      ensures isAuthenticated && (storedPin.None? || storedPin.value == "") ==>
        error == Some(PinNotFound) && hasChanges == old(hasChanges) && unchanged(db)
      ensures isAuthenticated && storedPin.Some? && storedPin.value != "" && !ValidatePin(adminPin, storedPin.value) ==>
        error == Some(Message(InvalidPin)) && hasChanges == old(hasChanges) && unchanged(db)
      ensures isAuthenticated && storedPin.Some? && storedPin.value != "" && ValidatePin(adminPin, storedPin.value) ==>
        var ids := Map(old(orderedTasks), (t: TaskOrderRow) => t.id);
        && db.tasks == Reordered(old(db.tasks), ids)
        && (AllKnown(ids, old(db.tasks)) ==> error.None? && !hasChanges)
        && (!AllKnown(ids, old(db.tasks)) ==> error == Some(Message(RecordNotFound)) && hasChanges == old(hasChanges))
        && db.kids == old(db.kids) && db.assignments == old(db.assignments) && db.logs == old(db.logs)
        && db.arrangements == old(db.arrangements) && db.nextId == old(db.nextId)
    {
      if !isAuthenticated {
        error := Some(PleaseUnlock);
        return;
      }
      if storedPin.None? || storedPin.value == "" {
        error := Some(PinNotFound);
        return;
      }
      error := None;
      var r := ReorderTasks(db, adminPin, Map(orderedTasks, (t: TaskOrderRow) => t.id), storedPin.value);
      if r.Ok? {
        assert r.value == Success;
        assert r == Ok(Success);
        hasChanges := false;
      } else {
        error := Some(Message(r.error));
      }
    }

    /** `handleReset`: back to the props, with nothing pending. */
    method HandleReset()
      modifies this
      ensures orderedTasks == tasks && tasks == old(tasks)
      ensures !hasChanges && error.None?
    {
      orderedTasks := tasks;
      hasChanges := false;
      error := None;
    }
  }
}
