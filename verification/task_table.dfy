/** The task table's confirmation state machine: inline edit, complete with a
    chosen date, reopen, and delete after confirmation. Each handler returns
    the request it hands to the parent (`onUpdateTask` / `onDeleteTask`). */
module TaskTable {
  import opened TaskModel
  import TaskController

  /** `users.find(u => u.id === id)`: the first user with that id. */
  function FindUser(users: seq<User>, id: Option<int>): (r: Option<User>)
    ensures r.Some? ==> r.value in users && id == Some(r.value.id)
    ensures r.None? ==> forall i :: 0 <= i < |users| ==> id != Some(users[i].id)
    ensures r.Some? ==> exists i :: (0 <= i < |users| && users[i] == r.value
                                     && forall j :: 0 <= j < i ==> id != Some(users[j].id))
  {
    if users == [] then None
    else if id == Some(users[0].id) then Some(users[0])
    else
      var rest := FindUser(users[1..], id);
      if rest.Some? then
        assert forall j :: 1 <= j < |users| ==> users[j] == users[1..][j - 1];
        rest
      else rest
  }

  /** The task `saveEdit` sends: the edited title and the matching user, or none. */
  function Edited(t: Task, title: string, users: seq<User>, editUserId: Option<int>): (r: Task)
    ensures r.title == title
    ensures r.userId.Some? <==> exists i :: 0 <= i < |users| && editUserId == Some(users[i].id)
    ensures r.userId.Some? ==> r.userId == editUserId
    ensures r.(title := t.title, userId := t.userId) == t
  {
    var u := FindUser(users, editUserId);
    t.(title := title, userId := if u.Some? then Some(u.value.id) else None)
  }

  /** The task the row toggle sends for a completed task: open, with no completion date. */
  function Reopened(t: Task): (r: Task)
    ensures !r.completed && CompletionConsistent(r)
    ensures r.(completed := t.completed, completedAt := t.completedAt) == t
  {
    t.(completed := false, completedAt := None)
  }

  /** The task `confirmComplete` sends: completed at the chosen date. */
  function MarkedComplete(t: Task, at: Option<Timestamp>): (r: Task)
    ensures r.completed && r.completedAt == at
    ensures at.Some? ==> CompletionConsistent(r)
    ensures r.(completed := t.completed, completedAt := t.completedAt) == t
  {
    t.(completed := true, completedAt := at)
  }

  /** The client's two completion paths leave a consistent task exactly as
      the server's toggle does: reopening a completed task, and completing an
      open one at the moment of the toggle. */
  lemma ClientCompletionMatchesServerToggle(t: Task, now: Timestamp)
    requires CompletionConsistent(t)
    ensures t.completed ==> Reopened(t) == TaskController.Toggled(t, now)
    ensures !t.completed ==> MarkedComplete(t, Some(now)) == TaskController.Toggled(t, now)
  {
  }

  /** The component state of the table. */
  class TaskTableState {
    var editingId: Option<int>
    var editTitle: string
    var editUserId: Option<int>
    var completeModalOpen: bool
    var taskToComplete: Option<Task>
    var completedAt: Option<Timestamp>
    var confirmOpen: bool
    var taskToDelete: Option<int>

    /** A modal is open exactly while it has something pending. */
    ghost predicate Valid()
      reads this
    {
      && (completeModalOpen <==> taskToComplete.Some?)
      && (confirmOpen <==> taskToDelete.Some?)
    }

    constructor ()
      ensures Valid()
      ensures editingId.None? && editTitle == "" && editUserId.None?
      ensures !completeModalOpen && taskToComplete.None? && completedAt.None?
      ensures !confirmOpen && taskToDelete.None?
    {
      editingId := None;
      editTitle := "";
      editUserId := None;
      completeModalOpen := false;
      taskToComplete := None;
      completedAt := None;
      confirmOpen := false;
      taskToDelete := None;
    }

    /** `saveEdit`: send the task with the edited title and user, then reset the edit state. */
    method SaveEdit(t: Task, users: seq<User>) returns (sent: Task)
      requires Valid()
      modifies this
      ensures Valid()
      ensures sent == Edited(t, old(editTitle), users, old(editUserId))
      ensures editingId.None? && editTitle == "" && editUserId.None?
      ensures completeModalOpen == old(completeModalOpen) && taskToComplete == old(taskToComplete)
      ensures completedAt == old(completedAt)
      ensures confirmOpen == old(confirmOpen) && taskToDelete == old(taskToDelete)
    {
      sent := Edited(t, editTitle, users, editUserId);
      editingId := None;
      editTitle := "";
      editUserId := None;
    }

    /** `cancelEdit`: reset the edit state, send nothing. */
    method CancelEdit()
      requires Valid()
      modifies this
      ensures Valid()
      ensures editingId.None? && editTitle == "" && editUserId.None?
      ensures completeModalOpen == old(completeModalOpen) && taskToComplete == old(taskToComplete)
      ensures completedAt == old(completedAt)
      ensures confirmOpen == old(confirmOpen) && taskToDelete == old(taskToDelete)
    {
      editingId := None;
      editTitle := "";
      editUserId := None;
    }

    /** `openCompleteModal`: remember the task, preset the date to now, open the modal. */
    method OpenCompleteModal(t: Task, now: Timestamp)
      requires Valid()
      modifies this
      ensures Valid()
      ensures taskToComplete == Some(t) && completedAt == Some(now) && completeModalOpen
      ensures editingId == old(editingId) && editTitle == old(editTitle) && editUserId == old(editUserId)
      ensures confirmOpen == old(confirmOpen) && taskToDelete == old(taskToDelete)
    {
      taskToComplete := Some(t);
      completedAt := Some(now);
      completeModalOpen := true;
    }

    /** The date input of the complete modal. */
    method ChangeCompletedAt(value: Option<Timestamp>)
      requires Valid()
      modifies this
      ensures Valid()
      ensures completedAt == value
      ensures completeModalOpen == old(completeModalOpen) && taskToComplete == old(taskToComplete)
      ensures editingId == old(editingId) && editTitle == old(editTitle) && editUserId == old(editUserId)
      ensures confirmOpen == old(confirmOpen) && taskToDelete == old(taskToDelete)
    {
      completedAt := value;
    }

    /** `confirmComplete`: with no pending task nothing happens; otherwise
        send it completed at the chosen date and close the modal. */
    method ConfirmComplete() returns (sent: Option<Task>)
      requires Valid()
      modifies this
      ensures Valid()
      ensures completedAt == old(completedAt)
      ensures editingId == old(editingId) && editTitle == old(editTitle) && editUserId == old(editUserId)
      ensures confirmOpen == old(confirmOpen) && taskToDelete == old(taskToDelete)
      ensures old(taskToComplete).None? ==>
        sent.None? && taskToComplete.None? && completeModalOpen == old(completeModalOpen)
      ensures old(taskToComplete).Some? ==>
        && sent == Some(MarkedComplete(old(taskToComplete).value, old(completedAt)))
        && taskToComplete.None? && !completeModalOpen
    {
      if taskToComplete.None? {
        return None;
      }
      sent := Some(MarkedComplete(taskToComplete.value, completedAt));
      taskToComplete := None;
      completeModalOpen := false;
    }

    /** The complete modal's `onClose`. */
    method CloseCompleteModal()
      requires Valid()
      modifies this
      ensures Valid()
      ensures !completeModalOpen && taskToComplete.None? && completedAt == old(completedAt)
      ensures editingId == old(editingId) && editTitle == old(editTitle) && editUserId == old(editUserId)
      ensures confirmOpen == old(confirmOpen) && taskToDelete == old(taskToDelete)
    {
      completeModalOpen := false;
      taskToComplete := None;
    }

    /** `removeTask`: remember the id and ask for confirmation. */
    method RemoveTask(id: int)
      requires Valid()
      modifies this
      ensures Valid()
      ensures taskToDelete == Some(id) && confirmOpen
      ensures editingId == old(editingId) && editTitle == old(editTitle) && editUserId == old(editUserId)
      ensures completeModalOpen == old(completeModalOpen) && taskToComplete == old(taskToComplete)
      ensures completedAt == old(completedAt)
    {
      taskToDelete := Some(id);
      confirmOpen := true;
    }

    /** `confirmDelete`: a falsy pending id (none, or 0) does nothing;
        otherwise send the delete and close the confirmation. */
    method ConfirmDelete() returns (sent: Option<int>)
      requires Valid()
      modifies this
      ensures Valid()
      ensures editingId == old(editingId) && editTitle == old(editTitle) && editUserId == old(editUserId)
      ensures completeModalOpen == old(completeModalOpen) && taskToComplete == old(taskToComplete)
      ensures completedAt == old(completedAt)
      ensures (old(taskToDelete).None? || old(taskToDelete) == Some(0)) ==>
        sent.None? && taskToDelete == old(taskToDelete) && confirmOpen == old(confirmOpen)
      ensures old(taskToDelete).Some? && old(taskToDelete) != Some(0) ==>
        sent == old(taskToDelete) && taskToDelete.None? && !confirmOpen
    {
      if taskToDelete.None? || taskToDelete == Some(0) {
        return None;
      }
      sent := taskToDelete;
      taskToDelete := None;
      confirmOpen := false;
    }

    /** The confirmation's `onCancel`. */
    method CancelDelete()
      requires Valid()
      modifies this
      ensures Valid()
      ensures !confirmOpen && taskToDelete.None?
      ensures editingId == old(editingId) && editTitle == old(editTitle) && editUserId == old(editUserId)
      ensures completeModalOpen == old(completeModalOpen) && taskToComplete == old(taskToComplete)
      ensures completedAt == old(completedAt)
    {
      confirmOpen := false;
      taskToDelete := None;
    }

    /** The Cancel button of the delete confirmation as the page wires it:
        the closure is passed as `onCancel`, a prop the confirmation never
        reads, and the button calls the `onClose` it was not given. Nothing
        changes. */
    method CancelClickedAsWired()
      requires Valid()
      modifies this
      ensures Valid()
      ensures editingId == old(editingId) && editTitle == old(editTitle) && editUserId == old(editUserId)
      ensures completeModalOpen == old(completeModalOpen) && taskToComplete == old(taskToComplete)
      ensures completedAt == old(completedAt)
      ensures confirmOpen == old(confirmOpen) && taskToDelete == old(taskToDelete)
    {
    }

    /** As wired, asking to delete a task and then pressing Cancel leaves the
        confirmation open with the task still pending; only Confirm closes it. */
    method RemoveThenCancelAsWired(id: int)
      requires Valid()
      modifies this
      ensures Valid()
      ensures confirmOpen && taskToDelete == Some(id)
    {
      RemoveTask(id);
      CancelClickedAsWired();
    }

    /** As intended, asking to delete a task and then cancelling closes the
        confirmation with nothing pending and nothing sent. */
    method RemoveThenCancel(id: int)
      requires Valid()
      modifies this
      ensures Valid()
      ensures !confirmOpen && taskToDelete.None?
    {
      RemoveTask(id);
      CancelDelete();
    }

    /** The row's status button: a completed task is sent back open at once;
        an open task is not sent but opens the complete modal. */
    method ToggleRow(t: Task, now: Timestamp) returns (sent: Option<Task>)
      requires Valid()
      modifies this
      ensures Valid()
      ensures editingId == old(editingId) && editTitle == old(editTitle) && editUserId == old(editUserId)
      ensures confirmOpen == old(confirmOpen) && taskToDelete == old(taskToDelete)
      ensures t.completed ==>
        && sent == Some(Reopened(t))
        && completeModalOpen == old(completeModalOpen) && taskToComplete == old(taskToComplete)
        && completedAt == old(completedAt)
      ensures !t.completed ==>
        sent.None? && taskToComplete == Some(t) && completedAt == Some(now) && completeModalOpen
    {
      if t.completed {
        sent := Some(Reopened(t));
      } else {
        OpenCompleteModal(t, now);
        sent := None;
      }
    }
  }
}
