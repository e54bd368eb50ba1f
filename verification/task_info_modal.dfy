/** The task details editor: its edit state, the in-editor completion toggle,
    cancel/restore, and the ordered date checks that guard the PATCH it sends.
    A date field is `None` when its input is empty. */
module TaskInfoModal {
  import opened TaskModel

  /** The four refusals of a save, in the order they are checked. */
  datatype EditError =
    | CreationRequired
    | ExpirationBeforeCreation
    | CompletionRequired
    | CompletionBeforeCreation

  /** The editable fields as the form holds them. */
  datatype Draft = Draft(
    title: string,
    userId: Option<int>,
    completed: bool,
    createdAt: Option<Timestamp>,
    completedAt: Option<Timestamp>,
    expiration: Option<Timestamp>)

  /** The body of the PATCH request a successful save sends. */
  datatype Payload = Payload(
    title: string,
    userId: Option<int>,
    completed: bool,
    createdAt: Timestamp,
    completedAt: Option<Timestamp>,
    expiration: Option<Timestamp>)

  const CreationRequiredMessage := "Creation date is required."
  const ExpirationBeforeCreationMessage := "Expiration date cannot be before creation date."
  const CompletionRequiredMessage := "Completion date is required."
  const CompletionBeforeCreationMessage := "Completed date cannot be before creation date."

  /** `userId || null` on a value that is a number or '': both '' and 0 become null. */
  function UserIdOrNull(userId: Option<int>): (r: Option<int>)
    ensures r.Some? <==> userId.Some? && userId.value != 0
    ensures r.Some? ==> r == userId
  {
    if userId.Some? && userId.value != 0 then userId else None
  }

  /** The date rules a saved task obeys, independent of the order they are checked in. */
  predicate DatesOrdered(d: Draft) {
    && d.createdAt.Some?
    && (d.expiration.Some? ==> d.expiration.value >= d.createdAt.value)
    && (d.completed ==> d.completedAt.Some?)
    && (d.completedAt.Some? ==> d.completedAt.value >= d.createdAt.value)
  }

  /** The task invariants a payload carries to the server. */
  predicate PayloadOrdered(p: Payload) {
    && (p.completed <==> p.completedAt.Some?)
    && (p.completedAt.Some? ==> p.completedAt.value >= p.createdAt)
    && (p.expiration.Some? ==> p.expiration.value >= p.createdAt)
  }

  /** The decision of `saveChanges`: the checks run in order and the first
      failure is the one reported; otherwise the normalised payload. */
  function CheckEdit(d: Draft): (r: Result<Payload, EditError>)
    ensures r.Success? <==> DatesOrdered(d)
    ensures r == Failure(CreationRequired) <==> d.createdAt.None?
    ensures r == Failure(ExpirationBeforeCreation) <==>
      d.createdAt.Some? && d.expiration.Some? && d.expiration.value < d.createdAt.value
    ensures r == Failure(CompletionRequired) <==>
      && d.createdAt.Some? && !(d.expiration.Some? && d.expiration.value < d.createdAt.value)
      && d.completed && d.completedAt.None?
    ensures r == Failure(CompletionBeforeCreation) <==>
      && d.createdAt.Some? && !(d.expiration.Some? && d.expiration.value < d.createdAt.value)
      && !(d.completed && d.completedAt.None?)
      && d.completedAt.Some? && d.completedAt.value < d.createdAt.value
    ensures r.Success? ==>
      && PayloadOrdered(r.value)
      && r.value.title == d.title && r.value.completed == d.completed
      && Some(r.value.createdAt) == d.createdAt
      && r.value.completedAt == (if d.completed then d.completedAt else None)
      && r.value.expiration == d.expiration
      && r.value.userId == UserIdOrNull(d.userId)
  {
    if d.createdAt.None? then Failure(CreationRequired)
    else
      var created := d.createdAt.value;
      if d.expiration.Some? && d.expiration.value < created then Failure(ExpirationBeforeCreation)
      else if d.completed && d.completedAt.None? then Failure(CompletionRequired)
      else if d.completedAt.Some? && d.completedAt.value < created then Failure(CompletionBeforeCreation)
      else Success(Payload(
        d.title, UserIdOrNull(d.userId), d.completed, created,
        if d.completed then d.completedAt else None, d.expiration))
  }

  /** The fields of a task as the editor is meant to show them: every date of
      the record, including its completion date and its expiration. */
  function DraftOf(t: Task): (d: Draft)
    ensures d.createdAt == Some(t.createdAt)
  {
    Draft(t.title, t.userId, t.completed, Some(t.createdAt), t.completedAt, t.expiration)
  }

  /** The fields the editor loads from the task record as the server sends it.
      `app/Models/Task.php` appends `created_at_iso` but no `completed_at_iso`
      and no `expiration_iso`, so those two inputs load empty. */
  function DraftAsLoaded(t: Task): (d: Draft)
    ensures d.completedAt.None? && d.expiration.None?
    ensures d.(completedAt := t.completedAt, expiration := t.expiration) == DraftOf(t)
  {
    DraftOf(t).(completedAt := None, expiration := None)
  }

  /** With the load as written, a completed task opened and saved unedited
      is refused for a missing completion date. */
  lemma UneditedCompletedTaskRefused(t: Task)
    requires t.completed
    ensures CheckEdit(DraftAsLoaded(t)) == Failure(CompletionRequired)
  {
  }

  /** With the load as written, an open task saved unedited passes but sends
      a null expiration in place of the one it had. */
  lemma UneditedOpenTaskLosesExpiration(t: Task)
    requires !t.completed && t.expiration.Some?
    ensures CheckEdit(DraftAsLoaded(t)).Success?
    ensures CheckEdit(DraftAsLoaded(t)).value.expiration.None?
    ensures CheckEdit(DraftAsLoaded(t)).value.expiration != t.expiration
  {
  }

  /** Saving a consistent task whose dates are in order, without editing it,
      passes every check and sends back its own completion date and expiration. */
  lemma SaveOfUnchangedTask(t: Task)
    requires CompletionConsistent(t)
    requires t.expiration.Some? ==> t.expiration.value >= t.createdAt
    requires t.completedAt.Some? ==> t.completedAt.value >= t.createdAt
    ensures CheckEdit(DraftOf(t)).Success?
    ensures CheckEdit(DraftOf(t)).value.completedAt == t.completedAt
    ensures CheckEdit(DraftOf(t)).value.expiration == t.expiration
  {
  }

  /** The component state of the editor. Loading and cancelling show the
      task through `DraftOf`, with both of its dates. */
  class TaskEditor {
    var task: Option<Task>
    var isEditing: bool
    var title: string
    var userId: Option<int>
    var completed: bool
    var completedAt: Option<Timestamp>
    var expiration: Option<Timestamp>
    var createdAt: Option<Timestamp>
    var loading: bool
    var expirationError: string
    var completedError: string
    var createdError: string

    function CurrentDraft(): (d: Draft)
      reads this
      ensures d.completed == completed && d.createdAt == createdAt
    {
      Draft(title, userId, completed, createdAt, completedAt, expiration)
    }

    /** The editor shows the fields of `t` and no error. */
    predicate ShowsTask(t: Task)
      reads this
    {
      && CurrentDraft() == DraftOf(t)
      && expirationError == "" && completedError == "" && createdError == ""
    }

    /** The initial state, before the effect has loaded the task. */
    constructor (task: Option<Task>)
      ensures this.task == task && !isEditing && !loading
      ensures CurrentDraft() == Draft("", None, false, None, None, None)
      ensures expirationError == "" && completedError == "" && createdError == ""
    {
      this.task := task;
      isEditing := false;
      title := "";
      userId := None;
      completed := false;
      completedAt := None;
      expiration := None;
      createdAt := None;
      loading := false;
      expirationError := "";
      completedError := "";
      createdError := "";
    }

    /** The effect on a new `task` prop: show its fields and leave edit mode. */
    method TaskChanged(newTask: Option<Task>)
      modifies this
      ensures task == newTask && loading == old(loading)
      ensures newTask.None? ==>
        && isEditing == old(isEditing) && CurrentDraft() == old(CurrentDraft())
        && expirationError == old(expirationError) && completedError == old(completedError)
        && createdError == old(createdError)
      ensures newTask.Some? ==> ShowsTask(newTask.value) && !isEditing
    {
      task := newTask;
      if newTask.Some? {
        ShowFieldsOf(newTask.value);
      }
    }

    method ShowFieldsOf(t: Task)
      modifies this
      ensures ShowsTask(t) && !isEditing
      ensures task == old(task) && loading == old(loading)
    {
      title := t.title;
      userId := t.userId;
      completed := t.completed;
      completedAt := t.completedAt;
      expiration := t.expiration;
      createdAt := Some(t.createdAt);
      isEditing := false;
      expirationError := "";
      completedError := "";
      createdError := "";
    }

    /** The Edit button. */
    method StartEditing()
      modifies this
      ensures isEditing
      ensures CurrentDraft() == old(CurrentDraft()) && task == old(task) && loading == old(loading)
      ensures expirationError == old(expirationError) && completedError == old(completedError)
      ensures createdError == old(createdError)
    {
      isEditing := true;
    }

    /** The title input, shown only while editing. */
    method EditTitle(value: string)
      modifies this
      ensures isEditing ==> title == value
      ensures !isEditing ==> title == old(title)
      ensures task == old(task) && isEditing == old(isEditing) && loading == old(loading)
      ensures userId == old(userId) && completed == old(completed) && completedAt == old(completedAt)
      ensures createdAt == old(createdAt) && expiration == old(expiration)
      ensures expirationError == old(expirationError) && completedError == old(completedError)
      ensures createdError == old(createdError)
    {
      if isEditing {
        title := value;
      }
    }

    /** The owner select, shown only while editing: the owner becomes the
        chosen user's id. The handler maps an empty value to `None`, but the
        select offers one option per user and no empty one, so the form never
        produces `None`. */
    method SelectUser(choice: Option<int>)
      modifies this
      ensures isEditing ==> userId == choice
      ensures !isEditing ==> userId == old(userId)
      ensures task == old(task) && isEditing == old(isEditing) && loading == old(loading)
      ensures title == old(title) && completed == old(completed) && completedAt == old(completedAt)
      ensures createdAt == old(createdAt) && expiration == old(expiration)
      ensures expirationError == old(expirationError) && completedError == old(completedError)
      ensures createdError == old(createdError)
    {
      if isEditing {
        userId := choice;
      }
    }

    /** The creation date input, shown only while editing; an emptied input is `None`. */
    method EditCreatedAt(value: Option<Timestamp>)
      modifies this
      ensures isEditing ==> createdAt == value
      ensures !isEditing ==> createdAt == old(createdAt)
      ensures task == old(task) && isEditing == old(isEditing) && loading == old(loading)
      ensures title == old(title) && userId == old(userId) && completed == old(completed)
      ensures completedAt == old(completedAt) && expiration == old(expiration)
      ensures expirationError == old(expirationError) && completedError == old(completedError)
      ensures createdError == old(createdError)
    {
      if isEditing {
        createdAt := value;
      }
    }

    /** The expiration input, shown only while editing; an emptied input is `None`. */
    method EditExpiration(value: Option<Timestamp>)
      modifies this
      ensures isEditing ==> expiration == value
      ensures !isEditing ==> expiration == old(expiration)
      ensures task == old(task) && isEditing == old(isEditing) && loading == old(loading)
      ensures title == old(title) && userId == old(userId) && completed == old(completed)
      ensures completedAt == old(completedAt) && createdAt == old(createdAt)
      ensures expirationError == old(expirationError) && completedError == old(completedError)
      ensures createdError == old(createdError)
    {
      if isEditing {
        expiration := value;
      }
    }

    /** The completion date input, shown while editing and disabled while the
        task is open; an emptied input is `None`. */
    method EditCompletedAt(value: Option<Timestamp>)
      modifies this
      ensures isEditing && completed ==> completedAt == value
      ensures !(isEditing && completed) ==> completedAt == old(completedAt)
      ensures task == old(task) && isEditing == old(isEditing) && loading == old(loading)
      ensures title == old(title) && userId == old(userId) && completed == old(completed)
      ensures expiration == old(expiration) && createdAt == old(createdAt)
      ensures expirationError == old(expirationError) && completedError == old(completedError)
      ensures createdError == old(createdError)
    {
      if isEditing && completed {
        completedAt := value;
      }
    }

    /** `cancelEdit`: restore every field from the task, clear the errors,
        leave edit mode. Nothing happens without a task. */
    method CancelEdit()
      modifies this
      ensures task == old(task) && loading == old(loading)
      ensures task.None? ==>
        && isEditing == old(isEditing) && CurrentDraft() == old(CurrentDraft())
        && expirationError == old(expirationError) && completedError == old(completedError)
        && createdError == old(createdError)
      ensures task.Some? ==> ShowsTask(task.value) && !isEditing
    {
      if task.Some? {
        ShowFieldsOf(task.value);
      }
    }

    /** The status button: only while editing, turning completion off clears
        the completion date, turning it on sets it to now. */
    method ToggleCompletion(now: Timestamp)
      modifies this
      ensures task == old(task) && isEditing == old(isEditing) && loading == old(loading)
      ensures title == old(title) && userId == old(userId)
      ensures createdAt == old(createdAt) && expiration == old(expiration)
      ensures expirationError == old(expirationError) && completedError == old(completedError)
      ensures createdError == old(createdError)
      ensures !old(isEditing) ==> completed == old(completed) && completedAt == old(completedAt)
      ensures old(isEditing) ==> completed == !old(completed) && (completed <==> completedAt.Some?)
      ensures old(isEditing) && completed ==> completedAt == Some(now)
    {
      if !isEditing {
        return;
      }
      if completed {
        completed := false;
        completedAt := None;
      } else {
        completed := true;
        completedAt := Some(now);
      }
    }

    /** `saveChanges`: without a task nothing happens. Otherwise all three
        errors are cleared and the checks run; a failure sets exactly its own
        message and sends nothing, a pass starts loading and sends the payload. */
    method SaveChanges() returns (sent: Option<Payload>)
      modifies this
      ensures task == old(task) && isEditing == old(isEditing) && CurrentDraft() == old(CurrentDraft())
      ensures task.None? ==>
        && sent.None? && loading == old(loading)
        && expirationError == old(expirationError) && completedError == old(completedError)
        && createdError == old(createdError)
      ensures task.Some? ==> match CheckEdit(CurrentDraft())
        case Success(p) =>
          && sent == Some(p) && loading
          && expirationError == "" && completedError == "" && createdError == ""
        case Failure(e) =>
          && sent.None? && loading == old(loading)
          && createdError == (if e == CreationRequired then CreationRequiredMessage else "")
          && expirationError == (if e == ExpirationBeforeCreation then ExpirationBeforeCreationMessage else "")
          && completedError == (
               if e == CompletionRequired then CompletionRequiredMessage
               else if e == CompletionBeforeCreation then CompletionBeforeCreationMessage
               else "")
    {
      if task.None? {
        return None;
      }
      expirationError := "";
      completedError := "";
      createdError := "";
      var outcome := CheckEdit(CurrentDraft());
      match outcome
      case Failure(CreationRequired) =>
        createdError := CreationRequiredMessage;
        sent := None;
      case Failure(ExpirationBeforeCreation) =>
        expirationError := ExpirationBeforeCreationMessage;
        sent := None;
      case Failure(CompletionRequired) =>
        completedError := CompletionRequiredMessage;
        sent := None;
      case Failure(CompletionBeforeCreation) =>
        completedError := CompletionBeforeCreationMessage;
        sent := None;
      case Success(p) =>
        loading := true;
        sent := Some(p);
    }

    /** The PATCH request's `onFinish`: stop loading and leave edit mode. */
    method SaveFinished()
      modifies this
      ensures !loading && !isEditing
      ensures task == old(task) && CurrentDraft() == old(CurrentDraft())
      ensures expirationError == old(expirationError) && completedError == old(completedError)
      ensures createdError == old(createdError)
    {
      loading := false;
      isEditing := false;
    }
  }
}
