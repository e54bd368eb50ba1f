/** The client-side subtask list of one task: optimistic append with a
    temporary id and removal by id, each rolled back when the request fails.
    Request outcomes arrive as separate handler calls; the temporary id is a
    parameter. */
module SubTaskList {
  import opened TaskModel

  /** The characters JavaScript's String.prototype.trim removes: white space
      and line terminators. */
  predicate IsJsWhitespace(c: char) {
    || c == '\t' || c == '\n' || c == '\U{B}' || c == '\U{C}' || c == '\r' || c == ' '
    || c == '\U{A0}' || c == '\U{1680}' || ('\U{2000}' <= c <= '\U{200A}')
    || c == '\U{2028}' || c == '\U{2029}' || c == '\U{202F}' || c == '\U{205F}'
    || c == '\U{3000}' || c == '\U{FEFF}'
  }

  /** `!title.trim()`: nothing but white space is left to submit. */
  predicate IsBlank(s: string) {
    forall i :: 0 <= i < |s| ==> IsJsWhitespace(s[i])
  }

  /** `list.filter(st => st.id !== id)` */
  function WithoutId(list: seq<SubTask>, id: int): (r: seq<SubTask>)
    ensures forall s :: s in r <==> s in list && s.id != id
    ensures |r| <= |list|
  {
    if list == [] then []
    else (if list[0].id != id then [list[0]] else []) + WithoutId(list[1..], id)
  }

  /** Filtering one concatenation filters each part in place, so the kept
      entries stay in their order. */
  lemma {:induction false} WithoutIdDistributes(a: seq<SubTask>, b: seq<SubTask>, id: int)
    ensures WithoutId(a + b, id) == WithoutId(a, id) + WithoutId(b, id)
  {
    if a != [] {
      assert (a + b)[1..] == a[1..] + b;
      WithoutIdDistributes(a[1..], b, id);
    } else {
      assert a + b == b;
    }
  }

  /** A list without the id is left exactly as it is. */
  lemma {:induction false} WithoutAbsentId(list: seq<SubTask>, id: int)
    requires forall i :: 0 <= i < |list| ==> list[i].id != id
    ensures WithoutId(list, id) == list
  {
    if list != [] {
      WithoutAbsentId(list[1..], id);
    }
  }

  /** Rolling back a failed add restores the list from before the add,
      provided the temporary id was not already in use. */
  lemma AddThenRollback(list: seq<SubTask>, entry: SubTask)
    requires forall i :: 0 <= i < |list| ==> list[i].id != entry.id
    ensures WithoutId(list + [entry], entry.id) == list
  {
    WithoutIdDistributes(list, [entry], entry.id);
    WithoutAbsentId(list, entry.id);
    assert WithoutId([entry], entry.id) == [];
  }

  /** The component state of the list. */
  class SubTaskListState {
    var subtasks: seq<SubTask>
    var showForm: bool
    var title: string
    var loading: bool

    constructor (initial: seq<SubTask>)
      ensures subtasks == initial && !showForm && title == "" && !loading
    {
      subtasks := initial;
      showForm := false;
      title := "";
      loading := false;
    }

    /** The effect on `task.subtasks`: the local list is replaced by the task's. */
    method Resync(fromTask: seq<SubTask>)
      modifies this
      ensures subtasks == fromTask
      ensures showForm == old(showForm) && title == old(title) && loading == old(loading)
    {
      subtasks := fromTask;
    }

    method OpenForm()
      modifies this
      ensures showForm
      ensures subtasks == old(subtasks) && title == old(title) && loading == old(loading)
    {
      showForm := true;
    }

    method EditTitle(value: string)
      modifies this
      ensures title == value
      ensures subtasks == old(subtasks) && showForm == old(showForm) && loading == old(loading)
    {
      title := value;
    }

    /** `addSubTask`: a blank title does nothing; otherwise append an open
        entry under the temporary id, clear and hide the form, and post the
        untrimmed title, which is returned. */
    method AddSubTask(tempId: int) returns (sent: Option<string>)
      modifies this
      ensures IsBlank(old(title)) ==>
        sent.None? && subtasks == old(subtasks) && title == old(title)
        && showForm == old(showForm) && loading == old(loading)
      ensures !IsBlank(old(title)) ==>
        && sent == Some(old(title))
        && subtasks == old(subtasks) + [SubTask(tempId, old(title), false)]
        && title == "" && !showForm && loading
    {
      if IsBlank(title) {
        return None;
      }
      sent := Some(title);
      subtasks := subtasks + [SubTask(tempId, title, false)];
      title := "";
      showForm := false;
      loading := true;
    }

    /** The add request's `onError`: drop every entry carrying the temporary id. */
    method AddFailed(tempId: int)
      modifies this
      ensures subtasks == WithoutId(old(subtasks), tempId)
      ensures showForm == old(showForm) && title == old(title) && loading == old(loading)
    {
      subtasks := WithoutId(subtasks, tempId);
    }

    /** The add request's `onFinish`. */
    method AddFinished()
      modifies this
      ensures !loading
      ensures subtasks == old(subtasks) && showForm == old(showForm) && title == old(title)
    {
      loading := false;
    }

    /** `deleteSubTask`: remember the list, then drop every entry with the id.
        The remembered list is returned for the error handler. */
    method DeleteSubTask(id: int) returns (previous: seq<SubTask>)
      modifies this
      ensures previous == old(subtasks)
      ensures subtasks == WithoutId(old(subtasks), id)
      ensures showForm == old(showForm) && title == old(title) && loading == old(loading)
    {
      previous := subtasks;
      subtasks := WithoutId(subtasks, id);
    }

    /** The delete request's `onError`: put back the list remembered before the delete. */
    method DeleteFailed(previous: seq<SubTask>)
      modifies this
      ensures subtasks == previous
      ensures showForm == old(showForm) && title == old(title) && loading == old(loading)
    {
      subtasks := previous;
    }
  }
}
