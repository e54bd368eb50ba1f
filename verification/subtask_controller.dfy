/** The subtask controller: validated creation of a subtask under a task. */
module SubTaskController {
  import opened TaskModel
  import opened TaskController
  import TaskQueries

  /** The parent row after a subtask is attached: only its subtask list grows, by one entry at the end. */
  function WithSubtask(t: Task, s: SubTask): (r: Task)
    ensures |r.subtasks| == |t.subtasks| + 1 && r.subtasks[|t.subtasks|] == s
    ensures r.subtasks[..|t.subtasks|] == t.subtasks
    ensures r.(subtasks := t.subtasks) == t
  {
    t.(subtasks := t.subtasks + [s])
  }

  /** `store`: the route's task must exist, the title must pass
      `required|string|max:255`; the new subtask is open, carries the given
      title and a fresh id, and is returned. No other row changes. */
  method StoreSubtask(store: TaskStore, taskId: int, title: Input) returns (r: Result<SubTask, Error>)
    requires store.Valid()
    modifies store
    ensures store.Valid()
    ensures store.nextId == old(store.nextId)
    ensures taskId !in old(store.tasks) ==>
      r == Failure(NotFound) && store.tasks == old(store.tasks) && store.nextSubtaskId == old(store.nextSubtaskId)
    ensures taskId in old(store.tasks) && !TitleRuleHolds(title) ==>
      r == Failure(Invalid({TitleField})) && store.tasks == old(store.tasks) && store.nextSubtaskId == old(store.nextSubtaskId)
    ensures taskId in old(store.tasks) && TitleRuleHolds(title) ==>
      && r == Success(SubTask(old(store.nextSubtaskId), title.s, false))
      && (forall i :: 0 <= i < |old(store.tasks)[taskId].subtasks| ==> old(store.tasks)[taskId].subtasks[i].id != r.value.id)
      && store.tasks == old(store.tasks)[taskId := WithSubtask(old(store.tasks)[taskId], r.value)]
      && store.nextSubtaskId == old(store.nextSubtaskId) + 1
    ensures |store.Rows()| == |old(store.Rows())|
    ensures TaskQueries.TaskStatistics(store.Rows()) == TaskQueries.TaskStatistics(old(store.Rows()))
  {
    if taskId !in store.tasks {
      return Failure(NotFound);
    }
    if !TitleRuleHolds(title) {
      return Failure(Invalid({TitleField}));
    }
    var s := SubTask(store.nextSubtaskId, title.s, false);
    ReplaceRowStatistics(store.tasks, store.nextId, taskId, WithSubtask(store.tasks[taskId], s));
    store.tasks := store.tasks[taskId := WithSubtask(store.tasks[taskId], s)];
    store.nextSubtaskId := store.nextSubtaskId + 1;
    r := Success(s);
  }
}
