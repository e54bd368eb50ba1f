/** The write side of the task controller: creating, toggling, retitling and
    deleting rows of the tasks table. The acting user, the clock and the set of
    existing user ids are parameters. */
module TaskController {
  import opened TaskModel
  import TaskQueries

  /** A request field as it arrives: absent (or null), a string, or some other
      value such as a number or an array. */
  datatype Input = Absent | Text(s: string) | NonText

  datatype FieldName = TitleField | UserIdField

  /** Route-model binding finds no row (a 404), or validation rejects fields
      (a 422 carrying every failing field). */
  datatype Error = NotFound | Invalid(fields: set<FieldName>)

  const MaxTitleLength: nat := 255

  /** The characters PHP's trim() removes. */
  predicate IsPhpTrimmed(c: char) {
    c == ' ' || c == '\t' || c == '\n' || c == '\r' || c == '\0' || c == '\U{B}'
  }

  predicate IsPhpBlank(s: string) {
    forall i :: 0 <= i < |s| ==> IsPhpTrimmed(s[i])
  }

  /** A title a stored task may carry: not blank after trim, at most 255 characters. */
  predicate AcceptableTitle(s: string) {
    !IsPhpBlank(s) && |s| <= MaxTitleLength
  }

  /** The rule `required|string|max:255`. */
  predicate TitleRuleHolds(title: Input) {
    title.Text? && AcceptableTitle(title.s)
  }

  /** The rule `nullable|exists:users,id`, with the database lookup given as
      the set of existing user ids. */
  predicate UserIdRuleHolds(userId: Option<int>, users: set<int>) {
    userId.None? || userId.value in users
  }

  /** The fields a `title`/`user_id` request is rejected for; empty when it passes. */
  function TaskErrors(title: Input, userId: Option<int>, users: set<int>): (errs: set<FieldName>)
    ensures errs == {} <==> TitleRuleHolds(title) && UserIdRuleHolds(userId, users)
    ensures TitleField in errs <==> !TitleRuleHolds(title)
    ensures UserIdField in errs <==> userId.Some? && userId.value !in users
  {
    (if TitleRuleHolds(title) then {} else {TitleField})
      + (if UserIdRuleHolds(userId, users) then {} else {UserIdField})
  }

  /** The row `store` inserts: only title and user_id come from the request,
      the owner defaults to the acting user. */
  function NewTask(id: int, title: string, userId: Option<int>, actingUser: int, now: Timestamp): (t: Task)
    ensures t.id == id && t.title == title && t.createdAt == now
    ensures !t.completed && CompletionConsistent(t)
    ensures t.userId.Some? && (userId.Some? ==> t.userId == userId) && (userId.None? ==> t.userId == Some(actingUser))
    ensures t.expiration.None? && t.subtasks == []
  {
    Task(id, title, false, Some(userId.GetOr(actingUser)), None, None, now, [])
  }

  /** The row after `update`: completion flipped, completed_at set to now or cleared. */
  function Toggled(t: Task, now: Timestamp): (r: Task)
    ensures r.completed == !t.completed
    ensures CompletionConsistent(r)
    ensures r.completedAt.Some? ==> r.completedAt.value == now
    ensures r.(completed := t.completed, completedAt := t.completedAt) == t
  {
    t.(completed := !t.completed, completedAt := if t.completed then None else Some(now))
  }

  /** Toggling twice restores the completion flag, and a consistent open task
      comes back unchanged. */
  lemma ToggleTwice(t: Task, first: Timestamp, second: Timestamp)
    ensures Toggled(Toggled(t, first), second).completed == t.completed
    ensures CompletionConsistent(t) && !t.completed ==> Toggled(Toggled(t, first), second) == t
    ensures t.completed ==> Toggled(Toggled(t, first), second).completedAt == Some(second)
  {
  }

  /** The row after `updateTitle`: the new title, and the new owner when one
      was supplied, the previous owner otherwise. */
  function Retitled(t: Task, title: string, userId: Option<int>): (r: Task)
    ensures r.title == title
    ensures userId.Some? ==> r.userId == userId
    ensures userId.None? ==> r.userId == t.userId
    ensures r.(title := t.title, userId := t.userId) == t
  {
    t.(title := title, userId := if userId.Some? then userId else t.userId)
  }

  /** What every stored row satisfies. */
  predicate WellFormedRow(t: Task, id: int, nextSubtaskId: int) {
    && t.id == id
    && CompletionConsistent(t)
    && AcceptableTitle(t.title)
    && (forall i :: 0 <= i < |t.subtasks| ==> 1 <= t.subtasks[i].id < nextSubtaskId)
  }

  /** Every key is a positive id and names the row stored under it. */
  predicate KeyedById(m: map<int, Task>) {
    forall id | id in m :: 1 <= id && m[id].id == id
  }

  /** The rows of the table in primary-key order, ids below `n`: the table
      the queries start from. */
  function TableScan(m: map<int, Task>, n: int): seq<Task>
    decreases n
  {
    if n <= 1 then []
    else TableScan(m, n - 1) + (if n - 1 in m then [m[n - 1]] else [])
  }

  /** The scan lists every stored row below `n`, in strictly increasing id
      order (so each exactly once), and nothing else. */
  lemma {:induction false} TableScanLists(m: map<int, Task>, n: int)
    requires KeyedById(m)
    ensures forall i :: 0 <= i < |TableScan(m, n)| ==>
      TableScan(m, n)[i].id in m && m[TableScan(m, n)[i].id] == TableScan(m, n)[i] && TableScan(m, n)[i].id < n
    ensures forall i, j :: 0 <= i < j < |TableScan(m, n)| ==> TableScan(m, n)[i].id < TableScan(m, n)[j].id
    ensures forall id | id in m && id < n :: m[id] in TableScan(m, n)
    decreases n
  {
    if n > 1 {
      TableScanLists(m, n - 1);
      var a := TableScan(m, n - 1);
      var tail: seq<Task> := if n - 1 in m then [m[n - 1]] else [];
      var rows := TableScan(m, n);
      assert rows == a + tail;
      forall i | 0 <= i < |rows|
        ensures rows[i].id in m && m[rows[i].id] == rows[i] && rows[i].id < n
      {
        if i < |a| {
          assert rows[i] == a[i];
        }
      }
      forall id | id in m && id < n
        ensures m[id] in TableScan(m, n)
      {
        if id < n - 1 {
          assert m[id] in a;
        } else {
          assert tail == [m[id]];
        }
      }
    }
  }

  /** Rows stored at or above `n` do not reach a scan that stops below `n`. */
  lemma {:induction false} TableScanIgnoresFrom(m: map<int, Task>, n: int, id: int, u: Task)
    requires n <= id
    ensures TableScan(m[id := u], n) == TableScan(m, n)
    decreases n
  {
    if n > 1 {
      TableScanIgnoresFrom(m, n - 1, id, u);
    }
  }

  /** Replacing the row stored under `id` changes the scan at exactly the
      position `i` that row held, and nowhere else. */
  lemma {:induction false} TableScanReplace(m: map<int, Task>, n: int, id: int, u: Task) returns (i: int)
    requires id in m && 1 <= id < n
    ensures 0 <= i < |TableScan(m, n)| && TableScan(m, n)[i] == m[id]
    ensures TableScan(m[id := u], n) == TableScan(m, n)[i := u]
    decreases n
  {
    var a := TableScan(m, n - 1);
    if id < n - 1 {
      i := TableScanReplace(m, n - 1, id, u);
      var tail := if n - 1 in m then [m[n - 1]] else [];
      assert TableScan(m, n) == a + tail;
      assert TableScan(m[id := u], n) == a[i := u] + tail;
      assert (a + tail)[i := u] == a[i := u] + tail;
    } else {
      TableScanIgnoresFrom(m, n - 1, id, u);
      i := |a|;
      assert TableScan(m, n) == a + [m[id]];
      assert TableScan(m[id := u], n) == a + [u];
      assert (a + [m[id]])[i := u] == a + [u];
    }
  }

  /** A row removed at or above `n` does not reach a scan that stops below `n`. */
  lemma {:induction false} TableScanIgnoresRemovalFrom(m: map<int, Task>, n: int, id: int)
    requires n <= id
    ensures TableScan(m - {id}, n) == TableScan(m, n)
    decreases n
  {
    if n > 1 {
      TableScanIgnoresRemovalFrom(m, n - 1, id);
    }
  }

  /** Removing the row stored under `id` drops exactly the position `i` that
      row held from the scan. */
  lemma {:induction false} TableScanRemove(m: map<int, Task>, n: int, id: int) returns (i: int)
    requires id in m && 1 <= id < n
    ensures 0 <= i < |TableScan(m, n)| && TableScan(m, n)[i] == m[id]
    ensures TableScan(m - {id}, n) == TableScan(m, n)[..i] + TableScan(m, n)[i + 1..]
    decreases n
  {
    var a := TableScan(m, n - 1);
    if id < n - 1 {
      i := TableScanRemove(m, n - 1, id);
      var tail := if n - 1 in m then [m[n - 1]] else [];
      assert TableScan(m, n) == a + tail;
      assert TableScan(m - {id}, n) == a[..i] + a[i + 1..] + tail;
      assert (a + tail)[..i] == a[..i];
      assert (a + tail)[i + 1..] == a[i + 1..] + tail;
    } else {
      TableScanIgnoresRemovalFrom(m, n - 1, id);
      i := |a|;
      assert TableScan(m, n) == a + [m[id]];
      assert TableScan(m - {id}, n) == a;
      assert (a + [m[id]])[..i] == a;
    }
  }

  /** A row stored under the next id appears at the end of the scan. */
  lemma TableScanInsertNext(m: map<int, Task>, n: int, t: Task)
    requires 1 <= n
    ensures TableScan(m[n := t], n + 1) == TableScan(m, n) + [t]
  {
    TableScanIgnoresFrom(m, n, n, t);
  }

  /** Replacing a stored row keeps the number of rows the views count and
      moves the statistics by exactly what the old and the new row contribute. */
  lemma ReplaceRowStatistics(m: map<int, Task>, n: int, id: int, u: Task)
    requires id in m && 1 <= id < n
    ensures |TableScan(m[id := u], n)| == |TableScan(m, n)|
    ensures var before, after := TaskQueries.TaskStatistics(TableScan(m, n)), TaskQueries.TaskStatistics(TableScan(m[id := u], n));
      && after.todo + (if m[id].completed then 0 else 1) == before.todo + (if u.completed then 0 else 1)
      && after.done + (if m[id].completed then 1 else 0) == before.done + (if u.completed then 1 else 0)
  {
    var i := TableScanReplace(m, n, id, u);
    var rows := TableScan(m, n);
    TaskQueries.CountAfterReplace(rows, i, u, false);
    TaskQueries.CountAfterReplace(rows, i, u, true);
  }

  /** The tasks table. */
  class TaskStore {
    var tasks: map<int, Task>
    var nextId: int
    var nextSubtaskId: int

    ghost predicate Valid()
      reads this
    {
      && 1 <= nextId
      && 1 <= nextSubtaskId
      && (forall id | id in tasks :: 1 <= id < nextId && WellFormedRow(tasks[id], id, nextSubtaskId))
    }

    /** The rows in primary-key order, the sequence the read-only views query. */
    ghost function Rows(): (rows: seq<Task>)
      reads this
      requires Valid()
      ensures forall t :: t in rows <==> exists id | id in tasks :: tasks[id] == t
      ensures forall i, j :: 0 <= i < j < |rows| ==> rows[i].id < rows[j].id
    {
      TableScanLists(tasks, nextId);
      TableScan(tasks, nextId)
    }

    constructor ()
      ensures Valid() && tasks == map[] && nextId == 1 && nextSubtaskId == 1
    {
      tasks := map[];
      nextId := 1;
      nextSubtaskId := 1;
    }

    /** `store`: validate, then insert a new open task owned by the given user
        or, when none is given, by the acting user. Returns the new id. */
    method Store(title: Input, userId: Option<int>, users: set<int>, actingUser: int, now: Timestamp)
      returns (r: Result<int, Error>)
      requires Valid()
      modifies this
      ensures Valid()
      ensures nextSubtaskId == old(nextSubtaskId)
      ensures r.Failure? <==> TaskErrors(title, userId, users) != {}
      ensures r.Failure? ==> r.error == Invalid(TaskErrors(title, userId, users)) && tasks == old(tasks) && nextId == old(nextId)
      ensures r.Success? ==>
        && r.value !in old(tasks)
        && title.Text?
        && tasks == old(tasks)[r.value := NewTask(r.value, title.s, userId, actingUser, now)]
        && nextId == r.value + 1
      ensures r.Success? ==> Rows() == old(Rows()) + [tasks[r.value]]
      ensures r.Success? ==>
        && TaskQueries.TaskStatistics(Rows()).todo == TaskQueries.TaskStatistics(old(Rows())).todo + 1
        && TaskQueries.TaskStatistics(Rows()).done == TaskQueries.TaskStatistics(old(Rows())).done
    {
      var errs := TaskErrors(title, userId, users);
      if errs != {} {
        return Failure(Invalid(errs));
      }
      var id := nextId;
      var t := NewTask(id, title.s, userId, actingUser, now);
      TableScanInsertNext(tasks, id, t);
      TaskQueries.StatisticsAfterOpenRow(TableScan(tasks, id), t);
      tasks := tasks[id := t];
      nextId := nextId + 1;
      r := Success(id);
    }

    /** `update`: flip completion of an existing task, stamping or clearing
        its completion time. */
    method Update(id: int, now: Timestamp) returns (r: Result<Task, Error>)
      requires Valid()
      modifies this
      ensures Valid()
      ensures nextId == old(nextId) && nextSubtaskId == old(nextSubtaskId)
      ensures id !in old(tasks) ==> r == Failure(NotFound) && tasks == old(tasks)
      ensures id in old(tasks) ==>
        && tasks == old(tasks)[id := Toggled(old(tasks)[id], now)]
        && r == Success(tasks[id])
      ensures id in old(tasks) ==> |Rows()| == |old(Rows())|
      ensures id in old(tasks) ==>
        var before, after := TaskQueries.TaskStatistics(old(Rows())), TaskQueries.TaskStatistics(Rows());
        if r.value.completed then after.todo + 1 == before.todo && after.done == before.done + 1
        else after.todo == before.todo + 1 && after.done + 1 == before.done
    {
      if id !in tasks {
        return Failure(NotFound);
      }
      var t := Toggled(tasks[id], now);
      ReplaceRowStatistics(tasks, nextId, id, t);
      tasks := tasks[id := t];
      r := Success(t);
    }

    /** `updateTitle`: validate like `store`, then change only title and owner. */
    method UpdateTitle(id: int, title: Input, userId: Option<int>, users: set<int>) returns (r: Result<Task, Error>)
      requires Valid()
      modifies this
      ensures Valid()
      ensures nextId == old(nextId) && nextSubtaskId == old(nextSubtaskId)
      ensures id !in old(tasks) ==> r == Failure(NotFound) && tasks == old(tasks)
      ensures id in old(tasks) && TaskErrors(title, userId, users) != {} ==>
        r == Failure(Invalid(TaskErrors(title, userId, users))) && tasks == old(tasks)
      ensures id in old(tasks) && TaskErrors(title, userId, users) == {} ==>
        && title.Text?
        && tasks == old(tasks)[id := Retitled(old(tasks)[id], title.s, userId)]
        && r == Success(tasks[id])
      ensures |Rows()| == |old(Rows())|
      ensures TaskQueries.TaskStatistics(Rows()) == TaskQueries.TaskStatistics(old(Rows()))
    {
      if id !in tasks {
        return Failure(NotFound);
      }
      var errs := TaskErrors(title, userId, users);
      if errs != {} {
        return Failure(Invalid(errs));
      }
      var t := Retitled(tasks[id], title.s, userId);
      ReplaceRowStatistics(tasks, nextId, id, t);
      tasks := tasks[id := t];
      r := Success(t);
    }

    /** `destroy`: remove exactly the given task. */
    method Destroy(id: int) returns (r: Result<Task, Error>)
      requires Valid()
      modifies this
      ensures Valid()
      ensures nextId == old(nextId) && nextSubtaskId == old(nextSubtaskId)
      ensures id !in old(tasks) ==> r == Failure(NotFound) && tasks == old(tasks)
      ensures id in old(tasks) ==> r == Success(old(tasks)[id]) && tasks == old(tasks) - {id}
      ensures id in old(tasks) ==> |Rows()| + 1 == |old(Rows())|
      ensures id in old(tasks) ==>
        var before, after := TaskQueries.TaskStatistics(old(Rows())), TaskQueries.TaskStatistics(Rows());
        if r.value.completed then after.todo == before.todo && after.done + 1 == before.done
        else after.todo + 1 == before.todo && after.done == before.done
    {
      if id !in tasks {
        return Failure(NotFound);
      }
      var i := TableScanRemove(tasks, nextId, id);
      TaskQueries.CountAfterRemove(TableScan(tasks, nextId), i, false);
      TaskQueries.CountAfterRemove(TableScan(tasks, nextId), i, true);
      r := Success(tasks[id]);
      tasks := tasks - {id};
    }
  }
}
