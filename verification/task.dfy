/** The task record shared by the server controllers and the client components,
    with the small wrapper types the rest of the model uses. */
module TaskModel {

  /** A nullable value: `null`, `''` or an absent field is `None`. */
  datatype Option<+T> = None | Some(value: T) {
    function GetOr(default: T): T {
      match this
      case Some(v) => v
      case None => default
    }
  }

  /** The outcome of an operation that can be refused. */
  datatype Result<+R, +E> = Success(value: R) | Failure(error: E)

  /** Dates are opaque instants on one integer scale; parsing, formatting and
      time zones are not part of the model. */
  type Timestamp = int

  datatype User = User(id: int, name: string)

  datatype SubTask = SubTask(id: int, title: string, completed: bool)

  /** One row of the tasks table, as the server stores it and the client receives it. */
  datatype Task = Task(
    id: int,
    title: string,
    completed: bool,
    userId: Option<int>,
    completedAt: Option<Timestamp>,
    expiration: Option<Timestamp>,
    createdAt: Timestamp,
    subtasks: seq<SubTask>)

  /** A task is completed exactly when it records a completion time. */
  predicate CompletionConsistent(t: Task) {
    t.completed <==> t.completedAt.Some?
  }
}
