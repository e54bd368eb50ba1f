/** The read side of the task controller: the todo/done statistics and the
    searched, newest-first, paginated task list of the two dashboard views. */
module TaskQueries {
  import opened TaskModel

  const DashboardPerPage: nat := 5
  const ActivityPerPage: nat := 10

  datatype Statistics = Statistics(todo: nat, done: nat)

  /** The paginator's view of one page of results. */
  datatype Page = Page(data: seq<Task>, currentPage: int, lastPage: int, perPage: int, total: int)

  datatype View = View(tasks: Page, statistics: Statistics)

  // ---------------------------------------------------------------------------
  // Statistics

  /** `Task::where('completed', flag)->count()` */
  function CountCompleted(rows: seq<Task>, flag: bool): (n: nat)
    ensures n <= |rows|
  {
    if rows == [] then 0
    else (if rows[0].completed == flag then 1 else 0) + CountCompleted(rows[1..], flag)
  }

  /** Every row is either open or completed, so the two counts cover the table. */
  lemma {:induction false} CountsCoverTable(rows: seq<Task>)
    ensures CountCompleted(rows, false) + CountCompleted(rows, true) == |rows|
  {
    if rows != [] {
      CountsCoverTable(rows[1..]);
    }
  }

  function TaskStatistics(rows: seq<Task>): (s: Statistics)
    ensures s.todo + s.done == |rows|
  {
    CountsCoverTable(rows);
    Statistics(CountCompleted(rows, false), CountCompleted(rows, true))
  }

  /** Replacing one row changes a count only by what the old and the new row
      contribute to it. */
  lemma {:induction false} CountAfterReplace(rows: seq<Task>, i: int, u: Task, flag: bool)
    requires 0 <= i < |rows|
    ensures CountCompleted(rows[i := u], flag)
      == CountCompleted(rows, flag) + (if u.completed == flag then 1 else 0) - (if rows[i].completed == flag then 1 else 0)
  {
    if i > 0 {
      assert rows[i := u][1..] == rows[1..][i - 1 := u];
      CountAfterReplace(rows[1..], i - 1, u, flag);
    } else {
      assert rows[i := u][1..] == rows[1..];
    }
  }

  /** The statistics follow a completion change at once. */
  lemma StatisticsAfterFlip(rows: seq<Task>, i: int, u: Task)
    requires 0 <= i < |rows| && u.completed != rows[i].completed
    ensures var before, after := TaskStatistics(rows), TaskStatistics(rows[i := u]);
      if u.completed then after.todo + 1 == before.todo && after.done == before.done + 1
      else after.todo == before.todo + 1 && after.done + 1 == before.done
  {
    CountAfterReplace(rows, i, u, false);
    CountAfterReplace(rows, i, u, true);
  }

  /** A row replaced by one of the same completion leaves the statistics as they were. */
  lemma StatisticsKeptByReplace(rows: seq<Task>, i: int, u: Task)
    requires 0 <= i < |rows| && u.completed == rows[i].completed
    ensures TaskStatistics(rows[i := u]) == TaskStatistics(rows)
  {
    CountAfterReplace(rows, i, u, false);
    CountAfterReplace(rows, i, u, true);
  }

  /** A row added at the end counts once, under its own completion. */
  lemma {:induction false} CountAfterAppend(rows: seq<Task>, t: Task, flag: bool)
    ensures CountCompleted(rows + [t], flag) == CountCompleted(rows, flag) + (if t.completed == flag then 1 else 0)
  {
    if rows == [] {
      assert rows + [t] == [t];
    } else {
      assert (rows + [t])[1..] == rows[1..] + [t];
      CountAfterAppend(rows[1..], t, flag);
    }
  }

  /** Removing one row takes it out of exactly the count it belonged to. */
  lemma {:induction false} CountAfterRemove(rows: seq<Task>, i: int, flag: bool)
    requires 0 <= i < |rows|
    ensures CountCompleted(rows[..i] + rows[i + 1..], flag) + (if rows[i].completed == flag then 1 else 0)
      == CountCompleted(rows, flag)
  {
    if i == 0 {
      assert rows[..0] + rows[1..] == rows[1..];
    } else {
      var rest := rows[1..];
      CountAfterRemove(rest, i - 1, flag);
      var r := rows[..i] + rows[i + 1..];
      assert r[0] == rows[0];
      assert r[1..] == rest[..i - 1] + rest[i..];
    }
  }

  /** A new open row adds one to todo and leaves done as it was. */
  lemma StatisticsAfterOpenRow(rows: seq<Task>, t: Task)
    requires !t.completed
    ensures TaskStatistics(rows + [t]).todo == TaskStatistics(rows).todo + 1
    ensures TaskStatistics(rows + [t]).done == TaskStatistics(rows).done
  {
    CountAfterAppend(rows, t, false);
    CountAfterAppend(rows, t, true);
  }

  // ---------------------------------------------------------------------------
  // Search

  /** PHP truthiness of a string: '' and '0' are false. */
  predicate IsPhpTruthy(s: string) {
    s != "" && s != "0"
  }

  /** `needle` occurs in `haystack` starting at position `i`. */
  predicate OccursAt(haystack: string, needle: string, i: int) {
    0 <= i && i + |needle| <= |haystack| && haystack[i..i + |needle|] == needle
  }

  /** `title LIKE '%needle%'`, read as plain substring containment. */
  predicate Contains(haystack: string, needle: string)
    decreases |haystack|
  {
    needle <= haystack || (haystack != [] && Contains(haystack[1..], needle))
  }

  lemma {:induction false} ContainsHasOccurrence(haystack: string, needle: string)
    requires Contains(haystack, needle)
    ensures exists i :: OccursAt(haystack, needle, i)
    decreases |haystack|
  {
    if needle <= haystack {
      assert OccursAt(haystack, needle, 0);
    } else {
      ContainsHasOccurrence(haystack[1..], needle);
      var i :| OccursAt(haystack[1..], needle, i);
      assert haystack[i + 1..i + 1 + |needle|] == haystack[1..][i..i + |needle|];
      assert OccursAt(haystack, needle, i + 1);
    }
  }

  lemma {:induction false} OccurrenceGivesContains(haystack: string, needle: string, i: int)
    requires OccursAt(haystack, needle, i)
    ensures Contains(haystack, needle)
    decreases i
  {
    if i == 0 {
      assert needle <= haystack;
    } else {
      assert haystack[1..][i - 1..i - 1 + |needle|] == haystack[i..i + |needle|];
      OccurrenceGivesContains(haystack[1..], needle, i - 1);
    }
  }

  /** The scanning definition agrees with "occurs at some position". */
  lemma ContainsIffOccurs(haystack: string, needle: string)
    ensures Contains(haystack, needle) <==> exists i :: OccursAt(haystack, needle, i)
  {
    if Contains(haystack, needle) {
      ContainsHasOccurrence(haystack, needle);
    }
    if exists i :: OccursAt(haystack, needle, i) {
      var i :| OccursAt(haystack, needle, i);
      OccurrenceGivesContains(haystack, needle, i);
    }
  }

  /** The `when($search, ...)` clause: a falsy search keeps every row. */
  predicate MatchesSearch(t: Task, search: string) {
    !IsPhpTruthy(search) || Contains(t.title, search)
  }

  function FilterBySearch(rows: seq<Task>, search: string): (r: seq<Task>)
    ensures forall t :: t in r <==> t in rows && MatchesSearch(t, search)
    ensures multiset(r) <= multiset(rows)
    ensures !IsPhpTruthy(search) ==> r == rows
  {
    if rows == [] then []
    else
      assert rows == [rows[0]] + rows[1..];
      (if MatchesSearch(rows[0], search) then [rows[0]] else []) + FilterBySearch(rows[1..], search)
  }

  // ---------------------------------------------------------------------------
  // Ordering: `latest()` is ORDER BY created_at DESC

  predicate NewestFirst(rows: seq<Task>) {
    forall i, j :: 0 <= i < j < |rows| ==> rows[i].createdAt >= rows[j].createdAt
  }

  function InsertByCreation(t: Task, sorted: seq<Task>): (r: seq<Task>)
    requires NewestFirst(sorted)
    ensures NewestFirst(r)
    ensures multiset(r) == multiset(sorted) + multiset{t}
    ensures |r| == |sorted| + 1
    ensures forall x :: x in r <==> x in sorted || x == t
    ensures r[0] == t || (sorted != [] && r[0] == sorted[0])
  {
    if sorted == [] || sorted[0].createdAt <= t.createdAt then [t] + sorted
    else
      assert sorted == [sorted[0]] + sorted[1..];
      [sorted[0]] + InsertByCreation(t, sorted[1..])
  }

  /** The rows newest first; rows created at the same instant come in an
      order the database leaves open, here the scan order. */
  function Latest(rows: seq<Task>): (r: seq<Task>)
    ensures NewestFirst(r)
    ensures multiset(r) == multiset(rows)
    ensures |r| == |rows| && forall t :: t in r <==> t in rows
  {
    if rows == [] then []
    else
      assert rows == [rows[0]] + rows[1..];
      InsertByCreation(rows[0], Latest(rows[1..]))
  }

  // ---------------------------------------------------------------------------
  // Pagination

  /** The `page` query parameter: a missing, non-integer or non-positive value means page 1. */
  function CurrentPage(requested: Option<int>): (p: int)
    ensures p >= 1
    ensures requested.Some? && requested.value >= 1 ==> p == requested.value
    ensures (requested.None? || requested.value < 1) ==> p == 1
  {
    if requested.Some? && requested.value >= 1 then requested.value else 1
  }

  /** `max(ceil(total / perPage), 1)` */
  function LastPage(total: nat, perPage: nat): (n: int)
    requires perPage > 0
    ensures n >= 1
    ensures total <= n * perPage
    ensures n == 1 || (n - 1) * perPage < total
    decreases total
  {
    if total <= perPage then 1 else 1 + LastPage(total - perPage, perPage)
  }

  lemma MulMonotone(a: int, b: int, c: nat)
    requires a <= b
    ensures a * c <= b * c
  {
    assert b * c - a * c == (b - a) * c;
  }

  /** The index of the first row of page `page`. */
  function PageStart(page: int, perPage: nat): int {
    (page - 1) * perPage
  }

  /** One past the index of the last row of page `page`, clipped to the results. */
  function PageEnd(total: nat, page: int, perPage: nat): (e: nat)
    requires page >= 1
    ensures PageStart(page, perPage) <= total ==> PageStart(page, perPage) <= e <= total
    ensures e <= total
  {
    MulMonotone(0, page - 1, perPage);
    var from := PageStart(page, perPage);
    if from >= total then total else if from + perPage <= total then from + perPage else total
  }

  /** `paginate(perPage)`: the slice of `items` for the requested page and its metadata. */
  function Paginate(items: seq<Task>, perPage: nat, requested: Option<int>): (pg: Page)
    requires perPage > 0
    ensures pg.total == |items| && pg.perPage == perPage && pg.currentPage == CurrentPage(requested)
    ensures pg.lastPage == LastPage(|items|, perPage)
    ensures PageStart(pg.currentPage, perPage) >= |items| ==> pg.data == []
    ensures PageStart(pg.currentPage, perPage) < |items| ==>
      pg.data == items[PageStart(pg.currentPage, perPage)..PageEnd(|items|, pg.currentPage, perPage)]
  {
    var page := CurrentPage(requested);
    var from := PageStart(page, perPage);
    var data := if from >= |items| then [] else items[from..PageEnd(|items|, page, perPage)];
    Page(data, page, LastPage(|items|, perPage), perPage, |items|)
  }

  /** A page holds at most `perPage` rows, a full `perPage` before the last page,
      and nothing past the last page. */
  lemma PageSize(items: seq<Task>, perPage: nat, requested: Option<int>)
    requires perPage > 0
    ensures var pg := Paginate(items, perPage, requested);
      && |pg.data| <= perPage
      && (pg.currentPage < pg.lastPage ==> |pg.data| == perPage)
      && (pg.currentPage > pg.lastPage ==> pg.data == [])
  {
    var pg := Paginate(items, perPage, requested);
    var page, last := pg.currentPage, pg.lastPage;
    assert PageStart(page + 1, perPage) == PageStart(page, perPage) + perPage;
    if page < last {
      MulMonotone(page, last - 1, perPage);
      assert PageStart(page + 1, perPage) <= (last - 1) * perPage;
    }
    if page > last {
      MulMonotone(last, page - 1, perPage);
      assert PageStart(page, perPage) >= last * perPage;
    }
  }

  // ---------------------------------------------------------------------------
  // The two views

  /** `dashboard`: the whole table, newest first, five per page, with the statistics. */
  function Dashboard(rows: seq<Task>, requested: Option<int>): (v: View)
    ensures v.tasks.perPage == DashboardPerPage && |v.tasks.data| <= DashboardPerPage
    ensures v.tasks.total == |rows|
    ensures NewestFirst(v.tasks.data)
    ensures forall t :: t in v.tasks.data ==> t in rows
    ensures v.statistics.todo + v.statistics.done == |rows|
    ensures v.tasks == Paginate(Latest(rows), DashboardPerPage, requested)
    ensures v.statistics == Statistics(CountCompleted(rows, false), CountCompleted(rows, true))
  {
    var sorted := Latest(rows);
    var pg := Paginate(sorted, DashboardPerPage, requested);
    PageOfSorted(sorted, pg, DashboardPerPage, requested);
    View(pg, TaskStatistics(rows))
  }

  /** `dashboardActivity`: the rows matching the search, newest first, ten per
      page; the statistics count the whole table, whatever the search. */
  function DashboardActivity(rows: seq<Task>, search: string, requested: Option<int>): (v: View)
    ensures v.tasks.perPage == ActivityPerPage && |v.tasks.data| <= ActivityPerPage
    ensures v.tasks.total == |FilterBySearch(rows, search)|
    ensures NewestFirst(v.tasks.data)
    ensures forall t :: t in v.tasks.data ==> t in rows && MatchesSearch(t, search)
    ensures v.statistics.todo + v.statistics.done == |rows|
    ensures v.tasks == Paginate(Latest(FilterBySearch(rows, search)), ActivityPerPage, requested)
    ensures v.statistics == Statistics(CountCompleted(rows, false), CountCompleted(rows, true))
  {
    var matching := FilterBySearch(rows, search);
    var sorted := Latest(matching);
    var pg := Paginate(sorted, ActivityPerPage, requested);
    PageOfSorted(sorted, pg, ActivityPerPage, requested);
    View(pg, TaskStatistics(rows))
  }

  /** A page cut from a newest-first sequence is newest first and holds only its rows. */
  lemma PageOfSorted(sorted: seq<Task>, pg: Page, perPage: nat, requested: Option<int>)
    requires perPage > 0 && NewestFirst(sorted) && pg == Paginate(sorted, perPage, requested)
    ensures NewestFirst(pg.data)
    ensures forall t :: t in pg.data ==> t in sorted
  {
    var from := PageStart(pg.currentPage, perPage);
    if from < |sorted| {
      var to := PageEnd(|sorted|, pg.currentPage, perPage);
      assert pg.data == sorted[from..to];
      forall i, j | 0 <= i < j < |pg.data| ensures pg.data[i].createdAt >= pg.data[j].createdAt {
        assert pg.data[i] == sorted[from + i] && pg.data[j] == sorted[from + j];
      }
    }
  }

  /** The page an index falls on is not past the last page. */
  lemma IndexPageWithinLast(total: nat, perPage: nat, k: int)
    requires perPage > 0 && 0 <= k < total
    ensures k / perPage + 1 <= LastPage(total, perPage)
  {
    var q, last := k / perPage, LastPage(total, perPage);
    assert q * perPage <= k;
    if last < q + 1 {
      MulMonotone(last, q, perPage);
      assert false;
    }
  }

  /** Every result lands on exactly the page and position its index says. */
  lemma EveryResultOnItsPage(items: seq<Task>, perPage: nat, k: int)
    requires perPage > 0 && 0 <= k < |items|
    ensures var pg := Paginate(items, perPage, Some(k / perPage + 1));
      && k % perPage < |pg.data|
      && pg.data[k % perPage] == items[k]
      && k / perPage + 1 <= pg.lastPage
  {
    var q, r := k / perPage, k % perPage;
    var from := PageStart(q + 1, perPage);
    assert from + r == k;
    var pg := Paginate(items, perPage, Some(q + 1));
    var to := PageEnd(|items|, q + 1, perPage);
    assert pg.data == items[from..to];
    assert from + r < to;
    IndexPageWithinLast(|items|, perPage, k);
  }

  /** Fifteen matching rows in pages of ten: the first page holds ten of them
      and there are two pages. */
  lemma FifteenMatchesMakeTwoPages(items: seq<Task>)
    requires |items| == 15
    ensures var pg := Paginate(items, ActivityPerPage, Some(1));
      |pg.data| == 10 && pg.total == 15 && pg.lastPage == 2
  {
    assert LastPage(5, 10) == 1;
  }
}
