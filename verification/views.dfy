/** The request handlers of the task application: the filtered and sorted
    task list, the dashboard counts, the owner-scoped handlers that change
    one task, and the theme switch kept in the session.

    A handler acts for the logged-in user `user`; the HTTP method is the
    flag `post`; what the handler answers is a `Response`, and the page it
    would render is not modelled. */
module Views {
  import opened Models
  import opened Query
  import Text

  /** The user's own tasks: the base query of every view. */
  function OwnedRows(rows: seq<Row>, user: UserId): (r: seq<Row>)
    ensures forall x :: x in r <==> x in rows && x.task.owner == user
  {
    assert forall x :: AllHold([OwnedBy(user)], x) == (x.task.owner == user) by {
      forall x { AllHoldOne(OwnedBy(user), x); }
    }
    Where(rows, [OwnedBy(user)])
  }

  // ---------------------------------------------------------------------
  // The task list

  /** The conditions a known `status` value adds; None for any other value,
      which leaves the list unfiltered. The conditions of a known status hold
      of a row exactly when its task matches that status. */
  function StatusCriteria(status: Option<string>, today: Day): (r: Option<seq<Criterion>>)
    ensures r.None? ==> forall t :: StatusMatches(status, t, today)
    ensures r.Some? ==> forall x :: AllHold(r.value, x) == StatusMatches(status, x.task, today)
  {
    forall x: Row
      ensures AllHold([CompletedIs(true)], x) == x.task.completed
      ensures AllHold([CompletedIs(false)], x) == !x.task.completed
      ensures AllHold([DueBefore(today), CompletedIs(false)], x) == (Holds(DueBefore(today), x) && !x.task.completed)
      ensures AllHold([DueFrom(today), CompletedIs(false)], x) == (Holds(DueFrom(today), x) && !x.task.completed)
    {
      AllHoldOne(CompletedIs(true), x);
      AllHoldOne(CompletedIs(false), x);
      AllHoldTwo(DueBefore(today), CompletedIs(false), x);
      AllHoldTwo(DueFrom(today), CompletedIs(false), x);
    }
    if status == Some("completed") then Some([CompletedIs(true)])
    else if status == Some("incomplete") then Some([CompletedIs(false)])
    else if status == Some("overdue") then Some([DueBefore(today), CompletedIs(false)])
    else if status == Some("upcoming") then Some([DueFrom(today), CompletedIs(false)])
    else None
  }

  /** What each status means for one task. A task without a due date is
      neither overdue nor upcoming. */
  predicate StatusMatches(status: Option<string>, t: Task, today: Day) {
    if status == Some("completed") then t.completed
    else if status == Some("incomplete") then !t.completed
    else if status == Some("overdue") then !t.completed && t.dueDate.Some? && t.dueDate.value < today
    else if status == Some("upcoming") then !t.completed && t.dueDate.Some? && t.dueDate.value >= today
    else true
  }

  /** An empty or absent query matches every title. */
  predicate TitleMatches(q: Option<string>, t: Task) {
    q.None? || q.value == [] || Text.ContainsIgnoringCase(t.title, q.value)
  }

  predicate Selected(x: Row, user: UserId, status: Option<string>, q: Option<string>, today: Day) {
    x.task.owner == user && StatusMatches(status, x.task, today) && TitleMatches(q, x.task)
  }

  /** The selected rows in the order of the table; the filter chain of the
      view is proved equal to it (`FilteredIsSelection`). */
  function Selection(rows: seq<Row>, user: UserId, status: Option<string>, q: Option<string>, today: Day): (r: seq<Row>)
    ensures forall x :: x in r <==> x in rows && Selected(x, user, status, q, today)
  {
    if rows == [] then []
    else if Selected(rows[0], user, status, q, today) then [rows[0]] + Selection(rows[1..], user, status, q, today)
    else Selection(rows[1..], user, status, q, today)
  }

  /** The status filter, then the title search, applied to the user's
      tasks. */
  function Filtered(rows: seq<Row>, user: UserId, status: Option<string>, q: Option<string>, today: Day): (r: seq<Row>)
    ensures forall x :: x in r <==> x in rows && Selected(x, user, status, q, today)
  {
    var own := OwnedRows(rows, user);
    var byStatus := match StatusCriteria(status, today)
      case None => own
      case Some(cs) => Where(own, cs);
    assert forall x :: x in byStatus <==> x in own && StatusMatches(status, x.task, today);
    if q.Some? && q.value != [] then
      assert forall x :: AllHold([TitleContains(q.value)], x) == TitleMatches(q, x.task) by {
        forall x { AllHoldOne(TitleContains(q.value), x); }
      }
      Where(byStatus, [TitleContains(q.value)])
    else byStatus
  }

  /** All the conditions of the filter chain as one list. */
  function ChainCriteria(user: UserId, status: Option<string>, q: Option<string>, today: Day): seq<Criterion> {
    var byStatus := match StatusCriteria(status, today)
      case None => []
      case Some(cs) => cs;
    var byTitle := if q.Some? && q.value != [] then [TitleContains(q.value)] else [];
    [OwnedBy(user)] + byStatus + byTitle
  }

  lemma {:induction false} WhereIsSelection(rows: seq<Row>, cs: seq<Criterion>, user: UserId, status: Option<string>, q: Option<string>, today: Day)
    requires forall x :: AllHold(cs, x) == Selected(x, user, status, q, today)
    ensures Where(rows, cs) == Selection(rows, user, status, q, today)
  {
    if rows != [] {
      WhereIsSelection(rows[1..], cs, user, status, q, today);
    }
  }

  /** The chain's conditions hold of a row exactly when it is selected. */
  lemma ChainCriteriaMeaning(user: UserId, status: Option<string>, q: Option<string>, today: Day, x: Row)
    ensures AllHold(ChainCriteria(user, status, q, today), x) == Selected(x, user, status, q, today)
  {
    var sc := match StatusCriteria(status, today) case None => [] case Some(cs) => cs;
    var tc: seq<Criterion> := if q.Some? && q.value != [] then [TitleContains(q.value)] else [];
    AllHoldConcat([OwnedBy(user)] + sc, tc, x);
    AllHoldConcat([OwnedBy(user)], sc, x);
    AllHoldOne(OwnedBy(user), x);
    if q.Some? && q.value != [] {
      AllHoldOne(TitleContains(q.value), x);
    }
  }

  /** The filter chain is one filter with all its conditions. */
  lemma FilteredIsWhere(rows: seq<Row>, user: UserId, status: Option<string>, q: Option<string>, today: Day)
    ensures Filtered(rows, user, status, q, today) == Where(rows, ChainCriteria(user, status, q, today))
  {
    var sc := match StatusCriteria(status, today) case None => [] case Some(cs) => cs;
    var tc: seq<Criterion> := if q.Some? && q.value != [] then [TitleContains(q.value)] else [];
    var own := Where(rows, [OwnedBy(user)]);
    WhereChain(rows, [OwnedBy(user)], sc);
    WhereChain(rows, [OwnedBy(user)] + sc, tc);
    if sc == [] {
      WhereEverything(own, []);
      assert [OwnedBy(user)] + sc == [OwnedBy(user)];
    }
    if tc == [] {
      WhereEverything(Where(own, sc), []);
      assert [OwnedBy(user)] + sc + tc == [OwnedBy(user)] + sc;
    }
  }

  /** The filter chain selects exactly the rows `Selected` describes, in
      the order of the table. */
  lemma FilteredIsSelection(rows: seq<Row>, user: UserId, status: Option<string>, q: Option<string>, today: Day)
    ensures Filtered(rows, user, status, q, today) == Selection(rows, user, status, q, today)
  {
    FilteredIsWhere(rows, user, status, q, today);
    forall x ensures AllHold(ChainCriteria(user, status, q, today), x) == Selected(x, user, status, q, today) {
      ChainCriteriaMeaning(user, status, q, today, x);
    }
    WhereIsSelection(rows, ChainCriteria(user, status, q, today), user, status, q, today);
  }

  /** A filter whose conditions hold of every row keeps every row. */
  lemma {:induction false} WhereEverything(rows: seq<Row>, cs: seq<Criterion>)
    requires forall x :: x in rows ==> AllHold(cs, x)
    ensures Where(rows, cs) == rows
  {
    if rows != [] {
      WhereEverything(rows[1..], cs);
    }
  }

  /** The column and direction a `sort` value asks for; an unknown value
      sorts by creation time, oldest first. */
  function OrderingFor(sort: string): (o: Ordering)
    ensures o.column == DueDate <==> sort == "due_asc" || sort == "due_desc"
    ensures o.descending <==> sort == "created_desc" || sort == "due_desc"
  {
    if sort == "created_asc" then Ordering(CreatedAt, false)
    else if sort == "created_desc" then Ordering(CreatedAt, true)
    else if sort == "due_asc" then Ordering(DueDate, false)
    else if sort == "due_desc" then Ordering(DueDate, true)
    else Ordering(CreatedAt, false)
  }

  /** An empty or absent `sort` asks for no ordering; any other value asks
      for the ordering it maps to. */
  function RequestedOrdering(sort: Option<string>): (r: Option<Ordering>)
    ensures r.None? <==> sort.None? || sort.value == []
    ensures r.Some? ==> r.value == OrderingFor(sort.value)
  {
    if sort.Some? && sort.value != [] then Some(OrderingFor(sort.value)) else None
  }

  /** The task list: the user's tasks, filtered by status and title and, if
      asked, sorted. */
  function TaskList(rows: seq<Row>, user: UserId, status: Option<string>, q: Option<string>, sort: Option<string>, today: Day): (r: seq<Row>)
    ensures forall x :: x in r ==> x in rows && x.task.owner == user
    ensures forall x :: x in r <==> x in rows && Selected(x, user, status, q, today)
    ensures RequestedOrdering(sort).None? ==> r == Selection(rows, user, status, q, today)
    ensures RequestedOrdering(sort).Some? ==>
      && Sorted(r, RequestedOrdering(sort).value)
      && multiset(r) == multiset(Selection(rows, user, status, q, today))
  {
    var filtered := Filtered(rows, user, status, q, today);
    FilteredIsSelection(rows, user, status, q, today);
    match RequestedOrdering(sort)
    case None => filtered
    case Some(o) =>
      var r := SortRows(filtered, o);
      assert forall x :: x in r <==> x in filtered by {
        forall x ensures x in r <==> x in filtered {
          assert x in r <==> x in multiset(r);
          assert x in filtered <==> x in multiset(filtered);
        }
      }
      r
  }

  /** Status filters in terms of one task: what `overdue` and `upcoming`
      admit, that a task with no due date is in neither, and that an
      unknown status filters nothing. */
  lemma StatusFilterMeaning(rows: seq<Row>, user: UserId, status: Option<string>, q: Option<string>, sort: Option<string>, today: Day, x: Row)
    ensures x in TaskList(rows, user, Some("overdue"), q, sort, today) ==>
      !x.task.completed && x.task.dueDate.Some? && x.task.dueDate.value < today
    ensures x in TaskList(rows, user, Some("upcoming"), q, sort, today) ==>
      !x.task.completed && x.task.dueDate.Some? && x.task.dueDate.value >= today
    ensures x.task.dueDate.None? ==>
      x !in TaskList(rows, user, Some("overdue"), q, sort, today) && x !in TaskList(rows, user, Some("upcoming"), q, sort, today)
    ensures StatusCriteria(status, today).None? ==>
      TaskList(rows, user, status, q, sort, today) == TaskList(rows, user, None, q, sort, today)
  {
    if StatusCriteria(status, today).None? {
      assert Selection(rows, user, status, q, today) == Selection(rows, user, None, q, today) by {
        SelectionStatusIrrelevant(rows, user, status, q, today);
      }
      FilteredIsSelection(rows, user, status, q, today);
      FilteredIsSelection(rows, user, None, q, today);
    }
  }

  lemma {:induction false} SelectionStatusIrrelevant(rows: seq<Row>, user: UserId, status: Option<string>, q: Option<string>, today: Day)
    requires StatusCriteria(status, today).None?
    ensures Selection(rows, user, status, q, today) == Selection(rows, user, None, q, today)
  {
    if rows != [] {
      SelectionStatusIrrelevant(rows[1..], user, status, q, today);
    }
  }

  // ---------------------------------------------------------------------
  // The dashboard

  /** A task of `user` that is still pending and due on `today`. */
  predicate DueToday(x: Row, user: UserId, today: Day) {
    x.task.owner == user && !x.task.completed && x.task.dueDate == Some(today)
  }

  /** The user's pending tasks due today, in table order. */
  function DueTodayRows(rows: seq<Row>, user: UserId, today: Day): (r: seq<Row>)
    ensures forall x :: x in r <==> x in rows && DueToday(x, user, today)
  {
    if rows == [] then []
    else if DueToday(rows[0], user, today) then [rows[0]] + DueTodayRows(rows[1..], user, today)
    else DueTodayRows(rows[1..], user, today)
  }

  lemma {:induction false} WhereIsDueToday(rows: seq<Row>, cs: seq<Criterion>, user: UserId, today: Day)
    requires forall x :: AllHold(cs, x) == DueToday(x, user, today)
    ensures Where(rows, cs) == DueTodayRows(rows, user, today)
  {
    if rows != [] {
      WhereIsDueToday(rows[1..], cs, user, today);
    }
  }

  /** The dashboard's due-today filter selects exactly the user's pending
      tasks due today. */
  lemma DueTodayIsFiltered(rows: seq<Row>, user: UserId, today: Day)
    ensures Where(OwnedRows(rows, user), [CompletedIs(false), DueOn(today)]) == DueTodayRows(rows, user, today)
  {
    var cs := [CompletedIs(false), DueOn(today)];
    WhereChain(rows, [OwnedBy(user)], cs);
    forall x ensures AllHold([OwnedBy(user)] + cs, x) == DueToday(x, user, today) {
      AllHoldConcat([OwnedBy(user)], cs, x);
      AllHoldOne(OwnedBy(user), x);
      AllHoldTwo(CompletedIs(false), DueOn(today), x);
    }
    WhereIsDueToday(rows, [OwnedBy(user)] + cs, user, today);
  }

  datatype Stats = Stats(total: nat, completed: nat, pending: nat, overdue: nat, dueToday: nat)

  /** The counts the dashboard shows, each over the user's own tasks. */
  function Dashboard(rows: seq<Row>, user: UserId, today: Day): (s: Stats)
    ensures s.total == |TaskList(rows, user, None, None, None, today)|
    ensures s.completed == |TaskList(rows, user, Some("completed"), None, None, today)|
    ensures s.pending == |TaskList(rows, user, Some("incomplete"), None, None, today)|
    ensures s.overdue == |TaskList(rows, user, Some("overdue"), None, None, today)|
    ensures s.dueToday == |DueTodayRows(rows, user, today)|
    ensures s.dueToday <= |TaskList(rows, user, Some("upcoming"), None, None, today)|
    ensures s.total == s.completed + s.pending
    ensures s.overdue + s.dueToday <= s.pending
  {
    var own := OwnedRows(rows, user);
    var s := Stats(
      total := |own|,
      completed := |Where(own, [CompletedIs(true)])|,
      pending := |Where(own, [CompletedIs(false)])|,
      overdue := |Where(own, [CompletedIs(false), DueBefore(today)])|,
      dueToday := |Where(own, [CompletedIs(false), DueOn(today)])|);
    UnsortedListIsFiltered(rows, user, today);
    DueTodayIsFiltered(rows, user, today);
    DashboardCountRelations(own, today);
    s
  }

  /** Without a search or a sort, the task list for each status is the
      user's tasks under that status's conditions. */
  lemma UnsortedListIsFiltered(rows: seq<Row>, user: UserId, today: Day)
    ensures TaskList(rows, user, None, None, None, today) == OwnedRows(rows, user)
    ensures TaskList(rows, user, Some("completed"), None, None, today) == Where(OwnedRows(rows, user), [CompletedIs(true)])
    ensures TaskList(rows, user, Some("incomplete"), None, None, today) == Where(OwnedRows(rows, user), [CompletedIs(false)])
    ensures TaskList(rows, user, Some("overdue"), None, None, today) == Where(OwnedRows(rows, user), [DueBefore(today), CompletedIs(false)])
    ensures TaskList(rows, user, Some("upcoming"), None, None, today) == Where(OwnedRows(rows, user), [DueFrom(today), CompletedIs(false)])
  {
    FilteredIsSelection(rows, user, None, None, today);
    FilteredIsSelection(rows, user, Some("completed"), None, today);
    FilteredIsSelection(rows, user, Some("incomplete"), None, today);
    FilteredIsSelection(rows, user, Some("overdue"), None, today);
    FilteredIsSelection(rows, user, Some("upcoming"), None, today);
  }

  /** Completed and pending split the user's tasks; overdue and due-today
      tasks are disjoint pending ones; a task due today is upcoming. */
  lemma DashboardCountRelations(own: seq<Row>, today: Day)
    ensures |own| == |Where(own, [CompletedIs(true)])| + |Where(own, [CompletedIs(false)])|
    ensures |Where(own, [CompletedIs(false), DueBefore(today)])| + |Where(own, [CompletedIs(false), DueOn(today)])|
      <= |Where(own, [CompletedIs(false)])|
    ensures Where(own, [CompletedIs(false), DueBefore(today)]) == Where(own, [DueBefore(today), CompletedIs(false)])
    ensures |Where(own, [CompletedIs(false), DueOn(today)])| <= |Where(own, [DueFrom(today), CompletedIs(false)])|
  {
    forall x: Row
      ensures AllHold([CompletedIs(true)], x) == x.task.completed
      ensures AllHold([CompletedIs(false)], x) == !x.task.completed
      ensures AllHold([CompletedIs(false), DueBefore(today)], x) == AllHold([DueBefore(today), CompletedIs(false)], x)
      ensures AllHold([CompletedIs(false), DueOn(today)], x) ==> AllHold([DueFrom(today), CompletedIs(false)], x)
      ensures AllHold([CompletedIs(false), DueBefore(today)], x) ==> !x.task.completed && x.task.dueDate.value < today
      ensures AllHold([CompletedIs(false), DueOn(today)], x) ==> !x.task.completed && x.task.dueDate == Some(today)
    {
      AllHoldOne(CompletedIs(true), x);
      AllHoldOne(CompletedIs(false), x);
      AllHoldTwo(CompletedIs(false), DueBefore(today), x);
      AllHoldTwo(DueBefore(today), CompletedIs(false), x);
      AllHoldTwo(CompletedIs(false), DueOn(today), x);
      AllHoldTwo(DueFrom(today), CompletedIs(false), x);
    }
    WhereSame(own, [CompletedIs(false), DueBefore(today)], [DueBefore(today), CompletedIs(false)]);
    WhereMonotone(own, [CompletedIs(false), DueOn(today)], [DueFrom(today), CompletedIs(false)]);
    WhereEverything(own, []);
    WherePartition(own, [], [CompletedIs(true)], [CompletedIs(false)]);
    WherePartition(own, [CompletedIs(false)], [CompletedIs(false), DueBefore(today)], [CompletedIs(false), DueOn(today)]);
  }

  // ---------------------------------------------------------------------
  // Handlers that change one task

  /** What a handler answers: 404, a redirect, a rendered page (the form
      again, or a confirmation), or a server error. */
  datatype Response = NotFound | Redirect | Render | ServerError

  /** The fields the task form edits; owner and category are not among
      them. */
  datatype TaskForm = TaskForm(title: string, description: string, completed: bool, dueDate: Option<Day>)

  /** The title is required and fits its column. */
  predicate FormValid(f: TaskForm) {
    0 < |f.title| <= MaxTitleLength
  }

  /** The task the create form describes, owned by `user`, with no category
      and no completion stamp yet. */
  function NewTask(user: UserId, f: TaskForm): (t: Task)
    ensures t.owner == user && t.category.None? && t.completedAt.None?
    ensures t.title == f.title && t.description == f.description && t.completed == f.completed && t.dueDate == f.dueDate
  {
    Task(user, f.title, f.description, f.completed, None, f.dueDate, 0, 0, None)
  }

  /** `t` with the form's fields written over it; every other field kept. */
  function Edited(t: Task, f: TaskForm): (r: Task)
    ensures r.title == f.title && r.description == f.description && r.completed == f.completed && r.dueDate == f.dueDate
    ensures r.owner == t.owner && r.category == t.category && r.completedAt == t.completedAt
    ensures r.createdAt == t.createdAt && r.updatedAt == t.updatedAt
  {
    t.(title := f.title, description := f.description, completed := f.completed, dueDate := f.dueDate)
  }

  function Toggled(t: Task): (r: Task)
    ensures r.completed == !t.completed && r.(completed := t.completed) == t
  {
    t.(completed := !t.completed)
  }

  /** Toggling twice brings back the completion flag; a task that started
      incomplete comes back as it was, apart from `updated_at`, and one that
      started completed is stamped anew by the second toggle. */
  lemma ToggleTwice(t: Task, first: Instant, second: Instant)
    requires Consistent(t)
    ensures Updated(Toggled(Updated(Toggled(t), first)), second).completed == t.completed
    ensures !t.completed ==> Updated(Toggled(Updated(Toggled(t), first)), second) == t.(updatedAt := second)
    ensures t.completed ==> Updated(Toggled(Updated(Toggled(t), first)), second).completedAt == Some(second)
  {
  }

  /** The new due date a due-date request asks for: no date for an empty or
      missing value, the parsed date otherwise, and None when the text does
      not parse. */
  function RequestedDueDate(text: Option<string>, parse: string -> Option<Day>): (r: Option<Option<Day>>)
    ensures (text.None? || text.value == []) ==> r == Some(None)
    ensures text.Some? && text.value != [] ==>
      (r.None? <==> parse(text.value).None?) && (r.Some? ==> r.value == parse(text.value))
  {
    if text.Some? && text.value != [] then
      match parse(text.value)
      case None => None
      case Some(d) => Some(Some(d))
    else Some(None)
  }

  // Ownership isolation: a change to one user's task leaves what every
  // other user sees exactly as it was.

  lemma OthersUnaffectedByUpdate(rows: seq<Row>, i: nat, row: Row, v: UserId)
    requires i < |rows| && rows[i].task.owner != v && row.task.owner != v
    ensures OwnedRows(rows[i := row], v) == OwnedRows(rows, v)
  {
    assert rows == rows[..i] + [rows[i]] + rows[i + 1..];
    assert rows[i := row] == rows[..i] + [row] + rows[i + 1..];
    WhereAppend(rows[..i] + [rows[i]], rows[i + 1..], [OwnedBy(v)]);
    WhereAppend(rows[..i], [rows[i]], [OwnedBy(v)]);
    WhereAppend(rows[..i] + [row], rows[i + 1..], [OwnedBy(v)]);
    WhereAppend(rows[..i], [row], [OwnedBy(v)]);
  }

  lemma OthersUnaffectedByDelete(rows: seq<Row>, i: nat, v: UserId)
    requires i < |rows| && rows[i].task.owner != v
    ensures OwnedRows(rows[..i] + rows[i + 1..], v) == OwnedRows(rows, v)
  {
    assert rows == rows[..i] + [rows[i]] + rows[i + 1..];
    WhereAppend(rows[..i] + [rows[i]], rows[i + 1..], [OwnedBy(v)]);
    WhereAppend(rows[..i], [rows[i]], [OwnedBy(v)]);
    WhereAppend(rows[..i], rows[i + 1..], [OwnedBy(v)]);
  }

  lemma OthersUnaffectedByInsert(rows: seq<Row>, row: Row, v: UserId)
    requires row.task.owner != v
    ensures OwnedRows(rows + [row], v) == OwnedRows(rows, v)
  {
    WhereAppend(rows, [row], [OwnedBy(v)]);
  }

  method CreateTask(store: TaskStore, user: UserId, post: bool, form: TaskForm, now: Instant) returns (resp: Response)
    requires store.Valid() && user in store.users
    modifies store`rows, store`nextId
    ensures store.Valid()
    ensures resp == (if post && FormValid(form) then Redirect else Render)
    ensures resp == Redirect ==>
      store.rows == old(store.rows) + [Row(old(store.nextId), Inserted(NewTask(user, form), now))]
    ensures resp == Render ==> store.rows == old(store.rows) && store.nextId == old(store.nextId)
    ensures forall v :: v != user ==> OwnedRows(store.rows, v) == OwnedRows(old(store.rows), v)
  {
    if post && FormValid(form) {
      var id := store.Insert(NewTask(user, form), now);
      forall v | v != user ensures OwnedRows(store.rows, v) == OwnedRows(old(store.rows), v) {
        OthersUnaffectedByInsert(old(store.rows), Row(id, Inserted(NewTask(user, form), now)), v);
      }
      resp := Redirect;
    } else {
      resp := Render;
    }
  }

  method UpdateTask(store: TaskStore, user: UserId, pk: TaskId, post: bool, form: TaskForm, now: Instant) returns (resp: Response)
    requires store.Valid() && user in store.users
    modifies store`rows
    ensures store.Valid()
    ensures match Lookup(old(store.rows), user, pk)
      case None => resp == NotFound && store.rows == old(store.rows)
      case Some(i) =>
        if post && FormValid(form) then
          resp == Redirect && store.rows == old(store.rows)[i := Row(pk, Updated(Edited(old(store.rows)[i].task, form), now))]
        else
          resp == Render && store.rows == old(store.rows)
    ensures forall v :: v != user ==> OwnedRows(store.rows, v) == OwnedRows(old(store.rows), v)
  {
    var found := Lookup(store.rows, user, pk);
    if found.None? {
      return NotFound;
    }
    var i := found.value;
    if post && FormValid(form) {
      store.Update(i, Edited(store.rows[i].task, form), now);
      forall v | v != user ensures OwnedRows(store.rows, v) == OwnedRows(old(store.rows), v) {
        OthersUnaffectedByUpdate(old(store.rows), i, store.rows[i], v);
      }
      resp := Redirect;
    } else {
      resp := Render;
    }
  }

  method DeleteTask(store: TaskStore, user: UserId, pk: TaskId, post: bool) returns (resp: Response)
    requires store.Valid() && user in store.users
    modifies store`rows
    ensures store.Valid()
    ensures match Lookup(old(store.rows), user, pk)
      case None => resp == NotFound && store.rows == old(store.rows)
      case Some(i) =>
        if post then resp == Redirect && store.rows == old(store.rows)[..i] + old(store.rows)[i + 1..]
        else resp == Render && store.rows == old(store.rows)
    ensures forall v :: v != user ==> OwnedRows(store.rows, v) == OwnedRows(old(store.rows), v)
  {
    var found := Lookup(store.rows, user, pk);
    if found.None? {
      return NotFound;
    }
    var i := found.value;
    if post {
      store.Delete(i);
      forall v | v != user ensures OwnedRows(store.rows, v) == OwnedRows(old(store.rows), v) {
        OthersUnaffectedByDelete(old(store.rows), i, v);
      }
      resp := Redirect;
    } else {
      resp := Render;
    }
  }

  /** Flips the completion flag; the save then stamps or clears
      `completed_at`. Any HTTP method does it. */
  method ToggleComplete(store: TaskStore, user: UserId, pk: TaskId, now: Instant) returns (resp: Response)
    requires store.Valid() && user in store.users
    modifies store`rows
    ensures store.Valid()
    ensures match Lookup(old(store.rows), user, pk)
      case None => resp == NotFound && store.rows == old(store.rows)
      case Some(i) =>
        resp == Redirect && store.rows == old(store.rows)[i := Row(pk, Updated(Toggled(old(store.rows)[i].task), now))]
    ensures forall v :: v != user ==> OwnedRows(store.rows, v) == OwnedRows(old(store.rows), v)
  {
    var found := Lookup(store.rows, user, pk);
    if found.None? {
      return NotFound;
    }
    var i := found.value;
    store.Update(i, Toggled(store.rows[i].task), now);
    forall v | v != user ensures OwnedRows(store.rows, v) == OwnedRows(old(store.rows), v) {
      OthersUnaffectedByUpdate(old(store.rows), i, store.rows[i], v);
    }
    resp := Redirect;
  }

  /** Sets the due date from the posted text, or clears it when the text is
      empty or missing. Text that does not parse ends the request with a
      server error and no change. A GET only redirects. */
  method UpdateDueDate(store: TaskStore, user: UserId, pk: TaskId, post: bool, text: Option<string>,
                       parse: string -> Option<Day>, now: Instant) returns (resp: Response)
    requires store.Valid() && user in store.users
    modifies store`rows
    ensures store.Valid()
    ensures match Lookup(old(store.rows), user, pk)
      case None => resp == NotFound && store.rows == old(store.rows)
      case Some(i) =>
        if !post then resp == Redirect && store.rows == old(store.rows)
        else match RequestedDueDate(text, parse)
          case None => resp == ServerError && store.rows == old(store.rows)
          case Some(due) =>
            resp == Redirect && store.rows == old(store.rows)[i := Row(pk, Updated(old(store.rows)[i].task.(dueDate := due), now))]
    ensures forall v :: v != user ==> OwnedRows(store.rows, v) == OwnedRows(old(store.rows), v)
  {
    var found := Lookup(store.rows, user, pk);
    if found.None? {
      return NotFound;
    }
    var i := found.value;
    if !post {
      return Redirect;
    }
    match RequestedDueDate(text, parse)
    case None =>
      resp := ServerError;
    case Some(due) =>
      store.Update(i, store.rows[i].task.(dueDate := due), now);
      forall v | v != user ensures OwnedRows(store.rows, v) == OwnedRows(old(store.rows), v) {
        OthersUnaffectedByUpdate(old(store.rows), i, store.rows[i], v);
      }
      resp := Redirect;
  }

  /** Removes the due date. Any HTTP method does it. */
  method ClearDueDate(store: TaskStore, user: UserId, pk: TaskId, now: Instant) returns (resp: Response)
    requires store.Valid() && user in store.users
    modifies store`rows
    ensures store.Valid()
    ensures match Lookup(old(store.rows), user, pk)
      case None => resp == NotFound && store.rows == old(store.rows)
      case Some(i) =>
        resp == Redirect && store.rows == old(store.rows)[i := Row(pk, Updated(old(store.rows)[i].task.(dueDate := None), now))]
    ensures forall v :: v != user ==> OwnedRows(store.rows, v) == OwnedRows(old(store.rows), v)
  {
    var found := Lookup(store.rows, user, pk);
    if found.None? {
      return NotFound;
    }
    var i := found.value;
    store.Update(i, store.rows[i].task.(dueDate := None), now);
    forall v | v != user ensures OwnedRows(store.rows, v) == OwnedRows(old(store.rows), v) {
      OthersUnaffectedByUpdate(old(store.rows), i, store.rows[i], v);
    }
    resp := Redirect;
  }

  // ---------------------------------------------------------------------
  // The theme switch

  /** The part of a session the views use: the stored theme flag, if any. */
  class Session {
    var darkMode: Option<bool>

    constructor ()
      ensures darkMode == None
    {
      darkMode := None;
    }
  }

  /** The theme in force: the stored flag, light when none is stored. */
  function DarkMode(stored: Option<bool>): (dark: bool)
    ensures stored.None? ==> !dark
    ensures stored.Some? ==> dark == stored.value
  {
    match stored
    case None => false
    case Some(b) => b
  }

  /** Stores and answers the opposite of the theme in force. */
  method ToggleTheme(session: Session) returns (dark: bool)
    modifies session`darkMode
    ensures dark == !DarkMode(old(session.darkMode))
    ensures session.darkMode == Some(dark)
  {
    var current := DarkMode(session.darkMode);
    session.darkMode := Some(!current);
    dark := !current;
  }
}
