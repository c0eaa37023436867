/** The data model of the task application: users, categories and tasks,
    the completion-timestamp rule that `Task.save` applies before every
    write, and the store-level delete rules (CASCADE from a user to its
    tasks and categories, SET_NULL from a category to the tasks that
    reference it).

    Time is explicit: a `Day` is a calendar date as a day number and an
    `Instant` is a point in time; the caller passes the current one. */
module Models {

  datatype Option<+T> = None | Some(value: T)

  type UserId = nat
  type TaskId = nat
  type CategoryId = nat
  type Day = int
  type Instant = int

  /** The longest title the `title` column accepts. */
  const MaxTitleLength: nat := 255

  datatype Category = Category(owner: UserId, name: string)

  datatype Task = Task(
    owner: UserId,
    title: string,
    description: string,
    completed: bool,
    completedAt: Option<Instant>,
    dueDate: Option<Day>,
    createdAt: Instant,
    updatedAt: Instant,
    category: Option<CategoryId>)

  /** A stored task together with its primary key. */
  datatype Row = Row(id: TaskId, task: Task)

  // ---------------------------------------------------------------------
  // The completion-timestamp state machine

  /** A task is consistent when it carries a completion stamp exactly when
      it is completed. */
  predicate Consistent(t: Task) {
    t.completed <==> t.completedAt.Some?
  }

  /** What `Task.save` does to the instance before it is written: a
      completed task without a stamp is stamped with `now`, an incomplete
      task loses its stamp, and an existing stamp is kept. */
  function StampCompletion(t: Task, now: Instant): (r: Task)
    ensures Consistent(r)
    ensures !t.completed ==> r.completedAt == None
    ensures t.completed && t.completedAt.Some? ==> r.completedAt == t.completedAt
    ensures r.completedAt != t.completedAt ==> r.completedAt == (if t.completed then Some(now) else None)
    ensures r == t.(completedAt := r.completedAt)
  {
    if t.completed && t.completedAt.None? then t.(completedAt := Some(now))
    else if !t.completed then t.(completedAt := None)
    else t
  }

  /** Saving a second time, at any later moment, changes nothing more. */
  lemma SaveIdempotent(t: Task, first: Instant, second: Instant)
    ensures StampCompletion(StampCompletion(t, first), second) == StampCompletion(t, first)
  {
  }

  /** On a task that is already consistent the rule is the identity: in
      particular it never re-stamps a completed task. */
  lemma SaveFixesConsistent(t: Task, now: Instant)
    requires Consistent(t)
    ensures StampCompletion(t, now) == t
  {
  }

  /** The record an UPDATE writes: the completion rule, then the
      `auto_now` stamp of `updated_at`. */
  function Updated(t: Task, now: Instant): (r: Task)
    ensures Consistent(r) && r.updatedAt == now
    ensures r.(completedAt := t.completedAt, updatedAt := t.updatedAt) == t
  {
    StampCompletion(t, now).(updatedAt := now)
  }

  /** The record an INSERT writes: as `Updated`, plus the `auto_now_add`
      stamp of `created_at`. */
  function Inserted(t: Task, now: Instant): (r: Task)
    ensures Consistent(r) && r.createdAt == now && r.updatedAt == now
    ensures r.(completedAt := t.completedAt, createdAt := t.createdAt, updatedAt := t.updatedAt) == t
  {
    StampCompletion(t, now).(createdAt := now, updatedAt := now)
  }

  // ---------------------------------------------------------------------
  // The store invariant

  /** Primary keys strictly increase along the table, so none repeats. */
  predicate IdsAscending(rows: seq<Row>) {
    forall i, j :: 0 <= i < j < |rows| ==> rows[i].id < rows[j].id
  }

  /** The foreign keys of a task point at existing rows. */
  predicate RefsValid(t: Task, users: set<UserId>, categories: map<CategoryId, Category>) {
    t.owner in users && (t.category.Some? ==> t.category.value in categories)
  }

  predicate StoreInvariant(users: set<UserId>, categories: map<CategoryId, Category>, rows: seq<Row>, nextId: TaskId) {
    && IdsAscending(rows)
    && (forall c :: c in categories ==> categories[c].owner in users)
    && (forall i :: 0 <= i < |rows| ==> rows[i].id < nextId)
    && (forall i :: 0 <= i < |rows| ==> RefsValid(rows[i].task, users, categories))
    && (forall i :: 0 <= i < |rows| ==> Consistent(rows[i].task))
  }

  lemma AscendingHead(rows: seq<Row>)
    requires IdsAscending(rows) && rows != []
    ensures forall x :: x in rows[1..] ==> rows[0].id < x.id
  {
    forall x | x in rows[1..] ensures rows[0].id < x.id {
      var k :| 0 <= k < |rows[1..]| && rows[1..][k] == x;
      assert rows[k + 1] == x;
    }
  }

  lemma AscendingCons(x: Row, rest: seq<Row>)
    requires IdsAscending(rest)
    requires forall y :: y in rest ==> x.id < y.id
    ensures IdsAscending([x] + rest)
  {
    var s := [x] + rest;
    forall i, j | 0 <= i < j < |s| ensures s[i].id < s[j].id {
      if i == 0 {
        assert s[j] in rest;
      } else {
        assert s[i] == rest[i - 1] && s[j] == rest[j - 1];
      }
    }
  }

  // ---------------------------------------------------------------------
  // Store-level delete rules

  /** The rows left after deleting every task of user `u` (CASCADE). */
  function RemoveOwnedBy(rows: seq<Row>, u: UserId): (r: seq<Row>)
    ensures forall x :: x in r <==> x in rows && x.task.owner != u
    ensures |r| <= |rows|
  {
    if rows == [] then []
    else if rows[0].task.owner == u then RemoveOwnedBy(rows[1..], u)
    else [rows[0]] + RemoveOwnedBy(rows[1..], u)
  }

  lemma {:induction false} RemoveOwnedByAscending(rows: seq<Row>, u: UserId)
    requires IdsAscending(rows)
    ensures IdsAscending(RemoveOwnedBy(rows, u))
  {
    if rows != [] {
      RemoveOwnedByAscending(rows[1..], u);
      if rows[0].task.owner != u {
        AscendingHead(rows);
        AscendingCons(rows[0], RemoveOwnedBy(rows[1..], u));
      }
    }
  }

  /** True when the task references one of the `gone` categories. */
  predicate RefersTo(t: Task, gone: set<CategoryId>) {
    t.category.Some? && t.category.value in gone
  }

  /** The rows after the categories in `gone` were deleted (SET_NULL): every
      task stays where it was, and those that referenced a deleted category
      now reference none. The update is a bulk one, so `updated_at` is not
      touched. */
  function ClearCategories(rows: seq<Row>, gone: set<CategoryId>): (r: seq<Row>)
    ensures |r| == |rows|
    ensures forall i :: 0 <= i < |rows| ==>
      && r[i].id == rows[i].id
      && r[i].task.(category := None) == rows[i].task.(category := None)
      && (RefersTo(rows[i].task, gone) ==> r[i].task.category == None)
      && (!RefersTo(rows[i].task, gone) ==> r[i] == rows[i])
  {
    if rows == [] then []
    else
      var t := rows[0].task;
      var head := if RefersTo(t, gone) then Row(rows[0].id, t.(category := None)) else rows[0];
      [head] + ClearCategories(rows[1..], gone)
  }

  /** The categories that remain once user `u` is deleted. */
  function CategoriesNotOwnedBy(categories: map<CategoryId, Category>, u: UserId): (r: map<CategoryId, Category>)
    ensures forall c :: c in r <==> c in categories && categories[c].owner != u
    ensures forall c :: c in r ==> r[c] == categories[c]
  {
    map c | c in categories && categories[c].owner != u :: categories[c]
  }

  /** The categories of user `u`, which go when `u` goes. */
  function OwnedCategories(categories: map<CategoryId, Category>, u: UserId): (r: set<CategoryId>)
    ensures forall c :: c in r <==> c in categories && categories[c].owner == u
  {
    set c | c in categories && categories[c].owner == u
  }

  /** A task that survives the deletion of the categories in `gone`. */
  function Survivor(x: Row, gone: set<CategoryId>): Row {
    if RefersTo(x.task, gone) then Row(x.id, x.task.(category := None)) else x
  }

  /** The task table as it is after user `u` was deleted: `u`'s tasks are
      gone, every other task survives, a survivor that referenced one of
      `u`'s categories now references none. That nothing else is there is
      `CascadeUserOnlySurvivors`. */
  function CascadeUser(rows: seq<Row>, categories: map<CategoryId, Category>, u: UserId): (r: seq<Row>)
    ensures forall x :: x in r ==> x.task.owner != u && !RefersTo(x.task, OwnedCategories(categories, u))
    ensures forall x :: x in rows && x.task.owner != u && !RefersTo(x.task, OwnedCategories(categories, u)) ==> x in r
    ensures forall x :: x in rows && x.task.owner != u && RefersTo(x.task, OwnedCategories(categories, u)) ==>
      Row(x.id, x.task.(category := None)) in r
  {
    var gone := OwnedCategories(categories, u);
    var kept := RemoveOwnedBy(rows, u);
    var r := ClearCategories(kept, gone);
    forall y | y in r ensures y.task.owner != u && !RefersTo(y.task, gone) {
      var i :| 0 <= i < |r| && r[i] == y;
      assert kept[i] in kept;
    }
    forall x | x in kept ensures Survivor(x, gone) in r {
      var i :| 0 <= i < |kept| && kept[i] == x;
      assert r[i] == Survivor(x, gone);
    }
    r
  }

  /** Nothing but the survivors is left after deleting user `u`: every
      remaining task is one of another user's tasks, cleared of `u`'s
      categories. */
  lemma CascadeUserOnlySurvivors(rows: seq<Row>, categories: map<CategoryId, Category>, u: UserId)
    ensures forall y :: y in CascadeUser(rows, categories, u) ==>
      exists x :: x in rows && x.task.owner != u && y == Survivor(x, OwnedCategories(categories, u))
  {
    var gone := OwnedCategories(categories, u);
    var kept := RemoveOwnedBy(rows, u);
    var r := ClearCategories(kept, gone);
    assert r == CascadeUser(rows, categories, u);
    forall y | y in r ensures exists x :: x in rows && x.task.owner != u && y == Survivor(x, gone) {
      var i :| 0 <= i < |r| && r[i] == y;
      assert kept[i] in kept;
      assert y == Survivor(kept[i], gone);
    }
  }

  /** Deleting a user keeps the store invariant. */
  lemma CascadeKeepsInvariant(users: set<UserId>, categories: map<CategoryId, Category>, rows: seq<Row>, nextId: TaskId, u: UserId)
    requires StoreInvariant(users, categories, rows, nextId)
    ensures StoreInvariant(users - {u}, CategoriesNotOwnedBy(categories, u), CascadeUser(rows, categories, u), nextId)
  {
    var kept := RemoveOwnedBy(rows, u);
    RemoveOwnedByAscending(rows, u);
    var remaining := CategoriesNotOwnedBy(categories, u);
    var gone := OwnedCategories(categories, u);
    var r := ClearCategories(kept, gone);
    assert r == CascadeUser(rows, categories, u);
    forall k | 0 <= k < |r|
      ensures r[k].id < nextId && RefsValid(r[k].task, users - {u}, remaining) && Consistent(r[k].task)
    {
      assert kept[k] in kept;
      var j :| 0 <= j < |rows| && rows[j] == kept[k];
    }
  }

  // ---------------------------------------------------------------------
  // The store

  /** The database: the user table, the category table and the task table.
      Every write of a task goes through `Insert` or `Update`, which are the
      two paths of `Task.save`. */
  class TaskStore {
    var users: set<UserId>
    var categories: map<CategoryId, Category>
    var rows: seq<Row>
    var nextId: TaskId

    ghost predicate Valid()
      reads this
    {
      StoreInvariant(users, categories, rows, nextId)
    }

    /** A store holding the given users and categories and no tasks. */
    constructor (users0: set<UserId>, categories0: map<CategoryId, Category>)
      requires forall c :: c in categories0 ==> categories0[c].owner in users0
      ensures Valid()
      ensures users == users0 && categories == categories0 && rows == []
    {
      users := users0;
      categories := categories0;
      rows := [];
      nextId := 0;
    }

    /** `save()` on a new task: INSERT with the next primary key. */
    method Insert(t: Task, now: Instant) returns (id: TaskId)
      requires Valid() && RefsValid(t, users, categories)
      modifies this`rows, this`nextId
      ensures Valid()
      ensures id == old(nextId) && nextId == id + 1
      ensures rows == old(rows) + [Row(id, Inserted(t, now))]
    {
      id := nextId;
      var row := Row(id, Inserted(t, now));
      forall i, j | 0 <= i < j < |rows + [row]| ensures (rows + [row])[i].id < (rows + [row])[j].id {
        if j < |rows| {
          assert (rows + [row])[i] == rows[i] && (rows + [row])[j] == rows[j];
        } else {
          assert (rows + [row])[i] == rows[i];
        }
      }
      rows := rows + [row];
      nextId := nextId + 1;
    }

    /** `save()` on a task loaded from row `i`: UPDATE of that row only. */
    method Update(i: nat, t: Task, now: Instant)
      requires Valid() && i < |rows| && RefsValid(t, users, categories)
      modifies this`rows
      ensures Valid()
      ensures rows == old(rows)[i := Row(old(rows)[i].id, Updated(t, now))]
    {
      rows := rows[i := Row(rows[i].id, Updated(t, now))];
    }

    /** `delete()` on the task in row `i`. */
    method Delete(i: nat)
      requires Valid() && i < |rows|
      modifies this`rows
      ensures Valid()
      ensures rows == old(rows[..i] + rows[i + 1..])
    {
      var r := rows[..i] + rows[i + 1..];
      forall p, q | 0 <= p < q < |r| ensures r[p].id < r[q].id {
        var p' := if p < i then p else p + 1;
        var q' := if q < i then q else q + 1;
        assert r[p] == rows[p'] && r[q] == rows[q'];
      }
      forall k | 0 <= k < |r|
        ensures r[k].id < nextId && RefsValid(r[k].task, users, categories) && Consistent(r[k].task)
      {
        assert r[k] == rows[if k < i then k else k + 1];
      }
      rows := r;
    }

    /** Deleting category `c`: the tasks that referenced it stay, with no
        category (SET_NULL). */
    method DeleteCategory(c: CategoryId)
      requires Valid()
      modifies this`rows, this`categories
      ensures Valid()
      ensures categories == old(categories) - {c}
      ensures rows == ClearCategories(old(rows), {c})
    {
      rows := ClearCategories(rows, {c});
      categories := categories - {c};
    }

    /** Deleting user `u`: its tasks and categories go with it (CASCADE),
        and the other users' tasks that referenced one of its categories
        lose that reference (SET_NULL). */
    method DeleteUser(u: UserId)
      requires Valid()
      modifies this`users, this`categories, this`rows
      ensures Valid()
      ensures users == old(users) - {u}
      ensures categories == CategoriesNotOwnedBy(old(categories), u)
      ensures rows == CascadeUser(old(rows), old(categories), u)
    {
      var r := CascadeUser(rows, categories, u);
      var remaining := CategoriesNotOwnedBy(categories, u);
      CascadeKeepsInvariant(users, categories, rows, nextId, u);
      users, categories, rows := users - {u}, remaining, r;
    }
  }
}
