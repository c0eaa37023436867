/** The query operations the views run against the task table: a filter
    with keyword conditions (all of which must hold), the owner-scoped
    lookup by primary key that answers "not found" otherwise, and an
    ordering by one column. */
module Query {
  import opened Models
  import Text

  /** One keyword condition of a filter. */
  datatype Criterion =
    | OwnedBy(user: UserId)          // user=...
    | CompletedIs(done: bool)        // completed=...
    | DueBefore(day: Day)            // due_date__lt=...
    | DueFrom(day: Day)              // due_date__gte=...
    | DueOn(day: Day)                // due_date=...
    | TitleContains(query: string)   // title__icontains=...

  /** Whether one keyword condition holds of a row. A comparison with a
      NULL due date is never true. */
  predicate Holds(c: Criterion, row: Row): (r: bool)
    ensures row.task.dueDate.None? && (c.DueBefore? || c.DueFrom? || c.DueOn?) ==> !r
    ensures c.TitleContains? ==> r == Text.Occurs(Text.Lower(row.task.title), Text.Lower(c.query))
  {
    var t := row.task;
    match c
    case OwnedBy(u) => t.owner == u
    case CompletedIs(b) => t.completed == b
    case DueBefore(d) => t.dueDate.Some? && t.dueDate.value < d
    case DueFrom(d) => t.dueDate.Some? && t.dueDate.value >= d
    case DueOn(d) => t.dueDate == Some(d)
    case TitleContains(q) => Text.ContainsIgnoringCase(t.title, q)
  }

  /** Every condition of `cs` holds of `row`. */
  predicate AllHold(cs: seq<Criterion>, row: Row) {
    cs == [] || (Holds(cs[0], row) && AllHold(cs[1..], row))
  }

  lemma AllHoldOne(c: Criterion, row: Row)
    ensures AllHold([c], row) == Holds(c, row)
  {
    assert [c][1..] == [];
  }

  lemma AllHoldTwo(c: Criterion, d: Criterion, row: Row)
    ensures AllHold([c, d], row) == (Holds(c, row) && Holds(d, row))
  {
    assert [c, d][1..] == [d];
    AllHoldOne(d, row);
  }

  lemma {:induction false} AllHoldConcat(a: seq<Criterion>, b: seq<Criterion>, row: Row)
    ensures AllHold(a + b, row) == (AllHold(a, row) && AllHold(b, row))
  {
    if a != [] {
      assert (a + b)[1..] == a[1..] + b;
      AllHoldConcat(a[1..], b, row);
    } else {
      assert a + b == b;
    }
  }

  /** The rows, in their order, that satisfy every condition of `cs`. */
  function Where(rows: seq<Row>, cs: seq<Criterion>): (r: seq<Row>)
    ensures forall x :: x in r <==> x in rows && AllHold(cs, x)
    ensures |r| <= |rows|
  {
    if rows == [] then []
    else if AllHold(cs, rows[0]) then [rows[0]] + Where(rows[1..], cs)
    else Where(rows[1..], cs)
  }

  /** Chaining two filters is one filter with both sets of conditions. */
  lemma {:induction false} WhereChain(rows: seq<Row>, cs1: seq<Criterion>, cs2: seq<Criterion>)
    ensures Where(Where(rows, cs1), cs2) == Where(rows, cs1 + cs2)
  {
    if rows != [] {
      WhereChain(rows[1..], cs1, cs2);
      AllHoldConcat(cs1, cs2, rows[0]);
      if AllHold(cs1, rows[0]) {
        assert Where(rows, cs1)[1..] == Where(rows[1..], cs1);
      }
    }
  }

  /** Filters whose conditions agree on every row select the same rows. */
  lemma {:induction false} WhereSame(rows: seq<Row>, cs1: seq<Criterion>, cs2: seq<Criterion>)
    requires forall x :: AllHold(cs1, x) == AllHold(cs2, x)
    ensures Where(rows, cs1) == Where(rows, cs2)
  {
    if rows != [] {
      WhereSame(rows[1..], cs1, cs2);
    }
  }

  /** Filtering distributes over concatenation. */
  lemma {:induction false} WhereAppend(a: seq<Row>, b: seq<Row>, cs: seq<Criterion>)
    ensures Where(a + b, cs) == Where(a, cs) + Where(b, cs)
  {
    if a != [] {
      assert (a + b)[1..] == a[1..] + b;
      WhereAppend(a[1..], b, cs);
    } else {
      assert a + b == b;
    }
  }

  /** Two filters that never select the same row, and select only rows
      that a third selects, together select no more than the third; when
      they also cover it, exactly as many. */
  lemma {:induction false} WherePartition(rows: seq<Row>, whole: seq<Criterion>, a: seq<Criterion>, b: seq<Criterion>)
    requires forall x :: !(AllHold(a, x) && AllHold(b, x))
    requires forall x :: AllHold(a, x) || AllHold(b, x) ==> AllHold(whole, x)
    ensures |Where(rows, a)| + |Where(rows, b)| <= |Where(rows, whole)|
    ensures (forall x :: AllHold(whole, x) ==> AllHold(a, x) || AllHold(b, x)) ==>
      |Where(rows, a)| + |Where(rows, b)| == |Where(rows, whole)|
  {
    if rows != [] {
      WherePartition(rows[1..], whole, a, b);
    }
  }

  /** A filter implied by another selects at least as many rows. */
  lemma {:induction false} WhereMonotone(rows: seq<Row>, a: seq<Criterion>, b: seq<Criterion>)
    requires forall x :: AllHold(a, x) ==> AllHold(b, x)
    ensures |Where(rows, a)| <= |Where(rows, b)|
  {
    if rows != [] {
      WhereMonotone(rows[1..], a, b);
    }
  }

  // ---------------------------------------------------------------------
  // Lookup by primary key, scoped to an owner

  /** The position of the task with primary key `pk` owned by `user`, or
      None when there is no such task: either no task has that key, or it
      belongs to someone else. */
  function Lookup(rows: seq<Row>, user: UserId, pk: TaskId): (r: Option<nat>)
    ensures r.Some? ==> r.value < |rows| && rows[r.value].id == pk && rows[r.value].task.owner == user
    ensures r.None? <==> forall i :: 0 <= i < |rows| ==> !(rows[i].id == pk && rows[i].task.owner == user)
  {
    if rows == [] then None
    else if rows[0].id == pk && rows[0].task.owner == user then Some(0)
    else match Lookup(rows[1..], user, pk)
      case None => None
      case Some(j) => Some(j + 1)
  }

  // ---------------------------------------------------------------------
  // Ordering

  datatype Column = CreatedAt | DueDate
  datatype Ordering = Ordering(column: Column, descending: bool)

  /** `a` may precede `b` when a NULL due date is taken as earlier than
      every date. */
  predicate DueNoLater(a: Option<Day>, b: Option<Day>) {
    match (a, b)
    case (None, _) => true
    case (Some(_), None) => false
    case (Some(x), Some(y)) => x <= y
  }

  /** `a` may precede `b` in ordering `o`. */
  predicate NoLater(a: Row, b: Row, o: Ordering) {
    match o.column
    case CreatedAt =>
      if o.descending then b.task.createdAt <= a.task.createdAt else a.task.createdAt <= b.task.createdAt
    case DueDate =>
      if o.descending then DueNoLater(b.task.dueDate, a.task.dueDate) else DueNoLater(a.task.dueDate, b.task.dueDate)
  }

  lemma NoLaterTotal(a: Row, b: Row, o: Ordering)
    ensures NoLater(a, b, o) || NoLater(b, a, o)
  {
  }

  predicate Sorted(s: seq<Row>, o: Ordering) {
    forall i, j :: 0 <= i < j < |s| ==> NoLater(s[i], s[j], o)
  }

  lemma NoLaterTransitive(a: Row, b: Row, c: Row, o: Ordering)
    requires NoLater(a, b, o) && NoLater(b, c, o)
    ensures NoLater(a, c, o)
  {
  }

  /** Puts `x` before the first element it may precede. */
  function InsertSorted(x: Row, s: seq<Row>, o: Ordering): (r: seq<Row>)
    ensures multiset(r) == multiset(s) + multiset{x}
  {
    if s == [] then [x]
    else if NoLater(x, s[0], o) then [x] + s
    else
      assert s == [s[0]] + s[1..];
      [s[0]] + InsertSorted(x, s[1..], o)
  }

  lemma {:induction false} InsertSortedSorted(x: Row, s: seq<Row>, o: Ordering)
    requires Sorted(s, o)
    ensures Sorted(InsertSorted(x, s, o), o)
  {
    var r := InsertSorted(x, s, o);
    if s == [] {
    } else if NoLater(x, s[0], o) {
      forall i, j | 0 <= i < j < |r| ensures NoLater(r[i], r[j], o) {
        if i == 0 && j > 1 {
          NoLaterTransitive(x, s[0], s[j - 1], o);
        }
      }
    } else {
      NoLaterTotal(x, s[0], o);
      var rest := InsertSorted(x, s[1..], o);
      InsertSortedSorted(x, s[1..], o);
      forall i, j | 0 <= i < j < |r| ensures NoLater(r[i], r[j], o) {
        if i == 0 {
          assert r[j] == rest[j - 1];
          assert r[j] in multiset(rest);
          if r[j] != x {
            var k :| 0 <= k < |s[1..]| && s[1..][k] == r[j];
            assert s[k + 1] == r[j];
          }
        } else {
          assert r[i] == rest[i - 1] && r[j] == rest[j - 1];
        }
      }
    }
  }

  /** The rows sorted by `o`; rows that tie keep their relative order. */
  function SortRows(rows: seq<Row>, o: Ordering): (r: seq<Row>)
    ensures Sorted(r, o)
    ensures multiset(r) == multiset(rows)
  {
    if rows == [] then []
    else
      assert rows == [rows[0]] + rows[1..];
      InsertSortedSorted(rows[0], SortRows(rows[1..], o), o);
      InsertSorted(rows[0], SortRows(rows[1..], o), o)
  }
}
