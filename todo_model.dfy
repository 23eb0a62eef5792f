/**
 * The values of the todo service: the request payloads and their field
 * constraints, a stored row of the `todos` table, the outward Todo record,
 * the int/bool encoding of `completed`, the merge an update performs and the
 * order in which the listing returns rows.
 */
module TodoModel {
  import opened Options
  import opened Strings
  import opened Collation

  /** The `min_length` and `max_length` of the `title` field of both payloads. */
  const MinTitleLength := 1
  const MaxTitleLength := 200

  /**
   * Length constraint of the title field of both payloads, on the raw
   * (unstripped) string: a title that passes it is non-empty and strips to
   * at most 200 characters.
   */
  predicate TitleFieldValid(s: string): (r: bool)
    ensures r ==> s != [] && |Strip(s)| <= MaxTitleLength
  {
    MinTitleLength <= |s| <= MaxTitleLength
  }

  /** Body of a create request. */
  datatype TodoCreate = TodoCreate(title: string)
  {
    predicate Valid() { TitleFieldValid(title) }
  }

  /** Body of an update request: each field may be absent (null). */
  datatype TodoUpdate = TodoUpdate(title: Option<string>, completed: Option<bool>)
  {
    predicate Valid() { title.Some? ==> TitleFieldValid(title.value) }
  }

  /** A row of the `todos` table, without its `id` key; `completed` is an INTEGER column. */
  datatype Row = Row(title: string, completed: int, createdAt: string)

  /** The outward representation of a todo. */
  datatype Todo = Todo(id: int, title: string, completed: bool, createdAt: string)

  /** `bool(v)` on the stored integer: 0 is false, 1 is true. */
  function DecodeCompleted(v: int): (b: bool)
    ensures v == 0 ==> !b
    ensures v == 1 ==> b
  {
    v != 0
  }

  /** `int(b)`: the integer written to the `completed` column. */
  function EncodeCompleted(b: bool): (v: int)
    ensures v == 0 || v == 1
    ensures DecodeCompleted(v) == b
  {
    if b then 1 else 0
  }

  /** Re-encoding a decoded flag gives back the stored integer exactly when it is 0 or 1. */
  lemma CompletedRoundTrip(v: int)
    ensures EncodeCompleted(DecodeCompleted(v)) == v <==> v == 0 || v == 1
  {
  }

  /** A title as the handlers store it: non-empty, at most 200 characters, already stripped. */
  predicate StoredTitle(t: string)
  {
    t != [] && |t| <= MaxTitleLength && NoOuterWhitespace(t)
  }

  /** What every row written by the handlers satisfies. */
  predicate WellFormedRow(row: Row)
  {
    StoredTitle(row.title) && (row.completed == 0 || row.completed == 1)
  }

  /** The row a Todo is stored as. */
  function TodoToRow(t: Todo): (row: Row)
    ensures row.completed == 0 || row.completed == 1
    ensures DecodeCompleted(row.completed) == t.completed
  {
    Row(t.title, EncodeCompleted(t.completed), t.createdAt)
  }

  /** `row_to_todo`: decode a stored row under its id. */
  function RowToTodo(id: int, row: Row): (t: Todo)
    ensures t.id == id && t.title == row.title && t.createdAt == row.createdAt
    ensures TodoToRow(t) == row <==> row.completed == 0 || row.completed == 1
  {
    Todo(id, row.title, DecodeCompleted(row.completed), row.createdAt)
  }

  lemma TodoRowRoundTrip(t: Todo)
    ensures RowToTodo(t.id, TodoToRow(t)) == t
  {
  }

  /**
   * The row `create_todo` inserts for a raw title, or None when the title
   * strips to the empty string (the 400 response).
   */
  function NewRow(title: string, createdAt: string): (r: Option<Row>)
    ensures r.None? <==> AllWhitespace(title)
    ensures r.Some? ==> r.value.title == Strip(title) && !DecodeCompleted(r.value.completed)
    ensures r.Some? ==> r.value.createdAt == createdAt
    ensures r.Some? && TitleFieldValid(title) ==> WellFormedRow(r.value)
  {
    var stripped := Strip(title);
    if stripped == "" then None else Some(Row(stripped, 0, createdAt))
  }

  /**
   * The merge `update_todo` performs on an existing row: absent fields keep
   * their current value, a supplied title is stripped. None when the
   * effective title is empty (the 400 response).
   */
  function ApplyUpdate(existing: Row, patch: TodoUpdate): (r: Option<Row>)
    ensures patch.title.Some? ==> (r.None? <==> AllWhitespace(patch.title.value))
    ensures patch.title.None? ==> (r.None? <==> existing.title == [])
    ensures r.Some? ==> r.value.createdAt == existing.createdAt
    ensures r.Some? && patch.title.None? ==> r.value.title == existing.title
    ensures r.Some? && patch.title.Some? ==> r.value.title == Strip(patch.title.value)
    ensures r.Some? && patch.completed.None? ==>
              DecodeCompleted(r.value.completed) == DecodeCompleted(existing.completed)
    ensures r.Some? && patch.completed.Some? ==> DecodeCompleted(r.value.completed) == patch.completed.value
    ensures r.Some? && WellFormedRow(existing) && patch.completed.None? ==> r.value == existing.(title := r.value.title)
    ensures r.Some? && WellFormedRow(existing) && patch.Valid() ==> WellFormedRow(r.value)
  {
    var newTitle := if patch.title.None? then existing.title else Strip(patch.title.value);
    if newTitle == "" then
      None
    else
      var newCompleted := if patch.completed.None? then DecodeCompleted(existing.completed) else patch.completed.value;
      Some(Row(newTitle, EncodeCompleted(newCompleted), existing.createdAt))
  }

  // ---------------------------------------------------------------------
  // Listing order: `ORDER BY created_at DESC, id DESC`
  // ---------------------------------------------------------------------

  /**
   * `a` is listed before `b`: later `created_at` text first; among equal
   * `created_at` texts, the higher id first. Two todos that agree on both
   * keys are never ordered.
   */
  predicate Before(a: Todo, b: Todo): (r: bool)
    ensures a.createdAt == b.createdAt ==> (r <==> a.id > b.id)
    ensures r ==> a.createdAt != b.createdAt || a.id != b.id
  {
    LexLess(b.createdAt, a.createdAt) || (a.createdAt == b.createdAt && a.id > b.id)
  }

  lemma BeforeIrreflexive(a: Todo)
    ensures !Before(a, a)
  {
    LexLessIrreflexive(a.createdAt);
  }

  lemma BeforeTransitive(a: Todo, b: Todo, c: Todo)
    requires Before(a, b) && Before(b, c)
    ensures Before(a, c)
  {
    if LexLess(b.createdAt, a.createdAt) && LexLess(c.createdAt, b.createdAt) {
      LexLessTransitive(c.createdAt, b.createdAt, a.createdAt);
    }
  }

  /** Todos with different ids are always ordered one way or the other. */
  lemma BeforeTotal(a: Todo, b: Todo)
    requires a.id != b.id
    ensures Before(a, b) || Before(b, a)
  {
    if a.createdAt != b.createdAt {
      LexLessTotal(a.createdAt, b.createdAt);
    }
  }

  lemma BeforeAsymmetric(a: Todo, b: Todo)
    ensures !(Before(a, b) && Before(b, a))
  {
    LexLessAsymmetric(a.createdAt, b.createdAt);
    LexLessIrreflexive(a.createdAt);
  }

  /** Strictly in listing order. */
  predicate Sorted(s: seq<Todo>)
  {
    forall i, j :: 0 <= i < j < |s| ==> Before(s[i], s[j])
  }

  function Ids(s: seq<Todo>): set<int>
  {
    set t | t in s :: t.id
  }

  /** Insert `t` into a listing at its place in the order. */
  function Insert(s: seq<Todo>, t: Todo): (r: seq<Todo>)
    ensures |r| == |s| + 1
    ensures multiset(r) == multiset(s) + multiset{t}
    ensures forall x :: x in r <==> x in s || x == t
  {
    if s == [] then [t]
    else if Before(t, s[0]) then [t] + s
    else
      var rest := Insert(s[1..], t);
      assert s == [s[0]] + s[1..];
      assert forall x :: x in s <==> x == s[0] || x in s[1..];
      [s[0]] + rest
  }

  lemma {:induction false} InsertSorted(s: seq<Todo>, t: Todo)
    requires Sorted(s)
    requires t.id !in Ids(s)
    ensures Sorted(Insert(s, t))
  {
    if s == [] {
    } else if Before(t, s[0]) {
      forall j | 0 < j < |s| ensures Before(t, s[j]) {
        BeforeTransitive(t, s[0], s[j]);
      }
    } else {
      assert s[0] in s;
      BeforeTotal(t, s[0]);
      assert Ids(s[1..]) <= Ids(s) by {
        forall x | x in s[1..] ensures x in s { }
      }
      InsertSorted(s[1..], t);
      var rest := Insert(s[1..], t);
      forall x | x in rest ensures Before(s[0], x) {
        if x != t {
          var j :| 0 <= j < |s[1..]| && s[1..][j] == x;
          assert s[j + 1] == x;
        }
      }
    }
  }

  /** In a sorted sequence the first element does not occur again. */
  lemma NotFirst(s: seq<Todo>)
    requires Sorted(s) && s != []
    ensures s[0] !in s[1..]
  {
  }

  /** Sorted sequences with the same elements are the same sequence. */
  lemma {:induction false} SortedUnique(a: seq<Todo>, b: seq<Todo>)
    requires Sorted(a) && Sorted(b)
    requires forall x :: x in a <==> x in b
    ensures a == b
    decreases |a|
  {
    assert a != [] ==> a[0] in b;
    assert b != [] ==> b[0] in a;
    if a != [] && b != [] {
      assert a[0] in b && b[0] in a;
      if a[0] != b[0] {
        var j :| 0 <= j < |b| && b[j] == a[0];
        var k :| 0 <= k < |a| && a[k] == b[0];
        BeforeAsymmetric(a[0], b[0]);
        assert false;
      }
      assert forall y :: y in a <==> y == a[0] || y in a[1..];
      assert forall y :: y in b <==> y == b[0] || y in b[1..];
      NotFirst(a);
      NotFirst(b);
      SortedUnique(a[1..], b[1..]);
    }
  }

  /**
   * `s` is the result of `list_todos` on the table `rows`: every stored row,
   * decoded under its id, in listing order.
   */
  ghost predicate IsListing(rows: map<int, Row>, s: seq<Todo>): (r: bool)
    ensures r ==> (s == [] <==> rows == map[])
  {
    assert s != [] ==> s[0] in s;
    && (forall t :: t in s ==> t.id in rows && t == RowToTodo(t.id, rows[t.id]))
    && Ids(s) == rows.Keys
    && Sorted(s)
  }

  /** A sequence of todos with pairwise different ids has as many ids as elements. */
  lemma {:induction false} DistinctIdsCount(s: seq<Todo>)
    requires forall i, j :: 0 <= i < j < |s| ==> s[i].id != s[j].id
    ensures |Ids(s)| == |s|
    decreases |s|
  {
    if s != [] {
      DistinctIdsCount(s[1..]);
      assert Ids(s) == Ids(s[1..]) + {s[0].id} by {
        assert forall y :: y in s <==> y == s[0] || y in s[1..];
      }
      assert s[0].id !in Ids(s[1..]);
    }
  }

  /** A listing holds each stored row exactly once. */
  lemma ListingExactlyOnce(rows: map<int, Row>, s: seq<Todo>)
    requires IsListing(rows, s)
    ensures forall i, j :: 0 <= i < j < |s| ==> s[i].id != s[j].id
    ensures |s| == |rows|
  {
    forall i, j | 0 <= i < j < |s| ensures s[i].id != s[j].id {
      assert s[i] in s && s[j] in s;
      BeforeIrreflexive(s[i]);
    }
    DistinctIdsCount(s);
    assert |rows| == |rows.Keys|;
  }

  /**
   * Two listings of the same table are identical: the order is total, so
   * repeated listings with no intervening writes return the same sequence.
   */
  lemma ListingUnique(rows: map<int, Row>, s1: seq<Todo>, s2: seq<Todo>)
    requires IsListing(rows, s1) && IsListing(rows, s2)
    ensures s1 == s2
  {
    forall x ensures x in s1 <==> x in s2 {
      if x in s1 {
        assert x.id in Ids(s2);
        var y :| y in s2 && y.id == x.id;
      }
      if x in s2 {
        assert x.id in Ids(s1);
        var y :| y in s1 && y.id == x.id;
      }
    }
    SortedUnique(s1, s2);
  }
}
