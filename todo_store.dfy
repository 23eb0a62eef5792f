/**
 * The `todos` table and the HTTP handlers that read and write it. Each
 * handler runs as one atomic step: validate the payload, look the row up,
 * write, and answer with a Response standing for the HTTP status and body.
 */
module TodoStore {
  import opened Options
  import opened Strings
  import opened TodoModel

  /** Largest rowid SQLite can assign (2^63 - 1). */
  const MaxRowId := 0x7FFF_FFFF_FFFF_FFFF

  /** The outcome of a handler, one constructor per HTTP status it can answer with. */
  datatype Response =
    | Created(todo: Todo)   // 201
    | Ok(todo: Todo)        // 200
    | NoContent             // 204
    | BadRequest            // 400: the title strips to the empty string
    | NotFound              // 404: no row with that id
    | Invalid               // 422: the payload fails its field constraints
    | ServerError           // 500: SQLITE_FULL, no rowid left to assign

  /** Smallest value of a signed 64-bit SQLite INTEGER (-2^63). */
  const MinInteger := -MaxRowId - 1

  /** `id` can be bound as an SQLite INTEGER parameter; outside this range binding raises OverflowError. */
  predicate BindableId(id: int)
  {
    MinInteger <= id <= MaxRowId
  }

  /** The outcome of `fetch_todo`: the row, the 404 case, or the OverflowError of binding the id. */
  datatype Lookup = Found(row: Row) | Absent | Overflow

  /**
   * What holds of the table between requests: ids lie between 1 and the
   * sequence counter, every stored id was assigned, and every row is as the
   * handlers write it.
   */
  ghost predicate TableInvariant(rows: map<int, Row>, sequence: int, issued: set<int>)
  {
    && 0 <= sequence <= MaxRowId
    && rows.Keys <= issued
    && (forall id :: id in issued ==> 1 <= id <= sequence)
    && (forall id :: id in rows ==> WellFormedRow(rows[id]))
  }

  /** Inserting a well-formed row under the next id keeps the invariant, and that id is new. */
  lemma InsertKeepsInvariant(rows: map<int, Row>, sequence: int, issued: set<int>, row: Row)
    requires TableInvariant(rows, sequence, issued)
    requires sequence < MaxRowId && WellFormedRow(row)
    ensures sequence + 1 !in rows && forall id :: id in issued ==> id < sequence + 1
    ensures TableInvariant(rows[sequence + 1 := row], sequence + 1, issued + {sequence + 1})
  {
  }

  /**
   * The `todos` table: `id INTEGER PRIMARY KEY AUTOINCREMENT`, `title`,
   * `completed INTEGER`, `created_at TEXT`.
   */
  class TodoTable {
    /** Stored rows by id. */
    var rows: map<int, Row>
    /** The table's entry in `sqlite_sequence`: the largest id ever assigned, 0 before the first insert. */
    var sequence: int
    /** Every id ever assigned, including those of rows since deleted. */
    ghost var issued: set<int>

    ghost predicate Valid()
      reads this
    {
      TableInvariant(rows, sequence, issued)
    }

    /** `init_db`: the table starts empty. */
    constructor ()
      ensures Valid()
      ensures rows == map[] && sequence == 0 && issued == {}
    {
      rows := map[];
      sequence := 0;
      issued := {};
    }

    /**
     * `fetch_todo`: an id that does not fit a 64-bit INTEGER cannot be bound
     * (an unhandled OverflowError, so a 500); otherwise the row stored under
     * `id`, or Absent (the 404 case).
     */
    function Fetch(id: int): (r: Lookup)
      reads this
      ensures r.Overflow? <==> !BindableId(id)
      ensures r.Found? <==> BindableId(id) && id in rows
      ensures r.Found? ==> r.row == rows[id]
    {
      if !BindableId(id) then Overflow
      else if id in rows then Found(rows[id])
      else Absent
    }

    /** `list_todos`: every stored row, decoded, newest `created_at` first, then highest id. */
    method List() returns (todos: seq<Todo>)
      requires Valid()
      ensures IsListing(rows, todos)
    {
      // A table scan in rowid order, each row placed at its ORDER BY position.
      var i := sequence;
      todos := [];
      while i > 0
        invariant 0 <= i <= sequence
        invariant Ids(todos) == set k | k in rows && i < k
        invariant forall t :: t in todos ==> t.id in rows && t == RowToTodo(t.id, rows[t.id])
        invariant Sorted(todos)
        decreases i
      {
        if i in rows {
          var t := RowToTodo(i, rows[i]);
          InsertSorted(todos, t);
          ghost var before := todos;
          todos := Insert(todos, t);
          assert Ids(todos) == Ids(before) + {i} by {
            assert t in todos;
            forall x | x in todos ensures x.id in Ids(before) + {i} {
              if x != t { assert x in before; }
            }
          }
        }
        i := i - 1;
      }
    }

    /**
     * `create_todo`: reject a title outside 1..200 characters (422) or one
     * that strips to nothing (400); otherwise insert the stripped title,
     * not completed, under a fresh id larger than every id ever assigned.
     */
    method Create(payload: TodoCreate, createdAt: string) returns (resp: Response)
      requires Valid()
      modifies this
      ensures Valid()
      ensures !payload.Valid() ==> resp == Invalid && unchanged(this)
      ensures payload.Valid() && AllWhitespace(payload.title) ==> resp == BadRequest && unchanged(this)
      ensures payload.Valid() && !AllWhitespace(payload.title) && old(sequence) == MaxRowId ==>
                resp == ServerError && unchanged(this)
      ensures resp.Created? <==> payload.Valid() && !AllWhitespace(payload.title) && old(sequence) < MaxRowId
      ensures resp.Created? ==>
                var id := old(sequence) + 1;
                && resp.todo == Todo(id, Strip(payload.title), false, createdAt)
                && id !in old(rows)
                && (forall old_id :: old_id in old(issued) ==> old_id < id)
                && rows == old(rows)[id := TodoToRow(resp.todo)]
                && rows[id] == Row(Strip(payload.title), 0, createdAt)
                && sequence == id && issued == old(issued) + {id}
    {
      if !payload.Valid() {
        return Invalid;
      }
      var row := NewRow(payload.title, createdAt);
      if row.None? {
        return BadRequest;
      }
      if sequence == MaxRowId {
        return ServerError;
      }
      var id := InsertRow(row.value);
      resp := Created(RowToTodo(id, rows[id]));
    }

    /** The INSERT statement: store `row` under the next id from the sequence. */
    method InsertRow(row: Row) returns (id: int)
      requires Valid() && WellFormedRow(row) && sequence < MaxRowId
      modifies this
      ensures Valid()
      ensures id == old(sequence) + 1 && id !in old(rows)
      ensures forall old_id :: old_id in old(issued) ==> old_id < id
      ensures rows == old(rows)[id := row] && sequence == id && issued == old(issued) + {id}
    {
      id := sequence + 1;
      InsertKeepsInvariant(rows, sequence, issued, row);
      rows := rows[id := row];
      sequence := id;
      issued := issued + {id};
    }

    /**
     * `update_todo`: reject an invalid payload (422), a missing id (404) or
     * an effective title that strips to nothing (400), writing nothing;
     * otherwise overwrite that one row with the merged fields.
     */
    method Update(id: int, payload: TodoUpdate) returns (resp: Response)
      requires Valid()
      modifies this
      ensures Valid()
      ensures !payload.Valid() ==> resp == Invalid && unchanged(this)
      ensures payload.Valid() && !BindableId(id) ==> resp == ServerError && unchanged(this)
      ensures payload.Valid() && BindableId(id) && id !in old(rows) ==> resp == NotFound && unchanged(this)
      ensures payload.Valid() && id in old(rows) && payload.title.Some? && AllWhitespace(payload.title.value) ==>
                resp == BadRequest && unchanged(this)
      ensures resp.Ok? <==> payload.Valid() && id in old(rows) &&
                            (payload.title.Some? ==> !AllWhitespace(payload.title.value))
      ensures resp.Ok? ==>
                && resp.todo.id == id
                && resp.todo.createdAt == old(rows)[id].createdAt
                && resp.todo.title == (if payload.title.None? then old(rows)[id].title else Strip(payload.title.value))
                && resp.todo.completed == (if payload.completed.None? then DecodeCompleted(old(rows)[id].completed)
                                           else payload.completed.value)
                && rows == old(rows)[id := TodoToRow(resp.todo)]
                && sequence == old(sequence) && issued == old(issued)
    {
      if !payload.Valid() {
        return Invalid;
      }
      var existing := Fetch(id);
      if existing.Overflow? {
        return ServerError;
      }
      if existing.Absent? {
        return NotFound;
      }
      var row := ApplyUpdate(existing.row, payload);
      if row.None? {
        return BadRequest;
      }
      rows := rows[id := row.value];
      resp := Ok(RowToTodo(id, rows[id]));
    }

    /** `delete_todo`: 404 and no change for a missing id; otherwise remove exactly that row. */
    method Delete(id: int) returns (resp: Response)
      requires Valid()
      modifies this
      ensures Valid()
      ensures !BindableId(id) ==> resp == ServerError && unchanged(this)
      ensures BindableId(id) && id !in old(rows) ==> resp == NotFound && unchanged(this)
      ensures id in old(rows) ==>
                resp == NoContent && rows == old(rows) - {id} &&
                sequence == old(sequence) && issued == old(issued)
      ensures id !in rows
    {
      var existing := Fetch(id);
      if existing.Overflow? {
        return ServerError;
      }
      if existing.Absent? {
        return NotFound;
      }
      rows := rows - {id};
      resp := NoContent;
    }
  }

  /** Deleting the same id twice: the second request changes nothing and, for a bindable id, is a 404. */
  method DeleteTwice(table: TodoTable, id: int) returns (first: Response, second: Response)
    requires table.Valid()
    modifies table
    ensures table.Valid()
    ensures first == (if !BindableId(id) then ServerError else if id in old(table.rows) then NoContent else NotFound)
    ensures second == (if BindableId(id) then NotFound else ServerError)
    ensures table.rows == old(table.rows) - {id}
  {
    first := table.Delete(id);
    second := table.Delete(id);
  }

  /** Ids are never reused: a todo created after a delete gets an id larger than the deleted one. */
  method CreateAfterDelete(table: TodoTable, id: int, payload: TodoCreate, createdAt: string)
    returns (deleted: Response, created: Response)
    requires table.Valid()
    modifies table
    ensures table.Valid()
    ensures deleted == NoContent && created.Created? ==> created.todo.id > id
  {
    deleted := table.Delete(id);
    created := table.Create(payload, createdAt);
  }
}
