# Todo service and launcher menu, modelled in Dafny

This project models the two pieces of the "Todo App" repository that have
behaviour worth stating:

- **The todo API** (`app/main.py`): the SQLite `todos` table
  (`id INTEGER PRIMARY KEY AUTOINCREMENT`, `title`, `completed INTEGER`,
  `created_at TEXT`) is the class `TodoStore.TodoTable`. It holds a map from id to
  row, the table's `sqlite_sequence` counter, and a ghost set of every id ever
  assigned. The handlers `create_todo`, `update_todo` and `delete_todo` are
  methods that change the table. `list_todos` is a method that only reads it,
  proved against the ordering predicate `TodoModel.IsListing`. `fetch_todo` is a
  function that reads it. Their HTTP outcomes are the datatype
  `TodoStore.Response`: 201/200/204, 400 (title strips to nothing), 404 (no
  such id), 422 (payload fails the pydantic field constraints) and 500 (SQLite
  has no rowid left to assign, or the id does not fit a 64-bit INTEGER).
- **The pure parts of the API** (`TodoModel`, `Strings`, `Collation`): Python's
  `str.strip()`, the title length constraint, the int/bool encoding of
  `completed`, `row_to_todo`, the row that create inserts, and the merge that
  update performs. Also the `ORDER BY created_at DESC, id DESC` order, using
  SQLite's BINARY collation on text.
- **The launcher menu** (`pinokio.js`): `Launcher.Menu` is a pure function
  from the launcher's observations (installed, which scripts run, the local
  URL) to the list of menu items.

Files: `options.dfy`, `strings.dfy`, `collation.dfy`, `todo_model.dfy`,
`todo_store.dfy`, `launcher.dfy`.

How the code answers at the edges of its input:

- The 1..200 length limit is a pydantic constraint on the raw title
  (`Field(min_length=1, max_length=200)`), checked before the handler strips
  it. So a 201-character title is answered with 422. A padded title longer
  than 200 characters is rejected even if its stripped form would fit. A
  title of only spaces passes the length check and is then answered with 400.
- Pydantic validates the payload before the handler body runs. So an invalid
  update payload for an unknown id is answered with 422, not 404.
- An id outside SQLite's signed 64-bit INTEGER range cannot be bound as a
  query parameter. Python's sqlite3 raises OverflowError, nothing catches
  it, and the answer is 500, not 404.

## Model

| member | source | states |
|---|---|---|
| `Strings.TrimStart` | app/main.py:96 | the result is a suffix of the input, what was dropped is all whitespace, and it does not start with whitespace |
| `Strings.TrimEnd` | app/main.py:96 | the result is a prefix of the input, what was dropped is all whitespace, and it does not end with whitespace |
| `Strings.Strip` | app/main.py:96 | `strip()` never lengthens the title, leaves no whitespace at either end, and gives "" exactly when the title is all whitespace |
| `Strings.StripRemovesSurroundingWhitespace` | app/main.py:112 | for any core with no outer whitespace, surrounded by any whitespace, strip returns exactly that core (an independent characterisation of strip) |
| `Strings.StripIdempotent` | app/main.py:112 | stripping an already stripped title changes nothing |
| `Strings.StripPaddedTitle` | app/main.py:96 | "  Buy milk  " is stored as "Buy milk" |
| `Collation.LexLess` | app/main.py:90 | the BINARY collation of `created_at`: a proper prefix sorts first, and a text never sorts strictly before itself |
| `Collation.LexLessIrreflexive` | app/main.py:90 | no `created_at` text sorts before itself |
| `Collation.LexLessTransitive` | app/main.py:90 | the text order of `ORDER BY created_at` is transitive |
| `Collation.LexLessTotal` | app/main.py:90 | any two different `created_at` texts are ordered one way or the other |
| `Collation.LexLessAsymmetric` | app/main.py:90 | two texts are never each before the other |
| `TodoModel.TitleFieldValid` | app/main.py:27-33 | the `min_length=1, max_length=200` constraint of the title in both payloads (`TodoCreate.Valid`, `TodoUpdate.Valid`); a title that passes is non-empty and strips to at most 200 characters |
| `TodoModel.DecodeCompleted` | app/main.py:61 | `bool(row["completed"])` reads the stored 0 as false and 1 as true |
| `TodoModel.EncodeCompleted` | app/main.py:119 | `int(new_completed)` stores 0 or 1, and decoding with `bool(...)` gives the flag back |
| `TodoModel.CompletedRoundTrip` | app/main.py:61 | re-encoding a decoded `completed` column gives the stored integer back exactly when it is 0 or 1 |
| `TodoModel.TodoToRow` | app/main.py:101-104 | a todo is stored with `completed` as 0 or 1 that decodes to its flag |
| `TodoModel.RowToTodo` | app/main.py:57-63 | decoding keeps id, title and created_at, and encoding the decoded todo gives the row back exactly when `completed` is 0 or 1 |
| `TodoModel.TodoRowRoundTrip` | app/main.py:57-63 | decoding the stored form of any todo gives that todo back |
| `TodoModel.NewRow` | app/main.py:96-103 | create rejects exactly the all-whitespace titles; otherwise it inserts the stripped title, not completed, with the given created_at, and a title that passed the length check makes a well-formed row |
| `TodoModel.ApplyUpdate` | app/main.py:111-115 | a supplied title is stripped and rejected exactly when it is all whitespace; an absent title keeps the existing one; an absent `completed` keeps the existing flag; created_at never changes; a valid update of a well-formed row stays well-formed |
| `TodoModel.Before` | app/main.py:90 | `ORDER BY created_at DESC, id DESC`: among equal `created_at` texts the higher id comes first, and only todos differing in a key are ordered |
| `TodoModel.BeforeIrreflexive` | app/main.py:90 | no todo is listed before itself |
| `TodoModel.BeforeTransitive` | app/main.py:90 | the `created_at DESC, id DESC` order is transitive |
| `TodoModel.BeforeTotal` | app/main.py:90 | any two todos with different ids are ordered one way or the other |
| `TodoModel.BeforeAsymmetric` | app/main.py:90 | two todos are never each listed before the other |
| `TodoModel.Insert` | app/main.py:90 | placing a todo in a listing adds exactly one copy of that todo and keeps every other entry with its multiplicity |
| `TodoModel.InsertSorted` | app/main.py:90 | placing a todo with a new id into a sorted listing keeps it sorted |
| `TodoModel.NotFirst` | app/main.py:90 | in a sorted listing the first todo does not occur again |
| `TodoModel.SortedUnique` | app/main.py:90 | two sorted listings with the same todos are the same sequence |
| `TodoModel.DistinctIdsCount` | app/main.py:90-91 | a listing with pairwise different ids has one id per entry |
| `TodoModel.IsListing` | app/main.py:90-91 | the result of `list_todos`: every stored row decoded under its id, no other entry, in listing order; it is empty exactly when the table is |
| `TodoModel.ListingExactlyOnce` | app/main.py:90-91 | a listing holds each stored row exactly once: ids are pairwise different and there are as many entries as rows |
| `TodoModel.ListingUnique` | app/main.py:87-91 | two listings of the same table are identical, so repeated GETs with no write in between return the same result |
| `TodoStore.TodoTable.constructor` | app/main.py:36-48 | the table starts empty, with no id assigned yet |
| `TodoStore.TodoTable.Fetch` | app/main.py:66-71 | an id outside the signed 64-bit range is the OverflowError case; otherwise the row stored under the id when there is one, and the not-found case when there is none |
| `TodoStore.TodoTable.List` | app/main.py:87-91 | returns every stored row, decoded, exactly once, ordered by created_at descending then id descending |
| `TodoStore.TodoTable.Create` | app/main.py:94-106 | 422 for a raw title outside 1..200 characters and 400 for an all-whitespace title, both writing nothing; otherwise inserts the stripped, not-completed row under id = sequence + 1, greater than every id ever assigned, and returns the stored row |
| `TodoStore.InsertKeepsInvariant` | app/main.py:41-45 | storing a well-formed row under sequence + 1 keeps the table invariant, and that id is absent and above every id ever assigned |
| `TodoStore.TodoTable.InsertRow` | app/main.py:101-105 | the INSERT stores the row under sequence + 1, advances the sequence to it and changes no other row |
| `TodoStore.TodoTable.Update` | app/main.py:109-121 | 422 for an invalid payload, 500 for an id outside the 64-bit range, 404 for an unknown id and 400 for a title that strips to nothing, all writing nothing; otherwise rewrites only that row with the merged title and flag, keeping id and created_at, and returns it |
| `TodoStore.TodoTable.Delete` | app/main.py:124-129 | 500 and no change for an id outside the 64-bit range, 404 and no change for an unknown id; otherwise removes exactly that row, and the id is never stored afterwards |
| `TodoStore.DeleteTwice` | app/main.py:124-129 | a second delete of the same id is a 404 (a 500 for an id outside the 64-bit range, as the first one was) |
| `TodoStore.CreateAfterDelete` | app/main.py:42 | a todo created after a delete never gets the deleted id back (AUTOINCREMENT) |
| `Launcher.Menu` | pinokio.js:6-91 | every menu is non-empty, has at most four entries, has exactly one default entry which is the first, and links only to the four scripts or the published url |
| `Launcher.HasUrl` | pinokio.js:34-35 | `local && local.url` is truthy only for a present url of at least one character |
| `Launcher.MenuWhileInstalling` | pinokio.js:15-22 | install.js running gives the single default "Installing" entry, whatever else holds |
| `Launcher.MenuWhenNotInstalled` | pinokio.js:24-31 | not installed (and not installing) gives the single default "Install" entry |
| `Launcher.MenuWhileStartedWithUrl` | pinokio.js:33-46 | start.js running with a non-empty url gives "Open Web UI" to that url as default, then "Terminal" |
| `Launcher.MenuWhileStartedWithoutUrl` | pinokio.js:47-52 | start.js running with no url or an empty one gives the single default "Terminal" entry |
| `Launcher.MenuWhileUpdating` | pinokio.js:55-62 | update.js running, nothing of higher priority, gives the single default "Updating" entry |
| `Launcher.MenuWhileResetting` | pinokio.js:64-71 | reset.js running, nothing of higher priority, gives the single default "Resetting" entry |
| `Launcher.MenuWhenIdle` | pinokio.js:73-90 | installed and idle gives Start (default), Install, Update, Reset, in that order |
| `Launcher.MenuPriority` | pinokio.js:15-71 | once a higher-priority check decides, the lower-priority inputs cannot change the menu |

## Left out

- HTTP routing, `HTTPException`, the status-code plumbing and pydantic's 422 response body: outcomes are the `Response` datatype.
- The sqlite3 connections, `get_conn` and `init_db`'s creation of the data directory: these are I/O. The table is an in-memory map plus the sequence counter, and it starts empty.
- `read_index` and the `/static` mount: these read and serve files.
- `datetime.utcnow().isoformat()`: this is a clock. `created_at` is a parameter of `Create`. Listing is ordered by the stored text, with no claim about time order.
- The check-then-write race between `fetch_todo` and the UPDATE/DELETE: each handler is modelled as one atomic step, so concurrency is not modelled.
- Pydantic's type coercion of JSON values, such as numbers or strings given for `completed`: the payloads are already typed. An explicit `null` and an absent field are both `None`, as they are in the code.
- Strings.IsWhitespace: it is a hand-written list of the code points for which Python's `str.isspace()` is true (Unicode category Zs, or bidirectional class WS, B or S), not computed from a Unicode database.
- TodoStore.TodoTable.List: the scan walks ids from the sequence counter down to 1, not SQLite's b-tree, and it places each row with an insertion into the sorted result. The query planner's sort is not modelled.
- start.js and reset.js: they are declarative scripts that the launcher runtime interprets, and their runtime is not part of this model.
- In pinokio.js, the `kernel` and `info` objects and the `async` wrapper: `info.exists`, `info.running` and `info.local` are plain inputs. A `url` is a string or absent. Non-string truthy values are not modelled.
