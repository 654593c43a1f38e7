# Location server session: slot allocation, account directory, record translation

This project models the database session of a position-telemetry server
(`DBsession` in `dbsession.py`) and proves properties of the model in Dafny.
The session has three parts, modelled over an abstract table rather than SQL.

- **Slot allocate-and-write** (`update`). A slot table is a `map<int, Row>`.
  A row has an occupancy flag `vf` (SQL `NULL`, `true` or `false`) and a map of the
  columns that hold values. With `id == 0` the call picks a slot:
  - if some row with `id > 0` has `vf = false`, it reuses the one with the largest id and sets `vf` to true;
  - otherwise it inserts a row at `max(id) + 1`, leaving `vf` at the table's column default;
  - on an empty table `max(id)` is NULL and `int(None)` raises.

  It then sets `saveat` in the caller's dict and writes every entry of the dict onto the row.
  It returns the id. A nonzero id skips allocation. The whole call is one atomic step.
- **Account directory** (`buildAccountList`). This folds the `(id, username)` rows of
  the active-account query into a username → id map. A repeated username keeps its last row.
- **Record translation** (`saveLocation`). This turns one nested telemetry record into
  the 18-column dict of a `location` row:
  - the username is resolved through the directory;
  - `jst`, `ymd` and `hms` come from one timestamp in the `'%Y-%m-%d %H:%M:%S'` format;
  - the dict is written with `update(table='location', id=0, ...)`.

  One batch of the consumer thread's `run` is modelled as a fold of `saveLocation`.
  The fold ends when an exception escapes.

Modules: `Options` (option/result types), `Text` (digits, `str(int)`,
`join`/`split`), `Dicts` (insertion-ordered Python dicts), `Timestamps`,
`Slots` (`update`), `Accounts` (`buildAccountList`), `Locations`
(`saveLocation`, `run`).

Where the code's behaviour is not what one might expect, the model follows the code:
- One would expect the first id of an empty table to be 1. The code raises TypeError from `int(None)`; `Slots.Allocate` returns `Err(NullMaxId)`.
- One would expect a record with a missing field to be logged and skipped. The code's handler catches only IndexError and ValueError, so the KeyError escapes (see Findings).
- The insert path does not mark the new row occupied: it gets the store's default for `vf`, which is `Table.vfDefault` here.
  - If that default is `false`, on a table with positive ids and no free row, the next allocation reuses the row just written (`Slots.InsertedRowIsReusedWhenDefaultFalse`).
  - Otherwise two successive allocations always return different ids (`Slots.SuccessiveAllocationsDiffer`).

## Model

| member | source | states |
|---|---|---|
| `Text.DigitValueOfPad` | dbsession.py:21-23 | A number below 10^w printed as w zero-padded digits reads back as that number |
| `Text.PadOfDigitValue` | dbsession.py:21-23 | A digit string of width w is the zero-padded printing of the number it denotes |
| `Text.Width` | dbsession.py:121 | The number of digits `str` prints for a natural number is the least w with n < 10^w: at least one, and no leading zero |
| `Text.CanonicalIntText` | dbsession.py:121 | `str(int)` prints an optional minus sign and digits with no leading zero (zero unsigned), and every such text is printed for exactly the integer it denotes |
| `Text.IntToStringRoundTrip` | dbsession.py:121 | The decimal text `%s` gives the account id is well formed and reads back as that id, negative ids included |
| `Text.SplitJoin` | dbsession.py:64-67 | Joining a non-empty list of pieces that contain no separator, then splitting on it, gives the pieces back |
| `Dicts.Put` | dbsession.py:63 | `kv['saveat'] = v` binds the key to v. An existing key keeps its position and the other entries are unchanged; a new key is appended last |
| `Dicts.ToMap` | dbsession.py:65 | The map a dict denotes has exactly the dict's keys, each bound to its entry's value |
| `Timestamps.Parse` | dbsession.py:101 | Whatever the strict parser accepts is a valid date-time whose formatting is the parsed text itself |
| `Timestamps.ParseOfFormat` | dbsession.py:101-114 | Parsing the formatted text of a valid date-time gives the date-time back, so re-formatting a parsed `jst` reproduces it |
| `Timestamps.ParseFormat` | dbsession.py:101-114 | A string parses to d if and only if d is valid and the string is d formatted with `'%Y-%m-%d %H:%M:%S'` |
| `Slots.Max` | dbsession.py:47-51 | SQL `max` of a non-empty id set is a member that bounds every element |
| `Slots.Allocate` | dbsession.py:45-60 | Nonzero id: same id, table untouched. Zero id with free rows: the largest free id (positive, `vf = false`), only its `vf` set true, no row added. No free rows: `max(id) + 1` counting every id, a fresh key, one row inserted with default `vf` and no columns. Empty table: the `int(None)` error |
| `Slots.Write` | dbsession.py:67-68 | The UPDATE changes only the target row: every dict key is set to its value, other columns and `vf` keep theirs, other rows are untouched; a missing target changes nothing |
| `Slots.SetClause` | dbsession.py:64-67 | With no comma in any key or value, the SET clause splits on commas into exactly one `k='v'` fragment per dict entry, in dict order |
| `Slots.Update` | dbsession.py:42-72 | Fails only for id 0 on an empty table. Otherwise `saveat` ends up in the dict: last if it was new, in place if it was present. Rows are only ever added. For id 0 the id is the largest free id, or one past every existing id. The target row holds every dict entry and keeps its other columns; with an explicit id the row keeps its `vf` and the table is exactly the UPDATE of it; all other rows and the store's `vf` default are unchanged |
| `Slots.UpdateKeepsPositiveIds` | dbsession.py:45-60 | On a table with only positive ids, `update` keeps them positive, and with id 0 it returns a positive (truthy) id |
| `Slots.UpdateOfMissingRow` | dbsession.py:45-72 | A nonzero id that names no row is returned as is, and the table is unchanged |
| `Slots.SuccessiveAllocationsDiffer` | dbsession.py:46-60 | When the `vf` default is not `false`, a second id-0 call after a first never returns the first call's id |
| `Slots.InsertedRowIsReusedWhenDefaultFalse` | dbsession.py:50-60 | When the `vf` default is `false`, on any non-empty table with positive ids and no free row, the row inserted by one id-0 call is chosen again by the next id-0 call |
| `Slots.InsertAfterMinusOneReturnsZero` | dbsession.py:51-56 | On any table whose largest id is -1, an id-0 call takes the insert path, writes a row with id 0 and returns the falsy value 0 |
| `Slots.UnescapedValueReadsAsTwoColumns` | dbsession.py:64-67 | Values are not escaped: the one-entry dict `ns = N',ew='E` yields the same SET clause as the two-entry dict `ns = N, ew = E` |
| `Accounts.BuildAccountList` | dbsession.py:79-85 | The directory's keys are exactly the usernames in the rows. Each name maps to the id of its last row; with id-ascending rows, that is its largest id |
| `Locations.FirstMissing` | dbsession.py:102-122 | The KeyError of reading fields in order names the first absent key; none is raised only when all keys are present |
| `Locations.ColumnsOfLocationKv` | dbsession.py:102-122 | The built dict has the 18 columns in literal order. It copies the `must` and `plus` fields (`mode` as `calcmode`), has `jst` equal to the input text and to `ymd + ' ' + hms`, and ends with the username and the account id as text |
| `Locations.Translate` | dbsession.py:91-122 | Yields columns if and only if all parts and fields are present, the user is known and the timestamp parses. Unknown user if and only if the four containers exist and the name is not in the directory. Bad timestamp if and only if the user is known and `jst` is present but does not parse. A KeyError names a key absent where it is read |
| `Locations.SaveLocation` | dbsession.py:87-130 | A record is dropped without `update` exactly when translation fails. Otherwise exactly one `update` with id 0 runs on the location table, and the saved row holds all 18 columns and `saveat` while every other row is unchanged |
| `Locations.SaveLocationOnPositiveTable` | dbsession.py:123-130 | On a table with positive ids, `saveLocation` returns True exactly when the record translates and the table is not empty; ids stay positive |
| `Locations.RunBatch` | dbsession.py:132-137 | A batch handles at most its records and stops exactly when it handled fewer than all; then an exception escapes `saveLocation` for the next record on the table the batch reached |
| `Locations.RunBatchSnoc` | dbsession.py:132-137 | A batch is a left fold of `saveLocation`: a further record runs `saveLocation` on the table the batch reached (unless it had stopped), the batch stops exactly when that call raises, and otherwise continues on the table it leaves |
| `Locations.RunBatchPrefix` | dbsession.py:132-137 | Replaying exactly the handled prefix from the same table ends in the batch's table without stopping; with `Locations.RunBatchSnoc`, each handled record returned from `saveLocation` and the first escaping exception ends the batch |
| `Locations.MissingKeyStopsBatch` | dbsession.py:125 | As written, a first record without `username` stops the batch before anything is saved |
| `Locations.CaughtBatchHandlesAll` | dbsession.py:125-137 | With KeyError caught, a batch on a non-empty table handles every record and never stops |
| `Locations.RejectedBatchKeepsTable` | dbsession.py:97-101 | A batch of unknown-user or bad-timestamp records is handled to the end and leaves the table unchanged |
| `Locations.BatchKeepsPositiveIds` | dbsession.py:132-137 | A batch keeps a table's ids positive |

## Findings

| source | as written | input that shows it | evidently intended | confidence | as-written member | corrected member |
|---|---|---|---|---|---|---|
| dbsession.py:125 | `except (IndexError, ValueError)` wraps dict subscripts, which raise KeyError. A missing field escapes `saveLocation` and then `run`, ending the consumer thread | a batch whose first record lacks the `username` key | a missing field is logged and the record skipped, like an unknown user | medium; not executed | `Locations.MissingKeyStopsBatch` | `Locations.CaughtBatchHandlesAll` |

## Left out

- The psycopg2 connection, the cursor, `begin`/`commit` and `__del__` (dbsession.py:25-40, 43, 71): I/O plumbing. Atomicity of one `update` is assumed, not modelled.
- The exclusive table lock (dbsession.py:46): it serializes allocators across processes. Each `update` is modelled as one atomic step instead.
- The thread, the queue and the endless loop of `run` (dbsession.py:132-137): only one batch is modelled, as a sequential fold.
- `select` (dbsession.py:74-77): it runs arbitrary caller SQL. The directory is built from the rows the account query returns. The store applies the query's `vf=true` filter and `order by id asc`; the model takes that order as the hypothesis of `Accounts.BuildAccountList`'s largest-id clause.
- The clock `dt.now()` (dbsession.py:62): `saveat` is an opaque input. So no ordering of successive `saveat` values is stated.
- `strptime`'s lenient parsing (single-digit fields, flexible whitespace, non-ASCII decimal digits, which `strftime` prints back as ASCII so `jst` would differ from the input): the model parses only the strict six-field zero-padded form. Nor does it model the platform's `%Y` printing of years below 1000 without padding.
- How a SQL parser reads the unescaped clause (injection): only the clause text is modelled.
- The rest of the statement text (`update <table> set ... where id=<id>`): its effect on the table is modelled instead.
- Store-side failures other than the empty-table `int(None)`, for example an unknown column name or a `kv` key that names the `id` or `vf` column. The model treats every `kv` key as an ordinary column.
- The transaction left open when `update` raises: the model only records that the table is unchanged.
- Record values of non-string types, and containers that are not dicts (a TypeError): record fields are modelled as the text `%s` prints for them.
- Logging and the `__main__` demo block (dbsession.py:140-167).
