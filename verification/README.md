# logbook-rs: the logbook document and its mutators, in Dafny

logbook-rs is a command-line logbook. Users create named projects and append
timestamped text logs to them. They can also delete a log or a whole project.
This project models the in-memory document and its four mutators from
`src/lib.rs`, all in module `LogbookLib` (`logbook.dfy`):

- `Log` (id, timestamp, text) and `Project` (name, ordered logs) are values,
  so they are datatypes.
- `Logbook` is a class. It has the fields `createdAt` and
  `projects: map<string, Project>`, and its methods update `projects` in
  place, as the Rust methods on `&mut self` do.
- The document invariant is `Logbook.Valid()`. It says that every project is
  stored under its own name and that its ids are dense: every log's id equals
  its index.
- `add_log` and `delete_log` are specified by pure functions on one project:
  `AddLogTo` and `DeleteLogFrom`. `DeleteLogFrom` is built from `RemoveAt`
  (`Vec::remove`) and `Renumbered`. `add_project` is a map update with
  `EmptyProject(name)`, and `delete_project` removes a key. The lemmas are
  proved about these functions.
- The renumbering loop of `delete_log` is the method `Renumber`. Its loop
  invariants prove it against `Renumbered`.
- Timestamps are opaque strings that the caller passes in: the constructor
  takes the document's creation time, and `AddLog` takes the new log's time.
- `Session` is a client that adds a project, logs two entries and deletes
  one. It asserts only what follows from the mutators' contracts.
  `AddThenDeleteLog` is a client that relies on the invariant: it logs an
  entry and then deletes it again.

`add_project` silently replaces an existing project of the same name, and so
does the model; there is no duplicate-project error. A log id is a `usize`,
modelled as a `nat`, so the only invalid id is one at or past the end of the
list.

## Model

| member | source | states |
|---|---|---|
| `LogbookLib.RemoveAt` | src/lib.rs:74 | `Vec::remove`: one element shorter, elements before `k` kept, elements after `k` shifted down by one |
| `LogbookLib.Renumbered` | src/lib.rs:80-82 | the renumbered logs are dense, keep every timestamp and text in order, and equal the input when it was already dense |
| `LogbookLib.Renumber` | src/lib.rs:80-82 | the loop that writes each log's index into its id computes exactly `Renumbered` of its input |
| `LogbookLib.AddLogTo` | src/lib.rs:54-62 | appending a log adds one to the length, keeps all earlier logs, gives the new log id = old length, appends its entry to the entries, and preserves dense ids |
| `LogbookLib.DeleteLogFrom` | src/lib.rs:74-82 | removing position `k` and renumbering gives n-1 logs with dense ids whatever the ids were before; their timestamps and texts are the old ones in order with position `k` removed |
| `LogbookLib.EntriesRemoveAt` | src/lib.rs:74 | removing a log and then taking timestamps and texts gives the same result as taking them first and then removing position `k` |
| `LogbookLib.AddLogs` | src/lib.rs:52-63 | a run of `add_log` calls keeps the existing logs, appends the given entries in call order and preserves dense ids |
| `LogbookLib.AddLogsToEmpty` | src/lib.rs:52-63 | logging n entries into a fresh project gives logs with ids 0..n-1 in call order, each carrying its own timestamp and text |
| `LogbookLib.DeleteUndoesAdd` | src/lib.rs:52-83 | on a project with dense ids, deleting the log just added gives back the original project |
| `LogbookLib.DeleteKeepsPrefix` | src/lib.rs:74-82 | on a project with dense ids, deleting log `k` leaves logs 0..k-1 unchanged, ids included |
| `LogbookLib.EmptyProject` | src/lib.rs:45-48 | the project stored by `add_project` carries the name it is stored under and has no logs |
| `LogbookLib.Logbook.constructor` | src/lib.rs:32-41 | a new document has no projects and the given creation time, so the invariant holds vacuously |
| `LogbookLib.Logbook.AddProject` | src/lib.rs:42-50 | afterwards `name` maps to a project named `name` with no logs, replacing any old one; every other project and the creation time are unchanged; the invariant is preserved |
| `LogbookLib.Logbook.AddLog` | src/lib.rs:52-63 | with a missing project: `NoSuchProject` and nothing changes. Otherwise the project gains one last log with id = old length and the given timestamp and text, its earlier logs and all other projects are unchanged, and the invariant is preserved |
| `LogbookLib.Logbook.DeleteLog` | src/lib.rs:65-83 | with a missing project: `NoSuchProject`. With id >= length: `InvalidId`. In both cases nothing changes, ids included. Otherwise the project becomes `DeleteLogFrom` of itself: dense ids, with the entries those of the old logs minus position `id`. Other projects are unchanged and the invariant is preserved |
| `LogbookLib.Logbook.DeleteProject` | src/lib.rs:85-94 | removes `name` if present (`Done`); if it is absent, reports `NoSuchProject` and the map is unchanged. Every other project is unchanged |
| `LogbookLib.DeleteProjectUndoesAdd` | src/lib.rs:85-94 | adding a project that was absent and then deleting it gives back the original map |
| `LogbookLib.AddThenDeleteLog` | src/lib.rs:52-83 | on a valid logbook, `add_log` followed by `delete_log` at the project's old length gives back the same projects, and the invariant still holds; with a missing project neither call changes anything |

## Left out

- Reading the wall clock (`SystemTime::now()` for `created_at` and for each log's timestamp): the time is a string parameter instead.
- The home-directory lookup, file opening, JSON (de)serialisation and writing: `get_default_logbook_dir`, `open_logbook`, `init_logbook`, `load_or_create_logbook` and `write_changes`. These are file-system and serde calls with no logic of their own.
- The `println!` messages of `delete_log` and `delete_project`: they are modelled as the returned `Status` (`InvalidId`, `NoSuchProject`, `Done`).
- LogbookLib.Logbook.AddLog: the Rust code panics on a missing project ("Nonexistent project") and aborts the process. The model returns `NoSuchProject` and leaves the document unchanged instead.
- LogbookLib.Logbook.DeleteLog: on a missing project the Rust code panics in the same way. The model returns `NoSuchProject` and leaves the document unchanged.
- Ids and lengths are unbounded `nat`s: `usize` overflow cannot happen for any list that fits in memory.
- `HashMap` iteration order: the model uses a Dafny `map`, which has no order, and no mutator depends on order.
- `src/main.rs` holds only argument-parsing declarations and an empty `main`, and is not part of this model.
