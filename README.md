# In-memory task store of hello-rocket, modelled in Dafny

The `in-memory` variant of hello-rocket is a small task-list web service.
Its state is a list of tasks, kept in insertion order, and a counter that hands out ids.
Five routes act on that state: `insert`, `find_all`, `find_by_id`, `delete` and `update`.
Before `insert` and `update` run, a request-body guard accepts or refuses the body.
A route's own failure (routes.rs:23, 37, 50, 61, 66, 80, 86, 101, 106) is an `AppError`, and its responder turns it into a plain-text HTTP response.
A guard's refusal also carries an `AppError`, but it goes to the framework's catcher for the guard's status, so the client sees only that status; the responder does not run.

The project has five modules:

- `Wrappers` (wrappers.dfy): `Option` and `Result`.
- `Http` (http.dfy): the status codes and the plain-text content type that the core uses.
- `Errors` (errors.dfy): `AppError` and its display text.
  It also holds the decimal printing of ids, the UTF-8 byte length that `String::len` reports, the status mapping and the responder.
- `Models` (models.dfy): the `Task`, `InsertTask` and `UpdateTask` records.
  It also holds `str::trim` over the Unicode White_Space characters, and the two `FromData` guards.
- `Routes` (routes.dfy): the class `AppData`.
  Its fields are `idTracker` and `taskList`, and its methods are the five routes.
  `FirstMatch`, `Lookup` and `RemoveAt` are the reference definitions the methods are proved against.
  The module also has lemmas about sequences of requests and a three-step session that starts from a fresh store.

How the model is stated:

- The lock's `try_lock()` is an input of every route, `lockOk`. When it is false, the route answers `Internal` and leaves the list alone (for `insert`, only once the title has passed its blank check).
- `insert` draws its id from the counter *before* it tries the lock. So an insert that loses the lock still uses up an id.
- `AppData.Valid()` is the store's invariant: ids are pairwise distinct and all below the counter.
  The constructor establishes it, starting from counter 0 and an empty list. Every route keeps it.
  So it holds after any sequence of requests that starts from the initial state.

Two behaviours of the code that the model keeps as they are:

- The `update` route does not check the new title; only the guard does.
  So the store keeps "no stored title is blank" only when the new title is not blank (`TitlesPresent` in `Update`'s contract).
- A blank title is refused by the guard with status 400 (models.rs:47).
  The responder would answer 422 for the same error (errors.rs:32), as the TODO at errors.rs:29-31 notes.
  `EmptyTitleStatusDiscrepancy` records this; it is not resolved.
  Because of the guard, the route's own blank-title check (routes.rs:22) can only be reached if the guard is bypassed.

## Model

| member | source | states |
|---|---|---|
| `Errors.Decimal` | in-memory/src/errors.rs:16 | The `{0}` of an id prints as one or more decimal digits, with no leading zero unless the id is 0 |
| `Errors.ParseDecimalOfDecimal` | in-memory/src/errors.rs:16 | Reading the printed id back gives the id |
| `Errors.DecimalInjective` | in-memory/src/errors.rs:16 | Two ids print alike exactly when they are equal |
| `Errors.Message` | in-memory/src/errors.rs:12-24 | The Display text of each variant; every message except `IO`'s is ASCII, and `IO`'s is its detail between backticks (its inverse is `ParseMessage`, see `ParseMessageOfMessage`) |
| `Errors.IdNotFoundMessageShape` | in-memory/src/errors.rs:16-17 | The `IdNotFound(n)` message is a backtick, the digits of n, then the fixed text "` id not found!" |
| `Errors.ParseMessageOfMessage` | in-memory/src/errors.rs:12-24 | The error can be recovered from its Display text, for every variant |
| `Errors.MessageInjective` | in-memory/src/errors.rs:12-24 | Two errors have the same Display text exactly when they are the same error |
| `Errors.StatusOf` | in-memory/src/errors.rs:28-36 | The mapping is total; it gives a 4xx status exactly for `EmptyTitle` and `IdNotFound`, and a 5xx exactly for `Internal` and `IO` |
| `Errors.StatusCodes` | in-memory/src/errors.rs:32-35 | 422 exactly for `EmptyTitle`, 404 exactly for `IdNotFound`, 500 exactly for `Internal` and `IO` |
| `Errors.NotFoundStatusIgnoresId` | in-memory/src/errors.rs:32-33 | `IdNotFound` gives 404 whatever the id, and `EmptyTitle`'s status differs from it |
| `Errors.Utf8Length` | in-memory/src/errors.rs:40 | The byte length of a string lies between its character count and four times that |
| `Errors.AsciiUtf8Length` | in-memory/src/errors.rs:40 | On ASCII text the byte length equals the character count |
| `Errors.RespondTo` | in-memory/src/errors.rs:26-45 | The response has the variant's status, the Display text as body, plain-text content type, and a declared size equal to the body's byte length |
| `Errors.DeclaredSizeIsLength` | in-memory/src/errors.rs:38-42 | For every error except `IO`, the declared size is the message's length in characters |
| `Models.SkipWhitespace` | in-memory/src/models.rs:46 | The leading half of `trim()`: the first index at or after the start whose character is not whitespace; every character skipped is whitespace |
| `Models.BackOverWhitespace` | in-memory/src/models.rs:46 | The trailing half of `trim()`: walking back from the end, the characters dropped are whitespace and the last one kept is not |
| `Models.WhitespaceRange` | in-memory/src/models.rs:46 | The contract of `IsWhitespace` (`char::is_whitespace`, the Unicode White_Space set): on ASCII it is exactly tab, line feed, vertical tab, form feed, carriage return and space |
| `Models.Trim` | in-memory/src/models.rs:46 | `trim()` keeps the contiguous stretch of s that starts where `SkipWhitespace` stops; everything before and after it is whitespace, and neither of its ends is |
| `Models.TrimEmptyIffAllWhitespace` | in-memory/src/models.rs:46 | A string trims to nothing exactly when every character is whitespace |
| `Models.Blank` | in-memory/src/models.rs:46 | `trim().is_empty()` (also models.rs:73 and routes.rs:22) holds exactly when every character is whitespace |
| `Models.LimitFor` | in-memory/src/models.rs:36 | The configured limit for the guard's name if there is one, otherwise 512 bytes (also line 62) |
| `Models.Read` | in-memory/src/models.rs:37-43 | Reading under a limit is complete exactly when a readable body fits the limit; it fails exactly when the body is unreadable, that is, when the stream fails or the first min(length, limit) bytes are not valid UTF-8; a complete read yields the decoded body |
| `Models.Decide` | in-memory/src/models.rs:37-50 | The branch both guards share: accepted exactly when the read is complete and the title is not blank, and then the decoded value unchanged; an incomplete read gives (413, `Internal`), a failed read (500, `IO`), a complete read with a blank title (400, `EmptyTitle`) (also lines 63-77) |
| `Models.InsertGuard` | in-memory/src/models.rs:29-51 | An accepted insert body is the decoded one with a non-blank title; a refusal pairs 400 with `EmptyTitle`, 413 with `Internal` and 500 with `IO`, each both ways |
| `Models.UpdateGuard` | in-memory/src/models.rs:55-78 | An accepted update body is the decoded one with a non-blank new title; a refusal pairs 400 with `EmptyTitle`, 413 with `Internal` and 500 with `IO`, each both ways |
| `Models.InsertGuardRejectsBlankTitle` | in-memory/src/models.rs:46-47 | A body within the insert limit whose title is blank gets (400, `EmptyTitle`) |
| `Models.UpdateGuardRejectsBlankTitle` | in-memory/src/models.rs:73-74 | A body within the update limit whose new title is blank gets (400, `EmptyTitle`) |
| `Models.InsertGuardRejectsOversizedFirst` | in-memory/src/models.rs:38-39 | A readable body over the insert limit gets (413, `Internal`) whatever its title: size is judged before the title |
| `Models.UpdateGuardRejectsOversizedFirst` | in-memory/src/models.rs:64-65 | A readable body over the update limit gets (413, `Internal`) whatever its new title |
| `Models.GuardsRejectReadError` | in-memory/src/models.rs:40-42 | Both guards refuse a failed read with (500, `IO`) carrying the error's text |
| `Models.InsertGuardAccepts` | in-memory/src/models.rs:29-51 | The insert guard accepts exactly the readable, fitting bodies with a non-blank title, and passes the decoded request on unchanged (untrimmed) |
| `Models.UpdateGuardAccepts` | in-memory/src/models.rs:55-78 | The update guard accepts exactly the readable, fitting bodies with a non-blank new title, and passes the decoded request on unchanged |
| `Models.DefaultLimitIs512` | in-memory/src/models.rs:36 | With no limit configured, a 512-byte body passes the size check and a 513-byte body gets (413, `Internal`); the same holds for the update guard (line 62) |
| `Models.EmptyTitleStatusDiscrepancy` | in-memory/src/models.rs:46-47 | The guard answers 400 for a blank title, while the responder maps `EmptyTitle` to 422 (errors.rs:32); both are client errors and neither is 404 |
| `Routes.FirstMatch` | in-memory/src/routes.rs:63-66 | The index found is that of the first task with the id, and none is found exactly when no task has the id |
| `Routes.Lookup` | in-memory/src/routes.rs:63-67 | A lookup returns the first stored task with the id (no earlier task has it), and fails with `IdNotFound(id)` exactly when no stored task has the id |
| `Routes.RemoveAt` | in-memory/src/routes.rs:88 | `Vec::remove` drops the element at the index and keeps the order of the others |
| `Routes.FindAfterAppend` | in-memory/src/routes.rs:25-39 | A task appended with an id above every stored id is the one a lookup of that id returns |
| `Routes.FindAfterRemove` | in-memory/src/routes.rs:82-88 | With distinct ids, a lookup of a deleted task's id fails with `IdNotFound` |
| `Routes.FindAfterReplace` | in-memory/src/routes.rs:103-109 | Replacing the first task with an id by one with the same id makes the lookup return the replacement |
| `Routes.AppendKeepsIds` | in-memory/src/routes.rs:25-39 | Appending a task whose id is the counter keeps ids distinct and below the advanced counter |
| `Routes.AppData.constructor` | in-memory/src/main.rs:30-33 | The store starts with counter 0, an empty list, and its invariant holding |
| `Routes.AppData.FindIndex` | in-memory/src/routes.rs:82-86 | The linear scan returns exactly the first index whose task has the id, or none |
| `Routes.AppData.Insert` | in-memory/src/routes.rs:17-43 | Blank title: `EmptyTitle`, nothing changes. Otherwise the counter goes up by 1; with the lock, the task (old counter, untrimmed title, details) is appended and returned; without it, `Internal` and the list is unchanged. The invariant is kept |
| `Routes.AppData.FindAll` | in-memory/src/routes.rs:45-54 | With the lock, the whole list in its current order; without it, `Internal`; no state changes |
| `Routes.AppData.FindById` | in-memory/src/routes.rs:56-70 | With the lock, the first task with the id or `IdNotFound(id)`; without it, `Internal`; no state changes |
| `Routes.AppData.Delete` | in-memory/src/routes.rs:72-91 | With the lock and a match, returns the first matching task and removes exactly that one, keeping the others in order; otherwise `IdNotFound(id)` or `Internal` and nothing changes. Counter and invariant are kept |
| `Routes.AppData.Update` | in-memory/src/routes.rs:93-112 | With the lock and a match, the first matching task gets the new title and details, keeps its id and position, and is returned; every other task is unchanged. Otherwise `IdNotFound(id)` or `Internal` and nothing changes |
| `Routes.InsertThenFindById` | in-memory/src/routes.rs:25-67 | From any valid state, a successful insert followed by a lookup of the returned id gives back the inserted task |
| `Routes.UpdateThenFindById` | in-memory/src/routes.rs:93-112 | From any valid state, after an update the lookup of the requested id gives back the updated task, or both fail with the same `IdNotFound` |
| `Routes.DeleteThenFindById` | in-memory/src/routes.rs:72-91 | From any valid state, after a delete of an id, a lookup of that id fails with `IdNotFound` |
| `Routes.SessionInsertAndList` | in-memory/src/routes.rs:17-54 | Two inserts into a fresh store get ids 0 and 1, and listing returns them in insertion order |
| `Routes.SessionUpdateAndDelete` | in-memory/src/routes.rs:93-112 | Updating task 0 and then deleting task 1 leaves only the updated task 0 |
| `Routes.SessionFailures` | in-memory/src/routes.rs:25-37 | Continuing that session: an update of a missing id gets `IdNotFound` (routes.rs:103-106), the deleted id is no longer found, and an insert under a busy lock gets `Internal` yet still advances the counter to 3, leaving the list as it was |

## Left out

- Concurrency. `Mutex::try_lock` is the boolean input `lockOk`, and the `fetch_add` is a plain increment inside one call.
  Interleavings of concurrent requests are not modelled. So the model does not claim that list order follows id order across threads.
- `u64` wrap-around of the id counter. Ids and the counter are unbounded naturals.
- JSON decoding. A readable body carries the value serde would decode it to, and its byte length.
  The `unwrap()` panic on malformed JSON (models.rs:45, 71) is not modelled.
- The Display text of the foreign `std::io::Error` is an abstract string inside `IO`.
- `Models.Read`: it takes "complete" to mean the body's byte length is at most the limit.
  Rocket's streaming is not modelled. A body counts as `Unreadable` when the stream fails, and also when its first min(length, limit) bytes are not valid UTF-8.
  That includes a well-formed body whose limit cuts a multi-byte character: it must be given as `Unreadable`, and then gets (500, `IO`), not (413, `Internal`).
- Limit names are matched exactly. Rocket's hierarchical limit names ("a/b" falling back to "a") are not modelled.
- Rocket's `Forward` outcome. The guards never produce it.
- The success wrappers of the routes are not modelled: `Created::new("/tasks")` for insert and update, `Custom(Status::Ok, …)` for delete, and the `Json` bodies.
  The routes return the task or list itself.
- The `index` route and `Vec::with_capacity(32)` from main.rs, and the `sqlite`, `cookies`, `experiments` and `minimal` variants.
  None of these is part of the task store.
