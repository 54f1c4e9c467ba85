# Student-management backend: assignment store and unique-number allocator

This project models the core of a small Express/Mongoose student-management
backend (`index.js`). The backend is a sequential state machine over
three things:

- the `assignmentUniqueNo` row of the sequence collection. It is an optional
  integer counter: `None` means the row is absent.
- the `assignmentDetails` collection, a map from `uniqueNo` to the assignment
  document (`title`, `description`, `dueDate`, `uniqueNo`). Its keys are the
  unique index on `uniqueNo`.
- the `loginDetails` collection, a map from email to the user document. Its
  keys are the unique index on `email`.

Every route handler is a pure function `(State, inputs) -> (Outcome, State)`.
`Outcome` stands for the response without its HTTP status or wording. The
handlers are create, update, delete and get of an assignment, plus register
and login. `Server.Step` dispatches one request, and `Server.Run` handles a
sequence of requests in order.

The allocator has two paths, and they are asymmetric:

- The auto path (no `uniqueNo` in the body) draws a number from the counter
  before saving. It keeps that draw even when the unique index then rejects
  the save.
- The explicit path checks the store for the number. It never reads or
  advances the counter.

Modules, one file each: `Wrappers` (Option), `Sequence` (the counter,
`getNextUniqueNo`, `initializeSequence`), `Store` (documents, state, unique-index
saves), `Handlers` (the route handlers), `Server` (requests and runs),
`Properties` (lemmas relating several calls), `Reconciled` (the finding below).

Abstractions:

- Date parsing is an input. Create receives `Option<Date>`, where `None` means
  `new Date(dueDate)` is NaN. Update receives a `DateField`: `Omitted` when the
  body's `dueDate` is falsy, `Parsed(d)` or `Unparsable`. A date is its `getTime()`
  millisecond value.
- A bcrypt digest is the symbolic term `Bcrypt(rounds, salt, secret)`. The
  random salt is an input of register. `bcrypt.compare` is an uninterpreted
  function parameter of login.
- JavaScript `undefined` for a body field is `None`.

Details of the code's behaviour the model keeps as written:

- Update ignores a *falsy* `dueDate` (an empty string, say), not only an
  undefined one. A non-empty `dueDate` that does not parse is rejected before
  the lookup, even when the number does not exist.
- Create rejects a missing `dueDate` as an invalid date, because
  `new Date(undefined)` is NaN.
- Login has a third failure besides "user not found" and "invalid credentials".
  bcrypt rejects a missing password, or a stored user without a digest (one
  not written by this register), and the catch block reports that error
  (`CompareFailed`).
- A registration without a password fails and stores nothing (`HashFailed`).
  Mongoose marks the undefined password of a new document as modified, so
  the pre-save hook passes it to bcrypt, which refuses to hash it.

## Model

| member | source | states |
|---|---|---|
| Sequence.NextUniqueNo | index.js:53-60 | the draw is one above the row's value, 1 when no row exists; the row is left holding exactly the returned number |
| Sequence.InitializeSequence | index.js:62-67 | creates the row at 0 only when absent; an existing row is untouched; the value read is unchanged |
| Sequence.InitializeIdempotent | index.js:62-67 | initializing twice equals initializing once |
| Sequence.InitializeKeepsNextDraw | index.js:62-69 | the startup initialization never changes which number the next draw returns |
| Sequence.ConsecutiveDraws | index.js:53-60 | two successive draws give consecutive numbers; with no row they are 1 and 2 |
| Store.Boot | index.js:62-69 | the booted empty database is well formed, with the counter row at 0 |
| Store.NoTwoAssignmentsShareNo | index.js:37-42 | in a well-formed state no two stored assignments carry the same uniqueNo |
| Store.NoTwoUsersShareEmail | index.js:17-21 | in a well-formed state no two stored users carry the same email |
| Store.SaveAssignment | index.js:133-145 | the unique index rejects a save exactly when the number is taken, leaving the state unchanged; otherwise exactly one document is added under its number |
| Store.SaveUser | index.js:75-86 | the unique email index rejects a save exactly when the email is taken, leaving the state unchanged; otherwise exactly one user is added |
| Handlers.Create | index.js:111-146 | InvalidDate exactly when the date does not parse, and then nothing changes; a duplicate explicit number exactly when it is stored, and then nothing changes; the explicit path never touches the counter; the auto path advances it by one even when the save fails, which happens exactly when the drawn number is stored; otherwise it succeeds and adds one document under the chosen number with the supplied fields; users untouched; well-formedness kept |
| Handlers.Update | index.js:188-228 | InvalidDate exactly when a supplied date does not parse, before the lookup and with nothing changed; NotFound exactly when the number is absent, with nothing changed; otherwise only supplied fields are overwritten and an omitted date is kept; the key, the uniqueNo and all other documents are unchanged |
| Handlers.Delete | index.js:148-167 | NotFound exactly when the number is absent, with nothing changed; otherwise exactly that document is removed and the rest are unchanged |
| Handlers.Get | index.js:170-185 | never changes the state; NotFound exactly when the number is absent, else returns the stored document |
| Handlers.Register | index.js:71-87 | HashFailed exactly when no password is supplied (the pre-save hook at index.js:23-29 refuses it before the insert); otherwise fails exactly when the email is stored; every failure changes nothing; success adds exactly one user, holding the name, the email and the 10-round digest of the password |
| Handlers.Login | index.js:89-109 | never changes the state; UserNotFound exactly when no user has the email; CompareFailed exactly when the password or stored digest is missing; InvalidCredentials exactly when compare fails; Ok exactly when it succeeds |
| Server.Step | index.js:71-228 | only the auto path moves the counter, by exactly one; a failed request leaves both collections unchanged, and the counter too unless it is an auto create rejected by the index |
| Server.Run | index.js:71-228 | handling a sequence of requests yields one outcome per request |
| Server.RunPreservesWellformed | index.js:37-42 | over any run the store keeps every document under its own uniqueNo and every user under their own email |
| Server.RunCounter | index.js:53-60 | over any run the counter grows by exactly the number of values drawn, so it never decreases |
| Server.DrawnAreConsecutive | index.js:53-60 | the numbers drawn during a run are consecutive, starting one above the initial counter |
| Server.DrawnAreDistinct | index.js:53-60 | no number is drawn twice during a run |
| Server.FreshRunDrawsFromOne | index.js:53-69 | from a freshly booted database the draws are 1, 2, 3, ... |
| Properties.DeleteUndoesCreate | index.js:148-162 | deleting a just-created explicit number succeeds and restores the original state |
| Properties.GetAfterCreate | index.js:170-180 | a get of the chosen number after a successful create returns the stored document |
| Properties.GetAfterDelete | index.js:170-180 | after a delete, a get of the same number gives NotFound |
| Properties.GetAfterUpdate | index.js:209-223 | a get after an update returns the document the update reported |
| Properties.UpdateIdempotent | index.js:209-223 | repeating the same partial update changes nothing further and reports the same result |
| Properties.EmptyUpdateChangesNothing | index.js:209-221 | an update supplying no fields returns the stored document and leaves the state unchanged |
| Properties.TitleOnlyUpdateKeepsOtherFields | index.js:210-218 | a title-only update keeps the description and the due date |
| Properties.ExplicitNumberTwice | index.js:125-130 | a second create with the same explicit number and a valid date is refused as a duplicate and changes nothing |
| Properties.ExplicitDoesNotShiftAuto | index.js:123-130 | a create with an explicit number does not change the next auto-drawn number |
| Properties.RegisterThenLogin | index.js:89-104 | login after register with the same password succeeds when bcrypt accepts it; a password bcrypt rejects gives InvalidCredentials |
| Properties.RegisterTwice | index.js:75-86 | after a registration that stored a user, a second one with the same email fails and changes nothing; after one without a password, which stored nothing, the second behaves as if it came first |
| Properties.RegisterWithoutPasswordFails | index.js:23-29 | a registration without a password fails and changes nothing, so a later login for that new email gives UserNotFound |
| Reconciled.ManualNumberBlocksAuto | index.js:123-145 | storing explicitly the number just above the counter makes the next auto create fail on the unique index, while still consuming the draw |
| Reconciled.FreshDatabaseCollision | index.js:123-145 | on a fresh database an explicit create of 1 breaks the counter/store sync, and the next auto create fails |
| Reconciled.Create | index.js:111-146 | on the explicit path a refusal changes nothing and a stored number moves the counter to the larger of its old value and that number; the auto path draws as written; a synced state stays synced and no create in it fails on the unique index |
| Reconciled.AgreesWithHandler | index.js:111-146 | the reconciled create has the outcome and stored documents of the handler as written; on the auto path it is identical |
| Reconciled.BumpTo | index.js:125-137 | the counter after an explicit number is stored: never below the old value nor the stored number, and equal to one of them |
| Reconciled.Step | index.js:71-228 | one request with the reconciled create keeps a synced state synced, and a create from a synced state is never rejected by the unique index |
| Reconciled.Run | index.js:71-228 | handling a sequence of requests with the reconciled create keeps a synced state synced |
| Reconciled.NoCreateCollides | index.js:123-145 | over any run from a synced state, using the reconciled create, no create is rejected by the unique index |

## Left out

- HTTP plumbing: routing, body parsing, status codes, response text and `app.listen`. Only the abstract outcome is kept.
- The MongoDB connection, its event handlers and the console logging. Collections are Dafny maps.
- Concurrency: every handler is one atomic sequential step. This leaves out the atomicity of `findOneAndUpdate` and the race between the existence check and the save. So the explicit path never reaches the unique-index failure, which only a concurrent insert could trigger.
- Storage errors other than unique-index violations (connectivity, timeouts), and the 500 responses they produce.
- JavaScript date parsing is an input (see above). `null` as a date is not distinguished from other parse results.
- JavaScript `null` as a body field is treated like `undefined`, but the source does not: `uniqueNo: null` takes the explicit path (the strict `=== undefined` test at index.js:123), and `title: null` or `description: null` overwrites the stored field on update (the `!== undefined` tests at index.js:210-215).
- Non-string titles, non-numeric explicit `uniqueNo` values cast by Mongoose, and the string-to-number cast of the route parameter are not modelled. Keys are integers.
- Register and login take the email as a string. An undefined email, which the unique index treats as null, is not modelled.
- bcrypt: hashing and salting are a symbolic digest with the salt as an input. `bcrypt.compare` is a parameter, so its 72-byte truncation and collisions are not modelled.
- `jsonwebtoken` is imported but never used.
- Server.Run: its contract states only the outcome count. The properties of runs are the Server lemmas.
- Reconciled.Create: does not restate which outcome each input gets nor the stored documents. Its agreement with the handler as written on both is stated by Reconciled.AgreesWithHandler instead.

## Findings

| source | as written | input that shows it | evidently intended | confidence | as-written member | corrected member |
|---|---|---|---|---|---|---|
| index.js:123-145 | an explicit `uniqueNo` is stored without advancing the counter, so the counter can fall behind the stored numbers | fresh database, then a create with `uniqueNo: 1`, then a create without `uniqueNo`: the draw is 1, the unique index rejects the save, and 1 stays consumed | omitting `uniqueNo` auto-generates a number that is not in use, as the duplicate-number message invites the caller to do | medium, not executed | Reconciled.ManualNumberBlocksAuto | Reconciled.Create |

The rest of the model keeps the handler as written, `Handlers.Create`,
because that is what the backend does. `Reconciled.Create` bumps the counter
to at least each explicit number it stores. `Reconciled.NoCreateCollides`
proves that with this change no create in any run from a synced state fails
on the unique index.
