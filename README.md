# tarantool-leptos todo application: a Dafny model

This project models the core of a TodoMVC application that keeps its todos in a Tarantool
space and serves a Leptos front end. Four parts are modelled, and properties of each are proved.

- **Todo repository** (`tnt-server/src/repo/todo.rs`). Seven operations act on the todo space:
  `create_todo`, `delete_todo`, `list_todos`, `change_completed`, `change_title`, and the two
  transactional bulk operations `change_all_completed` and `delete_completed`.
- **Storage worker** (the fiber loop in `tnt-server/src/lib.rs`). It takes commands from the
  command channel and runs the matching repository operation. When that succeeds, it sends the
  list of todos on the one response channel that all request handlers share.
- **Server functions** (`front-app/src/lib.rs`). These are the `Cmd` and `Todo` types, plus seven
  functions that each send one command and then take the next list from the shared channel.
- **User creation** (`tnt-server/src/repo/user.rs`) and the **extension-to-content-type choice**
  of the static file route (`file_server` in `tnt-server/src/lib.rs`).

Layout:

- `base.dfy`: `Option`, `Result`, and the `U32` range.
- `engine.dfy`: the repository error type and `Fault`. A `Fault` says which numbered engine
  request of one repository call the storage engine rejects, if any.
- `front_app.dfy`: the shared types, the channel state (class `Channels`) and the server functions.
- `todo_spec.dfy`: the todo space as a value (`Store`: rows in key order plus the
  auto-increment counter), with one function per repository operation.
- `todo_repo.dfy`: class `TodoSpace`, whose methods change the rows in place. Each method is
  proved equal to its `TodoSpec` function. The bulk operations run their transaction closure
  (`CompleteAllIn`, `DeleteCompletedIn`) on a working copy of the scanned rows. The copy is
  written back on `Ok` and dropped on `Err`.
- `worker.dfy`: one turn of the worker loop (`Dispatched` / `Dispatch`), the loop itself
  (`Drained` / `Serve`), and a two-handler scenario.
- `user_repo.dfy`: class `UserSpace` and the reading of a user from a tuple.
- `file_server.dfy`: the extension, the content type, and the response.

Engine requests are numbered within one repository call:

- A single-row operation makes request 0.
- A bulk operation makes its scan as request 0, and its i-th write as request i + 1.
- In the worker, the listing that follows a single-row change is request 1 of that command.

Behaviour of the code worth noting:

- An absent id in `delete_todo`, `change_completed` and `change_title` is not an error. The
  code unwraps `None` and panics. The repository methods therefore require the key to be
  present unless the engine fails first. The worker reports `Panic`, and its loop ends
  `Crashed`.
- `change_title` accepts an empty title. Only `create_todo` refuses one.
- A caller can wait forever. A failed command sends nothing, so the next handler to receive
  takes a list that belongs to another command (`Worker.ShiftedReplies`).
- Error names follow the code: `EmptyTodoTitle`, `EmptyUserName`, `FieldNotExsist`.

## Model

| member | source | states |
|---|---|---|
| ServerFns.Submit | front-app/src/lib.rs:86-100 | A missing sender gives `ServerError("Sender cmd missing.")`, and nothing is sent. Otherwise the command is appended to the command channel. A missing receiver gives `ServerError("Receiver missing.")` only after the send. |
| ServerFns.Receive | front-app/src/lib.rs:101 | Takes the oldest list on the shared response channel and removes it. Finding the channel empty leaves it unchanged (the handler is still blocked). |
| ServerFns.Request | front-app/src/lib.rs:96-103 | Send, then receive. Returns the oldest queued list whichever command produced it, or `Waiting` when none is queued. The sender and receiver errors are as in `Submit`. |
| ServerFns.GetTodos | front-app/src/lib.rs:96-103 | Sends exactly `Cmd::GetTodos`, then receives as `Request` does. |
| ServerFns.AddTodo | front-app/src/lib.rs:105-112 | Sends exactly `AddTodo(title)` with the title unchanged, then receives. |
| ServerFns.DeleteTodo | front-app/src/lib.rs:114-121 | Sends exactly `DeleteTodo(id)`, then receives. |
| ServerFns.ChangeTitle | front-app/src/lib.rs:123-130 | Sends exactly `ChangeTitle(id, title)`, then receives. |
| ServerFns.ChangeCompleted | front-app/src/lib.rs:132-139 | Sends exactly `ChangeCompleted(id, completed)`, then receives. |
| ServerFns.ChangeAllCompleted | front-app/src/lib.rs:141-148 | Sends exactly `ChangeAllCompleted(completed)`, then receives. |
| ServerFns.DeleteCompleted | front-app/src/lib.rs:150-157 | Sends exactly `Cmd::DeleteCompleted`, then receives. |
| TodoSpec.CreateTodo | tnt-server/src/repo/todo.rs:11-23 | Returns `EmptyTodoTitle` exactly for the empty title, leaving the store unchanged. It succeeds exactly when the title is non-empty, the insert is not rejected and the u32 sequence is not exhausted. The new row has the title, `completed == false` and the next id, which no existing row holds. It is appended, the counter advances, and validity is preserved. |
| TodoSpec.DeleteTodo | tnt-server/src/repo/todo.rs:28-34 | Fails only when the delete is rejected, leaving the store unchanged. Otherwise it returns the row as it was. Exactly the rows with other keys remain, no row has the key afterwards, and validity is preserved. |
| TodoSpec.ListTodos | tnt-server/src/repo/todo.rs:39-48 | Returns every row in key order unless the scan is rejected. Nothing changes. |
| TodoSpec.ChangeCompleted | tnt-server/src/repo/todo.rs:53-62 | Field 2 of the keyed row becomes `c` and the row is returned with its id and title. Every other row and every other field keeps its value. A rejected update changes nothing. |
| TodoSpec.ChangeTitle | tnt-server/src/repo/todo.rs:119-129 | Field 1 of the keyed row becomes the title, which may be empty. The row is returned with its id and `completed`. Nothing else changes. A rejected update changes nothing. |
| TodoSpec.ChangeAllCompleted | tnt-server/src/repo/todo.rs:67-90 | Fails exactly when the scan or one of the per-row updates is rejected, and then the store is unchanged. Otherwise it returns the scanned rows in order, with their ids and titles and `completed == c`, and the store holds exactly those rows. |
| TodoSpec.DeleteCompleted | tnt-server/src/repo/todo.rs:95-114 | Fails exactly when the scan or one of the deletes is rejected, and then the store is unchanged. Otherwise the rows left are exactly the scanned rows that were not completed, in scan order. They are returned, and the count drops by the number of completed rows. |
| TodoSpec.CreateEachThenList | tnt-server/src/repo/todo.rs:136-143 | Creating todos with non-empty titles and then listing gives the earlier rows followed by exactly the created todos, in creation order, with consecutive fresh ids and `completed == false`. |
| TodoSpec.CreateInEmptyThenList | tnt-server/src/repo/todo.rs:136-143 | In an empty space, the listing after the creations is exactly the list of created todos. |
| TodoSpec.ChangeAllTwice | tnt-server/src/repo/todo.rs:67-90 | `change_all_completed` is idempotent: a second call with the same flag changes nothing and returns the same rows. |
| TodoSpec.DeleteCompletedTwice | tnt-server/src/repo/todo.rs:95-114 | `delete_completed` is idempotent: a second call deletes nothing and returns the same rows. |
| TodoRepo.TodoSpace.CreateTodo | tnt-server/src/repo/todo.rs:11-23 | The in-place insert leaves exactly the store and result of `TodoSpec.CreateTodo`, and keeps the space valid. |
| TodoRepo.TodoSpace.DeleteTodo | tnt-server/src/repo/todo.rs:28-34 | The in-place delete leaves exactly the store and result of `TodoSpec.DeleteTodo`, and keeps the space valid. |
| TodoRepo.TodoSpace.ListTodos | tnt-server/src/repo/todo.rs:39-48 | Succeeds exactly when the scan is not rejected and then returns the rows. It changes nothing. |
| TodoRepo.TodoSpace.ChangeCompleted | tnt-server/src/repo/todo.rs:53-62 | The in-place update leaves exactly the store and result of `TodoSpec.ChangeCompleted`. |
| TodoRepo.TodoSpace.ChangeTitle | tnt-server/src/repo/todo.rs:119-129 | The in-place update leaves exactly the store and result of `TodoSpec.ChangeTitle`. |
| TodoRepo.TodoSpace.ChangeAllCompleted | tnt-server/src/repo/todo.rs:67-90 | The transaction commits the closure's working copy on `Ok` and discards it on `Err`. It leaves exactly the store and result of `TodoSpec.ChangeAllCompleted`. |
| TodoRepo.TodoSpace.DeleteCompleted | tnt-server/src/repo/todo.rs:95-114 | The transaction commits or discards like `ChangeAllCompleted`. It leaves exactly the store and result of `TodoSpec.DeleteCompleted`. |
| TodoRepo.CompleteAllIn | tnt-server/src/repo/todo.rs:70-87 | The loop of updates fails exactly when request 0..\|rows\| is rejected, with an engine error. Otherwise the collected rows and the working copy both equal the scanned rows with `completed` set. |
| TodoRepo.DeleteCompletedIn | tnt-server/src/repo/todo.rs:98-111 | The loop of deletes fails exactly when request 0..(number of completed rows) is rejected. Otherwise the working copy equals the returned list: the scanned rows that were not completed. |
| TodoRepo.DeletedSplit | tnt-server/src/repo/todo.rs:104-108 | Deleting completed rows one key at a time leaves the not-completed rows visited so far, followed by the rows not yet visited. Exactly one delete is sent per completed row. |
| Worker.Dispatched | tnt-server/src/lib.rs:115-165 | A command panics exactly when it names a key no row holds and its first request goes through, and the store is then unchanged. A rejected first request sends nothing and changes nothing. Any list sent is the full store after the command: the listing after a single-row change, or the bulk operation's own result. `GetTodos` changes nothing. Without engine faults, only `AddTodo` with an empty title or an exhausted sequence stays unanswered. Validity is preserved. |
| Worker.Dispatch | tnt-server/src/lib.rs:115-165 | Running the matching `TodoSpace` operation and, for single-row commands, the listing after it, gives exactly the store and reply of `Dispatched`. |
| Worker.ListAfter | tnt-server/src/lib.rs:121-127 | The follow-up listing sends the current rows unless request 1 is rejected. Then nothing is sent, although the change stays committed. |
| Worker.TryRecv | tnt-server/src/lib.rs:109-114 | Takes the oldest queued command. An empty queue reports `Empty` while senders remain and `Disconnected` once they are gone, and the queue stays empty. |
| Worker.Drained | tnt-server/src/lib.rs:108-167 | A run of the loop sends at most one list per command taken. It takes every queued command unless one panics. It ends `Idle` only with senders remaining and `Stopped` only without. Validity is preserved. |
| Worker.Serve | tnt-server/src/lib.rs:108-167 | The loop leaves the store, the lists appended to the response channel in command order, the commands left queued and the way it ends exactly as `Drained` says. |
| Worker.DrainedInBatches | tnt-server/src/lib.rs:110-113 | Polling again after an idle run continues the run: an idle run over `a`, then a run over `b`, equals one run over `a + b`. A run that crashed in `a` never reaches `b`. |
| Worker.AddedWithoutReply | tnt-server/src/lib.rs:120-127 | When the listing after a successful `AddTodo` is rejected, the new row stays and nothing is sent. |
| Worker.EmptyTitleThenAdd | tnt-server/src/lib.rs:120-127 | In an empty space, `AddTodo("")` followed by `AddTodo("Buy milk")` takes two commands and sends one list, the one holding the new todo. |
| Worker.ShiftedReplies | tnt-server/src/lib.rs:120-127 | With two handlers on the shared response channel, the handler whose `AddTodo("")` failed receives the list produced for the other handler's command, and the other handler is left waiting. |
| UserRepo.UserFromTuple | tnt-server/src/repo/user.rs:23-26 | A missing field 0 gives `FieldNotExsist("id")`, a missing field 1 gives `FieldNotExsist("name")`. Otherwise the user is fields 0 and 1. |
| UserRepo.ReadBack | tnt-server/src/repo/user.rs:21-26 | Reading back the tuple stored for a user gives that user. |
| UserRepo.ExtraFieldsIgnored | tnt-server/src/repo/user.rs:23-24 | Fields after the first two do not affect the user read. |
| UserRepo.UserSpace.CreateUser | tnt-server/src/repo/user.rs:14-27 | Returns `EmptyUserName` exactly for the empty name. It succeeds exactly when the name is non-empty and unused, the insert is not rejected and the sequence is not exhausted. It then returns the user with the next id and the name, appends it, and advances the counter. Every error leaves the space unchanged. Unique, ascending keys and unique names are preserved. |
| UserRepo.SameNameTwice | tnt-server/src/repo/user.rs:44-50 | A fresh name can be registered, and a second registration of the same name fails. |
| FileServer.Extension | tnt-server/src/lib.rs:197 | The extension is a dot-free suffix of the path. Either a dot precedes it, or it is the whole path. |
| FileServer.ContentType | tnt-server/src/lib.rs:198-210 | Only `wasm`, `js` and `css` have a content type. |
| FileServer.Serve | tnt-server/src/lib.rs:195-221 | Serves exactly when the extension has a content type, the lookup is not rejected, the path is stored, and its content reads as bytes. It then returns those bytes with that content type. |
| FileServer.ExtensionAfterDot | tnt-server/src/lib.rs:197 | The extension of `name.ext` is `ext`, whatever dots `name` holds. |
| FileServer.ServesWasm | tnt-server/src/lib.rs:200-216 | A stored `name.wasm` is served whole as `application/wasm`. |
| FileServer.DotlessPath | tnt-server/src/lib.rs:197 | A path without a dot is its own extension. |
| FileServer.ServesBareJs | tnt-server/src/lib.rs:197-216 | A file stored under the bare path `js` is served whole as `application/javascript`. |
| FileServer.UnknownExtension | tnt-server/src/lib.rs:209 | A path whose extension is not `wasm`, `js` or `css` is never served. |

## Left out

- The Axum router, the Leptos handlers, the tokio runtime and the spawned thread are left
  out. They are framework and I/O plumbing.
- Real concurrency is not modelled. The worker loop is a sequential drain of the commands
  queued so far, and its 10 ms sleep on an empty queue is the `Idle` end of a run (see
  `DrainedInBatches`).
- The mutex around the receiver and the `unsafe` static join handle are not modelled.
- `create_spaces` and `read_files` (schema creation and loading files from disk) are left
  out. `files` is a parameter of `FileServer.Serve`.
- `RepoSpaces` and `RepoErr` live in `tnt-server/src/repo/mod.rs`, which is not part of this
  model. Spaces are taken to exist, so `find()` never fails. `RepoErr` keeps only the variants
  the shown code names, plus one `EngineError` for every error converted from the engine.
- Engine failures are a parameter (`Fault`): one numbered request of a call may be rejected.
  Why the engine fails is not modelled.
- Tuple encoding and the auto-increment sequence are abstracted into rows and a counter.
  Decode failures take two paths in the source, and the model reaches neither:
  - In `create_todo`, `delete_todo` and `change_completed` (`tnt-server/src/repo/todo.rs:20`,
    `:31`, `:59`), decoding uses `?`. There a decode failure returns `Err` after the engine
    has already applied the insert, delete or update, so the worker sends nothing but the
    change stays.
  - In `list_todos`, the two bulk operations and `change_title` (`:44`, `:73`, `:81`,
    `:101`, `:126`), decoding is unwrapped, so a decode failure panics.
  - `TodoSpec.Valid` keeps every stored id within u32, and the repository only stores
    well-formed rows, so every stored row decodes.
- `TodoSpec.CreateTodo`: exhausting the u32 id sequence is taken as an engine error with no
  effect. The sequence's real behaviour depends on a schema that is not part of this model.
- `UserRepo.UserSpace.CreateUser`: exhausting the u32 id sequence is taken as an engine
  error with no effect. What really happens after such an insert depends on the schema, which
  is not part of this model. Reading an id beyond u32 with `get(0)` would panic.
- `UserRepo.UserSpace.CreateUser`: a used name is refused through the unique index defined
  with the schema, taken here as an engine error with no effect.
- `UserRepo.UserFromTuple`: a field of the wrong type is a precondition, because the source's
  typed field read panics on it.
- `ServerFns.Submit` and `Worker.Serve` ignore failures of `send` (`let _ =`). The model's
  channels always accept a message.
- `ServerFns.Receive`: the blocking `recv` is a receive that finds the queue empty and
  returns `None`. A poisoned mutex and `recv` on a disconnected channel (both panics) are not
  modelled.
- `Worker.Serve`: a panic ends the run as `Crashed`. What the panic does to the rest of the
  process is not modelled.
- The `activate_all_todo` test asserts that every todo is completed after setting `false`, so
  it is not used as a property. The `delete_completed_todos` test depends on test order.
- The UI components and the front-end bootstrap are left out.
