# RusticTasks: authors, tasks and their CSV stores

This project models the persistence and authentication layer of
RusticTasks, a desktop to-do list, and proves properties of the model.

- **E-mail validation** (`is_valid_email`). The anchored pattern
  `^[a-zA-Z0-9._%+-]+@[a-zA-Z0-9,-]+\.[a-zA-Z]{2,}$` is written two ways.
  `Email.ValidEmail` says the split points exist. `Email.Scan` is a
  left-to-right recogniser over eight phases. The two are proved to accept
  the same strings.
- **Password hashing** (`encrypt_password`, `verify_password`). Argon2
  enters as a `Crypto.Hasher` value. It holds the hash function, the parser
  of stored hashes and the verifier. `Crypto.Sound` states that a password
  verifies against its own hash. Lemmas that need this fact take it as a
  precondition, because the model does not prove it.
- **Authors** (`Author::build`, `Author::login`, `Author::write_to_csv`).
  Building validates the e-mail before hashing. Login is a first-match scan
  of the author store. Registration is a duplicate-e-mail scan followed by
  an append.
- **Tasks** (`Task::new`, the five mutators, `Priority::set`, `Status`).
  `Tasks.Task` is a class. Its identity fields are `const`. Each mutator may
  modify only its own field. `Tasks.TaskRecord` is the value of all fields
  at once.
- **Labels** (`serialize_labels`). `TaskUtils.SerializeLabels` is the
  comma join. `TaskUtils.SplitOnComma` is the split it is checked against.
  The `TaskUtils` rows below are about the output of `SerializeLabels`.
- **The to-do list** (`ToDoList::build`, `add`, `write_to_csv`). It is an
  append-only sequence of tasks, saved by appending one row per task.

Both stores are CSV files. `CsvStore.CsvFile` models a file as a sequence
of lines: a header, a record, or a line that does not deserialise. A reader
built with headers takes the field names from the first line and yields
one record per later line. If the first line is the header, each record
reads as it was written. If the first line is anything else, no field is
found and every record fails (`CsvStore.DataLines`). The layer itself only
writes stores that start with the header. The CSV writer emits the header
together with its first record, so a save appends a header only when the
file was empty and there is at least one record. The comments at
`author.rs:143` and `todo_list.rs:62` say the header is added "if the file
is empty". The header is indeed never written to a non-empty file, but the
converse fails: saving an empty to-do list into an empty file writes
nothing, not even a header.

Four reference definitions carry the rules the contracts are stated
against:

- `CsvStore.Appended` is the file after a save. It holds the old lines,
  then the header when the file was empty and there is at least one
  record, then one row per record. `CsvStore.AppendedShape` proves these
  properties.
- `Authors.LoginOutcome` is login's answer on the records the reader
  yields, decided by the first record that is malformed or has the e-mail.
- `Authors.DuplicateCheck` is registration's verdict from the same scan.
- `Tasks.ToRow` is a task's row: its fields with the labels joined by
  commas.

## Model

| member | source | states |
|---|---|---|
| Email.IsValidEmail | src/app/logic/todo_list/author/utils.rs:14-20 | The validator never returns the regex-compilation error; it answers `Ok(b)` where `b` is exactly membership in the pattern's language |
| Email.ScanAccepts | src/app/logic/todo_list/author/utils.rs:16 | The phase-by-phase recogniser ends in the accepting phase exactly when the rest of the input is in the language that phase still expects |
| Email.StartLangIsValidEmail | src/app/logic/todo_list/author/utils.rs:16 | The language expected from the start phase is exactly the set of strings with a valid `local@host.tld` split |
| Email.ValidEmailIffParts | src/app/logic/todo_list/author/utils.rs:16 | Valid iff the string is `L + "@" + H + "." + T` with `L` non-empty over `[A-Za-z0-9._%+-]`, `H` non-empty over `[A-Za-z0-9,-]`, `T` two or more ASCII letters |
| Email.ExactlyOneAt | src/app/logic/todo_list/author/utils.rs:16 | Every accepted address holds exactly one `@` |
| Email.NoSecondAt | src/app/logic/todo_list/author/utils.rs:16 | No two positions of an accepted address both hold `@` |
| Email.SingleDotAfterAt | src/app/logic/todo_list/author/utils.rs:16 | In an accepted address exactly one `.` follows the `@` |
| Email.FinalSegmentIsTld | src/app/logic/todo_list/author/utils.rs:16 | The empty string is rejected, and an accepted address ends in a segment of two or more letters only, so a final segment with a digit or a single letter is rejected |
| Email.AcceptsJohnAtExampleCom | src/app/logic/todo_list/author/utils.rs:14-20 | `john@example.com` is accepted |
| Email.RejectsTwoAts | src/app/logic/todo_list/author/utils.rs:14-20 | `john@example@com` is rejected |
| Email.RejectsDottedHost | src/app/logic/todo_list/author/utils.rs:14-20 | `a@b.c.com` is rejected |
| Crypto.EncryptPassword | src/app/logic/todo_list/author/utils.rs:23-30 | Succeeds exactly when the hasher produces a hash, returning that hash; otherwise it returns the hashing error |
| Crypto.VerifyPassword | src/app/logic/todo_list/author/utils.rs:33-39 | An error only when the stored hash does not parse; otherwise `Ok(true)` iff the password matches, so a mismatch is `Ok(false)` and not an error |
| Crypto.VerifyOwnHash | src/app/logic/todo_list/author/utils.rs:23-39 | For a sound hasher, a password verifies against the hash just made from it |
| Authors.Build | src/app/logic/todo_list/author.rs:27-48 | `InvalidEmail` exactly when the address is invalid, whatever the hasher does; success iff the address is valid and hashing succeeds; on success name, e-mail, id and time are kept and the password field is the hash, not the plaintext |
| Authors.FirstStop | src/app/logic/todo_list/author.rs:92-101 | The scan stops at the first record that does not deserialise or has the e-mail, having passed only good records without it |
| Authors.Login | src/app/logic/todo_list/author.rs:76-104 | A missing file is an I/O error; otherwise the loop's answer equals `LoginOutcome` on the records the reader yields |
| Authors.WriteToCsv | src/app/logic/todo_list/author.rs:107-153 | An unopenable file is an I/O error; otherwise the result is the duplicate check over the existing records; only on success is the file changed, by appending the author after a header when it was empty; the file exists afterwards when it could be created |
| Authors.FirstStopPrefix | src/app/logic/todo_list/author.rs:92-101 | A scan that stops inside a prefix never looks past it; one that runs off the prefix continues into the rest |
| Authors.LoginDecidedByFirstMatch | src/app/logic/todo_list/author.rs:94-99 | With a first matching record, login is `LoggedIn` when its hash verifies, `InvalidCredentials` when it parses but does not match, a hashing error when it does not parse |
| Authors.LaterRecordsIgnored | src/app/logic/todo_list/author.rs:92-101 | Records after the first match do not change the outcome of login |
| Authors.LoginDoesNotExistIff | src/app/logic/todo_list/author.rs:92-103 | `DoesNotExist` iff every record deserialises and none has the e-mail |
| Authors.LoginLoggedInIff | src/app/logic/todo_list/author.rs:94-99 | `LoggedIn` iff there is a first matching record, every record before it deserialises, and its hash verifies the password |
| Authors.DuplicateIff | src/app/logic/todo_list/author.rs:131-136 | `AuthorExists` iff the scan reaches a record with the same e-mail; on a well-formed store, iff some record has that e-mail |
| Authors.DoesNotExistIffRegistrable | src/app/logic/todo_list/author.rs:92-136 | Login answers `DoesNotExist` exactly when the duplicate check for that e-mail passes, since both scans use the same equality |
| Authors.RegisterThenLogin | src/app/logic/todo_list/author.rs:27-153 | On a store that is empty or starts with the header, after building an author from a password and registering it, login with that e-mail and password answers `LoggedIn`, given a sound hasher |
| Authors.SecondRegistrationFails | src/app/logic/todo_list/author.rs:107-153 | On a store that is empty or starts with the header, registering a second author with an e-mail already registered fails with `AuthorExists` |
| Authors.HeaderlessStoreFails | src/app/logic/todo_list/author.rs:87-99 | On a store of two or more lines whose first line is not the header, login and the duplicate check both answer the CSV error, whatever the e-mail |
| CsvStore.DataLines | src/app/logic/todo_list/author.rs:87-89 | A reader with headers yields one record per line after the first: the line as written under a header, a failure under any other first line |
| CsvStore.AppendedShape | src/app/logic/todo_list.rs:55-70 | Existing lines are untouched, the records follow in order as rows, a well-framed file stays well framed, and a header is added exactly when the file was empty and there is a record; a header-first file reads back its old records and then the new ones, any other file only failures |
| CsvStore.AppendedTwice | src/app/logic/todo_list.rs:47-75 | On any file, saving the same records twice appends them twice and the header at most once; a well-framed file stays well framed |
| CsvStore.CsvFile.OpenAppendCreate | src/app/logic/todo_list/author.rs:109-112 | Opening for append with create fails only when the file system refuses; afterwards the file exists if it could be created, and its contents are unchanged |
| CsvStore.CsvFile.Serialize | src/app/logic/todo_list/author.rs:144-149 | The writer appends the record as one line, after the header when it still owes one |
| TaskUtils.SerializeLength | src/app/logic/todo_list/task/utils.rs:7-16 | For `n >= 1` labels the output length is the sum of the label lengths plus `n - 1` |
| TaskUtils.SerializeCommaCount | src/app/logic/todo_list/task/utils.rs:14 | The output holds exactly `n - 1` separating commas besides the commas inside the labels |
| TaskUtils.ReadBackLabelCount | src/app/logic/todo_list/task/utils.rs:14 | Splitting the output of `n >= 1` labels gives `n` labels plus one for each comma inside a label |
| TaskUtils.SerializeSmall | src/app/logic/todo_list/task/utils.rs:14 | The empty list gives the empty string and a single label gives itself |
| TaskUtils.SplitSerialize | src/app/logic/todo_list/task/utils.rs:14 | Splitting the output on commas gives back a non-empty list of comma-free labels |
| TaskUtils.SerializeSplit | src/app/logic/todo_list/task/utils.rs:14 | Joining the pieces of a split gives back any string |
| TaskUtils.SerializeInjective | src/app/logic/todo_list/task/utils.rs:14 | Two non-empty lists of comma-free labels that serialise alike are equal |
| TaskUtils.SerializeNotInjective | src/app/logic/todo_list/task/utils.rs:14 | `["a,b"]` and `["a","b"]` serialise alike, and so do `[]` and `[""]` |
| TaskUtils.ParseDueDate | src/app/logic/todo_list/task/utils.rs:19-25 | Succeeds exactly when the date parser accepts the text, with its value; a rejection is `DateParserError` |
| Tasks.PriorityFromCode | src/app/logic/todo_list/task.rs:147-154 | 1 is `Low`, 3 is `High`, and every other code, 2 included, is `Medium` |
| Tasks.NewTask | src/app/logic/todo_list/task.rs:30-50 | Fails, with `DateParserError`, exactly when a due date is given and does not parse; otherwise the task is pending, not completed, created by the author's name, with the given description, labels in order, coerced priority and parsed due date |
| Tasks.Task.FromRecord | src/app/logic/todo_list/task.rs:38-49 | The new task holds exactly the given field values |
| Tasks.Task.New | src/app/logic/todo_list/task.rs:30-50 | Fails exactly as `NewTask` does; on success returns a fresh task whose fields are `NewTask`'s record |
| Tasks.Task.UpdateDescription | src/app/logic/todo_list/task.rs:103-105 | The description becomes `Some(d)` whatever it was; every other field is unchanged |
| Tasks.Task.ChangePriority | src/app/logic/todo_list/task.rs:112-114 | The priority becomes the same coercion `Task::new` applies; every other field is unchanged |
| Tasks.Task.UpdateStatus | src/app/logic/todo_list/task.rs:117-119 | The status becomes the given one; every other field, `completedOn` included, is unchanged |
| Tasks.Task.UpdateLabels | src/app/logic/todo_list/task.rs:122-124 | The labels become the given list in order; every other field is unchanged |
| Tasks.Task.MarkCompleted | src/app/logic/todo_list/task.rs:127-129 | `completedOn` becomes `Some(now)` whatever it was, without an error on a repeated call; every other field, `status` included, is unchanged |
| Tasks.RowRoundTrip | src/app/logic/todo_list/task.rs:22-23 | A task's row keeps every field but the label list; its labels column splits back to the labels when they are non-empty and comma-free |
| TodoList.Serialized | src/app/logic/todo_list.rs:68-70 | One row per task, in list order |
| TodoList.ToDoList.Build | src/app/logic/todo_list.rs:25-29 | Always succeeds, keeps the author and starts with no tasks |
| TodoList.ToDoList.Add | src/app/logic/todo_list.rs:42-44 | Appends the task at the end, with no duplicate check, and leaves the earlier tasks unchanged |
| TodoList.ToDoList.WriteToCsv | src/app/logic/todo_list.rs:47-75 | An unopenable file is an I/O error; otherwise the file becomes its old lines plus, when it was empty and there is a task, the header, plus one row per task in order; the list itself is not modified |
| TodoList.SavedTasksReadBack | src/app/logic/todo_list.rs:68-70 | On a store that is empty or starts with the header, the lines after the first, as a reader keyed on the header would see them after a save, are the old records and then each task's row at its list position; each task's labels are recovered from its row when they are non-empty and comma-free |

## Left out

- Argon2 is not modelled: salt generation, parameter encoding and constant-time comparison are library code. A `Crypto.Hasher` stands for them. That a password verifies against its own hash is the assumption `Crypto.Sound`, not a proved fact.
- `Local::now`, `Uuid::new_v4` and the random salt are inputs (`now`, `id`, `salt`). `DateTime<Local>` is an abstract `Timestamp`.
- The date library's `%Y-%m-%dT%H:%M:%S%z` parser enters as a partial function `parse`. Because its language is not modelled, the model cannot show that `2024-06-10T16:00:00+05:30` is accepted.
- CSV quoting, escaping, serde field encoding and the column layout are the libraries' concern. In the model one line holds one whole record, and a line that does not deserialise is `Malformed`.
- `Tasks.RowRoundTrip` is about the model's `TaskRow`, not the text of a CSV row. The CSV encoding writes a description of `None` and one of `Some("")` as the same empty field, so that distinction is lost on disk.
- `Authors.WriteToCsv`: the model does not capture failures of `metadata`, of the reopen calls, of `serialize` or of `flush` once the first open has succeeded. Such a failure in the source could leave the file unchanged or partly written.
- `TodoList.ToDoList.WriteToCsv`: the model does not capture failures once the first open has succeeded. That covers a failure of `metadata` (`todo_list.rs:55`), of the reopen (`todo_list.rs:58-60`), of a `serialize` part-way through the loop, or of `flush`. For each of these the model answers `Ok(())` with the rows appended. The source returns an I/O error, with the file unchanged or, after a failed `serialize` or `flush`, with some rows already appended.
- `Authors.Login`: the model has no file that exists but cannot be read. It reads every file that is present. For such a file the source returns an I/O error from the open at `author.rs:82-84`.
- `Author::write_to_csv` compares against a JSON round-trip copy of the author, made with `serde_json`. The model treats that copy as the author itself, so a serialisation error there is not modelled.
- The list stores task values. Rust moves a task into the list, and the list hands out no mutable references afterwards, so `Add` records the task's fields at that moment.
- The getters of `Author`, `Task` and `ToDoList` only return fields. They are the fields of the datatypes and classes.
- The read-then-append race between two processes registering the same e-mail is not modelled. The model is sequential.
- The GTK windows and widgets, the error type's `Display`/`From` conversions, the build script and the tests are not part of this model.
