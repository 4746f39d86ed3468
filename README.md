# Task manager store and controller, in Dafny

This project models the non-graphical core of a small desktop task manager
written in Python (`projeto.py`). It has three parts.

- **`Store.Database`** models the SQLite store. It holds two tables: `users(id, email UNIQUE, password)` and
  `tasks(id, title, description, priority, due_date, category, user_id)`.
  Each table is a sequence of rows in insertion order, and each has its next AUTOINCREMENT id in a field.
  Each INSERT, DELETE and UPDATE the program issues is one atomic update of those fields; each SELECT is a pure
  function of them and changes nothing.
  The meaning of each statement is a pure function on rows (`FindUser`, `OwnedBy`, `WithoutTask`, `WithEdit`).
  `Database.Valid()` keeps the UNIQUE email constraint and strictly increasing row ids.
  A ghost set records every task id ever issued, so ids are never reused after a delete.
- **`App.TaskManagerApp`** models the controller. It holds the session's `currentUserId`, the active screen, and the
  guards each form runs before calling the store: the e-mail check and then the password confirmation on
  registration, and the non-blank title check on add and update. Each dialog the program would show comes back as
  a result value. `TaskManagerApp.Valid()` also keeps three invariants:
  - no stored title is blank;
  - every task has an owner, and every owner and the session user is a registered user;
  - the task screen is only shown after a login.
- **`Email`** is a hand-written recogniser for `re.match(r'^[\w\.-]+@(?:gmail|hotmail|outlook|yahoo)\.com$', s)`.
  It is proved equal to a reference definition of the pattern. Python's `$` also matches before one final newline,
  so the accepted strings are `local@domain.com` and `local@domain.com` followed by one `"\n"`.
  **`Text`** models `str.strip()` with Python's exact set of whitespace characters.

`Scenario` is a client proved from the contracts alone. It registers a user and is refused a second registration of
the same address. It then logs in as user 1, adds "Buy milk", sees the task listed, deletes it and sees an empty list.

The model follows the code as written in these details:

- The "Voltar ao Login" buttons only switch the screen. Nothing logs the user out: `current_user_id` keeps the last
  login's id (`TaskManagerApp.BackToLogin`).
- `get_tasks` has no `ORDER BY`. The model lists the rows in insertion order, which is the rowid order SQLite's
  table scan returns; `GetTasks` itself promises only which rows are returned, each once. The controller's listing
  contracts (`ListedTasks` after add, update and delete) are stated as sequences in that order.
- `add_task` in the store returns nothing. The id it used is `old(nextTaskId)`.
- The e-mail check also accepts an address followed by one newline.
- Only the controller refuses blank titles. The store itself accepts any title, so "no blank title is stored" is a
  controller invariant, not a store one.
- SQL `NULL` never compares equal. So the store's `get_tasks(None)` lists nothing, and a row stored with a NULL owner
  would be listed for nobody.
- `add_task`, `update_task` and `delete_task` are reached only from the task screen (projeto.py:300-307 and the
  dialogs it opens), and that screen opens only after a login (projeto.py:95-96). The controller's task operations
  therefore require the task screen. Each task is stored with the session user's id as its owner, so every owner is
  a registered user (`OwnersRegistered`). A later login by another user does not change the owners of earlier rows.

## Model

| member | source | states |
|---|---|---|
| Text.Strip | projeto.py:151 | `strip()` keeps a slice of the title; everything cut from either end is whitespace, and what is left starts and ends with a non-space |
| Text.StripEmptyIffBlank | projeto.py:200 | `title.strip()` is empty exactly when every character of the title is whitespace, so the guard refuses exactly the blank titles |
| Email.LocalRun | projeto.py:78 | the greedy `[\w\.-]+` consumes a prefix of local-part characters that stops at the first other character or at the end |
| Email.IsValidEmailCorrect | projeto.py:76-79 | the hand-written scanner accepts a string exactly when the pattern matches it: local part, `@`, allowed host, then nothing or one newline |
| Email.AcceptsForm | projeto.py:78 | every `local@D.com`, with a non-empty local part over `[\w\.-]`, D one of gmail, hotmail, outlook, yahoo, and an optional single `"\n"`, is accepted |
| Email.OneTrailingNewline | projeto.py:79 | `s + "\n"` is accepted exactly when `s` is an address; no string with two trailing newlines is accepted |
| Email.AcceptedExamples | projeto.py:76-79 | "user@gmail.com" and "user@gmail.com\n" are accepted |
| Email.IsValidEmail | projeto.py:76-79 | accepted exactly when the string, or the string without one final newline, has its `@` right after the longest run of local-part characters, a non-empty local part before it and an allowed host after it |
| Email.RejectsEmptyLocal | projeto.py:78 | every string starting with `@` (empty local part) is refused |
| Email.EndsWithCom | projeto.py:78 | every accepted string ends in `.com` or in `.com` and one newline: no longer host and no other top-level domain is accepted |
| Email.OneAt | projeto.py:78 | every accepted string has exactly one `@`, right after the local part |
| Text.IsSpaceFacts | projeto.py:151 | the whitespace `strip()` removes: of printable ASCII only the space; the no-break and ideographic spaces are whitespace, the zero-width space, U+180E and the byte-order mark are not |
| Store.FindUser | projeto.py:44-46 | a user is found exactly when some row's email and password both equal the inputs; the found row is one and matches both |
| Store.OwnedBy | projeto.py:53-55 | a row is listed exactly when it is in the table and its non-NULL owner equals the requested non-NULL id |
| Store.WithoutTask | projeto.py:57-59 | after the delete, a row remains exactly when it was there and has a different id; an absent id leaves the table as it was |
| Store.WithEdit | projeto.py:152-155 | same number of rows; the targeted rows get the new title and description, every other column and every other row is unchanged |
| Store.RegisteredUserLogsIn | projeto.py:36-46 | after registering an email that was free, logging in with those credentials returns exactly the new user row |
| Store.OwnedByAppend | projeto.py:48-55 | after an insert, the owner's listing is the old listing plus the new row, and every other id's listing is unchanged |
| Store.OwnedByWithout | projeto.py:53-59 | listing after a delete equals the old listing with that id removed |
| Store.OwnedByEdit | projeto.py:150-155 | listing after an update equals the old listing with the same edit; no task changes owner |
| Store.Database.constructor | projeto.py:13-34 | a new database file has two empty tables, and both AUTOINCREMENT counters start at 1 |
| Store.Database.RegisterUser | projeto.py:36-42 | true and one appended row with a fresh id exactly when the email is free; otherwise false and nothing changes; emails stay unique |
| Store.Database.LoginUser | projeto.py:44-46 | the row whose email and password equal the inputs, which is the only row with that email; `None` for an unknown email and for a wrong password alike |
| Store.Database.AddTask | projeto.py:48-51 | one row appended with the given columns and an id never issued before, including ids of deleted rows; users unchanged |
| Store.Database.GetTasks | projeto.py:53-55 | every returned row belongs to the requested user, every row of that user is returned, and no row is returned twice; `None` lists nothing; no order is promised |
| Store.Database.DeleteTask | projeto.py:57-59 | the table becomes the old table without the rows of that id; users and the id counter are unchanged |
| Store.Database.UpdateTask | projeto.py:152-156 | the table becomes the old table with that row's title and description replaced; users and counters are unchanged |
| App.TaskManagerApp.constructor | projeto.py:66-74 | the application starts on the login screen with nobody logged in and an empty store |
| App.TaskManagerApp.ListedTasks | projeto.py:101-102 | the task screen lists exactly the session user's tasks, each once, and nothing before a login |
| App.TaskManagerApp.Register | projeto.py:81-90 | an invalid email is refused first, then a mismatched confirmation, and neither changes the store; otherwise the store decides, and only success appends the user and returns to the login screen |
| App.TaskManagerApp.Login | projeto.py:92-99 | success exactly when credentials match a row; the session then holds that row's id and the task screen shows; failure changes nothing |
| App.TaskManagerApp.UpdateTask | projeto.py:150-160 | saved exactly when the title is not blank; then only that row's title and description change, in the table and in the listing; a blank title leaves the store unchanged |
| App.TaskManagerApp.AddTask | projeto.py:199-205 | added exactly when the title is not blank; then one row with priority "Média", no due date, category "Pessoal" and the session's user id is appended and the listing gains exactly it; a blank title leaves the store unchanged |
| App.TaskManagerApp.DeleteTask | projeto.py:207-209 | the row of that id goes, from the table and from the listing; nothing else changes |
| App.TaskManagerApp.OpenRegister | projeto.py:252-254 | the login screen's register button switches to the register screen and nothing else |
| App.TaskManagerApp.BackToLogin | projeto.py:309-312 | the back-to-login buttons switch to the login screen and keep the session's user id and the store |
| Scenario.RegisterFirst | projeto.py:81-90 | on a new database, registering a valid address gives the single user row with id 1 |
| Scenario.RegisterAgain | projeto.py:36-42 | registering a taken address again leaves the store unchanged |
| Scenario.LogIn | projeto.py:92-96 | a wrong password is refused; the right one makes user 1 the session user on the task screen |
| Scenario.AddAndDelete | projeto.py:199-209 | on the task screen of user 1 with an empty table, adding "Buy milk" lists exactly that task with id 1, and deleting id 1 leaves the table and the listing empty while the counter stays at 2 |

## Left out

- The Kivy/KivyMD user interface is not modelled: dialogs, `show_alert_dialog`, `show_manage_task_dialog`, `show_add_task_dialog`, the widget building in `load_tasks`, and the KV layout apart from its screen-switching buttons. They only present results. The message texts of the dialogs are not modelled either; each outcome is a value.
- The button lambda at projeto.py:108 captures `task[1]` and `task[2]` late. That is a widget-closure detail, not store logic.
- The SQLite connection, cursor, file path and `commit()` calls are I/O. Each statement is modelled as one atomic, always-successful update. An I/O failure at startup is not modelled.
- Store.Database.constructor: only a new, empty database file is modelled. Reopening a file from an earlier run, where `CREATE TABLE IF NOT EXISTS` keeps the existing rows, is not.
- Foreign keys: SQLite does not enforce `REFERENCES users(id)` unless told to, and the program never tells it to. The store does not check owners. Only the controller invariant `OwnersRegistered` states that owners exist.
- Store.Database.GetTasks: its own contract states no order, because the query has no `ORDER BY`; the listing is modelled in insertion order, and an SQLite plan that returns another order is not modelled.
- Store.Database.AddTask: ids are unbounded integers. SQLite's 64-bit rowid limit, where AUTOINCREMENT fails with SQLITE_FULL, is not modelled.
- Email.IsWordChar: `\w` is ASCII letters, digits and `_` only. Python matches Unicode word characters too, so non-ASCII local parts that Python accepts are refused here.
- Python's dynamic typing: arguments are strings and integers as the forms pass them. Other Python values are not modelled.
- Password hashing does not exist in the source, and none is added.
