/**
 * The `Database` of the task manager: two tables, `users` and `tasks`, held as
 * sequences of rows in the order they were inserted, with the next
 * AUTOINCREMENT id of each table. Every SQL statement the application issues
 * is one atomic update of these fields.
 */
module Store {
  import opened Wrappers

  /** A row of `users(id, email, password)`; the password is stored verbatim. */
  datatype User = User(id: int, email: string, password: string)

  /** A row of `tasks(id, title, description, priority, due_date, category,
      user_id)`. Only `title` is NOT NULL; the other columns may hold NULL. */
  datatype Task = Task(
    id: int,
    title: string,
    description: Option<string>,
    priority: Option<string>,
    dueDate: Option<string>,
    category: Option<string>,
    userId: Option<int>)

  /** Some row of `users` already holds `email` (the UNIQUE constraint). */
  predicate EmailTaken(users: seq<User>, email: string) {
    exists i :: 0 <= i < |users| && users[i].email == email
  }

  /** The UNIQUE constraint on `users.email` holds. */
  ghost predicate EmailsUnique(users: seq<User>) {
    forall i, j :: 0 <= i < j < |users| ==> users[i].email != users[j].email
  }

  /** Ids grow along the table and stay inside `[1, next)`. */
  ghost predicate UserIdsBelow(users: seq<User>, next: int) {
    && (forall i, j :: 0 <= i < j < |users| ==> users[i].id < users[j].id)
    && (forall i :: 0 <= i < |users| ==> 1 <= users[i].id < next)
  }

  /** Ids grow along the table (AUTOINCREMENT keeps rowid order). */
  ghost predicate TaskIdsIncreasing(tasks: seq<Task>) {
    forall i, j :: 0 <= i < j < |tasks| ==> tasks[i].id < tasks[j].id
  }

  /** `SELECT * FROM users WHERE email = ? AND password = ?` and `fetchone()`:
      the first row whose email and password both equal the inputs. */
  function FindUser(users: seq<User>, email: string, password: string): (r: Option<User>)
    ensures r.Some? <==>
      exists i :: 0 <= i < |users| && users[i].email == email && users[i].password == password
    ensures r.Some? ==> r.value in users && r.value.email == email && r.value.password == password
  {
    if users == [] then None
    else if users[0].email == email && users[0].password == password then Some(users[0])
    else FindUser(users[1..], email, password)
  }

  /** `SELECT * FROM tasks WHERE user_id = ?`: the rows owned by `userId`. A
      NULL on either side of `=` is never true in SQL, so `None` selects nothing
      and rows with a NULL owner are never selected. */
  function OwnedBy(tasks: seq<Task>, userId: Option<int>): (r: seq<Task>)
    ensures forall t :: t in r <==> t in tasks && userId.Some? && t.userId == userId
    ensures |r| <= |tasks|
  {
    if tasks == [] then []
    else
      var rest := OwnedBy(tasks[1..], userId);
      if userId.Some? && tasks[0].userId == userId then [tasks[0]] + rest else rest
  }

  /** `DELETE FROM tasks WHERE id = ?`: the table without the row(s) of `id`. */
  function WithoutTask(tasks: seq<Task>, id: int): (r: seq<Task>)
    ensures forall t :: t in r <==> t in tasks && t.id != id
    ensures (forall i :: 0 <= i < |tasks| ==> tasks[i].id != id) ==> r == tasks
    ensures |r| <= |tasks|
  {
    if tasks == [] then []
    else
      var rest := WithoutTask(tasks[1..], id);
      if tasks[0].id == id then rest else [tasks[0]] + rest
  }

  /** `UPDATE tasks SET title = ?, description = ? WHERE id = ?`: the row of
      `id` gets the new title and description; nothing else changes. */
  function WithEdit(tasks: seq<Task>, id: int, title: string, description: Option<string>): (r: seq<Task>)
    ensures |r| == |tasks|
    ensures forall i :: 0 <= i < |r| ==>
      && r[i].id == tasks[i].id && r[i].priority == tasks[i].priority
      && r[i].dueDate == tasks[i].dueDate && r[i].category == tasks[i].category
      && r[i].userId == tasks[i].userId
    ensures forall i :: 0 <= i < |r| && tasks[i].id == id ==>
      r[i].title == title && r[i].description == description
    ensures forall i :: 0 <= i < |r| && tasks[i].id != id ==> r[i] == tasks[i]
  {
    if tasks == [] then []
    else
      var row := if tasks[0].id == id then tasks[0].(title := title, description := description)
                 else tasks[0];
      [row] + WithEdit(tasks[1..], id, title, description)
  }

  /** After a successful registration the new credentials log in as exactly
      the new row: no earlier row holds that email, so none can match first. */
  lemma {:induction false} RegisteredUserLogsIn(users: seq<User>, u: User)
    requires !EmailTaken(users, u.email)
    ensures FindUser(users + [u], u.email, u.password) == Some(u)
  {
    if users != [] {
      assert (users + [u])[1..] == users[1..] + [u];
      assert !EmailTaken(users[1..], u.email) by {
        forall i | 0 <= i < |users[1..]| ensures users[1..][i].email != u.email {
          assert users[1..][i] == users[i + 1];
        }
      }
      RegisteredUserLogsIn(users[1..], u);
    }
  }

  /** Appending a row adds it to the listing of its owner and to no other:
      `get_tasks` after `add_task` is the old listing plus at most that row. */
  lemma {:induction false} OwnedByAppend(tasks: seq<Task>, t: Task, userId: Option<int>)
    ensures OwnedBy(tasks + [t], userId) ==
      OwnedBy(tasks, userId) + (if userId.Some? && t.userId == userId then [t] else [])
  {
    if tasks != [] {
      assert (tasks + [t])[1..] == tasks[1..] + [t];
      OwnedByAppend(tasks[1..], t, userId);
    }
  }

  /** Deleting and then listing is listing and then deleting: a deleted task
      disappears from its owner's listing, every other listed row stays. */
  lemma {:induction false} OwnedByWithout(tasks: seq<Task>, id: int, userId: Option<int>)
    ensures OwnedBy(WithoutTask(tasks, id), userId) == WithoutTask(OwnedBy(tasks, userId), id)
  {
    if tasks != [] {
      OwnedByWithout(tasks[1..], id, userId);
    }
  }

  /** Editing never moves a task between owners: the owner's listing after an
      update is the old listing with the same edit applied. */
  lemma {:induction false} OwnedByEdit(tasks: seq<Task>, id: int, title: string,
                                       description: Option<string>, userId: Option<int>)
    ensures OwnedBy(WithEdit(tasks, id, title, description), userId)
         == WithEdit(OwnedBy(tasks, userId), id, title, description)
  {
    if tasks != [] {
      OwnedByEdit(tasks[1..], id, title, description, userId);
    }
  }

  /** Deleting keeps the rows in increasing id order. */
  lemma {:induction false} WithoutTaskIncreasing(tasks: seq<Task>, id: int)
    requires TaskIdsIncreasing(tasks)
    ensures TaskIdsIncreasing(WithoutTask(tasks, id))
  {
    if tasks != [] {
      WithoutTaskIncreasing(tasks[1..], id);
      var rest := WithoutTask(tasks[1..], id);
      forall t | t in rest ensures tasks[0].id < t.id {
        var j :| 0 <= j < |tasks[1..]| && tasks[1..][j] == t;
        assert tasks[j + 1] == t;
      }
    }
  }

  /** Selecting rows keeps their order, so ids stay strictly increasing. */
  lemma {:induction false} OwnedByIncreasing(tasks: seq<Task>, userId: Option<int>)
    requires TaskIdsIncreasing(tasks)
    ensures TaskIdsIncreasing(OwnedBy(tasks, userId))
  {
    if tasks != [] {
      OwnedByIncreasing(tasks[1..], userId);
      var rest := OwnedBy(tasks[1..], userId);
      forall t | t in rest ensures tasks[0].id < t.id {
        var j :| 0 <= j < |tasks[1..]| && tasks[1..][j] == t;
        assert tasks[j + 1] == t;
      }
    }
  }

  class Database {
    var users: seq<User>
    var tasks: seq<Task>
    /** The id AUTOINCREMENT gives the next user row. */
    var nextUserId: int
    /** The id AUTOINCREMENT gives the next task row. */
    var nextTaskId: int
    /** Every task id ever handed out, including those of deleted rows. */
    ghost var issuedTaskIds: set<int>

    /** The schema's constraints plus what AUTOINCREMENT guarantees. */
    ghost predicate Valid()
      reads this
    {
      && 1 <= nextUserId && 1 <= nextTaskId
      && EmailsUnique(users)
      && UserIdsBelow(users, nextUserId)
      && TaskIdsIncreasing(tasks)
      && (forall i :: 0 <= i < |tasks| ==> tasks[i].id in issuedTaskIds)
      && (forall id :: id in issuedTaskIds ==> 1 <= id < nextTaskId)
    }

    /** `Database()` on a new database file: `create_tables` leaves both
        tables empty, and AUTOINCREMENT starts at 1. */
    constructor ()
      ensures Valid()
      ensures users == [] && tasks == [] && nextUserId == 1 && nextTaskId == 1
      ensures issuedTaskIds == {}
    {
      users, tasks := [], [];
      nextUserId, nextTaskId := 1, 1;
      issuedTaskIds := {};
    }

    /** `register_user`: the INSERT succeeds unless the email is taken, in
        which case the IntegrityError is caught and nothing changes. */
    method RegisterUser(email: string, password: string) returns (ok: bool)
      requires Valid()
      modifies this
      ensures Valid()
      ensures ok <==> !EmailTaken(old(users), email)
      ensures ok ==> users == old(users) + [User(old(nextUserId), email, password)]
      ensures ok ==> nextUserId == old(nextUserId) + 1
      ensures !ok ==> unchanged(this)
      ensures tasks == old(tasks) && nextTaskId == old(nextTaskId)
      ensures issuedTaskIds == old(issuedTaskIds)
    {
      if EmailTaken(users, email) {
        ok := false;
      } else {
        users := users + [User(nextUserId, email, password)];
        nextUserId := nextUserId + 1;
        ok := true;
      }
    }

    /** `login_user`: the user whose email and password both equal the inputs
        exactly, if any. An unknown email and a wrong password both give
        `None`. Emails are unique, so the match is the only row with that email. */
    function LoginUser(email: string, password: string): (r: Option<User>)
      reads this
      requires Valid()
      ensures r.Some? <==>
        exists i :: 0 <= i < |users| && users[i].email == email && users[i].password == password
      ensures r.Some? ==> r.value in users && r.value.email == email && r.value.password == password
      ensures r.Some? ==> forall i :: 0 <= i < |users| && users[i].email == email ==> users[i] == r.value
    {
      FindUser(users, email, password)
    }

    /** `add_task`: inserts one row with a fresh id. */
    method AddTask(title: string, description: Option<string>, priority: Option<string>,
                   dueDate: Option<string>, category: Option<string>, userId: Option<int>)
      requires Valid()
      modifies this
      ensures Valid()
      ensures tasks == old(tasks) + [Task(old(nextTaskId), title, description, priority,
                                          dueDate, category, userId)]
      ensures old(nextTaskId) !in old(issuedTaskIds)
      ensures issuedTaskIds == old(issuedTaskIds) + {old(nextTaskId)}
      ensures nextTaskId == old(nextTaskId) + 1
      ensures users == old(users) && nextUserId == old(nextUserId)
    {
      tasks := tasks + [Task(nextTaskId, title, description, priority, dueDate, category, userId)];
      issuedTaskIds := issuedTaskIds + {nextTaskId};
      nextTaskId := nextTaskId + 1;
    }

    /** `get_tasks`: the rows owned by `userId`, each row once. No `ORDER BY`
        is given, so no order is promised. */
    function GetTasks(userId: Option<int>): (r: seq<Task>)
      reads this
      requires Valid()
      ensures forall t :: t in r <==> t in tasks && userId.Some? && t.userId == userId
      ensures forall i, j :: 0 <= i < j < |r| ==> r[i].id != r[j].id
    {
      OwnedByIncreasing(tasks, userId);
      OwnedBy(tasks, userId)
    }

    /** `delete_task`: removes the row of `taskId`; an absent id changes
        nothing and is not an error. */
    method DeleteTask(taskId: int)
      requires Valid()
      modifies this
      ensures Valid()
      ensures tasks == WithoutTask(old(tasks), taskId)
      ensures users == old(users) && nextUserId == old(nextUserId)
      ensures nextTaskId == old(nextTaskId) && issuedTaskIds == old(issuedTaskIds)
    {
      WithoutTaskIncreasing(tasks, taskId);
      tasks := WithoutTask(tasks, taskId);
    }

    /** The `UPDATE` the application runs on the store's cursor: sets title
        and description of the row of `taskId`; an absent id changes nothing. */
    method UpdateTask(taskId: int, title: string, description: Option<string>)
      requires Valid()
      modifies this
      ensures Valid()
      ensures tasks == WithEdit(old(tasks), taskId, title, description)
      ensures users == old(users) && nextUserId == old(nextUserId)
      ensures nextTaskId == old(nextTaskId) && issuedTaskIds == old(issuedTaskIds)
    {
      tasks := WithEdit(tasks, taskId, title, description);
    }
  }
}
