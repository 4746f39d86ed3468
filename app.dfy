/**
 * `TaskManagerApp` without its widgets: the session (the logged-in user's
 * id), the active screen, and the guards each form runs before it calls the
 * store. A dialog the application would show is returned as an outcome.
 */
module App {
  import opened Wrappers
  import opened Store
  import Text
  import Email

  /** The three screens of the screen manager, `login` first. */
  datatype Screen = LoginScreen | RegisterScreen | TaskScreen

  /** Which dialog `register` ends with. */
  datatype RegisterOutcome =
    | InvalidEmail        // the address fails the e-mail pattern
    | PasswordMismatch    // the password and its confirmation differ
    | Registered          // the store accepted the new user
    | AlreadyRegistered   // the store refused a taken address

  /** The priority and category of a task added from the task screen. */
  const QuickAddPriority: string := "Média"
  const QuickAddCategory: string := "Pessoal"

  /** Some registered user has id `id`. */
  ghost predicate UserExists(users: seq<User>, id: int) {
    exists i :: 0 <= i < |users| && users[i].id == id
  }

  /** Every task has an owner, and the owner is a registered user: tasks are
      only added from the task screen, which needs a login. */
  ghost predicate OwnersRegistered(tasks: seq<Task>, users: seq<User>) {
    forall t :: t in tasks ==> t.userId.Some? && UserExists(users, t.userId.value)
  }

  /** No stored title is empty or whitespace only. */
  ghost predicate TitlesNotBlank(tasks: seq<Task>) {
    forall t :: t in tasks ==> !Text.IsBlank(t.title)
  }

  class TaskManagerApp {
    var db: Database
    /** The id of the user who last logged in, `None` before any login. */
    var currentUserId: Option<int>
    var screen: Screen

    /** What the application keeps true as long as only its own forms touch
        the store: titles are never blank, owners and the session user are
        registered users, and the task screen is only shown after a login. */
    ghost predicate Valid()
      reads this, db
    {
      && db.Valid()
      && TitlesNotBlank(db.tasks)
      && OwnersRegistered(db.tasks, db.users)
      && (currentUserId.Some? ==> UserExists(db.users, currentUserId.value))
      && (screen == TaskScreen ==> currentUserId.Some?)
    }

    /** `build` on a new database file: empty store, nobody logged in, the
        login screen showing. */
    constructor ()
      ensures Valid() && fresh(db)
      ensures db.users == [] && db.tasks == [] && db.nextUserId == 1 && db.nextTaskId == 1
      ensures currentUserId == None && screen == LoginScreen
    {
      db := new Database();
      currentUserId := None;
      screen := LoginScreen;
    }

    /** `load_tasks`: the rows listed on the task screen, which are exactly
        the session user's tasks, each once; nothing is listed before a login. */
    function ListedTasks(): (r: seq<Task>)
      reads this, db
      requires Valid()
      ensures forall t :: t in r <==> t in db.tasks && currentUserId.Some? && t.userId == currentUserId
      ensures forall i, j :: 0 <= i < j < |r| ==> r[i] != r[j]
      ensures currentUserId.None? ==> r == []
    {
      var r := db.GetTasks(currentUserId);
      assert r != [] ==> r[0] in r;
      r
    }

    /** `register`: the email is checked first, then the confirmation, and
        only then is the store asked; success switches to the login screen. */
    method Register(email: string, password: string, confirmPassword: string)
      returns (outcome: RegisterOutcome)
      requires Valid()
      modifies this, db
      ensures Valid() && db == old(db)
      ensures !Email.IsValidEmail(email) ==> outcome == InvalidEmail
      ensures Email.IsValidEmail(email) && password != confirmPassword ==> outcome == PasswordMismatch
      ensures Email.IsValidEmail(email) && password == confirmPassword ==>
        outcome == (if EmailTaken(old(db.users), email) then AlreadyRegistered else Registered)
      ensures outcome == Registered ==>
        && db.users == old(db.users) + [User(old(db.nextUserId), email, password)]
        && db.nextUserId == old(db.nextUserId) + 1
        && db.tasks == old(db.tasks) && db.nextTaskId == old(db.nextTaskId)
        && screen == LoginScreen
      ensures outcome != Registered ==> unchanged(db) && screen == old(screen)
      ensures db.issuedTaskIds == old(db.issuedTaskIds)
      ensures currentUserId == old(currentUserId)
    {
      if !Email.IsValidEmail(email) {
        outcome := InvalidEmail;
      } else if password != confirmPassword {
        outcome := PasswordMismatch;
      } else {
        ghost var before := db.users;
        var ok := db.RegisterUser(email, password);
        if ok {
          outcome := Registered;
          screen := LoginScreen;
          assert forall id :: UserExists(before, id) ==> UserExists(db.users, id) by {
            forall id | UserExists(before, id) ensures UserExists(db.users, id) {
              var i :| 0 <= i < |before| && before[i].id == id;
              assert db.users[i] == before[i];
            }
          }
        } else {
          outcome := AlreadyRegistered;
        }
      }
    }

    /** `login`: on a match the session takes the matched user's id and the
        task screen opens; otherwise nothing changes. */
    method Login(email: string, password: string) returns (ok: bool)
      requires Valid()
      modifies this
      ensures Valid() && db == old(db) && unchanged(db)
      ensures ok <==>
        exists i :: 0 <= i < |db.users| && db.users[i].email == email && db.users[i].password == password
      ensures ok ==> exists i :: && 0 <= i < |db.users|
                                 && db.users[i].email == email && db.users[i].password == password
                                 && currentUserId == Some(db.users[i].id)
      ensures ok ==> screen == TaskScreen
      ensures !ok ==> currentUserId == old(currentUserId) && screen == old(screen)
    {
      var user := db.LoginUser(email, password);
      if user.Some? {
        currentUserId := Some(user.value.id);
        screen := TaskScreen;
        ok := true;
      } else {
        ok := false;
      }
    }

    /** `update_task`: a title that `strip()` leaves empty is refused before
        the store is touched; otherwise the row's title and description are
        replaced. */
    method UpdateTask(taskId: int, title: string, description: string) returns (saved: bool)
      requires Valid() && screen == TaskScreen
      modifies this, db
      ensures Valid() && db == old(db)
      ensures saved <==> !Text.IsBlank(title)
      ensures saved ==> db.tasks == WithEdit(old(db.tasks), taskId, title, Some(description))
      ensures saved ==> ListedTasks() == WithEdit(old(ListedTasks()), taskId, title, Some(description))
      ensures saved ==> db.users == old(db.users) && db.nextUserId == old(db.nextUserId)
      ensures saved ==> db.nextTaskId == old(db.nextTaskId)
      ensures db.issuedTaskIds == old(db.issuedTaskIds)
      ensures !saved ==> unchanged(db)
      ensures currentUserId == old(currentUserId) && screen == old(screen)
    {
      Text.StripEmptyIffBlank(title);
      if Text.Strip(title) != [] {
        ghost var before := db.tasks;
        db.UpdateTask(taskId, title, Some(description));
        OwnedByEdit(before, taskId, title, Some(description), currentUserId);
        forall t | t in db.tasks ensures t in before || t.title == title {
          var i :| 0 <= i < |db.tasks| && db.tasks[i] == t;
        }
        forall t | t in db.tasks ensures t.userId.Some? && UserExists(db.users, t.userId.value) {
          var i :| 0 <= i < |db.tasks| && db.tasks[i] == t;
          assert before[i] in before;
        }
        saved := true;
      } else {
        saved := false;
      }
    }

    /** `add_task`: a blank title is refused before the store is touched;
        otherwise one task is inserted with the quick-add priority and
        category, no due date, owned by the session user. */
    method AddTask(title: string, description: string) returns (added: bool)
      requires Valid() && screen == TaskScreen
      modifies this, db
      ensures Valid() && db == old(db)
      ensures added <==> !Text.IsBlank(title)
      ensures added ==> db.tasks == old(db.tasks) + [Task(old(db.nextTaskId), title, Some(description),
                                                          Some(QuickAddPriority), None,
                                                          Some(QuickAddCategory), currentUserId)]
      ensures added ==> ListedTasks() == old(ListedTasks()) + [db.tasks[|db.tasks| - 1]]
      ensures added ==> db.users == old(db.users) && old(db.nextTaskId) !in old(db.issuedTaskIds)
      ensures added ==> db.issuedTaskIds == old(db.issuedTaskIds) + {old(db.nextTaskId)}
      ensures added ==> db.nextTaskId == old(db.nextTaskId) + 1 && db.nextUserId == old(db.nextUserId)
      ensures !added ==> unchanged(db)
      ensures currentUserId == old(currentUserId) && screen == old(screen)
    {
      Text.StripEmptyIffBlank(title);
      if Text.Strip(title) != [] {
        ghost var before := db.tasks;
        db.AddTask(title, Some(description), Some(QuickAddPriority), None,
                   Some(QuickAddCategory), currentUserId);
        OwnedByAppend(before, db.tasks[|db.tasks| - 1], currentUserId);
        assert db.tasks[..|before|] == before;
        added := true;
      } else {
        added := false;
      }
    }

    /** `delete_task`: removes the row of `taskId` whoever owns it; an absent
        id changes nothing. */
    method DeleteTask(taskId: int)
      requires Valid() && screen == TaskScreen
      modifies this, db
      ensures Valid() && db == old(db)
      ensures db.tasks == WithoutTask(old(db.tasks), taskId)
      ensures ListedTasks() == WithoutTask(old(ListedTasks()), taskId)
      ensures db.users == old(db.users) && db.nextUserId == old(db.nextUserId)
      ensures db.nextTaskId == old(db.nextTaskId) && db.issuedTaskIds == old(db.issuedTaskIds)
      ensures currentUserId == old(currentUserId) && screen == old(screen)
    {
      ghost var before := db.tasks;
      db.DeleteTask(taskId);
      OwnedByWithout(before, taskId, currentUserId);
    }

    /** The "Registrar-se" button of the login screen. */
    method OpenRegister()
      requires Valid()
      modifies this
      ensures Valid() && db == old(db) && unchanged(db)
      ensures screen == RegisterScreen && currentUserId == old(currentUserId)
    {
      screen := RegisterScreen;
    }

    /** The "Voltar ao Login" buttons: only the screen changes; the session
        keeps the user id of the last login. */
    method BackToLogin()
      requires Valid()
      modifies this
      ensures Valid() && db == old(db) && unchanged(db)
      ensures screen == LoginScreen && currentUserId == old(currentUserId)
    {
      screen := LoginScreen;
    }
  }
}
