/**
 * A client of the application, proved from the contracts alone: register,
 * log in, add a task, see it listed, delete it, see the list empty.
 */
module Scenario {
  import opened Wrappers
  import opened Store
  import opened App
  import Text
  import Email

  /** "Buy milk" has a character that `strip()` keeps. */
  lemma BuyMilkNotBlank()
    ensures !Text.IsBlank("Buy milk")
  {
    assert !Text.IsSpace("Buy milk"[0]);
  }

  /** Registration of a fresh address on a new database succeeds with id 1. */
  method RegisterFirst(email: string, password: string) returns (app: TaskManagerApp)
    requires Email.IsValidEmail(email)
    ensures app.Valid() && fresh(app.db)
    ensures app.db.users == [User(1, email, password)]
    ensures app.db.tasks == [] && app.db.nextTaskId == 1
  {
    app := new TaskManagerApp();
    var outcome := app.Register(email, password, password);
    assert outcome == Registered;
  }

  /** Registering a taken address again is refused and changes nothing. */
  method RegisterAgain(app: TaskManagerApp)
    requires app.Valid() && app.db.users == [User(1, "user@gmail.com", "pw1")]
    modifies app, app.db
    ensures app.Valid() && app.db == old(app.db) && unchanged(app.db)
  {
    Email.AcceptedExamples();
    assert EmailTaken(app.db.users, "user@gmail.com") by {
      assert app.db.users[0].email == "user@gmail.com";
    }
    var outcome := app.Register("user@gmail.com", "pw2", "pw2");
    assert outcome == AlreadyRegistered;
  }

  /** A wrong password is refused; the right one logs in as user 1. */
  method LogIn(app: TaskManagerApp)
    requires app.Valid() && app.db.users == [User(1, "user@gmail.com", "pw1")]
    modifies app
    ensures app.Valid() && app.db == old(app.db) && unchanged(app.db)
    ensures app.currentUserId == Some(1) && app.screen == TaskScreen
  {
    var ok := app.Login("user@gmail.com", "wrong");
    assert !ok;
    ok := app.Login("user@gmail.com", "pw1");
    assert app.db.users[0].email == "user@gmail.com";
    assert ok;
  }

  /** The added task is the one listed row, and deleting it empties the list. */
  method AddAndDelete(app: TaskManagerApp)
    requires app.Valid() && app.db.tasks == [] && app.db.nextTaskId == 1
    requires app.currentUserId == Some(1) && app.screen == TaskScreen
    modifies app, app.db
    ensures app.Valid() && app.db == old(app.db)
    ensures app.db.tasks == [] && app.ListedTasks() == [] && app.db.nextTaskId == 2
    ensures app.currentUserId == Some(1) && app.screen == TaskScreen
  {
    assert app.ListedTasks() == [];
    BuyMilkNotBlank();
    var added := app.AddTask("Buy milk", "");
    assert added;
    var milk := Task(1, "Buy milk", Some(""), Some(QuickAddPriority), None,
                     Some(QuickAddCategory), Some(1));
    assert app.db.tasks == [milk];
    assert app.ListedTasks() == [milk];
    app.DeleteTask(1);
    assert app.db.tasks == [];
  }

  method RegisterLoginAddDelete() {
    Email.AcceptedExamples();
    var app := RegisterFirst("user@gmail.com", "pw1");
    RegisterAgain(app);
    LogIn(app);
    AddAndDelete(app);
  }
}
