/** Clients of the store that use only the handlers' contracts. */
module Scenarios {
  import opened Tasks
  import opened Views

  /** Alice signs up, creates "Buy milk", completes it; Bob can neither see
      nor complete nor delete it; Alice deletes it and it is gone. */
  method AliceAndBob(now: int)
  {
    var s := new Store();
    var a := s.SignupUser("alice", "secret", "secret");
    assert a == SignedUp && s.session == Some("alice");

    var id := s.CreateTask("alice", true, TaskInput("Buy milk", "", false));
    var k := id.value;
    assert s.tasks == map[k := Task("alice", "Buy milk", "", false, None)];
    assert k in CurrentTasks(s.tasks, "alice", s.nextId);
    assert k !in CompletedTasks(s.tasks, "alice", s.nextId);

    var c := s.CompleteTask("alice", k, true, now);
    assert c == Done;
    assert k in CompletedTasks(s.tasks, "alice", s.nextId);
    assert s.tasks == map[k := Task("alice", "Buy milk", "", false, Some(now))];
    var current := CurrentTasks(s.tasks, "alice", s.nextId);
    assert current == [];

    var taken := s.SignupUser("alice", "other", "other");
    assert taken == UsernameTaken && s.users["alice"] == "secret";
    var mismatch := s.SignupUser("carol", "x", "y");
    assert mismatch == PasswordMismatch && "carol" !in s.users;

    var b := s.SignupUser("bob", "pw", "pw");
    assert b == SignedUp;
    assert Lookup(s.tasks, k, "bob") == None;
    var steal := s.CompleteTask("bob", k, true, now + 1);
    assert steal == NotFound && s.tasks[k].datecompleted == Some(now);
    var vandal := s.DeleteTask("bob", k, true);
    assert vandal == NotFound && k in s.tasks;

    var login := s.LoginUser("alice", "wrong");
    assert login == BadCredentials && s.session == Some("bob");
    login := s.LoginUser("alice", "secret");
    assert login == LoggedIn && s.session == Some("alice");

    var peek := s.DeleteTask("alice", k, false);
    assert peek == NoResponse && k in s.tasks;
    var d := s.DeleteTask("alice", k, true);
    assert d == Done && Lookup(s.tasks, k, "alice") == None;
  }
}
