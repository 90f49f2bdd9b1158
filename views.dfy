/** The request handlers of the task tracker as methods on one in-memory
    store: the accounts (username to credential), the tasks (id to task),
    the next task id, and the user the session is logged in as.
    The authenticated user of a request is an explicit parameter, the
    current time an integer, and form validity a flag. */
module Views {
  import opened Tasks

  /** A credential is compared for equality only; hashing is not modelled. */
  type Password = string

  datatype SignupResult = SignedUp | PasswordMismatch | UsernameTaken
  datatype LoginResult = LoggedIn | BadCredentials

  /** What a task form carries once it has been validated. */
  datatype TaskInput = TaskInput(title: string, memo: string, important: bool)

  /** Outcome of a handler that works on one task:
      NotFound is the 404 of the ownership lookup, Invalid a form that raised
      ValueError, NoResponse a request whose method the handler ignores. */
  datatype Outcome = Done | NotFound | Invalid | NoResponse

  /** `authenticate(username=..., password=...)`: the user, or None when the
      credentials match no account. */
  function Authenticate(users: map<Username, Password>, name: Username, pw: Password): (r: Option<Username>)
    ensures r.Some? <==> name in users && users[name] == pw
    ensures r.Some? ==> r.value == name
  {
    if name in users && users[name] == pw then Some(name) else None
  }

  /** Storing credential pw for name makes `authenticate` accept exactly pw
      for that name, and leaves every other name as it was. */
  lemma AuthenticateAfterSignup(users: map<Username, Password>, after: map<Username, Password>,
                                name: Username, pw: Password)
    requires after == users[name := pw]
    ensures forall q :: Authenticate(after, name, q) == Some(name) <==> q == pw
    ensures forall other, q :: other != name ==>
              Authenticate(after, other, q) == Authenticate(users, other, q)
  {
  }

  class Store {
    var users: map<Username, Password>
    var tasks: TaskMap
    var nextId: nat
    var session: Option<Username>

    /** Ids are below the counter, every task has an existing owner, and the
        session belongs to an existing user. */
    ghost predicate Valid()
      reads this
    {
      && (forall id :: id in tasks ==> id < nextId)
      && (forall id :: id in tasks ==> tasks[id].owner in users)
      && (session.Some? ==> session.value in users)
    }

    constructor ()
      ensures Valid()
      ensures users == map[] && tasks == map[] && nextId == 0 && session == None
    {
      users, tasks, nextId, session := map[], map[], 0, None;
    }

    /** `signupuser` on POST. The password check comes first; a taken
        username is the IntegrityError of `create_user`. */
    method SignupUser(username: Username, password1: Password, password2: Password)
      returns (r: SignupResult)
      requires Valid()
      modifies this
      ensures Valid()
      ensures r == PasswordMismatch <==> password1 != password2
      ensures r == UsernameTaken <==> password1 == password2 && username in old(users)
      ensures r == SignedUp ==> users == old(users)[username := password1] && session == Some(username)
      ensures r == SignedUp ==> Authenticate(users, username, password1) == Some(username)
      ensures r != SignedUp ==> users == old(users) && session == old(session)
      ensures tasks == old(tasks) && nextId == old(nextId)
    {
      if password1 == password2 {
        if username in users {
          r := UsernameTaken;
        } else {
          users := users[username := password1];
          session := Some(username);
          r := SignedUp;
        }
      } else {
        r := PasswordMismatch;
      }
    }

    /** `loginuser` on POST. */
    method LoginUser(username: Username, password: Password) returns (r: LoginResult)
      requires Valid()
      modifies this
      ensures Valid()
      ensures r == LoggedIn <==> Authenticate(users, username, password).Some?
      ensures session == if r == LoggedIn then Some(username) else old(session)
      ensures users == old(users) && tasks == old(tasks) && nextId == old(nextId)
    {
      var user := Authenticate(users, username, password);
      if user.None? {
        r := BadCredentials;
      } else {
        session := Some(user.value);
        r := LoggedIn;
      }
    }

    /** `logoutuser`: ends the session on POST; any other method gets no response. */
    method LogoutUser(isPost: bool) returns (r: Outcome)
      requires Valid()
      modifies this
      ensures Valid()
      ensures r == (if isPost then Done else NoResponse)
      ensures session == if isPost then None else old(session)
      ensures users == old(users) && tasks == old(tasks) && nextId == old(nextId)
    {
      if isPost {
        session := None;
        r := Done;
      } else {
        r := NoResponse;
      }
    }

    /** `createtask` on POST: a valid form becomes a new current task of
        `user` under a fresh id; an invalid one (ValueError) changes nothing. */
    method CreateTask(user: Username, valid: bool, input: TaskInput) returns (id: Option<nat>)
      requires Valid() && user in users
      modifies this
      ensures Valid()
      ensures id.Some? <==> valid
      ensures id.Some? ==> id.value == old(nextId) && nextId == old(nextId) + 1
      ensures id.Some? ==> id.value !in old(tasks)
      ensures id.Some? ==>
        tasks == old(tasks)[id.value := Task(user, input.title, input.memo, input.important, None)]
      ensures id.Some? ==>
        Lookup(tasks, id.value, user) == Some(Task(user, input.title, input.memo, input.important, None))
      ensures id.Some? ==> CurrentTasks(tasks, user, nextId) == old(CurrentTasks(tasks, user, nextId)) + [id.value]
      ensures CompletedTasks(tasks, user, nextId) == old(CompletedTasks(tasks, user, nextId))
      ensures forall v :: v != user ==>
        CurrentTasks(tasks, v, nextId) == old(CurrentTasks(tasks, v, nextId)) &&
        CompletedTasks(tasks, v, nextId) == old(CompletedTasks(tasks, v, nextId))
      ensures id.None? ==> tasks == old(tasks) && nextId == old(nextId)
      ensures users == old(users) && session == old(session)
    {
      if !valid {
        return None;
      }
      var t := Task(user, input.title, input.memo, input.important, None);
      var n := nextId;
      CreateAppendsToCurrent(tasks, user, n, t);
      CreateLeavesAllOthers(tasks, user, n, t);
      tasks := tasks[n := t];
      nextId := n + 1;
      id := Some(n);
    }

    /** `viewtask` on POST: the ownership lookup, then the form is saved over
        the task's editable fields; an invalid form changes nothing. */
    method UpdateTask(user: Username, id: nat, valid: bool, input: TaskInput) returns (r: Outcome)
      requires Valid()
      modifies this
      ensures Valid()
      ensures r == NotFound <==> Lookup(old(tasks), id, user).None?
      ensures r == Invalid <==> Lookup(old(tasks), id, user).Some? && !valid
      ensures r == NotFound || r == Invalid || r == Done
      ensures r == Done ==>
        tasks == old(tasks)[id := old(tasks)[id].(title := input.title, memo := input.memo,
                                                  important := input.important)]
      ensures r != Done ==> tasks == old(tasks)
      ensures forall v :: CurrentTasks(tasks, v, nextId) == old(CurrentTasks(tasks, v, nextId)) &&
                          CompletedTasks(tasks, v, nextId) == old(CompletedTasks(tasks, v, nextId))
      ensures users == old(users) && session == old(session) && nextId == old(nextId)
    {
      var task := Lookup(tasks, id, user);
      if task.None? {
        return NotFound;
      }
      if !valid {
        return Invalid;
      }
      var edited := task.value.(title := input.title, memo := input.memo, important := input.important);
      forall v
        ensures CurrentTasks(tasks[id := edited], v, nextId) == CurrentTasks(tasks, v, nextId)
        ensures CompletedTasks(tasks[id := edited], v, nextId) == CompletedTasks(tasks, v, nextId)
      {
        ListsSameStatus(tasks[id := edited], tasks, v, nextId);
      }
      tasks := tasks[id := edited];
      r := Done;
    }

    /** `completetask`: the ownership lookup, then on POST the completion time
        is set to `now`, overwriting any earlier one. */
    method CompleteTask(user: Username, id: nat, isPost: bool, now: int) returns (r: Outcome)
      requires Valid()
      modifies this
      ensures Valid()
      ensures r == NotFound <==> Lookup(old(tasks), id, user).None?
      ensures r == NoResponse <==> Lookup(old(tasks), id, user).Some? && !isPost
      ensures r == NotFound || r == NoResponse || r == Done
      ensures r == Done ==> tasks == old(tasks)[id := old(tasks)[id].(datecompleted := Some(now))]
      ensures r == Done ==> id in CompletedTasks(tasks, user, nextId) && id !in CurrentTasks(tasks, user, nextId)
      ensures r != Done ==> tasks == old(tasks)
      ensures forall v :: v != user ==>
        CurrentTasks(tasks, v, nextId) == old(CurrentTasks(tasks, v, nextId)) &&
        CompletedTasks(tasks, v, nextId) == old(CompletedTasks(tasks, v, nextId))
      ensures users == old(users) && session == old(session) && nextId == old(nextId)
    {
      var task := Lookup(tasks, id, user);
      if task.None? {
        return NotFound;
      }
      if !isPost {
        return NoResponse;
      }
      var completed := task.value.(datecompleted := Some(now));
      forall v | v != user
        ensures CurrentTasks(tasks[id := completed], v, nextId) == CurrentTasks(tasks, v, nextId)
        ensures CompletedTasks(tasks[id := completed], v, nextId) == CompletedTasks(tasks, v, nextId)
      {
        ListsSameStatus(tasks[id := completed], tasks, v, nextId);
      }
      tasks := tasks[id := completed];
      r := Done;
    }

    /** `deletetask`: the ownership lookup, then on POST the task is removed. */
    method DeleteTask(user: Username, id: nat, isPost: bool) returns (r: Outcome)
      requires Valid()
      modifies this
      ensures Valid()
      ensures r == NotFound <==> Lookup(old(tasks), id, user).None?
      ensures r == NoResponse <==> Lookup(old(tasks), id, user).Some? && !isPost
      ensures r == NotFound || r == NoResponse || r == Done
      ensures r == Done ==> tasks == old(tasks) - {id}
      ensures r == Done ==> forall v :: Lookup(tasks, id, v).None?
      ensures r != Done ==> tasks == old(tasks)
      ensures forall v :: v != user ==>
        CurrentTasks(tasks, v, nextId) == old(CurrentTasks(tasks, v, nextId)) &&
        CompletedTasks(tasks, v, nextId) == old(CompletedTasks(tasks, v, nextId))
      ensures users == old(users) && session == old(session) && nextId == old(nextId)
    {
      var task := Lookup(tasks, id, user);
      if task.None? {
        return NotFound;
      }
      if !isPost {
        return NoResponse;
      }
      forall v | v != user
        ensures CurrentTasks(tasks - {id}, v, nextId) == CurrentTasks(tasks, v, nextId)
        ensures CompletedTasks(tasks - {id}, v, nextId) == CompletedTasks(tasks, v, nextId)
      {
        ListsSameStatus(tasks - {id}, tasks, v, nextId);
      }
      tasks := tasks - {id};
      r := Done;
    }
  }
}
