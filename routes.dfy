/** The route layer: the session, the `ensureAuthenticated` gate, and the
    login, registration, dashboard, task and logout handlers as operations on
    the store and the session. A handler's `reqUser` is `req.user`, the row
    that Passport's session middleware deserialised for this request. */
module Routes {
  import opened Tables
  import opened Bcrypt
  import opened Passport

  datatype Path = LoginPath | DashboardPath

  /** The page a handler renders, with the parameters that matter here. */
  datatype Page =
    | LoginPage(error: Option<string>)
    | RegisterPage(error: Option<string>)
    | DashboardPage(tasks: seq<Task>)
    | EditTaskPage(task: Option<Task>)

  /** How a request ends: a redirect, a rendered page, or `next(err)`. */
  datatype Response = Redirect(to: Path) | Render(page: Page) | Next(cause: Fault)

  const RegisterError := "Email already exists or invalid input"

  /** The server-side session: what `serializeUser` stored, if anything. */
  class Session {
    var user: Option<UserId>

    constructor ()
      ensures user == None
    {
      user := None;
    }
  }

  /** What Passport's session middleware puts in `req.user`: nothing for an
      anonymous session, otherwise the user `deserializeUser` finds for the
      stored id (`fault` says its SELECT fails). Passport accepts only a user,
      `null` or `false` from the callback; the `undefined` it passes on for a
      missing row makes the middleware fail the request with `next(err)`. */
  function CurrentUser(users: seq<User>, session: Option<UserId>, fault: bool): (r: Result<Option<User>>)
    ensures session.None? ==> r == Ok(None)
    ensures r.Ok? && r.value.Some? ==> session == Some(r.value.value.id) && r.value.value in users
    ensures r.Err? <==> session.Some? && (fault || forall u :: u in users ==> u.id != session.value)
    ensures r.Err? && fault ==> r.cause == StoreFailure
    ensures r.Err? && !fault ==> r.cause == DeserializeFailure
  {
    match session
    case None => Ok(None)
    case Some(id) =>
      match DeserializeUser(users, id, fault)
      case Err(e) => Err(e)
      case Ok(None) => Err(DeserializeFailure)
      case Ok(Some(u)) => Ok(Some(u))
  }

  datatype Gate = Proceed(user: User) | RedirectToLogin

  /** `ensureAuthenticated`: the protected handler runs only for a request
      that carries a user, and for that user. */
  function EnsureAuthenticated(reqUser: Option<User>): (r: Gate)
    ensures r.Proceed? <==> reqUser.Some?
    ensures r.Proceed? ==> r.user == reqUser.value
  {
    match reqUser
    case Some(u) => Proceed(u)
    case None => RedirectToLogin
  }

  /** A session that a successful login filled resolves, on the next request,
      to the logged-in row while that row is stored, and the gate lets it
      through; once the row is gone the request fails in the session
      middleware with `next(err)`, so no protected handler runs. */
  lemma LoggedInSessionResolves(users: seq<User>, nextId: UserId, u: User)
    requires UsersOk(users, nextId)
    ensures u in users ==>
      CurrentUser(users, Some(SerializeUser(u)), false) == Ok(Some(u))
      && EnsureAuthenticated(Some(u)) == Proceed(u)
    ensures (forall v :: v in users ==> v.id != u.id) ==>
      CurrentUser(users, Some(SerializeUser(u)), false) == Err(DeserializeFailure)
  {
    SerializeRoundTrip(users, nextId, u);
  }

  /** POST /login: run the local strategy (`queryFault` fails its SELECT),
      then dispatch on its outcome; `loginFault` says `req.logIn` fails. */
  method PostLogin(store: Store, session: Session, email: string, password: string, h: Hasher,
                   queryFault: bool, loginFault: bool) returns (resp: Response)
    modifies session
    ensures match LocalVerify(store.users, email, password, h, queryFault)
      case Error(e) => resp == Next(e) && session.user == old(session.user)
      case Reject(m) => resp == Render(LoginPage(Some(m))) && session.user == old(session.user)
      case Success(u) =>
        if loginFault then resp == Next(SessionFailure) && session.user == old(session.user)
        else resp == Redirect(DashboardPath) && session.user == Some(SerializeUser(u))
  {
    var outcome := LocalVerify(store.users, email, password, h, queryFault);
    match outcome
    case Error(e) =>
      resp := Next(e);
    case Reject(m) =>
      resp := Render(LoginPage(Some(m)));
    case Success(u) =>
      if loginFault {
        resp := Next(SessionFailure);
      } else {
        session.user := Some(SerializeUser(u));
        resp := Redirect(DashboardPath);
      }
  }

  /** POST /register: store the bcrypt hash of the password, never the
      password itself. `fault` says hashing or the INSERT fails; a stored
      email fails the INSERT too (unique constraint). On failure the users table is unchanged and the
      register page is shown again with the error. */
  method PostRegister(store: Store, email: string, password: string, h: Hasher, fault: bool) returns (resp: Response)
    requires store.Valid()
    modifies store
    ensures store.Valid()
    ensures store.tasks == old(store.tasks)
    ensures fault || EmailTaken(old(store.users), email) ==>
      resp == Render(RegisterPage(Some(RegisterError))) && store.users == old(store.users)
    ensures !fault && !EmailTaken(old(store.users), email) ==>
      resp == Redirect(LoginPath)
      && store.users == old(store.users) + [User(old(store.nextUserId), email, Some(h.hash(password)), None)]
  {
    var hashed := h.hash(password);
    var inserted := store.InsertUser(email, Some(hashed), None, fault);
    if inserted.None? {
      resp := Render(RegisterPage(Some(RegisterError)));
    } else {
      resp := Redirect(LoginPath);
    }
  }

  /** After a registration, logging in with the same password succeeds with
      the new row, another password that does not match its hash is
      "Incorrect password", and an email still not stored is unregistered. */
  lemma RegisterThenLogin(users: seq<User>, nextId: UserId, email: string, password: string,
                          other: string, stranger: string, h: Hasher)
    requires UsersOk(users, nextId) && Sound(h)
    requires !EmailTaken(users, email)
    requires !EmailTaken(users, stranger) && stranger != email
    requires !h.compare(other, h.hash(password))
    ensures var row := User(nextId, email, Some(h.hash(password)), None);
      && LocalVerify(users + [row], email, password, h, false) == Success(row)
      && LocalVerify(users + [row], email, other, h, false) == Reject(IncorrectPassword)
      && LocalVerify(users + [row], stranger, password, h, false) == Reject(UnregisteredMessage(stranger))
  {
    var row := User(nextId, email, Some(h.hash(password)), None);
    FindByEmailAppend(users, row, email);
    FindByEmailAppend(users, row, stranger);
  }

  /** GET /dashboard: the calling user's tasks; a failing SELECT sends the
      request to the login page. */
  function Dashboard(tasks: seq<Task>, reqUser: Option<User>, fault: bool): (resp: Response)
    ensures reqUser.None? || fault ==> resp == Redirect(LoginPath)
    ensures reqUser.Some? && !fault ==>
      resp.Render? && resp.page.DashboardPage?
      && (forall t :: t in resp.page.tasks <==> t in tasks && t.userId == reqUser.value.id)
      && forall t :: multiset(resp.page.tasks)[t] ==
                     if t.userId == reqUser.value.id then multiset(tasks)[t] else 0
  {
    match EnsureAuthenticated(reqUser)
    case RedirectToLogin => Redirect(LoginPath)
    case Proceed(u) =>
      if fault then Redirect(LoginPath) else Render(DashboardPage(OwnedBy(tasks, u.id)))
  }

  /** POST /task: append one task owned by the caller; every path of an
      authenticated request redirects to the dashboard. */
  method AddTask(store: Store, reqUser: Option<User>, title: string, description: string, fault: bool)
    returns (resp: Response)
    requires store.Valid()
    modifies store
    ensures store.Valid()
    ensures store.users == old(store.users)
    ensures reqUser.None? ==> resp == Redirect(LoginPath) && store.tasks == old(store.tasks)
    ensures reqUser.Some? ==> resp == Redirect(DashboardPath)
    ensures reqUser.Some? && fault ==> store.tasks == old(store.tasks)
    ensures reqUser.Some? && !fault ==>
      store.tasks == old(store.tasks) + [Task(old(store.nextTaskId), reqUser.value.id, title, description, DefaultCompleted)]
  {
    match EnsureAuthenticated(reqUser)
    case RedirectToLogin =>
      resp := Redirect(LoginPath);
    case Proceed(u) =>
      var _ := store.InsertTask(u.id, title, description, fault);
      resp := Redirect(DashboardPath);
  }

  /** GET /task/edit/:id: the form shows the task with that id only if the
      caller owns it, and no task otherwise. */
  function EditTaskForm(tasks: seq<Task>, reqUser: Option<User>, id: int, fault: bool): (resp: Response)
    ensures reqUser.None? ==> resp == Redirect(LoginPath)
    ensures reqUser.Some? && fault ==> resp == Redirect(DashboardPath)
    ensures reqUser.Some? && !fault ==> resp.Render? && resp.page.EditTaskPage?
    ensures resp.Render? && resp.page.EditTaskPage? && resp.page.task.Some? ==>
      resp.page.task.value in tasks && resp.page.task.value.id == id
      && reqUser.Some? && resp.page.task.value.userId == reqUser.value.id
    ensures reqUser.Some? && !fault && (exists t :: t in tasks && t.id == id && t.userId == reqUser.value.id) ==>
      resp.page.task.Some?
  {
    match EnsureAuthenticated(reqUser)
    case RedirectToLogin => Redirect(LoginPath)
    case Proceed(u) =>
      if fault then Redirect(DashboardPath) else Render(EditTaskPage(FindTask(tasks, id, u.id)))
  }

  /** POST /task/edit/:id: set title, description and `completed` (true
      exactly when the checkbox field is "on") on the caller's task with that
      id; tasks of other users and every other row stay as they were. */
  method EditTask(store: Store, reqUser: Option<User>, id: int, title: string, description: string,
                  completed: Option<string>, fault: bool) returns (resp: Response)
    requires store.Valid()
    modifies store
    ensures store.Valid()
    ensures store.users == old(store.users)
    ensures reqUser.None? ==> resp == Redirect(LoginPath) && store.tasks == old(store.tasks)
    ensures reqUser.Some? ==> resp == Redirect(DashboardPath)
    ensures reqUser.Some? ==>
      store.tasks == if fault then old(store.tasks)
      else UpdateTask(old(store.tasks), id, reqUser.value.id, title, description, completed == Some("on"))
  {
    match EnsureAuthenticated(reqUser)
    case RedirectToLogin =>
      resp := Redirect(LoginPath);
    case Proceed(u) =>
      var _ := store.UpdateTasks(id, u.id, title, description, completed == Some("on"), fault);
      resp := Redirect(DashboardPath);
  }

  /** The delete rule: a task may go only if the caller owns it and it is
      completed. */
  function Deletable(tasks: seq<Task>, id: int, userId: UserId): (b: bool)
    ensures b ==> exists t :: t in tasks && t.id == id && t.userId == userId && t.completed
    ensures (forall t :: t in tasks ==> !(t.id == id && t.userId == userId)) ==> !b
  {
    match FindTask(tasks, id, userId)
    case Some(t) => t.completed
    case None => false
  }

  /** GET /task/delete/:id: delete the task only when the SELECT finds it
      among the caller's tasks and it is completed; otherwise, and when a
      statement fails, the tasks table is unchanged. Every path of an
      authenticated request redirects to the dashboard. */
  method DeleteTask(store: Store, reqUser: Option<User>, id: int, selectFault: bool, deleteFault: bool)
    returns (resp: Response)
    requires store.Valid()
    modifies store
    ensures store.Valid()
    ensures store.users == old(store.users)
    ensures reqUser.None? ==> resp == Redirect(LoginPath) && store.tasks == old(store.tasks)
    ensures reqUser.Some? ==> resp == Redirect(DashboardPath)
    ensures reqUser.Some? ==>
      store.tasks == if !selectFault && !deleteFault && Deletable(old(store.tasks), id, reqUser.value.id)
      then RemoveTask(old(store.tasks), id, reqUser.value.id)
      else old(store.tasks)
  {
    match EnsureAuthenticated(reqUser)
    case RedirectToLogin =>
      resp := Redirect(LoginPath);
    case Proceed(u) =>
      if !selectFault {
        var found := FindTask(store.tasks, id, u.id);
        if found.Some? && found.value.completed {
          var _ := store.DeleteTasks(id, u.id, deleteFault);
        }
      }
      resp := Redirect(DashboardPath);
  }

  /** What a successful delete removes: exactly one row, the caller's
      completed task with that id, and nothing else. When the rule does not
      hold, no row matches the caller, the id and completion together. */
  lemma DeleteRemovesOnlyThatTask(tasks: seq<Task>, nextId: TaskId, id: int, userId: UserId)
    requires TasksOk(tasks, nextId)
    ensures Deletable(tasks, id, userId) ==>
      var t := FindTask(tasks, id, userId).value;
      && t in tasks && t.id == id && t.userId == userId && t.completed
      && |RemoveTask(tasks, id, userId)| == |tasks| - 1
      && t !in RemoveTask(tasks, id, userId)
      && forall x :: x in tasks && x != t ==> x in RemoveTask(tasks, id, userId)
    ensures !Deletable(tasks, id, userId) ==>
      forall x :: x in tasks && x.id == id && x.userId == userId ==> !x.completed
  {
    if Deletable(tasks, id, userId) {
      RemoveTaskExactlyOne(tasks, nextId, id, userId);
    } else if FindTask(tasks, id, userId).Some? {
      var t := FindTask(tasks, id, userId).value;
      forall x | x in tasks && x.id == id && x.userId == userId ensures !x.completed {
        var i :| 0 <= i < |tasks| && tasks[i] == x;
        var j :| 0 <= j < |tasks| && tasks[j] == t;
        assert i == j;
      }
    }
  }

  /** GET /logout: the session becomes anonymous and the request goes to the
      login page. */
  method Logout(session: Session) returns (resp: Response)
    modifies session
    ensures session.user == None
    ensures resp == Redirect(LoginPath)
  {
    session.user := None;
    resp := Redirect(LoginPath);
  }

  /** After logout, the next request carries no user whatever the store
      holds, so the gate denies every protected route. */
  lemma LoggedOutIsDenied(users: seq<User>, fault: bool)
    ensures CurrentUser(users, None, fault) == Ok(None)
    ensures EnsureAuthenticated(CurrentUser(users, None, fault).value) == RedirectToLogin
  {
  }
}
