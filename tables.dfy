/** The application's relational store: the `users` and `tasks` tables as
    sequences of rows in insertion order, the read queries the strategies and
    handlers run over them, and the store object whose INSERT, UPDATE and
    DELETE statements change them. */
module Tables {

  datatype Option<+T> = None | Some(value: T)

  /** Why a strategy or a handler could not complete: the store failed, bcrypt
      was handed no hash to compare against, the session could not be
      established, or a session's user could not be deserialised. */
  datatype Fault = StoreFailure | MissingHash | SessionFailure | DeserializeFailure

  datatype Result<+T> = Ok(value: T) | Err(cause: Fault)

  type UserId = nat
  type TaskId = nat

  /** A row of `users`: `password` holds the bcrypt hash and is absent for
      accounts created through Google; `googleId` is the provider's subject id. */
  datatype User = User(id: UserId, email: string, password: Option<string>, googleId: Option<string>)

  /** A row of `tasks`, owned by the user whose id is `userId`. */
  datatype Task = Task(id: TaskId, userId: UserId, title: string, description: string, completed: bool)

  /** Value a new task's `completed` column takes when the INSERT leaves it out. */
  const DefaultCompleted := false

  /** The users table is well formed: serial ids below the next id to hand out,
      increasing in insertion order, and no email stored twice. */
  ghost predicate UsersOk(users: seq<User>, nextId: UserId) {
    && (forall i :: 0 <= i < |users| ==> users[i].id < nextId)
    && (forall i, j :: 0 <= i < j < |users| ==> users[i].id < users[j].id)
    && (forall i, j :: 0 <= i < j < |users| ==> users[i].email != users[j].email)
  }

  /** The tasks table is well formed: serial ids below the next id to hand out,
      increasing in insertion order. */
  ghost predicate TasksOk(tasks: seq<Task>, nextId: TaskId) {
    && (forall i :: 0 <= i < |tasks| ==> tasks[i].id < nextId)
    && (forall i, j :: 0 <= i < j < |tasks| ==> tasks[i].id < tasks[j].id)
  }

  ghost predicate EmailTaken(users: seq<User>, email: string) {
    exists i :: 0 <= i < |users| && users[i].email == email
  }

  /** The lookup of users by email: the first row holding the email. */
  function FindByEmail(users: seq<User>, email: string): (r: Option<User>)
    ensures r.Some? ==> r.value in users && r.value.email == email
    ensures r.None? <==> !EmailTaken(users, email)
  {
    if |users| == 0 then None
    else if users[0].email == email then Some(users[0])
    else
      var r := FindByEmail(users[1..], email);
      assert EmailTaken(users[1..], email) ==> EmailTaken(users, email);
      assert EmailTaken(users, email) ==> EmailTaken(users[1..], email);
      r
  }

  /** The lookup of users by id: the first row holding the id. */
  function FindById(users: seq<User>, id: UserId): (r: Option<User>)
    ensures r.Some? ==> r.value in users && r.value.id == id
    ensures r.None? <==> forall u :: u in users ==> u.id != id
  {
    if |users| == 0 then None
    else if users[0].id == id then Some(users[0])
    else FindById(users[1..], id)
  }

  /** The selection of one user's tasks: every row whose owner is that user,
      each as often as it is stored, and no other row. */
  function OwnedBy(tasks: seq<Task>, userId: UserId): (r: seq<Task>)
    ensures |r| <= |tasks|
    ensures forall t :: t in r <==> t in tasks && t.userId == userId
    ensures forall t :: multiset(r)[t] == if t.userId == userId then multiset(tasks)[t] else 0
  {
    if |tasks| == 0 then []
    else
      var rest := OwnedBy(tasks[1..], userId);
      assert tasks == [tasks[0]] + tasks[1..];
      assert forall t :: t in tasks <==> t == tasks[0] || t in tasks[1..];
      if tasks[0].userId == userId then [tasks[0]] + rest else rest
  }

  /** The lookup of a task by id and owner together: the first row holding both. */
  function FindTask(tasks: seq<Task>, id: int, userId: UserId): (r: Option<Task>)
    ensures r.Some? ==> r.value in tasks && r.value.id == id && r.value.userId == userId
    ensures r.None? <==> forall t :: t in tasks ==> !(t.id == id && t.userId == userId)
  {
    if |tasks| == 0 then None
    else if tasks[0].id == id && tasks[0].userId == userId then Some(tasks[0])
    else FindTask(tasks[1..], id, userId)
  }

  /** The update of a task's title, description and completion, applied to
      every row whose id and owner are both the given ones. */
  function UpdateTask(tasks: seq<Task>, id: int, userId: UserId, title: string, description: string, completed: bool): (r: seq<Task>)
    ensures |r| == |tasks|
    ensures forall i :: 0 <= i < |tasks| && tasks[i].id == id && tasks[i].userId == userId ==>
      r[i] == Task(tasks[i].id, userId, title, description, completed)
    ensures forall i :: 0 <= i < |tasks| && !(tasks[i].id == id && tasks[i].userId == userId) ==>
      r[i] == tasks[i]
  {
    if |tasks| == 0 then []
    else
      var t := tasks[0];
      var head := if t.id == id && t.userId == userId then t.(title := title, description := description, completed := completed) else t;
      [head] + UpdateTask(tasks[1..], id, userId, title, description, completed)
  }

  /** The deletion of every row whose id and owner are both the given ones. */
  function RemoveTask(tasks: seq<Task>, id: int, userId: UserId): (r: seq<Task>)
    ensures |r| <= |tasks|
    ensures forall t :: t in r <==> t in tasks && !(t.id == id && t.userId == userId)
  {
    if |tasks| == 0 then []
    else
      var rest := RemoveTask(tasks[1..], id, userId);
      assert forall t :: t in tasks <==> t == tasks[0] || t in tasks[1..];
      if tasks[0].id == id && tasks[0].userId == userId then rest else [tasks[0]] + rest
  }

  /** With distinct emails, the email lookup finds the one row that holds it. */
  lemma FindByEmailUnique(users: seq<User>, nextId: UserId, u: User)
    requires UsersOk(users, nextId)
    requires u in users
    ensures FindByEmail(users, u.email) == Some(u)
  {
    var i :| 0 <= i < |users| && users[i] == u;
    var r := FindByEmail(users, u.email);
    assert EmailTaken(users, u.email);
    var j :| 0 <= j < |users| && users[j] == r.value;
    assert i == j;
  }

  /** Looking an email up after appending a row: the old table answers first. */
  lemma {:induction false} FindByEmailAppend(users: seq<User>, u: User, email: string)
    ensures FindByEmail(users + [u], email) ==
      if FindByEmail(users, email).Some? then FindByEmail(users, email)
      else if u.email == email then Some(u) else None
  {
    if |users| == 0 {
      assert users + [u] == [u];
    } else {
      assert (users + [u])[1..] == users[1..] + [u];
      FindByEmailAppend(users[1..], u, email);
    }
  }

  /** With increasing ids, the id lookup finds the one row that holds it. */
  lemma FindByIdUnique(users: seq<User>, nextId: UserId, u: User)
    requires UsersOk(users, nextId)
    requires u in users
    ensures FindById(users, u.id) == Some(u)
  {
    var i :| 0 <= i < |users| && users[i] == u;
    var r := FindById(users, u.id);
    var j :| 0 <= j < |users| && users[j] == r.value;
    assert i == j;
  }

  /** Deleting by id and owner keeps the ids increasing. */
  lemma {:induction false} RemoveTaskKeepsOk(tasks: seq<Task>, nextId: TaskId, id: int, userId: UserId)
    requires TasksOk(tasks, nextId)
    ensures TasksOk(RemoveTask(tasks, id, userId), nextId)
  {
    if |tasks| > 0 {
      RemoveTaskKeepsOk(tasks[1..], nextId, id, userId);
      var rest := RemoveTask(tasks[1..], id, userId);
      forall t | t in rest ensures tasks[0].id < t.id {
        var k :| 0 <= k < |tasks[1..]| && tasks[1..][k] == t;
        assert tasks[k + 1] == t;
      }
    }
  }

  /** With distinct ids, deleting a task that the id-and-owner lookup finds
      removes exactly that row and keeps every other row. */
  lemma {:induction false} RemoveTaskExactlyOne(tasks: seq<Task>, nextId: TaskId, id: int, userId: UserId)
    requires TasksOk(tasks, nextId)
    requires FindTask(tasks, id, userId).Some?
    ensures |RemoveTask(tasks, id, userId)| == |tasks| - 1
    ensures FindTask(tasks, id, userId).value !in RemoveTask(tasks, id, userId)
    ensures forall t :: t in tasks && t != FindTask(tasks, id, userId).value ==> t in RemoveTask(tasks, id, userId)
  {
    var t0 := tasks[0];
    if t0.id == id && t0.userId == userId {
      assert FindTask(tasks[1..], id, userId).None? by {
        forall t | t in tasks[1..] ensures t.id != id {
          var k :| 0 <= k < |tasks[1..]| && tasks[1..][k] == t;
          assert tasks[k + 1] == t;
        }
      }
      RemoveTaskNoMatch(tasks[1..], id, userId);
    } else {
      assert TasksOk(tasks[1..], nextId);
      RemoveTaskExactlyOne(tasks[1..], nextId, id, userId);
    }
  }

  /** Deleting a task that the id-and-owner lookup does not find changes nothing. */
  lemma {:induction false} RemoveTaskNoMatch(tasks: seq<Task>, id: int, userId: UserId)
    requires FindTask(tasks, id, userId).None?
    ensures RemoveTask(tasks, id, userId) == tasks
  {
    if |tasks| > 0 {
      assert FindTask(tasks[1..], id, userId).None?;
      RemoveTaskNoMatch(tasks[1..], id, userId);
      assert [tasks[0]] + tasks[1..] == tasks;
    }
  }

  /** The store: its two tables and the serial counters the database uses to
      assign ids. Each statement either fails (and changes nothing) or takes
      effect whole. */
  class Store {
    var users: seq<User>
    var tasks: seq<Task>
    var nextUserId: UserId
    var nextTaskId: TaskId

    ghost predicate Valid()
      reads this
    {
      UsersOk(users, nextUserId) && TasksOk(tasks, nextTaskId)
    }

    constructor ()
      ensures Valid()
      ensures users == [] && tasks == []
    {
      users, tasks := [], [];
      nextUserId, nextTaskId := 1, 1;
    }

    /** The insertion of a user row, returning the stored row: fails when the
        store fails or the email is already stored (unique constraint). */
    method InsertUser(email: string, password: Option<string>, googleId: Option<string>, fault: bool) returns (r: Option<User>)
      requires Valid()
      modifies this
      ensures Valid()
      ensures tasks == old(tasks) && nextTaskId == old(nextTaskId)
      ensures r.None? <==> fault || EmailTaken(old(users), email)
      ensures r.None? ==> users == old(users) && nextUserId == old(nextUserId)
      ensures r.Some? ==>
        r.value == User(old(nextUserId), email, password, googleId)
        && users == old(users) + [r.value] && nextUserId == old(nextUserId) + 1
    {
      if fault || FindByEmail(users, email).Some? {
        return None;
      }
      var row := User(nextUserId, email, password, googleId);
      users := users + [row];
      nextUserId := nextUserId + 1;
      r := Some(row);
    }

    /** The insertion of a task row with an owner, a title and a description;
        the completion takes the column default. */
    method InsertTask(userId: UserId, title: string, description: string, fault: bool) returns (ok: bool)
      requires Valid()
      modifies this
      ensures Valid()
      ensures users == old(users) && nextUserId == old(nextUserId)
      ensures ok == !fault
      ensures ok ==>
        tasks == old(tasks) + [Task(old(nextTaskId), userId, title, description, DefaultCompleted)]
        && nextTaskId == old(nextTaskId) + 1
      ensures !ok ==> tasks == old(tasks) && nextTaskId == old(nextTaskId)
    {
      if fault {
        return false;
      }
      tasks := tasks + [Task(nextTaskId, userId, title, description, DefaultCompleted)];
      nextTaskId := nextTaskId + 1;
      ok := true;
    }

    /** The UPDATE of title, description and completion on the rows with the
        given id and owner. */
    method UpdateTasks(id: int, userId: UserId, title: string, description: string, completed: bool, fault: bool) returns (ok: bool)
      requires Valid()
      modifies this
      ensures Valid()
      ensures users == old(users) && nextUserId == old(nextUserId) && nextTaskId == old(nextTaskId)
      ensures ok == !fault
      ensures tasks == if ok then UpdateTask(old(tasks), id, userId, title, description, completed) else old(tasks)
    {
      if fault {
        return false;
      }
      tasks := UpdateTask(tasks, id, userId, title, description, completed);
      ok := true;
    }

    /** The DELETE of the rows with the given id and owner. */
    method DeleteTasks(id: int, userId: UserId, fault: bool) returns (ok: bool)
      requires Valid()
      modifies this
      ensures Valid()
      ensures users == old(users) && nextUserId == old(nextUserId) && nextTaskId == old(nextTaskId)
      ensures ok == !fault
      ensures tasks == if ok then RemoveTask(old(tasks), id, userId) else old(tasks)
    {
      if fault {
        return false;
      }
      RemoveTaskKeepsOk(tasks, nextTaskId, id, userId);
      tasks := RemoveTask(tasks, id, userId);
      ok := true;
    }
  }
}
