/** The two Passport strategies and the session serialiser: the local
    email/password verify callback, the Google find-or-create verify callback
    (starting from the verified profile the provider hands back), and the
    reduction of a user to its id and back. */
module Passport {
  import opened Tables
  import opened Bcrypt

  /** The three ways a verify callback ends: `cb(err)`, `cb(null, false, info)`
      and `cb(null, user)`. */
  datatype AuthOutcome = Error(cause: Fault) | Reject(message: string) | Success(user: User)

  /** The verified Google profile: the provider's subject id and the email. */
  datatype Profile = Profile(id: string, email: string)

  const IncorrectPassword := "Incorrect password"

  const UnregisteredPrefix := "Unregistered email attempted: "

  /** The rejection for an email no row holds: it names the email, and it can
      never be mistaken for the wrong-password rejection. */
  function UnregisteredMessage(email: string): (m: string)
    ensures |m| > |UnregisteredPrefix| + |email|
    ensures m[..|UnregisteredPrefix|] == UnregisteredPrefix
    ensures m[|UnregisteredPrefix|..|UnregisteredPrefix| + |email|] == email
    ensures m != IncorrectPassword
  {
    var m := UnregisteredPrefix + email + ". Please register yourself first.";
    assert m[0] == 'U' && IncorrectPassword[0] == 'I';
    m
  }

  // ---------------------------------------------------------------- local

  /** The local strategy's verify callback: look the email up, then compare
      the password with the stored hash. `fault` says the SELECT fails. A row
      without a hash makes bcrypt throw, which the callback's catch turns into
      an error. The users table is only read. */
  function LocalVerify(users: seq<User>, email: string, password: string, h: Hasher, fault: bool): (r: AuthOutcome)
    ensures fault ==> r == Error(StoreFailure)
    ensures !fault && !EmailTaken(users, email) ==> r == Reject(UnregisteredMessage(email))
    ensures r.Success? ==>
      r.user in users && r.user.email == email
      && r.user.password.Some? && h.compare(password, r.user.password.value)
    ensures r == Reject(IncorrectPassword) ==>
      exists u :: u in users && u.email == email && u.password.Some? && !h.compare(password, u.password.value)
    ensures r == Error(MissingHash) ==>
      exists u :: u in users && u.email == email && u.password.None?
  {
    if fault then Error(StoreFailure)
    else
      match FindByEmail(users, email)
      case None =>
        Reject(UnregisteredMessage(email))
      case Some(user) =>
        match user.password
        case None => Error(MissingHash)
        case Some(stored) =>
          if h.compare(password, stored) then Success(user) else Reject(IncorrectPassword)
  }

  /** For an email that is stored (emails are unique), the local strategy
      answers from that one row: an error when it has no hash, success with
      exactly that row when the password matches, "Incorrect password" when it
      does not. */
  lemma LocalVerifyRow(users: seq<User>, nextId: UserId, u: User, password: string, h: Hasher)
    requires UsersOk(users, nextId)
    requires u in users
    ensures LocalVerify(users, u.email, password, h, false) ==
      match u.password
      case None => Error(MissingHash)
      case Some(stored) =>
        if h.compare(password, stored) then Success(u) else Reject(IncorrectPassword)
  {
    FindByEmailUnique(users, nextId, u);
  }

  // --------------------------------------------------------------- google

  function NewGoogleUser(id: UserId, profile: Profile): User {
    User(id, profile.email, None, Some(profile.id))
  }

  /** The users table and the user after the Google verify callback: a row
      with the profile's email is reused whatever its credentials; otherwise a
      row with that email, the profile's id as `googleId` and no password is
      appended under the next serial id. */
  function FindOrCreate(users: seq<User>, nextId: UserId, profile: Profile): (r: (seq<User>, User))
    ensures r.1 in r.0 && r.1.email == profile.email
    ensures EmailTaken(users, profile.email) ==> r.0 == users
    ensures !EmailTaken(users, profile.email) ==>
      r == (users + [NewGoogleUser(nextId, profile)], NewGoogleUser(nextId, profile))
  {
    match FindByEmail(users, profile.email)
    case Some(u) => (users, u)
    case None =>
      var u := NewGoogleUser(nextId, profile);
      (users + [u], u)
  }

  /** An account that already exists, password-only ones included, is the one
      a Google login with its email logs into. */
  lemma FindOrCreateReuses(users: seq<User>, nextId: UserId, u: User, profile: Profile)
    requires UsersOk(users, nextId)
    requires u in users && profile.email == u.email
    ensures FindOrCreate(users, nextId, profile) == (users, u)
  {
    FindByEmailUnique(users, nextId, u);
  }

  /** A second Google login with the same email, whatever the profile id,
      inserts nothing and yields the same user, so the same id. */
  lemma FindOrCreateIdempotent(users: seq<User>, nextId: UserId, nextId': UserId, profile: Profile, profile': Profile)
    requires profile'.email == profile.email
    ensures FindOrCreate(FindOrCreate(users, nextId, profile).0, nextId', profile') ==
      FindOrCreate(users, nextId, profile)
  {
    var (users', u) := FindOrCreate(users, nextId, profile);
    if FindByEmail(users, profile.email).None? {
      FindByEmailAppend(users, u, profile.email);
    }
  }

  /** An account created by a Google login has no hash, so the local strategy
      never authenticates it: it ends in an error. */
  lemma GoogleAccountNoLocalLogin(users: seq<User>, nextId: UserId, profile: Profile, password: string, h: Hasher)
    requires !EmailTaken(users, profile.email)
    ensures LocalVerify(FindOrCreate(users, nextId, profile).0, profile.email, password, h, false) == Error(MissingHash)
  {
    FindByEmailAppend(users, NewGoogleUser(nextId, profile), profile.email);
  }

  /** The Google strategy's verify callback on the store: the SELECT fails
      when `selectFault`, the INSERT ... RETURNING when `insertFault`. */
  method GoogleVerify(store: Store, profile: Profile, selectFault: bool, insertFault: bool) returns (r: AuthOutcome)
    requires store.Valid()
    modifies store
    ensures store.Valid()
    ensures store.tasks == old(store.tasks)
    ensures selectFault ==> r == Error(StoreFailure) && store.users == old(store.users)
    ensures !selectFault && (EmailTaken(old(store.users), profile.email) || !insertFault) ==>
      var created := FindOrCreate(old(store.users), old(store.nextUserId), profile);
      r == Success(created.1) && store.users == created.0
    ensures !selectFault && !EmailTaken(old(store.users), profile.email) && insertFault ==>
      r == Error(StoreFailure) && store.users == old(store.users)
  {
    if selectFault {
      return Error(StoreFailure);
    }
    var existing := FindByEmail(store.users, profile.email);
    if existing.Some? {
      return Success(existing.value);
    }
    var inserted := store.InsertUser(profile.email, None, Some(profile.id), insertFault);
    if inserted.None? {
      return Error(StoreFailure);
    }
    r := Success(inserted.value);
  }

  // ----------------------------------------------------------- serialiser

  /** `serializeUser`: the session keeps only the user's id, the primary key;
      `SerializeRoundTrip` shows the lookup inverts it. */
  function SerializeUser(u: User): (id: UserId)
    ensures id == u.id
  {
    u.id
  }

  /** `deserializeUser`: look the id up and hand `rows[0]` on. For a missing
      row that is `undefined`, here `Ok(None)`; only a failing SELECT is
      reported as an error by the callback itself. */
  function DeserializeUser(users: seq<User>, id: UserId, fault: bool): (r: Result<Option<User>>)
    ensures fault <==> r.Err?
    ensures r.Err? ==> r.cause == StoreFailure
    ensures r.Ok? && r.value.Some? ==> r.value.value in users && r.value.value.id == id
    ensures r.Ok? ==> (r.value.None? <==> forall u :: u in users ==> u.id != id)
  {
    if fault then Err(StoreFailure) else Ok(FindById(users, id))
  }

  /** Deserialising what was serialised gives back the very row while it is
      stored, and no user once no row has its id. */
  lemma SerializeRoundTrip(users: seq<User>, nextId: UserId, u: User)
    requires UsersOk(users, nextId)
    ensures u in users ==> DeserializeUser(users, SerializeUser(u), false) == Ok(Some(u))
    ensures (forall v :: v in users ==> v.id != u.id) ==> DeserializeUser(users, SerializeUser(u), false) == Ok(None)
  {
    if u in users {
      FindByIdUnique(users, nextId, u);
    }
  }
}
