# Task app authentication and task authorisation, modelled in Dafny

This project models the authentication core of a small Express/Passport
to-do application and the per-user rules that guard its tasks.

- Users sign in with an email and a password. The local strategy checks the
  password against a stored bcrypt hash.
- Users can also sign in with Google. The Google strategy finds the account
  with the profile's email, or creates one.
- The session keeps only the user's id. Each request looks that id up again.
- Protected routes pass through the `ensureAuthenticated` gate. The task
  routes read and change only the caller's own rows.

Files and modules:

- `tables.dfy`, module `Tables`: the `users` and `tasks` tables as sequences
  of rows in insertion order. It holds the SELECT queries as functions and a
  `Store` class. The class keeps the two tables and their serial id counters,
  and its methods are the INSERT, UPDATE and DELETE statements. `Store.Valid`
  states the table invariants: ids below the next serial value and increasing
  in insertion order, and no email stored twice.
- `bcrypt.dfy`, module `Bcrypt`: bcrypt as an abstract pair, `hash` and
  `compare`. Nothing is assumed of the pair except `Sound`: a password
  matches its own hash.
- `passport.dfy`, module `Passport`: the local and Google verify callbacks,
  `serializeUser` and `deserializeUser`. Each outcome is a tagged
  `AuthOutcome`: `Error`, `Reject(message)` or `Success(user)`.
- `routes.dfy`, module `Routes`: the `Session` class, the gate, and the
  handlers as methods on the store and the session. Each handler returns a
  `Response`: a redirect, a rendered page, or `next(err)`.

Store and session failures are boolean parameters, one for each statement
that can fail. A failure takes the same branch as the source's `catch`.

A local login against an account without a hash never succeeds.
`bcrypt.compare` rejects on the absent hash and the catch calls `cb(err)`, so
`LocalVerify` returns `Error(MissingHash)` and `POST /login` ends in
`next(err)`.

A session whose user row has been deleted does not fall back to anonymous.
`deserializeUser` passes `rows[0]`, which is `undefined`. Passport treats
only `null` or `false` as "user removed", so the session middleware fails
every request carrying that session with `next(err)`. `CurrentUser` models
this and returns `Err(DeserializeFailure)`.

## Model

| member | source | states |
|---|---|---|
| `Tables.FindByEmail` | passport/passport.js:15-18 | the email lookup returns a stored row with that email, and returns nothing exactly when no stored row has it |
| `Tables.FindById` | passport/passport.js:64-65 | the id lookup returns a stored row with that id, and returns nothing exactly when no row has it |
| `Tables.OwnedBy` | routes/index.js:72 | a task is listed if and only if it is stored and its `user_id` is the given user, and each listed task appears exactly as often as it is stored |
| `Tables.FindTask` | routes/index.js:93-94 | the id-and-owner lookup returns a stored task with both, and returns nothing exactly when no task has both |
| `Tables.UpdateTask` | routes/index.js:104-105 | same length; each row matching both id and `user_id` gets the new title, description and completion and keeps its id and owner; every other row is unchanged |
| `Tables.RemoveTask` | routes/index.js:118-119 | a row survives if and only if it was stored and does not match both id and `user_id` |
| `Tables.FindByEmailUnique` | passport/passport.js:23 | with unique emails, `rows[0]` for a stored row's email is that row |
| `Tables.FindByEmailAppend` | passport/passport.js:48-51 | after a row is appended, the email lookup gives the old answer when there was one, else the new row when its email matches |
| `Tables.FindByIdUnique` | passport/passport.js:64-65 | with increasing ids, the id lookup for a stored row's id is that row |
| `Tables.RemoveTaskKeepsOk` | routes/index.js:118-119 | deleting rows keeps the tasks table's ids bounded and increasing |
| `Tables.RemoveTaskExactlyOne` | routes/index.js:115-119 | with distinct ids, deleting a task the lookup finds removes exactly one row, that task, and keeps every other row |
| `Tables.RemoveTaskNoMatch` | routes/index.js:118-119 | a DELETE that matches no row leaves the table unchanged |
| `Tables.Store.InsertUser` | routes/index.js:60 | the INSERT fails exactly when the store fails or the email is already stored, and then changes nothing; otherwise it appends one row with the next serial id and exactly the given fields and returns it; the tasks table is untouched; the invariant holds |
| `Tables.Store.InsertTask` | routes/index.js:82-83 | on success, one row is appended with the next id, the given owner, title and description and `completed` false; on failure nothing changes; users untouched |
| `Tables.Store.UpdateTasks` | routes/index.js:104-105 | on success the tasks table becomes `UpdateTask` of the old one; on failure it is unchanged; users untouched |
| `Tables.Store.DeleteTasks` | routes/index.js:118-119 | on success the tasks table becomes `RemoveTask` of the old one; on failure it is unchanged; the invariant holds |
| `Passport.UnregisteredMessage` | passport/passport.js:20-21 | the unregistered-email message starts with the fixed prefix, names the email that was tried, and never equals "Incorrect password", so the two rejections can be told apart |
| `Passport.LocalVerify` | passport/passport.js:12-33 | a failing query gives an error; an email that no row has gives the "Unregistered email" rejection; success only with a stored row that has this email and a hash the password matches; "Incorrect password" only when such a row's hash does not match; a missing-hash error only when such a row has no hash; the table is only read |
| `Passport.LocalVerifyRow` | passport/passport.js:23-28 | for a stored email, the outcome is an error if the row has no hash, success with exactly that row if the password matches, and "Incorrect password" otherwise |
| `Passport.FindOrCreate` | passport/passport.js:44-52 | the returned user is in the returned table and has the profile's email; an email already stored leaves the table unchanged; a new email appends exactly one row with that email, `google_id` = profile id and no password, and returns it |
| `Passport.FindOrCreateReuses` | passport/passport.js:44-47 | a Google login with a stored email returns that very row, password or not, and inserts nothing |
| `Passport.FindOrCreateIdempotent` | passport/passport.js:44-52 | a second Google login with the same email, whatever the profile id, changes nothing and yields the same user, so the same id |
| `Passport.GoogleAccountNoLocalLogin` | passport/passport.js:24-32 | an account created by a Google login is never authenticated by the local strategy: the outcome is the missing-hash error |
| `Passport.GoogleVerify` | passport/passport.js:42-56 | a failing SELECT gives an error and changes nothing; otherwise the users table and the returned user are those of `FindOrCreate`, except that a failing INSERT gives an error and changes nothing; tasks untouched; the invariant holds |
| `Passport.SerializeUser` | passport/passport.js:58-60 | the session token is the user's id, the primary key, and nothing else of the row; `SerializeRoundTrip` shows the id lookup inverts it |
| `Passport.DeserializeUser` | passport/passport.js:62-69 | only a failing SELECT is an error; a returned user is stored and has the id; the result is "no user" exactly when no stored row has the id |
| `Passport.SerializeRoundTrip` | passport/passport.js:58-66 | deserialising what `serializeUser` stored gives back the same row while it is stored; once no row has its id the callback itself passes no user (`undefined`), not an error of its own |
| `Routes.Session.constructor` | server.js:14-19 | a new session holds no user id, so it is anonymous |
| `Routes.CurrentUser` | passport/passport.js:62-68 | an anonymous session carries no user; a user it carries is stored and has the session's id; the request fails exactly when the session holds an id and the lookup fails or no row has that id, and the second case is the deserialisation error, not "no user" |
| `Routes.EnsureAuthenticated` | routes/index.js:10-13 | the handler proceeds if and only if the request carries a user, and proceeds with that user; otherwise the request goes to `/login` |
| `Routes.LoggedInSessionResolves` | passport/passport.js:58-66 | after login, a later request resolves to the logged-in row and passes the gate while the row is stored; once the row is gone the request ends in the deserialisation error before any protected handler runs |
| `Routes.PostLogin` | routes/index.js:24-36 | a strategy error goes to `next(err)`; a rejection re-renders login with its message; a success stores the user's id in the session and redirects to `/dashboard`; a failing `req.logIn` goes to `next(err)`; the session changes only on success |
| `Routes.PostRegister` | routes/index.js:55-67 | on success, one row is appended with the email, the hash of the password (never the raw password) and no `google_id`, then redirect to `/login`; a failing or duplicate-email insert leaves users unchanged and re-renders register with the error |
| `Routes.RegisterThenLogin` | routes/index.js:57-60 | after registering, local login with that password succeeds with the new row; a password that does not match the hash gives "Incorrect password"; an unstored email gives the unregistered rejection |
| `Routes.Dashboard` | routes/index.js:70-78 | unauthenticated or failing requests go to `/login`; otherwise the page lists exactly the stored tasks whose `user_id` is the caller's, each as often as it is stored |
| `Routes.AddTask` | routes/index.js:80-89 | unauthenticated: `/login`, tasks unchanged; authenticated: `/dashboard` on every path, and on success exactly one row owned by the caller is appended with the title and description |
| `Routes.EditTaskForm` | routes/index.js:91-100 | unauthenticated: `/login`; failing query: `/dashboard`; otherwise the form shows only a stored task with that id that the caller owns, and shows one whenever one exists |
| `Routes.EditTask` | routes/index.js:102-111 | unauthenticated: `/login`, tasks unchanged; authenticated: `/dashboard`, and the tasks table becomes `UpdateTask` with `completed` true exactly when the field is "on", applied only to the caller's row with that id |
| `Routes.Deletable` | routes/index.js:117 | the delete condition holds only if some stored task has the id, is owned by the caller and is completed, and never when no task has both the id and the owner |
| `Routes.DeleteTask` | routes/index.js:113-129 | unauthenticated: `/login`, tasks unchanged; authenticated: `/dashboard` on every path; the task is removed only when the lookup finds it among the caller's tasks, it is completed and neither statement fails, and otherwise the table is unchanged |
| `Routes.DeleteRemovesOnlyThatTask` | routes/index.js:115-119 | when the delete rule holds, exactly one row goes: the caller's completed task with that id; when it fails, no row matching the id and the caller is completed |
| `Routes.Logout` | routes/index.js:132-134 | the session becomes anonymous and the request goes to `/login` |
| `Routes.LoggedOutIsDenied` | routes/index.js:10-13 | after logout, a request carries no user whatever the store holds, and the gate redirects every protected route |

## Left out

- Server wiring in `server.js` is not modelled: Express, the session middleware, static files, the view engine, `dotenv` and `listen`. The 24-hour cookie expiry is also left out. It needs a clock, so no session here expires.
- The OAuth2 redirect and code exchange are not modelled (routes/index.js:39-48 and the strategy options at passport/passport.js:36-41). They are library and network code. `GoogleVerify` starts from a verified profile.
- bcrypt internals are not modelled: salting, the cost factor `saltRounds = 10`, and constant-time comparison. Hashing is one fixed function of the password.
- SQL text, the connection pool and the causes of a store failure are not modelled. Each statement that can fail gets a boolean fault parameter.
- The table schema is not part of this model. Two things about it are assumed: emails are unique, and a new task's `completed` starts as false.
- Route ids come in as strings and are cast by the database. Here they are integers, and a failing cast counts as a store failure.
- `Tables.Store.InsertUser`: a failed INSERT leaves the serial counter unchanged. PostgreSQL would consume a sequence value.
- View rendering is not modelled beyond the page chosen and the parameters that matter: the error message, the task list and the task being edited. So how the edit page renders an absent task is not modelled.
- `console.log` diagnostics are not modelled.
- passport-local's check for missing credentials, which runs before the verify callback, is library code and is not modelled.
- `Routes.DeleteTask`: the handler runs as one atomic step. In the source, the SELECT (routes/index.js:115) and the DELETE (routes/index.js:118) are separate awaits, and the DELETE does not re-check `completed`. A concurrent edit by the same user that clears `completed` in between gets an uncompleted task deleted. The model does not capture this interleaving.
- `Routes.PostRegister`, `Routes.AddTask`, `Routes.EditTask`, `Routes.PostLogin`: request body fields are always strings. A missing `password` makes `bcrypt.hash` reject, and the catch re-renders register; the model folds that into `fault`. A missing title or description would be stored as NULL, which the model cannot express.
- `Routes.PostLogin`: when `req.logIn` fails, the session is taken as unchanged. The model does not track a session that was regenerated but not saved.
- The race between two concurrent first-time Google logins is not modelled. It depends on async interleaving and a database constraint, and the source does not handle it.
- The Google callback's success and failure redirects are not modelled (routes/index.js:44-48).
