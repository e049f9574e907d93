# Campus-activity registration server, modelled in Dafny

`server.js` is an Express server backed by MySQL. Students enrol in campus
activities (*kegiatan*) and administrators manage those activities. This project
models the server's request handlers as one sequential state machine and proves
properties of that model.

- `records.dfy` (module `Records`) defines the rows of the three tables: `users`,
  `kegiatan` and `pendaftaran` (enrolments). It also defines:
  - the session snapshot of an account;
  - the row shapes of the two enrolment listings;
  - an abstract password digest (`Hash` / `Verify`) that stands in for bcrypt.
- `query.dfy` (module `Query`) models what the handlers' SQL statements do, over
  tables held as sequences in their physical order:
  - `WHERE column = ?` and its complement for `DELETE`;
  - `ORDER BY ... DESC`;
  - the inner `JOIN` of an enrolment with its activity;
  - lemmas about key uniqueness.
- `replies.dfy` (module `Replies`) holds every JSON answer of the handlers: the
  HTTP status and the exact `message` text.
- `guards.dfy` (module `Guards`) models the two middlewares, `requireLogin` and
  `requireRole(role)`, and their chaining on a route.
- `server.dfy` (module `Server`) has class `App`, which holds the three tables,
  the `AUTO_INCREMENT` counters and the session of the one client the model
  follows.
  - Each handler that writes is a method. Its contract states the reply and the
    new tables case by case, in the handler's own order of checks.
  - The three listings are functions of the state.
  - `Valid()` holds the invariants every handler keeps:
    - emails are unique;
    - a student has at most one enrolment per activity;
    - enrolment ids and activity ids are unique and below their counters;
    - a session is the snapshot of an existing account.
- `scenarios.dfy` (module `Scenarios`) holds short request sequences against a
  fresh server. They are proved from the handlers' contracts alone.

The roles are the strings the code compares against: `"admin"` and `"mahasiswa"`
(student). A body field that is absent counts as JavaScript-falsy: `""` for a
string, `0` for an id or a date. Two inputs are the exception and are modelled
with `Option`:
- the description of a new activity, because the code writes `deskripsi || ""`;
- the admin listing's `kegiatan_id` query parameter, because the code writes
  `|| null`.

Dates are integers, ordered like instants.

Three choices follow the code:
- The admin routes and the student history run `requireLogin` before
  `requireRole`, so a request without a session gets 401 on those routes.
  `requireRole` alone would give 403; `Guards.LoginThenRoleRefinesRole` states
  both behaviours.
- `/register` checks only that the email is unused. Nothing in `server.js`
  checks that a username is unique. The model therefore lets two accounts share
  a username, and `/login` then takes the first matching row
  (`Server.ReusedUsernameShadowed`).
- Every refusal the handlers produce themselves is a 400, 401 or 403 with the
  handler's exact message.

## Model

| member | source | states |
|---|---|---|
| Guards.RequireLogin | server.js:44-47 | The request passes exactly when a session user exists; otherwise the reply is 401 "Unauthorized". |
| Guards.RequireRole | server.js:49-54 | The request passes exactly when a session user exists and its role equals the given role; otherwise the reply is 403 "Forbidden", also when there is no session. |
| Guards.LoginThenRole | server.js:129 | The chain `requireLogin, requireRole(role)` passes exactly for a session with that role. No session gives 401; a session with another role gives 403. |
| Guards.LoginThenRoleRefinesRole | server.js:44-54 | Putting `requireLogin` in front admits exactly the requests `requireRole` admits. It only changes the refusal for a missing session from 403 to 401. |
| Records.Hash | server.js:71 | The digest of a password verifies that password and no other one (what `bcrypt.compare` relies on at line 94). |
| Records.VerifyRehashes | server.js:94 | `Verify`, the model of `bcrypt.compare`, accepts a password exactly when hashing it with the digest's own salt gives back the digest. |
| Records.SnapshotForgetsOnlyPassword | server.js:98 | The session object `Snapshot` builds keeps every column of the account except the password. Two rows give the same session exactly when they differ at most in their digests. |
| Server.App.Register | server.js:59-77 | Any empty field gives "Semua field wajib diisi". An email already in `users` gives "Email sudah terdaftar". Both leave `users` and its id counter unchanged. Otherwise exactly one account is appended, with the next id and the hash of the password. Email uniqueness is preserved. |
| Server.App.Login | server.js:85-99 | Empty credentials give 400. No row with the username gives "User tidak ditemukan". A password that does not verify against the first such row gives "Password salah". All three leave the session as it was. Otherwise the session becomes that row without its password, and it is returned. |
| Server.RegisterThenLogin | server.js:59-99 | After a successful registration with an unused username, login with the same username and password finds the new account, verifies the password and sets the session to the new account. |
| Server.ReusedUsernameShadowed | server.js:66-93 | When the username is already taken, registration still appends the row, but login keeps finding the older row. The new account is never the one logged in. |
| Server.App.Logout | server.js:107-111 | The session is destroyed whatever it was, and the reply is always "Logout sukses". |
| Server.App.KegiatanListing | server.js:116-121 | Open to anyone. Every activity appears as often as it is stored, with the latest start date first. |
| Server.App.CreateKegiatan | server.js:129-141 | A failing guard gives its reply and changes nothing. A missing name, start or end gives "Lengkapi data kegiatan". Every refusal leaves the table and its id counter unchanged. Otherwise exactly one activity is appended, with the next id and the description defaulted to "". |
| Server.Overwrite | server.js:154-157 | `UPDATE ... WHERE id = ?`: every row with that id becomes the new row and every other row is kept, with ids and order unchanged. An activity is in the result exactly when it is an untouched row, or it is the new row and the id existed. |
| Server.OverwriteIdempotent | server.js:149-159 | Sending the same `PUT` twice leaves the table as sending it once. |
| Server.OverwriteKeepsUniqueKey | server.js:155 | An update keeps activity ids unique. |
| Server.App.UpdateKegiatan | server.js:149-159 | A failing guard gives its reply and changes nothing. Otherwise the table becomes `Overwrite` of the old one, with no validation of the fields. An unknown id changes nothing and still gives "Kegiatan diperbarui". |
| Server.App.DeleteKegiatan | server.js:167-173 | A failing guard gives its reply and changes nothing. Otherwise exactly the rows with a different id remain, and the reply is "Kegiatan dihapus" even when none was removed. |
| Server.App.Daftar | server.js:183-223 | The checks run in the code's order and the first failure answers with nothing written: no session gives 401; a role other than "mahasiswa" gives 403; missing fields; unknown activity; `now` after the activity's end; an existing enrolment of the same student in the same activity. Every refusal leaves the table and its id counter unchanged. Otherwise exactly one row is appended, with the next id, copying the session's id, username and email. At most one enrolment per student and activity, and unique enrolment ids, are preserved. |
| Server.App.AdminListing | server.js:231-246 | A failing guard gives its reply. Otherwise a row is listed exactly when it joins an enrolment with its activity, restricted to one activity when the parameter is given. No row occurs twice, so each such enrolment is listed exactly once. Rows are sorted by enrolment time, latest first. |
| Server.App.StudentListing | server.js:254-265 | A failing guard gives its reply. Otherwise a row is listed exactly when it joins one of the session user's enrolments with its activity. Each is listed exactly once. Rows are sorted by enrolment time, latest first. |
| Query.Where | server.js:194 | The filtered rows are exactly the rows of the table that satisfy the condition. None exists exactly when the result is empty. |
| Query.WhereEq | server.js:90 | `WHERE column = ?` returns exactly the rows with that key. It is empty exactly when no row has the key. |
| Query.WhereNe | server.js:171 | `DELETE ... WHERE id = ?` keeps exactly the rows with another key. |
| Query.WhereNeIdempotent | server.js:171 | Repeating a `DELETE` removes nothing more. |
| Query.WhereCounts | server.js:66 | A `WHERE` keeps each matching row as many times as the table holds it, and drops every other row. |
| Query.WhereEqAppend | server.js:72-75 | After an `INSERT` the lookup by key finds the old matches, then the new row if it has the key. |
| Query.WhereHeadIsFirstMatch | server.js:90-93 | `rows[0]` of a lookup is the first row of the table with that key. |
| Query.UniqueKeyAtMostOne | server.js:207-215 | Under the per-student, per-activity uniqueness the duplicate check finds at most one enrolment. |
| Query.AppendKeepsUniqueKey | server.js:207-221 | Inserting a row whose key the check did not find keeps the key unique. |
| Query.WhereKeepsUniqueKey | server.js:171 | Deleting rows keeps a key unique. |
| Query.SortDesc | server.js:243 | `ORDER BY ... DESC` is a permutation of the rows, in descending key order. |
| Query.Join | server.js:235-237 | The inner join holds the projection of every enrolment with a matching activity, and nothing else. |
| Query.MatchesAtMostOne | server.js:237 | Under unique activity ids an enrolment joins with at most one activity. |
| Query.JoinNoDuplicates | server.js:235-237 | When enrolment ids and activity ids are unique and each joined row carries its enrolment's id, the join holds every row at most once: one row per matching pair. |
| Query.AdminRowIdentifiesPendaftaran | server.js:235 | The administrator's columns (`AdminRowOf`: enrolment id, name, NIM, programme, email and time, plus the activity name) identify the enrolment a row shows. |
| Query.StudentRowIdentifiesPendaftaran | server.js:258 | The student's columns (`StudentRowOf`: the same without email) identify the enrolment a row shows. |
| Scenarios.TwoAccounts | server.js:59-77 | Two registrations with different emails append two accounts with ids 1 and 2. |
| Scenarios.Seeded | server.js:129-141 | An administrator who logs in can create an activity, which gets id 1. |
| Scenarios.EmailTakenScenario | server.js:66-70 | A second registration with a taken email is refused and stores nothing. |
| Scenarios.LoginScenario | server.js:85-99 | A wrong password is refused; the right one logs the student in with the stored row minus its password. |
| Scenarios.AliceLoggedIn | server.js:98 | A student's login sets the session to the student's snapshot. |
| Scenarios.DosenLoggedIn | server.js:98 | An administrator's login sets the session to the administrator's snapshot. |
| Scenarios.EnrolmentScenario | server.js:199-223 | Enrolling exactly at the end date succeeds. Enrolling again is refused as a duplicate, and after the end date as closed. One row remains. |
| Scenarios.AdminEnrolScenario | server.js:185-187 | An administrator cannot enrol, and nothing is written. |
| Scenarios.UnknownKegiatanScenario | server.js:194-198 | Enrolling in an unknown activity is refused, and nothing is written. |
| Scenarios.CatalogScenario | server.js:116-164 | The public listing shows an activity, then its new name after an update. |
| Scenarios.DeleteScenario | server.js:167-173 | After the only activity is deleted, the public listing is empty. |
| Scenarios.ReusedUsernameScenario | server.js:59-95 | A second account reusing a username is stored, but cannot log in with its own password. |

## Left out

- The Express and body-parser plumbing, static files, the `/` route, the port and
  `app.listen` are left out: they are wiring, not behaviour.
- The MySQL connection lifecycle and the SQL text are left out. Each statement is
  modelled by its effect on the tables, and the handlers run one at a time.
- The check-then-act race in `/daftar` between two concurrent requests is not
  modelled, because the model runs handlers one at a time. Under that order the
  duplicate check alone keeps enrolments unique.
- Server.App.Register: emails are compared by exact string equality. MySQL compares
  `WHERE email = ?` under the column's collation, which by default ignores case, so
  "A@X.ID" would be refused there after "a@x.id". Collations are not modelled.
- Server.App.Login: usernames are compared by exact string equality, so a login as
  "ALICE" is not found here although a case-insensitive collation would find
  "alice". Collations are not modelled.
- Server.App.Login: `SELECT * FROM users WHERE username = ?` has no `ORDER BY`, and
  SQL does not promise which row comes first. The model returns rows in table
  (insertion) order, which InnoDB does in practice for this query. The lemma
  `Server.ReusedUsernameShadowed` and the reused-username scenario depend on that
  order.
- The `catch` branches (500 "Server error") are not modelled. This includes an
  update whose body lacks a field, which the driver rejects.
- Server.App.UpdateKegiatan: fields are always present, because the `undefined`
  case ends in a 500 reply.
- bcrypt internals are not modelled: the cost factor, the random salt (a
  parameter here) and the truncation of passwords to 72 bytes. The digest keeps
  the password, and the rest of the model reads it only through `Verify`.
- Records.Hash: states that only the hashed password verifies, which real bcrypt
  guarantees only up to hash collisions and the 72-byte truncation.
- Session cookies and their 24-hour expiry are not modelled. The model follows
  one client, whose session is a field.
- `new Date()` and `new Date(tanggal_akhir)` are not modelled. The time of a
  request is the parameter `now`, and dates are integers compared directly. The
  column types of the schema, and so the time of day a `DATE` deadline stands
  for, are not part of this model.
- `tanggal_daftar` is filled by the database's default in `server.js`. The model
  writes the request time `now` into it.
- Server.App.AdminListing: rows with equal enrolment times appear in a stable
  order. SQL leaves that order unspecified, so the contract promises only
  sortedness and exact membership.
- Server.App.StudentListing: rows with equal enrolment times appear in a stable
  order, for the same reason.
- Server.App.KegiatanListing: rows with equal start dates appear in a stable
  order, for the same reason.
- The database schema (its `UNIQUE` constraints and foreign keys) is not part of
  this model.
  - Uniqueness of emails and of (student, activity) pairs is kept by the
    handlers' own checks and proved as `Valid()`.
  - A `UNIQUE` username constraint, if the schema has one, would make a reused
    username fail with a 500.
  - Deleting an activity leaves its enrolments in the table, and the inner join
    stops listing them.
- Integer widths of ids and dates are not modelled: counters are unbounded
  integers.
