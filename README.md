# Event registration site: repository and route decisions

A model of the decision logic and bookkeeping of a small server-rendered
event-registration site. Visitors list events and register for one, giving a
name and a comment. Submitting the same (name, event) pair again withdraws the
registration. A signed-in admin creates, updates and removes events, and
people sign up as users.

The PostgreSQL tables `events`, `registrations` and `users` are held in memory
as sequences of records in the class `Db.Database`. Its methods change them
the way the SQL statements do. The read-only selections are functions over the
table sequences.

Every call of the query executor `query` gets a `Db.QueryStatus` argument:
`Ran`, or `Failed`, which is when `query` returns `null` because no pooled
connection was available or the statement failed. A JavaScript exception that
escapes a function is a `Threw` or `Raised` outcome. This covers reading
`rows` of a `null` result and reading `.id` of a missing event. `slugify`,
`xss` and the bcrypt hash are function-valued parameters that the model does
not interpret.

Modules:

- `Wrappers`: `Option` and `Outcome`.
- `Rows`: the `WHERE` of a `SELECT` (`Filter`) and of a `DELETE` (`Reject`), plus `OFFSET`/`LIMIT` (`Window`).
  It also has the "exactly one row matched" predicate and lemmas about them.
- `Db` (`src/lib/db.js`): the records, the read functions and the `Database` class.
- `Users` (`src/lib/users.js`): the user lookups, so far as they encode their results, the membership check, and `createUser`.
- `Pagination`: the `page` record as the class `Page`, with its invariant that the offset is a non-negative multiple of `pageincrement` (10).
  It also has the page-count arithmetic and the lemma that the counted pages list every event exactly once.
- `Site`: the process-wide state, which is one database and the two distinct `page` records.
  One record belongs to `src/routes/admin-routes.js` and one to `src/routes/index-routes.js`.
- `Web`: what a handler does (`Next`, `Rerender`, `Redirect`, `ErrorView`, `Sent`, `Listing`, `Raised`), without rendering anything.
- `AdminRoutes`, `IndexRoutes`, `UserRoutes`: the three route modules.

Where the code and its comments disagree, the model follows the code:
`updateEvent` sets `description`. The SQL says so at `src/lib/db.js:85`,
although the comment above the function (`src/lib/db.js:78`) says it does not.

The user lookups encode their results differently:

- `findByUsername` returns the row, `false` for zero or several matching rows, and `null` for a failed query.
- `findById` returns `null` both for "not found" and for a failed query.

## Model

| member | source | states |
|---|---|---|
| `Rows.Filter` | src/lib/db.js:200-216 | the selected rows are exactly the table rows that satisfy the condition |
| `Rows.Reject` | src/lib/db.js:136-142 | the rows left by a `DELETE ... WHERE` are exactly the rows that fail the condition |
| `Rows.Window` | src/lib/db.js:144-161 | `OFFSET`/`LIMIT` returns at most `limit` rows, nothing past the end, row `i` being table row `offset + i`, and all remaining rows when the limit is `NULL` |
| `Rows.FilterSingleton` | src/lib/db.js:174-178 | `rowCount === 1` holds exactly when one row matches, and `rows[0]` is then that row |
| `Rows.FilterKeepsUniqueKeys` | src/lib/db.js:104-105 | deleting rows keeps ids (or any other key) unique |
| `Db.SelectOne` | src/lib/db.js:171-178 | the row is returned only when the query ran and exactly one row matched; zero or several matches and a failed query give `null` |
| `Db.ListEvents` | src/lib/db.js:144-161 | `null` exactly when the query failed; otherwise at most `limit` rows, each an existing event, and a non-empty list while the offset is inside the table and the limit is not 0 |
| `Db.ListEvent` | src/lib/db.js:163-179 | the event with that slug when exactly one event has it, otherwise `null` |
| `Db.ListEventByName` | src/lib/db.js:182-198 | the event with that name when exactly one event has it, otherwise `null` |
| `Db.ListRegistered` | src/lib/db.js:200-216 | exactly the registrations whose `event` is the argument, or `null` on failure |
| `Db.EventAmount` | src/lib/db.js:218-223 | the number of events; a failed query throws |
| `Db.CreatedEventFoundBySlug` | src/lib/db.js:163-179 | an event created under a slug no other event has is what `listEvent` then returns for that slug |
| `Db.UpdatedRow` | src/lib/db.js:79-101 | with unique ids the `UPDATE` matches one row exactly when the id exists, and `RETURNING` gives that row with the new fields |
| `Db.Database.CreateEvent` | src/lib/db.js:60-76 | appends one row with a fresh id and returns it; a failed query returns `null` and changes nothing |
| `Db.Database.UpdateEvent` | src/lib/db.js:79-101 | sets name, slug, description, location and url on the rows with that id and leaves the others unchanged; returns the row only when one row matched |
| `Db.Database.RemoveEvent` | src/lib/db.js:103-115 | two separate deletes: after each one that ran, no registration has `event = id`, and no event has that id; returns nothing in every case |
| `Db.Database.Register` | src/lib/db.js:117-134 | appends one registration (name, comment, event) and returns it; `null` on failure |
| `Db.Database.RemoveRegistration` | src/lib/db.js:136-142 | deletes every registration with both that name and that event and keeps all others |
| `Users.FindByUsername` | src/lib/users.js:17-32 | the row when exactly one user has the username, `false` for zero or several, `null` when the query failed |
| `Users.FindById` | src/lib/users.js:34-48 | the row when exactly one user has the id, `null` otherwise, failure included |
| `Users.UserInEvent` | src/lib/users.js:50-65 | true exactly when some registration has both that name and that event; a failed query throws |
| `Users.CreateUser` | src/lib/users.js:67-90 | stores `xss(name)`, `xss(username)` and the hash of the password and returns the row; `false` when the query failed |
| `Pagination.PageCount` | src/routes/admin-routes.js:24 | the least number of 10-row pages holding `n` rows (integer `Math.ceil(n / 10)`) |
| `Pagination.PageOfOffset` | src/routes/admin-routes.js:213 | for an offset that is a multiple of 10, `ceil((pagenumber + 1) / 10)` is the number of its page counted from 1 |
| `Pagination.FirstPagesArePrefix` | src/routes/admin-routes.js:22 | the first `k` pages fetched at offsets `0, 10, ...` are the first `10k` rows |
| `Pagination.EveryRowOnOnePage` | src/routes/admin-routes.js:22-24 | the `pageamount` pages list every event exactly once, and the last of them is not empty |
| `Pagination.NextRunsPastEmptyListing` | src/routes/admin-routes.js:211-217 | with `pageamount` 0, `k` calls of `nextpage` move the offset to `10k`, past the end |
| `Pagination.IntendedNextOffset` | src/routes/admin-routes.js:211-217 | the intended step keeps the offset a multiple of 10 and never moves it past the last counted page |
| `Pagination.IntendedAgreesOnListedPages` | src/routes/admin-routes.js:213-215 | on every offset of a non-empty listing, the intended step and the written one agree |
| `Pagination.Page.constructor` | src/routes/admin-routes.js:19 | starts at `pagenumber` 0 and `pageamount` 0, with the invariant established |
| `Pagination.Page.PreviousPage` | src/routes/admin-routes.js:204-210 | offset 0 stays; any other offset goes back by exactly 10; the invariant and "on a listed page" are kept |
| `Pagination.Page.NextPage` | src/routes/admin-routes.js:211-217 | steps by 10 unless `pageamount` equals `ceil((pagenumber + 1) / 10)`; keeps the invariant, and keeps the offset on a listed page when `pageamount >= 1` |
| `Pagination.Page.SetPageAmount` | src/routes/admin-routes.js:23-24 | `pageamount` becomes the page count of the event count, and the offset is unchanged |
| `Site.State.constructor` | src/routes/index-routes.js:18 | one database and two distinct, freshly initialised `page` records |
| `AdminRoutes.Index` | src/routes/admin-routes.js:21-38 | lists `pageincrement` events from the admin offset and sets the admin `pageamount` to the page count; the public `page` is untouched; a failed count throws |
| `AdminRoutes.PreviousPage` | src/routes/admin-routes.js:204-210 | the previous-page step on the admin record only, then a redirect to `/admin` |
| `AdminRoutes.NextPage` | src/routes/admin-routes.js:211-217 | the next-page step on the admin record only, then a redirect to `/admin` |
| `AdminRoutes.ValidationCheck` | src/routes/admin-routes.js:40-78 | `next()` exactly when there are no field errors and no unique same-named event; otherwise the errors are the field errors followed by the `name` error when there is a clash |
| `AdminRoutes.ValidationCheckUpdate` | src/routes/admin-routes.js:80-119 | a name match blocks only if its id differs from the edited event's id, and then the errors are the field errors followed by the `name` error; a match while the edited event is missing throws |
| `AdminRoutes.OwnerOf` | src/routes/admin-routes.js:126-127 | the owner is the found user's id; `false` gives no owner |
| `AdminRoutes.RegisterRoute` | src/routes/admin-routes.js:121-136 | inserts the event with `slugify(name)` and the owner, then redirects to `/admin`; a failed insert shows the error view; a failed user lookup throws |
| `AdminRoutes.UpdateRoute` | src/routes/admin-routes.js:138-159 | rewrites the event found by its slug with the new fields and slug, then redirects; a missing event throws |
| `AdminRoutes.EventRemove` | src/routes/admin-routes.js:185-191 | removes the event found by its slug and its registrations, then redirects; a missing event throws before anything is deleted |
| `AdminRoutes.CreateKeepsNamesUnique` | src/routes/admin-routes.js:57-64 | a create that passed the check on a lookup that ran keeps event names unique |
| `AdminRoutes.UpdateKeepsNamesUnique` | src/routes/admin-routes.js:98-105 | an update that passed the check on lookups that ran keeps event names unique |
| `IndexRoutes.IndexRoute` | src/routes/index-routes.js:20-34 | lists events from the public offset and sets the public `pageamount`; the admin `page` is untouched |
| `IndexRoutes.PreviousPage` | src/routes/index-routes.js:125-131 | the previous-page step on the public record only, then a redirect to `/` |
| `IndexRoutes.NextPage` | src/routes/index-routes.js:132-138 | the next-page step on the public record only, then a redirect to `/` |
| `IndexRoutes.ValidationCheck` | src/routes/index-routes.js:70-96 | a missing event throws; otherwise `next()` when the field-error list is empty, and a re-render with exactly those errors when it is not |
| `IndexRoutes.RegisterRoute` | src/routes/index-routes.js:98-121 | an unregistered pair gets exactly one new registration; a registered pair gets no insert and all its registrations deleted, after which `userInEvent` is false; both redirect to `/<slug>`; a failed insert shows the error view; at most one registration per pair is kept |
| `IndexRoutes.ResubmissionWithdraws` | src/routes/index-routes.js:98-121 | submitting the same pair twice leaves the registrations as they were, and the event's list no longer has the name |
| `UserRoutes.ValidateUser` | src/routes/user-routes.js:27-52 | the checks run in order: name, then username, then lookup failure, then username taken, then password, each failing check giving its own message; `null` exactly when all five pass |
| `UserRoutes.Register` | src/routes/user-routes.js:54-71 | sends the message and stores nothing when validation fails; otherwise calls `createUser` and goes on with `next()` |

## Left out

- Express routing, `res.render`/`res.redirect`/`res.send` rendering and `catchErrors` are not modelled. Handlers return a `Web.Response` naming the outcome they choose.
- Handlers that only render are not modelled: `eventRoute` in both route modules, `eventRegisteredRoute`, `login`, and its session messages.
- Passport authentication, login, logout and `comparePasswords` are not modelled. They are calls into a library whose behaviour is not visible.
- `slugify`, `xss` and `bcrypt.hash` are parameters that the model does not interpret. The salt and `BCRYPT_ROUNDS` are folded into the hash parameter.
- The express-validator rules and sanitizers are not modelled, because `validation.js` is not part of this model. Their findings are an opaque list of `FieldError`s.
- `AdminRoutes.CreateKeepsNamesUnique` and `AdminRoutes.UpdateKeepsNamesUnique` assume that the name written is the name checked. A sanitizer that runs between the check and the write could change the name.
- The pg pool is not modelled, nor connect/release, logging, SSL selection, `process.exit`, `createSchema`/`dropSchema` and `end`. The query executor appears only as the `Ran`/`Failed` outcome of each call.
- The schema is not part of this model. A violated constraint, such as a unique username or a foreign key, is a `Failed` query.
- A failed insert consumes no `serial` id in the model.
- The `created` and `updated` timestamps are not modelled.
- `RETURNING` and `SELECT` column lists are not modelled: the functions return whole rows.
- `Db.ListEvents`: the contract states only the size bound, membership, and non-emptiness inside the table, because SQL without `ORDER BY` fixes no order. The body uses table order. `Pagination.EveryRowOnOnePage` assumes that order is the same for every page query.
- `removeEvent` at `src/routes/admin-routes.js:188` and the delete in `removeRegistration` are not awaited. The model finishes them before the redirect. Concurrent requests that share a `page` record are not modelled either.
- Reads whose results only reach a view are not modelled: `findByUsername` in `index`, `listEvents()` in `validationCheck`, and `listRegistered` in the public `validationCheck`. The model keeps only the throw in the last one, from reading the id of a missing event.
- `Math.ceil(Number(x) / 10)` is modelled as integer ceiling division on non-negative integers.
- `typeof v === 'string'` is modelled as `Some`. A string's `length` is counted in characters, not in UTF-16 code units.

## Findings

| source | as written | input that shows it | evidently intended | confidence | as-written member | corrected member |
|---|---|---|---|---|---|---|
| src/routes/admin-routes.js:213 | `nextpage` steps whenever `pageamount` differs from `ceil((pagenumber + 1) / 10)` (the same guard is at src/routes/index-routes.js:134) | `pageamount` 0 with `pagenumber` 0, which happens with no events, or before any listing was shown: every call adds 10, so the offset runs past the end | step only while the offset is before the last counted page | not executed | `Pagination.NextRunsPastEmptyListing` | `Pagination.IntendedNextOffset` |

The route handlers keep the step as written, because the model follows the
code. `Pagination.IntendedAgreesOnListedPages` proves that the corrected step
agrees with the written one on every offset of a non-empty listing. The two
differ only past the end.
