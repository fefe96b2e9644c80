# Daily evaluations: the store, its assignment gate, the routes and the client's rules

This project models the core of a small performance-evaluation service.
Employees rate themselves, and evaluators rate the employees an administrator has assigned to them.

The server side keeps three tables: users, evaluations, and evaluator-to-employee assignments.
The central rule is in `createEvaluation`. An evaluation of type "evaluator" whose evaluator id and employee id are both non-null and non-zero is stored only when an assignment row links that evaluator to that employee; otherwise nothing is stored and the call fails. When either id is null or 0, no check is made and the row is stored.

Around that store the model covers:

- the HTTP handlers' status codes;
- the reminder fan-out over all employees;
- the idempotent seeding of three test accounts;
- the client's pure rules: dashboard averages and trends, score colour bands, the trend badge, the history search and type filter, the assign/remove buttons, role badges, and the sidebar's navigation.

Modules:

- `Wrappers`: `Option` and `Result`.
- `Text`: decimal digits, ASCII lower-casing, `includes`, hex encoding, and an exact `toFixed(1)` for a rational number (section 21.1.3.3 of ECMA-262). For `toFixed(1)`:
  - it rounds to the nearest tenth, and on a tie to the larger one;
  - it puts a minus sign before every negative value, even one that rounds to zero.
- `Schema`: the row and insert shapes, and the role enumeration with its default.
- `Storage`: the `Store` class.
  - It has three `seq` tables and the per-table autoincrement counters (for assignments, an assumption; see below).
  - Its invariant `Valid` says ids are strictly increasing and never above the counter, and that usernames are unique.
  - Query functions and state-changing methods.
  - Lemmas relating deletion, insertion, the inner join and the gate.
- `Mail`: the mail transport as a class that logs each attempt and reports success or failure without raising.
- `Routes`: one decision function for every status code, and one method per handler; send-reminders is a loop.
- `Seeding`: `hashPassword`'s output format and the insert-if-absent loop of `initializeTestAccounts`.
- `Ui`: badge variants and colours shared by the client views.
- `Dashboard`, `HistoryTable`, `StatisticCard`, `HistoryFilter`, `UsersManagement`, `Sidebar`: the client's pure logic. The sidebar's array push is written as a method.
- `Scenario`: an end-to-end run. Evaluator 2 is assigned employee 3 and submits a review, which gets 201 and shows a 7.5 average. The assignment is then deleted, and the identical resubmission gets 400 with no new row stored.

Where the behaviour description and the code disagree, the code is followed:

- scores carry no 1 to 10 bound on the server (`shared/schema.ts:19-22`);
- the POST handler does not compare the body's ids with the caller (`server/routes.ts:23-24`);
- `createAssignment` checks neither roles, existence nor duplicates (`server/storage.ts:110-118`);
- a role mismatch on an admin-only route answers 401;
- there is no `status` column, and no assignment routes exist on the server.

The assignment row's shape (id, evaluatorId, employeeId) is not declared in `shared/schema.ts`. It is inferred from `server/storage.ts:97-98,126-127`. Its id is assumed to be AUTOINCREMENT, like the ids of users and evaluations (`shared/schema.ts:6,15`): each new assignment gets one more than the highest id ever handed out, so a deleted row's id is never reused. With a plain INTEGER PRIMARY KEY, SQLite would instead hand out one more than the highest id present, and deleting the last row and creating again would reuse its id.

## Model

| member | source | states |
|---|---|---|
| Schema.ResolveRole | shared/schema.ts:27 | The insert schema derived from the users table: an omitted role becomes employee (the column default). Exactly the three enumerated names are accepted, and each is stored as given. |
| Schema.ResolveRoleName | shared/schema.ts:10 | Each role written out by name and read back is itself. |
| Schema.StampUser | shared/schema.ts:27 | A stored user is the insert record plus the store-assigned id, and removing the id gives back the insert. |
| Schema.StampEvaluation | shared/schema.ts:28 | A stored evaluation is the insert record plus the store-assigned id, and removing the id gives back the insert. |
| Storage.FindUserByName | server/storage.ts:43-51 | Finds a user with that username exactly when one exists. |
| Storage.UsersWithRole | server/storage.ts:72-80 | Keeps exactly the users whose role name equals the argument. |
| Storage.NoUserHasUnknownRole | server/storage.ts:72-80 | A role string outside the enumeration selects nobody. |
| Storage.AssignmentsFrom | server/storage.ts:136-141 | Keeps exactly the assignment rows of the given evaluator. |
| Storage.PairCount | server/storage.ts:97-98 | The number of rows for the pair is positive iff some row links the evaluator to the employee. |
| Storage.PairCountAppend | server/storage.ts:110-113 | Appending a row raises the pair's count by one iff the row links that pair. |
| Storage.WithoutPair | server/storage.ts:120-129 | Deleting keeps exactly the rows that do not link the pair. |
| Storage.AssignedEmployeesCount | server/storage.ts:82-101 | The inner join lists a user (copies in users) × (rows from the evaluator to that user) times if the user is an employee, and never otherwise. |
| Storage.EvaluationsOf | server/storage.ts:169-178 | Keeps exactly the evaluations whose employeeId or evaluatorId is the user. |
| Storage.GateRejectsIff | server/storage.ts:152-158 | The gate refuses exactly the "evaluator"-type inserts with truthy ids whose pair has no row. A null or 0 id, or another type, skips the check. |
| Storage.Store.constructor | server/storage.ts:24-31 | Stands for the storage object over an empty database: empty tables with counters at 0, satisfying the invariant. The cited constructor itself builds only the session store. |
| Storage.Store.GetUser | server/storage.ts:33-41 | Returns the user with that id when there is one; ids are unique. |
| Storage.Store.GetUserByUsername | server/storage.ts:43-51 | None iff no user has that username, otherwise that user; usernames are unique. |
| Storage.Store.GetAllUsers | server/storage.ts:63-70 | Exactly the users in the table. |
| Storage.Store.GetUsersByRole | server/storage.ts:72-80 | Exactly the users with that role name, and nobody for an unknown role. |
| Storage.Store.GetAssignments | server/storage.ts:136-148 | With a truthy evaluator id, exactly that evaluator's rows. With a null or 0 id, the whole table. |
| Storage.Store.GetAssignedEmployees | server/storage.ts:82-108 | Exactly the employees linked from the evaluator, each listed once per matching row. |
| Storage.Store.GetUserEvaluations | server/storage.ts:169-183 | Exactly the evaluations the user is the subject or the author of. |
| Storage.Store.CreateUser | server/storage.ts:53-61 | Fails with "Failed to create user" iff the username is taken, and then nothing changes. Otherwise it appends the user under the next id, and the invariant holds. |
| Storage.Store.CreateAssignment | server/storage.ts:110-118 | Appends exactly the given pair under the next id and returns it. No checks are made, and the other tables are unchanged. |
| Storage.Store.DeleteAssignment | server/storage.ts:120-134 | Removes every row of the pair and no other row, and leaves the pair unlinked. |
| Storage.Store.CreateEvaluation | server/storage.ts:150-167 | Fails with "Failed to create evaluation" iff the gate refuses, and then the table is unchanged. Otherwise it appends exactly one row under the next id. |
| Storage.DeleteAbsentIsNoop | server/storage.ts:120-134 | Deleting a pair with no row changes nothing. |
| Storage.WithoutPairAppend | server/storage.ts:110-129 | Deleting a pair distributes over appending a row. |
| Storage.AssignThenUnassign | server/storage.ts:110-134 | Creating and then deleting a pair that had no row gives back the original table. |
| Storage.GateFollowsAssignments | server/storage.ts:110-159 | After creating the pair's row the gate admits the pair. After deleting the pair it refuses it, whatever else is in the table. |
| Storage.EvaluationsOfAppend | server/storage.ts:161-178 | A new evaluation is added at the end of every user query it involves, and to no other. |
| Storage.NewEvaluationListedOnce | server/storage.ts:161-178 | A row stored under a fresh id appears exactly once in each query for a user it involves. |
| Storage.DuplicateAssignmentListsTwice | server/storage.ts:82-118 | Assigning the same pair twice lists the employee twice in the join. |
| Mail.Mailer.SendDailyEvaluationEmail | server/mailer.ts:13-31 | Each call records one attempt for the recipient and returns the transport's verdict as a boolean. |
| Routes.Status | server/routes.ts:12-65 | 401 iff unauthenticated, or not an admin on the admin-only routes. 201/400 only on POST evaluations, depending on parse and store outcome. 500 only on send-reminders when the lookup fails. 200 otherwise. |
| Routes.GetEvaluationsHandler | server/routes.ts:12-16 | Any signed-in caller gets exactly the evaluations involving the requested user, with no ownership check. |
| Routes.PostEvaluationHandler | server/routes.ts:19-29 | 201 with the stored record under the next evaluation id, or 400 "Invalid evaluation data" when parsing fails or the gate refuses. Only a 201 changes the store (one evaluation appended, its counter up by one); users, assignments and their counters never change. 401 when signed out, and then the store is untouched. |
| Routes.GetUsersHandler | server/routes.ts:32-38 | Admins get the whole users table; everyone else gets 401. |
| Routes.GetUsersByRoleHandler | server/routes.ts:41-45 | Any signed-in caller gets exactly the users with that role name. |
| Routes.SendRemindersHandler | server/routes.ts:48-65 | An admin's call attempts one send per employee, in table order, whatever each send returns, then answers 200. A failing lookup gives 500 and sends nothing. |
| Seeding.StoredPasswordFormat | server/database.ts:17-21 | For any derived key and salt, the stored password splits at its dot into the key's hex text and the salt's hex text, and the salt part decodes back to the salt. |
| Seeding.TestAccountsHashed | server/database.ts:25-47 | With the keys derived from `admin123`, `eval123` and `emp123` under their salts, each seed account stores `hashPassword` of its own plain password. |
| Seeding.TestAccountsRoles | server/database.ts:25-47 | Whatever the keys and salts, the three accounts are admin, evaluator and employee, with those roles, in that order. |
| Seeding.MissingMembers | server/database.ts:49-55 | The accounts to insert are exactly those whose username no user holds. |
| Seeding.SeedingCovers | server/database.ts:49-55 | After seeding, every account's username exists. An account whose username was free is present with its own fields. |
| Seeding.SeedingIsIdempotent | server/database.ts:49-55 | After one seeding run, a second finds nothing to insert. |
| Seeding.SeedingAgainFindsAll | server/database.ts:49-55 | A second run over accounts with the same usernames, whatever their other fields, finds nothing to insert. |
| Seeding.InitializeTestAccounts | server/database.ts:23-61 | Appends the accounts whose usernames were free, in order, under consecutive fresh ids, and advances the user counter by exactly their number. Evaluations, assignments and their counters are unchanged, and the invariant holds. |
| Seeding.InitializeTwice | server/database.ts:23-61 | Seeding twice, with any keys and salts the second time, leaves the users table and the user counter as seeding once did. |
| Text.TenthsNearest | client/src/components/dashboard/evaluation-history.tsx:60 | No tenth is closer to the value than the one `toFixed(1)` picks, and an equally close one is smaller. |
| Text.ToFixed1Reads | client/src/components/dashboard/evaluation-history.tsx:60 | The `toFixed(1)` text reads back as the value's sign and its nearest tenth. |
| Text.TenthsWithin | client/src/pages/dashboard.tsx:29 | A mean of values in [lo, hi] shows a tenth in [lo, hi]. |
| Text.HexRoundTrip | server/database.ts:18-20 | Decoding the hex text of some bytes gives the bytes back. |
| Dashboard.CalculateMetrics | client/src/pages/dashboard.tsx:25-39 | The empty list gives "N/A" and trend 0, and one evaluation gives trend 0. Otherwise the trend is last minus second-to-last, and the average is the column mean to one decimal. |
| Dashboard.SumWithin | client/src/pages/dashboard.tsx:28-29 | The sum of n values, each in [lo, hi], lies in [n lo, n hi]. |
| Dashboard.AverageWithin | client/src/pages/dashboard.tsx:28-36 | For scores in [lo, hi], the shown mean is a non-negative number between lo and hi. |
| Dashboard.Cards | client/src/pages/dashboard.tsx:41-66 | Exactly four cards: Productivity, Quality, Teamwork, Communication, each with that metric's summary. |
| Dashboard.Recent | client/src/pages/dashboard.tsx:100 | The last min(5, n) evaluations, as a suffix in original order. |
| HistoryTable.Band | client/src/components/dashboard/evaluation-history.tsx:37-59 | Banding on the mean: green iff the four-score sum is ≥ 32, yellow iff it is 24 to 31, red iff it is below 24. |
| HistoryTable.RenderRow | client/src/components/dashboard/evaluation-history.tsx:44-62 | Shows the formatted date, the type with its badge, and the colour band of the mean. |
| HistoryTable.RowAverageReads | client/src/components/dashboard/evaluation-history.tsx:60 | The row's average text reads back as the sign of the score sum and the tenth nearest to sum/4. |
| HistoryTable.Render | client/src/components/dashboard/evaluation-history.tsx:17-68 | "No evaluations found" iff the list is empty; otherwise one row per evaluation, in order. |
| HistoryTable.QuarterTenths | client/src/components/dashboard/evaluation-history.tsx:60 | A quarter-step mean with sum s shows (5 s + 1) / 2 tenths, so .25 and .75 round up. |
| HistoryTable.ExampleRow | client/src/components/dashboard/evaluation-history.tsx:37-60 | Scores 7, 8, 6 and 9 show "7.5" in yellow. |
| Ui.TypeBadge | client/src/components/dashboard/evaluation-history.tsx:50 | "self" gets an outlined badge and every other type a secondary one. |
| StatisticCard.TrendBadge | client/src/components/dashboard/statistic-card.tsx:30-37 | The line is shown iff the trend is a non-zero number. It carries the trend text, and it is green iff the trend is positive. |
| StatisticCard.TrendTextWhole | client/src/components/dashboard/statistic-card.tsx:35-36 | A positive whole trend reads "+" digits ".0 ↑"; a negative one reads "-" digits ".0 ↓". |
| StatisticCard.Render | client/src/components/dashboard/statistic-card.tsx:20-41 | Shows the title and the value unchanged; the trend line is present iff the trend is non-zero, and green iff positive. |
| StatisticCard.TrendTextReadsBack | client/src/components/dashboard/statistic-card.tsx:35-36 | The trend text is a sign, the magnitude to one decimal, then the arrow matching the sign. |
| HistoryFilter.Filtered | client/src/pages/evaluation-history.tsx:57-62 | Keeps an evaluation iff it matches the search and the type filter. |
| HistoryFilter.TypeFilterMeaning | client/src/pages/evaluation-history.tsx:60 | "all" passes every type; "self" and "evaluator" pass exactly their own type. |
| HistoryFilter.FilteredIsSubsequence | client/src/pages/evaluation-history.tsx:57 | The result is an order-preserving subsequence of the input. |
| HistoryFilter.FilteredIdempotent | client/src/pages/evaluation-history.tsx:57 | Filtering again removes nothing. |
| HistoryFilter.EmptySearchKeepsType | client/src/pages/evaluation-history.tsx:58-60 | An empty search keeps exactly what the type filter passes. |
| HistoryFilter.EmptySearchAllKeepsEverything | client/src/pages/evaluation-history.tsx:58-60 | An empty search with "all" shows the list unchanged. |
| HistoryFilter.SearchIgnoresCase | client/src/pages/evaluation-history.tsx:58-59 | A query and its lower-cased form keep the same evaluations. |
| UsersManagement.IsAssigned | client/src/pages/users-management.tsx:107-111 | True iff some assignment links the dialog's evaluator to the employee. |
| UsersManagement.IsAssignedMeansLinked | client/src/pages/users-management.tsx:107-111 | The page's "assigned" is the store's "linked". It is also exactly what lets the pair's evaluator-type submission through the gate. |
| UsersManagement.ButtonFor | client/src/pages/users-management.tsx:61-163 | A linked employee gets Remove, issuing DELETE /api/assignments/{evaluator}/{employee}. An unlinked one gets Assign, posting the pair. |
| UsersManagement.ButtonToggles | client/src/pages/users-management.tsx:143-163 | Carrying out the button's request through the store flips the button between Assign and Remove. |
| UsersManagement.ShowsDialog | client/src/pages/users-management.tsx:184-187 | The assignments dialog appears iff the row's role is evaluator. |
| UsersManagement.RoleBadge | client/src/pages/users-management.tsx:38-42 | admin gives default, evaluator gives secondary, and anything else gives outline. |
| UsersManagement.RoleBadgesDistinct | client/src/pages/users-management.tsx:38-42 | The three roles get three different badges. |
| Sidebar.Entries | client/src/components/layout/sidebar.tsx:18-28 | Dashboard then Evaluation for everybody. Admins get exactly four entries, ending with Users then Settings; everyone else gets exactly two. |
| Sidebar.Navigation | client/src/components/layout/sidebar.tsx:16-28 | Nothing without a user; otherwise the role's entries, built by pushing the admin entries onto the common two. |
| Sidebar.Highlighted | client/src/components/layout/sidebar.tsx:44-46 | An entry is highlighted iff its href equals the location. |
| Sidebar.AtMostOneHighlighted | client/src/components/layout/sidebar.tsx:18-46 | At most one entry is highlighted, and exactly one when the location is a sidebar href. |
| Scenario.RevokedAssignment | server/storage.ts:110-167 | An assigned evaluator's review is stored (201, shown as 7.5). After the assignment is deleted, the identical review gets 400, and only one row is stored. |

## Left out

- SQL and ORM mechanics (the libsql client, drizzle queries): tables are sequences and queries their relational meaning, in table order.
- Storage failure paths: faults of the database are external. The `return []` fallbacks of `getAssignedEmployees` and `getAssignments` and the rethrows of the other methods are not modelled. The one exception is send-reminders' 500, which is an input (`lookupFails`).
- Foreign keys: the evaluation table's references to users are assumed not enforced. SQLite enforces them only when the connection sets `PRAGMA foreign_keys`, which no source file here sets. The store itself never checks them.
- Sessions and authentication: `isAuthenticated()` and the signed-in user are the `Caller` input. The session store is not part of this model.
- Routes.PostEvaluationHandler: request-body validation is reduced to "parsed or not", an `Option` input.
- Routes.GetEvaluationsHandler: `parseInt` of the path segment is not modelled, so a non-numeric segment (NaN) is not covered; the user id arrives as an integer.
- Seeding.HashPassword: scrypt and `randomBytes` are replaced by a key-derivation function parameter and the salts as inputs; the 16-byte salt length and the 64-byte key length are not enforced. `InitializeTestAccounts` receives the three derived keys (`SeedKeys`) and the salts rather than calling the function itself; `TestAccountsHashed` ties the resulting passwords to `HashPassword`.
- Seeding.InitializeTestAccounts: its catch-and-log cannot fire in the model, because each insert runs only after the username was found free. Logging is not modelled.
- Mail.Mailer.SendDailyEvaluationEmail: the SMTP exchange is the `delivers` function, and the message text is not modelled.
- Dashboard.CalculateMetrics: the mean is the exact rational sum/count, whereas JavaScript divides in binary floating point. On a tie such as 0.15 the double rounding can show one tenth less.
- Text.ToFixed1: values of 10^21 or more, which `toFixed` prints in exponent form, are not modelled.
- Text.Lower: only ASCII letters are lower-cased; JavaScript's full Unicode case mapping is not modelled.
- Date formatting (`date-fns` `format`) is a function parameter `formatDate`.
- Concurrency between requests, including the check-then-insert window in `createEvaluation`: the model is sequential.
- The assignment HTTP routes the client calls are absent from the server routes, so they are not modelled. `UsersManagement.ButtonToggles` applies a request through the store's `createAssignment`/`deleteAssignment` meaning only.
- Rendering-only parts of the client: the chart, the app's routing, the settings page, the evaluation form, and pages whose only logic is the type filter.
