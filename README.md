# Configuration service: handlers and schema

This project models the core of a small configuration service written with FastAPI and
SQLModel. The service keeps three tables:

- **environments**: named namespaces such as `prod` or `stage`.
- **variables**: key/value pairs, each owned by one environment.
- **users**: login identities, each with a hashed password.

The HTTP handlers of the service do five things:

- list environments with pagination, and create, get, replace (PUT) and patch (PATCH) them;
- create the variables of an environment and list them;
- hash and check passwords, authenticate a user and log in with a bearer token;
- list, create, get and update users;
- turn a bearer token into the current user (`get_current_user` and `get_current_active_user`).

How it is modelled:

- **The database** is a `Store.Database` object. It holds one sequence per table, with rows
  in insertion order, and the next value of each auto-increment key. `Valid()` is the
  invariant of all three tables together, including the foreign key from variables to
  environments.
- **Handlers that write** are methods with `modifies db`. Each states the handler's whole
  outcome: which HTTP error it gives, or the new contents of every table.
- **Handlers that only read** are functions of the table contents.
- **Errors** are `Result` values that carry the status, the detail text and the headers.
  Each constant is the one the source uses.
- **Request bodies** mark each member the client may leave out as `Omitted`, and the model
  gives it the declared default. This is how the environment update tells "no description
  sent" apart from "description set to null".
- **The clock, SHA-256, and JWT issuing and verification** are parameters. An operation
  that uses one takes it as an argument, so nothing depends on how it works inside. The
  hash is not assumed to be injective.
- **Pagination** follows one rule, shared by both listings:
  - offset = `(page - 1) * page_size`;
  - `next` is offered exactly when `page * page_size < count`;
  - `previous` is offered exactly when `page > 1`;
  - and the lemmas prove a client that follows `next` from page 1 sees every row once, in order.

## Model

| member | source | states |
|---|---|---|
| Query.FirstWhere | app/environments/routes/views.py:125-127 | `select ... where p ... first()`: the index returned satisfies `p` and no earlier row does; None only when no row satisfies `p` |
| Query.AllWhere | app/variables/routers/views.py:56-57 | a filtered query returns only rows of the table that satisfy `p`, and each such row exactly as many times as the table holds it |
| Query.AllWhereKeepsStorageOrder | app/variables/routers/views.py:56-57 | the filter keeps storage order: filtering two stretches of a table one after the other gives the filtered stretches in that order |
| Pagination.Offset | app/environments/routes/views.py:48 | `offset = (page - 1) * page_size`, which is never negative once `page >= 1` and `page_size >= 0` |
| Pagination.NextLink | app/environments/routes/views.py:61-62 | defines the `next` link: offered when `page * page_size < count`, pointing at `page + 1`; its properties are in the `Paginate` and `NextLinkIffNextPageHasRows` rows |
| Pagination.PreviousLink | app/environments/routes/views.py:63-64 | defines the `previous` link: offered when `page > 1`, pointing at `page - 1`; its properties are in the `Paginate` row |
| Pagination.Window | app/environments/routes/views.py:52-57 | OFFSET/LIMIT: exact length of the window, and element `i` is row `offset + i`; a negative offset counts as 0 and a negative limit as no limit |
| Pagination.Paginate | app/environments/routes/views.py:48-71 | the envelope: count is the total, results are the window of the page, `next` iff `page * page_size < count` linking to `page + 1`, `previous` iff `page > 1` linking to `page - 1` |
| Pagination.NextLinkIffNextPageHasRows | app/environments/routes/views.py:61-62 | a `next` link is offered exactly when the page it points to holds at least one row |
| Pagination.EarlierPagesAreFull | app/environments/routes/views.py:55-56 | once a page holds a row, every earlier page holds exactly `page_size` rows |
| Pagination.FollowNextCollectsTheRest | app/environments/routes/views.py:59-64 | following `next` links from any page collects exactly the rows from that page's offset to the end |
| Pagination.FollowNextFromFirstPageVisitsEveryRow | app/environments/routes/views.py:59-64 | following `next` links from page 1 returns every row exactly once, in order |
| Pagination.TwentyFiveRowsTenPerPage | app/users/routers/views.py:78-88 | with 25 rows and 10 per page, page 1 is full, links to page 2 and has no previous page; page 3 holds rows 20-24 and has no next page |
| EnvironmentModel.NewEnvironment | app/environments/models/environment.py:6-30 | a new environment: `description` defaults to null; `created_at` and `updated_at` each take their own clock reading |
| EnvironmentModel.IndexOfName | app/environments/routes/views.py:92-94 | `select(Environment).where(name == ...).first()`: an index exactly when the name is taken, and then the first row with that name |
| EnvironmentModel.EnvironmentsValid | app/environments/models/environment.py:6-30 | defines the table invariant: `unique=True` names, and positive auto-increment ids ascending in insertion order below the next key |
| EnvironmentModel.IndexOfNameFindsTheRow | app/environments/routes/views.py:92-94 | the name lookup finds a row iff the name is taken, and, with unique names, finds the only row of that name |
| EnvironmentModel.AppendKeepsEnvironmentsValid | app/environments/routes/views.py:92-103 | inserting a row with a free name and the next key keeps names unique and ids ascending, and adds exactly that id to the id set |
| EnvironmentModel.ReplaceKeepsEnvironmentsValid | app/environments/routes/views.py:159-166 | rewriting a row with its id and name kept preserves the table invariant and the id set |
| VariableModel.NewVariable | app/variables/models/variable.py:10-60 | a variable from a request body: each member left out takes its declared default (null description, not sensitive, null environment, one clock reading per timestamp); each member given is kept |
| VariableModel.DeclaredNamesUnique | app/variables/models/variable.py:15-20 | defines `unique=True` on `name` as declared: no two rows share a name, whatever their environments |
| VariableModel.NamesUniquePerEnvironment | app/variables/routers/views.py:29-32 | defines the uniqueness the handler enforces: no two rows of one environment share a name |
| VariableModel.ReferencesResolve | app/variables/models/variable.py:48-55 | defines the foreign key: a non-null `environment_id` is the id of an existing environment |
| VariableModel.VariablesValid | app/variables/models/variable.py:10-55 | defines the table invariant: names unique per environment, foreign keys resolving, and positive ascending ids below the next key |
| VariableModel.IndexOfNameIn | app/variables/routers/views.py:29-30 | the duplicate query: an index exactly when some row of that environment has the name, and then such a row |
| VariableModel.VariablesOf | app/variables/models/variable.py:48-55 | the variables of one environment: only rows whose `environment_id` is its id, and each such row as many times as the table holds it |
| VariableModel.CascadeDelete | app/variables/models/variable.py:48-55 | ON DELETE CASCADE: the rows that remain are those not owned by the deleted environment, each as many times as the table holds it |
| VariableModel.VariablesOfKeepsStorageOrder | app/variables/models/variable.py:48-55 | both filters keep storage order: the rows of a later stretch of the table come after those of an earlier one |
| VariableModel.CascadeLeavesNoDanglingReference | app/variables/models/variable.py:48-55 | after the cascade every remaining foreign key still resolves, with the deleted id gone |
| VariableModel.AppendKeepsVariablesValid | app/variables/routers/views.py:29-41 | inserting a variable whose name is free in its environment, with a resolvable owner and the next key, keeps the table invariant |
| UserModel.NewUser | app/users/models/user.py:6-41 | a new user: `is_admin` defaults to false and each timestamp to its own clock reading; username and `password_hash` are the body's |
| UserModel.RequestFitsColumns | app/users/models/user.py:13-24 | defines the declared widths a body must meet: username at most 100 characters, `password_hash` at most 255 |
| UserModel.IndexOfUsername | app/users/routers/views.py:22-23 | the username query: an index exactly when the username is taken, and then the first row with it |
| UserModel.IndexOfId | app/users/routers/views.py:135-136 | the id query: an index exactly when some row has that id, and then such a row |
| UserModel.UsersValid | app/users/models/user.py:6-41 | defines the table invariant: positive ascending ids below the next key and every row within the declared widths (uniqueness is kept apart, see `UpdateCanDuplicateUsername`) |
| UserModel.AppendKeepsUsersValid | app/users/routers/views.py:109-118 | inserting a row with the next key keeps the table invariant, and keeps usernames unique when the new username is free |
| UserModel.ReplaceKeepsUsersValid | app/users/routers/views.py:157-169 | rewriting a row with its id kept preserves the table invariant |
| Store.Database.Valid | app/core/settings.py:24-25 | defines the schema's invariant: the three tables' invariants, with variables' foreign keys resolved against the environments' ids |
| Store.Database.constructor | app/core/settings.py:24-25 | the freshly created schema: three empty, valid tables whose keys start at 1 |
| EnvironmentViews.InsertById | app/environments/routes/views.py:54 | inserting into a sequence adds one element and keeps the multiset of rows |
| EnvironmentViews.InsertByIdKeepsFloor | app/environments/routes/views.py:54 | inserting a row whose id is at least a bound into rows whose ids are all at least that bound keeps every id at or above the bound |
| EnvironmentViews.InsertByIdKeepsSorted | app/environments/routes/views.py:54 | inserting into id-sorted rows gives id-sorted rows |
| EnvironmentViews.OrderById | app/environments/routes/views.py:54 | `order_by(Environment.id)` is a permutation of the table (same multiset of rows) |
| EnvironmentViews.OrderByIdSorts | app/environments/routes/views.py:54 | `order_by(Environment.id)` returns the rows in ascending id order |
| EnvironmentViews.OrderByIdKeepsSortedRows | app/environments/routes/views.py:54 | a table already in id order comes back unchanged |
| EnvironmentViews.ListEnvironments | app/environments/routes/views.py:41-71 | `list_environments` with `page >= 1` and `1 <= page_size <= 100`: count is the table size, the exact number of results, result `i` is row `offset + i` in id order, and the `next`/`previous` rule with its link targets |
| EnvironmentViews.ListingIsInIdOrder | app/environments/routes/views.py:52-57 | every page lists its environments in ascending id order |
| EnvironmentViews.SliceKeepsSorted | app/environments/routes/views.py:55-56 | a contiguous slice of id-sorted rows is id-sorted |
| EnvironmentViews.ListingHoldsStoredRows | app/environments/routes/views.py:52-57 | every environment on a page is a row of the table |
| EnvironmentViews.ListingIsSliceOfStoredTable | app/environments/routes/views.py:52-57 | since the store keeps ids ascending, a page is exactly a slice of the table as stored |
| EnvironmentViews.GetEnvironment | app/environments/routes/views.py:119-130 | `get_environment`: Ok iff some environment has the name, and then a row of that name (with unique names, the only one); otherwise 404 "Environment not found" |
| EnvironmentViews.CreateEnvironment | app/environments/routes/views.py:86-103 | `create_environment`: 400 and no change when the name is taken; otherwise one row appended with the next id, the name, the description or null, and `updated_at == created_at`; the other tables are untouched and the invariant holds |
| EnvironmentViews.CreatedEnvironmentIsRetrieved | app/environments/routes/views.py:125-130 | after a successful create, a get of that name returns the created row |
| EnvironmentViews.Revised | app/environments/routes/views.py:159-163 | an update replaces `description` only when the body supplies it (null included) and refreshes `updated_at`; id, name and `created_at` stay |
| EnvironmentViews.UpdateOutcomeIsDetermined | app/environments/routes/views.py:190-204 | the update outcome is a function of its inputs, so the PUT and PATCH handlers behave identically |
| EnvironmentViews.UpdatedEnvironmentIsRetrieved | app/environments/routes/views.py:153-167 | after an update, a get of the same name returns what the update returned, and every other row is unchanged |
| EnvironmentViews.UpdateEnvironment | app/environments/routes/views.py:146-167 | `update_environment`: 404 and no change for an unknown name; otherwise only that row is revised and returned; the invariant holds |
| EnvironmentViews.PatchEnvironment | app/environments/routes/views.py:183-204 | `patch_environment`: the same outcome as the PUT handler |
| VariableViews.CreateVariable | app/variables/routers/views.py:13-41 | `create_variable_for_environment`: 404 and no change for an unknown environment; 400 "Variable '<name>' already exists in this environment." and no change when that environment holds the name; otherwise the body's row under the next id with `environment_id` set to the environment's, appended; the invariant holds |
| VariableViews.SameNameInAnotherEnvironmentIsAccepted | app/variables/routers/views.py:29-32 | the duplicate check only looks inside the resolved environment: a name held elsewhere does not block the create, and names stay unique per environment |
| VariableViews.ListVariables | app/variables/routers/views.py:44-57 | the listing the handler intends: 404 iff the environment is unknown; otherwise only variables whose `environment_id` is that environment's id, and each such row as many times as the table holds it |
| VariableViews.CreatedVariableIsListed | app/variables/routers/views.py:35-41 | a variable created in an environment is listed for it, after every variable listed before, all of which stay |
| VariableViews.CommitUnderDeclaredConstraint | app/variables/models/variable.py:15-20 | the commit under the declared table-wide `unique=True`: it succeeds iff no row anywhere has the name, and otherwise fails with 500 |
| VariableViews.SecondEnvironmentCollidesWithDeclaredConstraint | app/variables/models/variable.py:15-20 | "PORT" in environment 1 and then "PORT" in environment 2: the handler's check lets it through, per-environment uniqueness holds, and the declared table-wide constraint rejects the commit |
| VariableViews.BackPopulationIsUndeclared | app/variables/models/variable.py:57-60 | the back-population `variables` that Variable names is not an attribute Environment declares |
| VariableViews.MappersConfigure | app/variables/models/variable.py:57-60 | defines when mapper configuration succeeds: the back-population Variable names must be an attribute Environment declares |
| VariableViews.ListVariablesAsWritten | app/variables/routers/views.py:52-57 | the listing as written: 500, before the 404 check, whenever the mappers fail to configure; once they configure, the intended listing |
| VariableViews.ListingAsWrittenAlwaysFails | app/variables/routers/views.py:52-57 | with Environment as declared, the listing as written answers 500 for every request, known environment or not; with the back-populated collection declared, it is the intended listing |
| UserViews.GetPasswordHash | app/users/routers/views.py:14-15 | defines the stored hash: the hasher's 64-character hex digest of the password; its properties are in the `PasswordVerifiesAgainstItsHash` row |
| UserViews.VerifyPassword | app/users/routers/views.py:17-18 | defines the check: the candidate's hash equals the stored value; its properties are in the `PasswordVerifiesAgainstItsHash` row |
| UserViews.PasswordVerifiesAgainstItsHash | app/users/routers/views.py:14-18 | a password verifies against its own hash, and verification accepts exactly the stored value equal to the candidate's hash |
| UserViews.Authenticate | app/users/routers/views.py:20-28 | `authenticate_user`: a user is returned iff the first user with that username has the password's hash stored; the user returned has that username and hash; an unknown username gives none |
| UserViews.AuthenticateIffCredentialsMatch | app/users/routers/views.py:20-28 | with unique usernames, authentication succeeds iff some user has that username and the password's hash |
| UserViews.Login | app/users/routers/views.py:44-60 | `login`: 401 "Incorrect username or password" with the Bearer challenge iff authentication fails; otherwise a "bearer" token issued for the username with a 30-minute lifetime |
| UserViews.LoginFailureIsUniform | app/users/routers/views.py:49-55 | an unknown username and a wrong password get the identical 401 response |
| UserViews.ListUsers | app/users/routers/views.py:72-94 | `list_users` with unbounded parameters: count is the table size, the exact number of results for either sign of the offset (at most `page_size`), result `i` is the stored row at `offset + i` (or row `i` for a negative offset), and the `next`/`previous` rule with its link targets |
| UserViews.GetUser | app/users/routers/views.py:130-139 | `get_user`: Ok iff some user has that id, and then a row with that id; otherwise 404 "User not found" |
| UserViews.CreateUser | app/users/routers/views.py:104-118 | `create_user`: 400 and no change when the username is taken; otherwise one row appended with the next id, the SHA-256 of the submitted password as `password_hash`, the admin flag or false, and `updated_at == created_at`; unique usernames stay unique |
| UserViews.Replaced | app/users/routers/views.py:161-165 | an updated user takes the body's username and admin flag (false when left out) and the hash of the submitted password; `updated_at` is refreshed; id and `created_at` stay |
| UserViews.UpdateUser | app/users/routers/views.py:151-169 | `update_user`: 404 and no change for an unknown id; otherwise only that row is replaced and returned; the other tables are untouched |
| UserViews.UpdateCanDuplicateUsername | app/users/routers/views.py:157-161 | renaming one user to another's username yields two rows with that username, since the update has no duplicate check |
| UserViews.UpdateToFreeUsernameKeepsUnique | app/users/routers/views.py:161 | renaming to a username no other row holds keeps usernames unique |
| Dependencies.GetCurrentUser | app/core/dependencies.py:17-37 | `get_current_user`: Ok iff the token verifies, its `sub` is a string and a user has that username, and then the first such user; every failure is 401 "Could not validate credentials" with the Bearer challenge |
| Dependencies.GetCurrentActiveUser | app/core/dependencies.py:40-41 | `get_current_active_user` passes the current user through unchanged |
| Dependencies.FailuresAreIndistinguishable | app/core/dependencies.py:18-37 | any two rejected tokens get the identical 401 response |
| Dependencies.LoginTokenIdentifiesTheUser | app/core/dependencies.py:24-37 | a token issued at login, which decodes back to its subject, authenticates exactly the user that logged in |
| Scenarios.WithProd | app/environments/routes/views.py:86-103 | a fresh store after creating "prod" holds that one environment with id 1 |
| Scenarios.ProdAndStage | app/environments/routes/views.py:86-103 | after creating "prod" and then "stage", the name lookups find them at ids 1 and 2, and "qa" is not found |
| Scenarios.PortInTwoEnvironments | app/variables/routers/views.py:13-41 | "PORT" is accepted in "prod" and in "stage"; a second "PORT" in "prod" is a 400; a variable for an unknown environment is a 404 |

## Left out

- The `except Exception` branches that turn an unexpected failure into a 500 "Internal server error: ..." are left out. The model has no storage failures.
- Request validation (422 for a malformed body or an out-of-range query parameter) is outside the handlers. Where validation constrains the handlers' inputs, it becomes a `requires`: the page bounds of `list_environments`, and the column widths of a user body (`RequestFitsColumns`).
- UserViews.Authenticate: the `except Exception: return False` branch is left out, since no query in the model can raise.
- The storage engine's own enforcement of `unique=True` on usernames and environment names is left out. A duplicate username written by `update_user` would make the commit fail with a 500; the model keeps the row and proves that duplicates can arise (`UpdateCanDuplicateUsername`).
- Variable names are the exception: the table-wide constraint is modelled as a finding (below).
- Concurrent requests are left out. Each handler is one atomic step, so two creates of the same name cannot race.
- A client-supplied `id` in a variable or user body is left out. The store always assigns the next key.
- Relative links are kept as structured `PageLink(path, page, page_size)` values, not as formatted strings.
- Pagination.Window: negative OFFSET and LIMIT values are read as SQLite reads them (zero, no limit). Only `list_users`, which has no parameter bounds, can produce them. Another database may reject them instead.
- The result order of `list_users` is storage order, because the query has no ORDER BY.
- The JWT encoding, signing key, expiry check and the `TokenData` model are outside the model. `create_access_token` and `verify_token` are parameters.
- SHA-256 itself is outside the model, except that its hex digest is 64 characters long.
- `get_session`, `main.py` (application and router wiring), settings loading and the OAuth2 form that extracts the bearer token are left out.
- The source has no update, get or delete handler for variables, and no delete handler for environments. ON DELETE CASCADE is modelled on the schema alone (`CascadeDelete`).
- Dependencies.GetCurrentUser: a `sub` that is present but not a string is one case, `NotText`. Its details (what `TokenData` would coerce) are left out; it always gives the 401.
- VariableViews.ListVariablesAsWritten: mapper configuration is reduced to one test, whether the back-populated name is an attribute Environment declares. The rest of what SQLAlchemy checks while configuring is left out.
- Every handler model describes the program once Environment declares the `variables` collection. As written, mapper configuration fails at the first ORM statement of the process (finding 2 below). Every handler that queries a table would then answer 500, and `login` would answer 401, because `authenticate_user` swallows the error. Only the variable listing models that failure.
- The `current_user` dependency of the environment and variable routes is modelled by `GetCurrentActiveUser`. The handlers' models do not take it as an argument, since none of them reads it.

## Findings

| source | as written | input that shows it | evidently intended | confidence | as-written member | corrected member |
|---|---|---|---|---|---|---|
| app/variables/models/variable.py:15-20 | `name` is declared `unique=True` on the whole table, while the handler checks only the (name, environment) pair | once the mappers configure (finding 2), create "PORT" in environment 1, then "PORT" in environment 2 | names unique per environment, as the field's description and the handler's check say | not executed | VariableViews.SecondEnvironmentCollidesWithDeclaredConstraint | VariableViews.SameNameInAnotherEnvironmentIsAccepted |
| app/variables/routers/views.py:57 | the listing returns `environment.variables`, and the relationship on Variable back-populates that name (app/variables/models/variable.py:57-60), but Environment does not declare it, so mapper configuration fails at the first ORM statement; the 404 at line 54 is then never reached, and every other handler that queries a table fails the same way | list the variables of any environment, known or not, e.g. "prod" or "qa" | Environment declares the `variables` collection, and the listing returns the variables whose `environment_id` is the environment's id | not executed | VariableViews.ListingAsWrittenAlwaysFails | VariableViews.ListVariables |
