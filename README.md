# Team7 volunteer-matching platform: a verified model of its core

Team7 is a Flask/SQLAlchemy web application. People in need (PINs) post help
requests. CSR representatives (companies volunteering help) browse those
requests, view them and shortlist them. A platform manager keeps the table of
service categories, and administrators create user accounts and profiles
(roles).

This project models the application's table logic in Dafny and proves what
each operation promises:

- Each ORM table is a sequence of rows in primary-key order.
- Tables that the code updates in place are fields of a class:
  - `Database.Tables` holds requests, views and shortlist rows;
  - `ServiceCategories.CategoryTable` holds the categories;
  - `Accounts.AccountTables` holds users and profiles.
- The operations that change rows are methods with `modifies` clauses.
- The read queries are functions over the rows.
- Every string result code of the source is a constructor with a `Code()`
  giving the exact string.

Modules, following the source files:

| module | file | models |
|---|---|---|
| `Wrappers`, `Text`, `Rows` | `wrappers.dfy`, `text.dfy`, `rows.dfy` | `Option`. Python's `strip`, `lower` and `in` on strings. SQL's `ILIKE '%t%'`. `WHERE`, `ORDER BY … DESC`, `query.get`, and SQLite's next row id (largest id plus one). |
| `Requests` | `request.dfy` | the `Request` record, its defaults, statuses and `to_dict`, and the `PINRequestView` row |
| `Database` | `database.dfy` | the request, view and shortlist tables, and the counter invariant `Tables.Consistent` |
| `PinService` | `pin_service.dfy` | `PINRequestService` |
| `CsrService` | `csr_service.dfy` | `CSRService` |
| `CsrControllers` | `csr_controllers.dfy` | the CSR detail controller and the completed-service search controller |
| `ServiceCategories` | `service_category.dfy` | `ServiceCategory` |
| `Accounts`, `UserController` | `accounts.dfy`, `user_controller.dfy` | the user and profile tables, `UserController` and `AuthController` |
| `ProfileController` | `profile_controller.dfy` | `ProfileController` |
| `Seed` | `seed.dfy` | `seed_defaults` |

## Central invariant

`Tables.Consistent` has four parts:

- every request's `view_count` equals the number of its view rows;
- every request's `shortlist_count` equals the number of its shortlist rows;
- every view and shortlist row names an existing request;
- no `(request, csr)` pair occurs twice.

These operations preserve it:

- creating, suspending and updating a request;
- adding and removing shortlist entries;
- the CSR detail view.

`track_view` preserves it only when the request exists. The source inserts the
view row even for a missing request, so `TrackViewOfMissingRequestDangles`
shows that such a call leaves a dangling row.

## Modelling decisions

- **Clock and dates.** The clock (`utcnow`) is an integer parameter `now`, in seconds. A date is an integer day number. Day `d` covers the seconds `[d * 86400, (d + 1) * 86400)`.
- **Touching `updated_at`.** `Request.updated_at` has `onupdate=utcnow`. So every operation that really changes a request row also sets `updatedAt := now`. An assignment that leaves the row as it was produces no UPDATE. Examples: suspending a suspended request, or releasing a shortlist count that is already 0.
- **Joins.** The ORM de-duplicates entities in a `Request.query.join(...)` result. So the joins with the shortlist table are modelled as filters ("has a shortlist row for this CSR"), and each request appears at most once.
- **Sort order.** `ORDER BY x DESC` is an insertion sort in which rows with equal keys come out in reverse table order. SQL leaves ties unspecified, so contracts state only "sorted, and exactly the selected rows with their multiplicity".
- **`ilike`.** Modelled as an ASCII case-insensitive substring test. `lower` is ASCII-only, as in SQLite. `strip` removes Python's whitespace characters.
- **Failures and passwords as parameters.** A database failure that the code does not cause itself comes in as `insertFailure` / `dbFailure`. The password hash comes in as a function `hash`.
- **CSR detail view.** The controller returns the session's live object, so the request it returns already carries the view it has just counted. `CsrControllers.GetRequestDetails` therefore looks the request up after tracking.
- **`update_pin_request` arguments.** Keyword arguments are a sequence of `(field, value)` pairs in call order. Each value is either absent (`None`), a text or a day. The method requires text for the text columns and a day for `preferred_date`.
- **Code versus comments in `ServiceCategory.py`.** Its comments call the duplicate-name checks case-insensitive, but the code compares names exactly. The model follows the code.

## Model

| member | source | states |
|---|---|---|
| Requests.ParseStatus | Team7/app/entity/Request.py:13 | a status name parses to the status that prints as it; a string that is none of the five names parses to nothing |
| Requests.StatusNameRoundTrip | Team7/app/entity/Request.py:13 | every status survives printing and parsing back |
| Requests.Insert | Team7/app/entity/Request.py:13-19 | a newly inserted request is pending, has both counters 0, and has `created_at` = `updated_at` = the insert time |
| Requests.DraftDefaults | Team7/app/entity/Request.py:24-31 | a request built without them has urgency "medium", and no location or preferred date |
| Requests.ToDict | Team7/app/entity/Request.py:33-47 | `to_dict` copies id, owner, title, description, category, urgency, location and both counters; the status string parses back to the status; the dates are ISO strings or None; no `updated_at` |
| Rows.NextId | Team7/app/entity/PINEntities.py:118-119 | the id SQLite gives a new row is at least 1 and above every id in the table |
| Text.StripLower | Team7/app/control/UserController.py:15 | stripping and lower-casing commute, so the e-mail normalisation can be applied in either order |
| Text.StripIgnoresPadding | Team7/app/control/UserController.py:15-16 | `strip` removes any white space added on either side of a string |
| Text.ContainsFoldIgnoresCase | Team7/app/entity/CSREntities.py:43 | an `ilike` match does not depend on the case of the term |
| Database.FindById | Team7/app/entity/CSREntities.py:118-120 | `query.get` finds a row with that id, and finds nothing exactly when there is none |
| Database.FindOwned | Team7/app/entity/PINEntities.py:47-49 | the lookup by id and owner finds that row, and finds nothing exactly when no row has both |
| Database.ViewsOfAppend | Team7/app/entity/PINEntities.py:29-34 | appending a view row raises that request's row count by one and no other |
| Database.ShortlistsOfAppend | Team7/app/entity/CSREntities.py:127-130 | appending a shortlist row raises that request's row count by one and no other |
| Database.ShortlistsOfConcat | Team7/app/entity/CSREntities.py:195-199 | shortlist row counts add up over concatenated tables |
| Database.ShortlistsOfRemove | Team7/app/entity/CSREntities.py:195-199 | deleting one shortlist row lowers only its request's count, by one |
| Database.ConsistentAfterEdit | Team7/app/entity/PINEntities.py:159-166 | a change that keeps every row's id and counters keeps the tables consistent |
| Database.ConsistentAfterInsert | Team7/app/entity/PINEntities.py:113-119 | inserting a request with a fresh id and zero counters keeps the tables consistent |
| Database.NoRowsForFreshId | Team7/app/entity/PINEntities.py:113-119 | when every row references an existing request, no view or shortlist row can name a fresh id |
| PinService.RecordView | Team7/app/entity/PINEntities.py:32-34 | exactly the row with that id gets its view count raised by one and `updated_at` set; the other rows are unchanged |
| PinService.TrackView | Team7/app/entity/PINEntities.py:13-38 | "already_viewed" exactly when the pair has a view row, and then nothing changes. Otherwise one view row is appended, the request's count is raised by one, and consistency is kept when the request exists |
| PinService.TrackViewKeepsConsistent | Team7/app/entity/PINEntities.py:22-37 | a first view of an existing request keeps `view_count` equal to its view rows |
| PinService.TrackViewOfMissingRequestDangles | Team7/app/entity/PINEntities.py:29-36 | tracking a view of a missing request changes no request but leaves a view row that references nothing |
| PinService.TrackViewTwice | Team7/app/entity/PINEntities.py:17-38 | a second `track_view` of the same pair always returns "already_viewed" |
| PinService.GetViewCount | Team7/app/entity/PINEntities.py:44-51 | "not_found" exactly when no row has that id and owner; otherwise that row's view count |
| PinService.GetShortlistCount | Team7/app/entity/PINEntities.py:61-67 | "not_found" exactly when no row has that id and owner; otherwise that row's shortlist count |
| PinService.CountsAreRowCounts | Team7/app/entity/PINEntities.py:44-67 | in consistent tables the two counts reported are the numbers of view and shortlist rows |
| PinService.SearchCompletedMatches | Team7/app/entity/PINEntities.py:76-89 | exactly the owner's completed requests whose category contains a non-empty term case-insensitively and whose preferred date equals a given date, newest first |
| PinService.GetCompletedMatchesHistory | Team7/app/entity/PINEntities.py:96-101 | exactly the owner's completed requests, newest first |
| PinService.UnfilteredSearchIsHistory | Team7/app/entity/PINEntities.py:76-101 | a search with no category and no date is the history |
| PinService.EmptyCategoryIgnored | Team7/app/entity/PINEntities.py:83-84 | an empty category string filters nothing |
| PinService.NewRequest | Team7/app/entity/PINEntities.py:111-117 | the stored row has the given fields, urgency "medium" when none is given, a fresh id, status pending and zero counters |
| PinService.CreatePinRequest | Team7/app/entity/PINEntities.py:111-122 | "success" exactly when `pin_id`, title, description and category are all given; otherwise NOT NULL fails on the first missing column in table order (`pin_id` first) and nothing is stored; consistency is kept |
| PinService.GetActiveRequests | Team7/app/entity/PINEntities.py:126-131 | exactly the owner's requests that are neither completed nor suspended, in table order |
| PinService.GetPinRequestHistory | Team7/app/entity/PINEntities.py:179-184 | exactly the owner's completed or suspended requests, newest first |
| PinService.ActiveHistoryPartition | Team7/app/entity/PINEntities.py:126-184 | the active list and the history share no request, and together they hold every request of the owner exactly once |
| PinService.SearchPinRequests | Team7/app/entity/PINEntities.py:190-197 | exactly the owner's requests whose title contains the formatted term case-insensitively, newest first; a `None` term is formatted as the text "None" |
| PinService.EmptyTermFindsAll | Team7/app/entity/PINEntities.py:193-196 | the empty term finds all of the owner's requests |
| PinService.NoneTermSearchesWord | Team7/app/entity/PINEntities.py:193-196 | a `None` term filters by the word "none" in any case, not "no filter" |
| PinService.GetRequestForDisplay | Team7/app/entity/PINEntities.py:205-216 | "not_found" exactly when no row has that id and owner; "can_only_edit_active" exactly when it exists and is not active; otherwise the active row |
| PinService.Suspend | Team7/app/entity/PINEntities.py:140-142 | exactly the row with that id becomes suspended. Its `updated_at` is refreshed only when its status really changes. The other rows are unchanged |
| PinService.SuspendPinRequest | Team7/app/entity/PINEntities.py:138-145 | the `None.status` error exactly when no row has that id and owner, and then nothing changes; success exactly when the owned row exists, whatever its status, and then that row is suspended and consistency is kept |
| PinService.SuspendCloses | Team7/app/entity/PINEntities.py:138-143 | after suspension the request is found, is suspended, and can no longer be edited |
| PinService.Supplied | Team7/app/entity/PINEntities.py:161-163 | the value of the last update of a field that is allow-listed and not None (no later effective update names that field), and nothing exactly when there is none |
| PinService.ApplyAllText | Team7/app/entity/PINEntities.py:159-163 | after the loop, each text column holds its last supplied value, or its old value |
| PinService.ApplyAllLocation | Team7/app/entity/PINEntities.py:159-163 | after the loop, the location is its last supplied value, or the old one |
| PinService.ApplyAllPreferredDate | Team7/app/entity/PINEntities.py:159-163 | after the loop, the preferred date is its last supplied value, or the old one |
| PinService.ApplyAllKeeps | Team7/app/entity/PINEntities.py:159-163 | the loop never changes the id, owner, status, timestamps or counters |
| PinService.Edit | Team7/app/entity/PINEntities.py:159-165 | exactly the row with that id is edited, and its `updated_at` is set; the other rows are unchanged |
| PinService.UpdatePinRequest | Team7/app/entity/PINEntities.py:148-171 | "not_found" and "can_only_update_active" exactly when `get_request_for_display` gives them, and then nothing changes. Otherwise the loop's result is stored and consistency is kept |
| CsrService.FindShortlist | Team7/app/entity/CSREntities.py:109-112 | the first shortlist row for the pair, and nothing exactly when the pair is not shortlisted |
| CsrService.RecordShortlist | Team7/app/entity/CSREntities.py:118-130 | exactly the row with that id gets its shortlist count raised by one; the other rows are unchanged |
| CsrService.AddToShortlist | Team7/app/entity/CSREntities.py:107-135 | "already_shortlisted" exactly when the pair exists, checked first; then "request_not_found" exactly when the request is missing; neither changes anything. Otherwise one row is appended, the counter is raised by one, and consistency is kept |
| CsrService.AddKeepsConsistent | Team7/app/entity/CSREntities.py:122-131 | a first shortlisting of an existing request keeps `shortlist_count` equal to its rows |
| CsrService.ReleaseShortlist | Team7/app/entity/CSREntities.py:195-197 | exactly the row with that id has a positive count lowered by one; the other rows are unchanged |
| CsrService.ReleaseKeepsCountersNatural | Team7/app/entity/CSREntities.py:196-197 | the floor at zero keeps every shortlist count non-negative |
| CsrService.RemoveFromShortlist | Team7/app/entity/CSREntities.py:184-204 | "not_found" exactly when the pair is not shortlisted, and then nothing changes. Otherwise its first row is deleted, the counter is released, and consistency is kept |
| CsrService.RemoveKeepsConsistent | Team7/app/entity/CSREntities.py:186-200 | deleting the pair's row and releasing the counter keeps the tables consistent |
| CsrService.RemoveKeepsCounters | Team7/app/entity/CSREntities.py:195-199 | the released counters still equal the row counts |
| CsrService.RemoveKeepsReferences | Team7/app/entity/CSREntities.py:195-199 | after the delete, every row still references an existing request |
| CsrService.RemoveKeepsPairsUnique | Team7/app/entity/CSREntities.py:195-199 | deleting a row keeps the pairs unique |
| CsrService.AddThenRemoveRestores | Team7/app/entity/CSREntities.py:107-201 | adding then removing a pair restores the shortlist rows and every counter |
| CsrService.AddThenRemove | Team7/app/entity/CSREntities.py:107-201 | the two calls succeed, and leave every table as before except `updated_at` |
| CsrService.GetRequestDetails | Team7/app/entity/CSREntities.py:91-96 | "not_found" exactly when no row has the id; otherwise that row |
| CsrService.GetShortlistedDetails | Team7/app/entity/CSREntities.py:162-177 | "not_shortlisted" exactly when the pair is not shortlisted, before "not_found"; otherwise the row |
| CsrService.ShortlistedIsFound | Team7/app/entity/CSREntities.py:162-177 | in consistent tables a shortlisted request is always found |
| CsrService.SearchShortlisted | Team7/app/entity/CSREntities.py:140-155 | exactly the requests this CSR shortlisted, with a non-empty term in the title or description, each once, most recently shortlisted first |
| CsrService.SearchAvailable | Team7/app/entity/CSREntities.py:60-80 | exactly the pending or approved requests that pass the optional term, category and urgency filters, newest first |
| CsrService.AvailableIsActive | Team7/app/entity/CSREntities.py:60-62 | an available request is always active, and never in progress |
| CsrService.CompletedServicesHistory | Team7/app/entity/CSREntities.py:21-29 | exactly the completed requests this CSR shortlisted, most recently updated first |
| CsrService.SearchCompletedServices | Team7/app/entity/CSREntities.py:35-50 | the history narrowed to a non-empty title term and, when a date is given, to `updated_at` inside that day |
| CsrService.UnfilteredServiceSearchIsHistory | Team7/app/entity/CSREntities.py:21-50 | a search with no title and no date is the history |
| CsrService.ServiceSearchWithinHistory | Team7/app/entity/CSREntities.py:35-50 | every search result is in the history |
| CsrControllers.GetRequestDetails | Team7/app/control/CSRControllers.py:26-35 | returns what the detail lookup returns, read after tracking, whatever the tracking reported. Found exactly when the request existed. A view is tracked only for a truthy CSR id and a found request. A missing request changes nothing. Consistency is kept |
| CsrControllers.TrackedRowStillFound | Team7/app/control/CSRControllers.py:31-35 | tracking a view neither adds nor removes a request, so what was found is still found |
| CsrControllers.SearchCompletedServices | Team7/app/control/CSRControllers.py:14-15 | the controller's category argument is the title filter: the result is exactly the completed requests this CSR shortlisted whose title contains it and whose `updated_at` falls on the given day, most recently updated first |
| ServiceCategories.FindCategory | Team7/app/entity/ServiceCategory.py:77-79 | `query.get` finds the row with that id, and nothing exactly when there is none |
| ServiceCategories.NewCategory | Team7/app/entity/ServiceCategory.py:37-41 | the new row has a fresh id, the name, the stripped description ("" for None) and the flag as a bool |
| ServiceCategories.AppendKeepsValid | Team7/app/entity/ServiceCategory.py:12 | a fresh id and an unused name keep ids ascending and names unique |
| ServiceCategories.CategoryTable.CreateServiceCategory | Team7/app/entity/ServiceCategory.py:23-53 | "invalid" exactly for a falsy name; "duplicate" exactly when the name is present; neither inserts. Otherwise one row is added, and the table stays valid |
| ServiceCategories.CategoryTable.UpdateServiceCategory | Team7/app/entity/ServiceCategory.py:71-103 | "not_found", then "invalid", then "duplicate" (against other ids only), each exactly when its condition holds and with no change. Otherwise only that row takes the name, the unstripped description and the flag |
| ServiceCategories.RenameKeepsValid | Team7/app/entity/ServiceCategory.py:84-95 | renaming a row to a name no other row has keeps ids ascending and names unique, and changes only that row |
| ServiceCategories.CategoryTable.SuspendedServiceCategory | Team7/app/entity/ServiceCategory.py:126-140 | "not_found" for a missing id; "noop" exactly when the flag already has the value; neither changes anything. Otherwise only that row's flag is set |
| ServiceCategories.GetById | Team7/app/entity/ServiceCategory.py:106-108 | `ok` exactly when the row exists, then with that row; otherwise no data and the error "Category not found." |
| ServiceCategories.CreatedIsFetchable | Team7/app/entity/ServiceCategory.py:106-108 | a category just created is fetched by `get_by_id` under its new id |
| ServiceCategories.SearchServiceCategory | Team7/app/entity/ServiceCategory.py:114-118 | exactly the rows whose name or description contains the stripped term case-insensitively, in id order |
| ServiceCategories.BlankTermListsAll | Team7/app/entity/ServiceCategory.py:115-116 | a missing or blank term lists every row |
| ServiceCategories.SearchIgnoresCase | Team7/app/entity/ServiceCategory.py:115-116 | the search gives the same rows for a term and its lower-case form |
| Accounts.AppendUserKeepsValid | Team7/app/control/UserController.py:29-37 | a fresh id and an unused e-mail keep user ids ascending and e-mails unique |
| Accounts.AppendProfileKeepsValid | Team7/app/control/ProfileController.py:17-25 | a fresh id and an unused name keep profile ids ascending and names unique |
| UserController.NormalizeEmailIdempotent | Team7/app/control/UserController.py:15-29 | normalising an already normalised e-mail changes nothing, so the repository's second normalisation looks up the same key |
| UserController.RequiredErrors | Team7/app/control/UserController.py:19-25 | no message exactly when name, e-mail and password are all present; at most three messages |
| UserController.RequiredErrorsReportMissing | Team7/app/control/UserController.py:19-24 | each of the three messages appears exactly when its field is missing |
| UserController.InsertError | Team7/app/control/UserController.py:38-44 | a failure mentioning both "UNIQUE" and "users.email" reads as the duplicate message; any other failure reads "Database error: " + message |
| UserController.NewUser | Team7/app/entity/UserAccount.py:16-23 | the new account has a fresh id, the given name and e-mail, the hash of the password and the flag as a bool |
| UserController.Validate | Team7/app/control/UserController.py:15-26 | the name and e-mail are normalised before any check, and the messages appended are the missing-field messages in order |
| UserController.CreateUserAC | Team7/app/control/UserController.py:11-45 | missing fields give their messages and no insert. Otherwise a taken e-mail gives the duplicate message, and a failed insert gives one message; both leave the users unchanged. Otherwise `ok`, with the new row's id. The tables stay valid. `AuthController.CreateUserAC` (`Team7/app/control/AuthController.py`, lines 8-42) is the same code |
| UserController.Register | Team7/app/control/UserController.py:29-37 | on normalised input: a taken e-mail gives only the duplicate message, a failed insert gives only its message, and both leave the users unchanged; otherwise exactly one row with a fresh id is appended and its id returned |
| UserController.EmailVariantNormalizes | Team7/app/control/UserController.py:15 | two addresses that differ only in ASCII letter case and surrounding white space normalise to the same key |
| UserController.DuplicateEmailRefused | Team7/app/control/UserController.py:11-33 | a valid form whose address is a stored address in another case or with white space around it gets "A user with this email already exists." and changes no table |
| UserController.FindProfile | Team7/app/control/UserController.py:50-52 | the profile a user's `profile_id` joins to, and nothing exactly when no profile has that id |
| UserController.ListAllUsers | Team7/app/control/UserController.py:47-54 | every pair joins a user to the profile its `profile_id` names |
| UserController.ListAllUsersIsJoin | Team7/app/control/UserController.py:49-53 | the listed users are exactly the users the inner join keeps, in table order |
| UserController.ListAllUsersComplete | Team7/app/control/UserController.py:47-54 | a user is listed exactly when its profile exists, and the list is in ascending user id order |
| UserController.GetUserById | Team7/app/control/UserController.py:56-63 | the user with that id paired with its profile; nothing exactly when the user or its profile is missing |
| ProfileController.ProfileInsertError | Team7/app/control/ProfileController.py:26-31 | a failure mentioning "UNIQUE" reads as the duplicate-name message; any other reads "Database error: " + message |
| ProfileController.NewProfile | Team7/app/control/ProfileController.py:17-21 | the new profile has a fresh id, the stripped name, the description as given and the flag as a bool |
| ProfileController.CreateUserProfile | Team7/app/control/ProfileController.py:9-32 | a blank name gives "Name is required.". A taken name gives the duplicate message. Another failure gives its message. All three leave the profiles unchanged. Otherwise `ok`, with the new profile's id. The tables stay valid |
| ProfileController.CreatedProfileIsUnique | Team7/app/control/ProfileController.py:17-25 | a created profile keeps the table valid; its id is above and its name differs from every earlier profile |
| ProfileController.ListProfiles | Team7/app/control/ProfileController.py:34-36 | every profile, each once, in ascending id order |
| ProfileController.ListingIsDetermined | Team7/app/control/ProfileController.py:34-36 | any listing of the same profiles in ascending id order is the one returned |
| Seed.NamesOf | Team7/app/__init__.py:23 | the set holds exactly the names of stored profiles |
| Seed.DefaultProfile | Team7/app/__init__.py:26 | a seeded row has a fresh id, the name, description "Default role: " + name, and is not suspended |
| Seed.SeedDefaults | Team7/app/__init__.py:20-27 | the loop adds, in order, each default name missing before it started; the tables stay valid |
| Seed.SeedKeepsExisting | Team7/app/__init__.py:23-26 | existing profiles stay unchanged, in place, at the front |
| Seed.SeedAddsOnlyMissing | Team7/app/__init__.py:24-26 | every added row has a default name that was not present before, the default description and the flag off |
| Seed.SeedCoversNames | Team7/app/__init__.py:22-27 | after seeding, every default name and every earlier name is present |
| Seed.SeedAllPresent | Team7/app/__init__.py:24-25 | when every name is already present, seeding adds nothing |
| Seed.DefaultsPresent | Team7/app/__init__.py:22-27 | after `seed_defaults`, "Admin", "CRS Rep", "PIN" and "Platform Management" are all present |
| Seed.SeedIdempotent | Team7/app/__init__.py:23-26 | a second `seed_defaults` adds nothing |

## Left out

- Flask routing, sessions, flash messages, templates and server start-up: `routes.py`, `run.py` and `create_app`. These are I/O.
- Login. `SessionUser` and `SessionController` call members that do not exist, so there is no behaviour to model.
- `UserProfileController`. It calls `UserProfile` methods that are not defined.
- The delegating controllers: `PINControllers`, `ServiceCategoryController` and the CSR controllers other than the two modelled. Their contracts are those of the methods they call.
- The repositories. `find_by_email` is folded into `UserController.CreateUserAC`.
- `ListServiceCategory` and the paginated forms of `SearchServiceCategory`. `paginate` is library behaviour. The unpaginated search is modelled.
- Exception branches (`"error:…"`, `"error"`, and the rollbacks) for failures the code does not cause itself. Examples: a lost connection, a constraint violation from a concurrent writer. Operations are atomic and sequential. The modelled exceptions are those the code raises from its own inputs: `None.status` in `suspend_pin_request`, NOT NULL in `create_pin_request`, and the insert failures passed in as parameters.
- PinService.CreatePinRequest: models only the `IntegrityError` text prefix and the failing column, not the rest of SQLAlchemy's message. It does not model the session left unrolled-back after a failure.
- PinService.UpdatePinRequest: requires text values for the text columns and a day for `preferred_date`. An ill-typed keyword value, which SQLite would store or reject, is not modelled.
- `ilike` wildcards: `%` and `_` inside a search term are treated as literal characters.
- Case folding is ASCII-only.
- Column length limits (`String(n)`), which SQLite does not enforce.
- Password hashing (`generate_password_hash`) is the parameter `hash`.
- ISO date formatting in `to_dict` is the parameters `isoDate` and `isoDateTime`.
- The foreign key from `users.profile_id` to `user_profiles`, which SQLite does not check by default. Accounts may name a missing profile. `list_all_users` then omits them, as the model states.
- Races between the duplicate check and the insert. The duplicate check is modelled directly.
