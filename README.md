# zebi-express, modelled in Dafny

zebi-express is an Express/PostgreSQL backend for a campus discount map. Students log in
by phone and ask to be affiliated with colleges ("partners"). They then see on a map the stores
that offer those partners a discount ("partnerships"). Admins use a dashboard to manage
stores, partners and partnerships and to decide affiliation requests.

This project models the logic of that backend:

- `js.dfy`: the JavaScript semantics the handlers rely on. This covers truthiness, `split` on one
  character, `join`, and decimal rendering. The same file holds the HTTP status codes.
- `models.dfy`: the five record classes and the defaults of their constructors.
- `database.dfy`: the database as a class `Db`. It has one map per table and a `Valid()`
  predicate for the primary keys and the unique phone.
- `auth_middleware.dfy`: bearer-token extraction. It also has the two middlewares, with
  `jwt.verify` as an oracle.
- `map_service.dfy`: `getUserPartnershipsData`. The query is modelled as a filter over the
  tables. `Grouped` specifies the grouping. `GroupRows` is the grouping loop, and it is proved
  to compute `Grouped`.
- `api_routes.dfy`: the end-user routes `/map`, `/login`, `/college-auth/request`,
  `/getUserCollege` and `/me`.
- `dashboard_routes.dfy`: the dashboard routes. These are admin login, the affiliation
  decision, and create, update and delete for stores, partners and partnerships.

Each route is a module-level method that takes the shared `Db` as a parameter. A route
that writes has a `modifies` clause that names only the tables the route touches. It states the status code and the new tables for every branch. The
properties that relate several calls are stated as lemmas about the pure functions beside
it. Examples are the upsert, the grouping, and the selection.

Some parts of the environment are model parameters:

- **Generated keys.** A generated primary key is a parameter `freshId`. If that key is
  already taken, the handler answers 500 and writes nothing; this is the database error
  reaching the catch block.
- **Row order.** The order in which the engine returns rows is a parameter `scan`: the ids of
  the table being scanned, in the order the engine reads them. `Database.ScanOf` requires that
  it lists every key of that table exactly once.
- **Time.** The time of an `UPDATE` is a parameter `now`.
- **External libraries.** `jwt.sign`, `jwt.verify` and `bcrypt.compare` are function-valued
  parameters.

## Model

| member | source | states |
|---|---|---|
| Js.TextTruthy | src/dashboardRoutes.js:18 | a text body field passes a `!x` check exactly when it is present and not empty |
| Js.NumberTruthy | src/dashboardRoutes.js:115 | a numeric body field passes a `!x` check exactly when it is present and not zero |
| Js.Split | src/middlewares/auth_middleware.js:10 | splitting on a character always gives at least one field, and no field contains the separator |
| Js.NatToString | src/apiRoutes.js:373 | the `${i + 1}` rendering is a non-empty string of decimal digits, with a leading zero only for zero |
| Js.Join | src/apiRoutes.js:383 | `Array.prototype.join`: nothing for no parts, the part itself for one (its meaning is stated by JoinLength and JoinSplit) |
| Js.JoinLength | src/apiRoutes.js:383 | the length of a join of at least one part is the parts' total length plus one separator fewer than there are parts |
| Js.ParseNatToString | src/apiRoutes.js:373 | reading the rendered digits back gives the number, so distinct numbers render differently |
| Models.NewUser | src/models.js:14-23 | `new User({...})`: the row built from the given fields, with the defaults below |
| Models.NewStore | src/models.js:58-66 | `new Store({...})`: the row built from the given fields, with the defaults below |
| Models.UserDefaults | src/models.js:14 | a User built without `is_verified` or `college_auth` is unverified and has an empty college list |
| Models.UserCopiesFields | src/models.js:14-23 | the User constructor copies each given field unchanged and nothing else: two constructions agree exactly when their arguments agree after defaults |
| Models.StoreDefaults | src/models.js:58 | a Store built without image, lat or lon has each of them null |
| Models.StoreCopiesFields | src/models.js:58-66 | the Store constructor copies each given field unchanged, applies the null defaults, and has no url field |
| Database.PartnerIdsOf | src/apiRoutes.js:369 | a missing user row or a NULL `college_auth` reads as the empty partner list; otherwise the stored list |
| Database.Db.Valid | src/models.js:2-117 | every table is keyed by the row's own `id`, and `users.phone` is unique, as the upsert's conflict target at src/apiRoutes.js:284 requires |
| Database.UploadUrl | src/apiRoutes.js:340 | the public path of an upload starts with the server URL and ends with the file name |
| AuthMiddleware.ExtractToken | src/middlewares/auth_middleware.js:9-12 | no header gives no token; any token found is non-empty and contains no space |
| AuthMiddleware.TokenFromHeader | src/middlewares/auth_middleware.js:10 | `<word> <token>` followed by nothing or a space yields exactly that token, whatever the first word is |
| AuthMiddleware.HeaderAroundToken | src/middlewares/auth_middleware.js:10 | conversely, every extracted token is the second space-separated field of the header |
| AuthMiddleware.NoTokenHeaders | src/middlewares/auth_middleware.js:9-12 | no header, an empty header and a one-word header give no token |
| AuthMiddleware.DoubleSpaceHeader | src/middlewares/auth_middleware.js:10-12 | `"Bearer  abc"` (two spaces) has an empty second field, so it gives no token |
| AuthMiddleware.BearerHeader | src/middlewares/auth_middleware.js:10 | `"Bearer abc"` yields `abc` |
| AuthMiddleware.Authenticate | src/middlewares/auth_middleware.js:8-19 | every rejection is a 401; it is "no token" exactly when no token is extracted; it proceeds exactly when the verifier accepts the token under the secret, and then with the decoded claims |
| AuthMiddleware.VerifyWith | src/middlewares/auth_middleware.js:14-18 | on success `req.user` is the decoded claims and `next` is called once; on rejection `req.user` is untouched and `next` is not called |
| AuthMiddleware.VerifyAccessToken | src/middlewares/auth_middleware.js:8-19 | the verdict of the access secret, with the same effects on the request |
| AuthMiddleware.VerifyRefreshToken | src/middlewares/auth_middleware.js:22-33 | the same steps, checked against the refresh secret |
| MapService.RowsFor | src/services/mapService.js:57-66 | a store's rows all belong to that store and are a sub-sequence in length |
| MapService.FirstSeenFacts | src/services/mapService.js:39-55 | the ids the map collects are exactly the store ids that occur, each once |
| MapService.FirstSeenOrdered | src/services/mapService.js:41-55 | the collected ids are in increasing order of their first rows |
| MapService.AccumulateNew | src/services/mapService.js:44-55 | the first row of a store adds its id at the end of the order and opens an entry holding that row's deal |
| MapService.AccumulateOld | src/services/mapService.js:57-66 | a later row of a store appends its deal to the existing entry and leaves the order alone |
| MapService.ValuesInOrder | src/services/mapService.js:69 | the values of the map are listed in insertion order |
| MapService.AccumulatedGrouped | src/services/mapService.js:69 | once all rows are folded, the values in insertion order are the specified grouping |
| MapService.Grouped | src/services/mapService.js:38-69 | the specification of the grouping: one entry per distinct store id in order of first appearance, built from that store's first row, holding the store's rows in order (its properties are the Grouped* lemmas) |
| MapService.GroupRows | src/services/mapService.js:38-69 | the loop over a keyed accumulator returns exactly `Grouped(rows)` |
| MapService.GroupedEmpty | src/services/mapService.js:34-36 | no rows give no stores |
| MapService.GroupedIds | src/services/mapService.js:39-69 | one entry per distinct store id, in order of first appearance |
| MapService.GroupedDistinct | src/services/mapService.js:39-69 | no store appears twice |
| MapService.GroupedCoversRows | src/services/mapService.js:41-55 | every row's store has an entry |
| MapService.GroupedFromFirstRow | src/services/mapService.js:44-54 | every entry's id occurs among the rows |
| MapService.GroupedOrder | src/services/mapService.js:39-69 | stores appear in increasing order of their first rows |
| MapService.GroupedEntry | src/services/mapService.js:42-66 | the entry's attributes come from the store's first row and are never overwritten; its partnerships are the store's rows in row order, each with the partner of that same row |
| MapService.GroupedCount | src/services/mapService.js:57-66 | the partnership lists add up to the number of rows |
| MapService.JoinedRow | src/services/mapService.js:10-21 | the selected columns of one joined partnership, its store and its partner |
| MapService.OnMap | src/services/mapService.js:25-30 | the join and filter condition: the partnership has the partner, its store exists and has both coordinates, and the partner exists |
| MapService.PartnerRows | src/services/mapService.js:25-30 | each row of one partner is the join of a partnership of that partner with its store and partner, and the store has both coordinates; in a pass without repeats each partnership appears at most once |
| MapService.UnnestRows | src/services/mapService.js:23-30 | each row for a partner list is the join of a partnership whose partner is in the list, with its store and partner, and the store has both coordinates |
| MapService.SelectRows | src/services/mapService.js:9-32 | over a pass of the partnerships table, an unknown user selects no rows; every row is the join of an existing partnership, its store and its partner, where the partner is one of the user's and the store has both coordinates |
| MapService.SelectRowsSound | src/services/mapService.js:23-31 | every selected row is the join of an existing partnership whose partner is in the user's `college_auth` and whose store has non-null lat and lon |
| MapService.SelectRowsComplete | src/services/mapService.js:23-30 | every partnership of one of the user's partners whose store has both coordinates yields its joined row |
| MapService.GroupedFromRows | src/services/mapService.js:46-49 | every entry takes its coordinates from one of its rows |
| MapService.GetUserPartnershipsData | src/services/mapService.js:7-70 | the result is the grouping of the selected rows; an unknown user gets `[]`; every store has coordinates |
| ApiRoutes.AnyJoin | src/apiRoutes.js:35-38 | the join and filter condition of the `/map` query: the partnership's partner is listed and its store and partner exist |
| ApiRoutes.AnyRows | src/apiRoutes.js:21-40 | in a pass without repeats, each row of the `/map` query is the join of a partnership of a listed partner with its existing store and partner, and no partnership id appears twice |
| ApiRoutes.AnyRowsComplete | src/apiRoutes.js:35-38 | over a pass of the whole partnerships table, every partnership of a listed partner with an existing store and partner yields its joined row |
| ApiRoutes.AnyRowsKeepsUnlocated | src/apiRoutes.js:35-38 | unlike the map service, the route keeps a store that has no coordinates |
| ApiRoutes.MapStores | src/apiRoutes.js:13-69 | `/map` groups its rows as the service does; an unknown user gets `[]`; over a pass of the partnerships table there are no more partnership entries than partnerships |
| ApiRoutes.PhoneOwner | src/apiRoutes.js:284 | the row holding a phone that is taken |
| ApiRoutes.UpsertByPhone | src/apiRoutes.js:280-292 | `is_new` holds exactly when the phone was new and the row was inserted; an existing phone keeps its id; the row gets the new name and image; keys and phones stay unique; other rows are unchanged |
| ApiRoutes.UpsertKeepsExisting | src/apiRoutes.js:284-287 | an existing phone keeps its id and every column except name and image |
| ApiRoutes.UpsertInsertsDefault | src/apiRoutes.js:282-283 | a new phone becomes an unverified user with no colleges and no refresh token |
| ApiRoutes.LoginSpec | src/apiRoutes.js:276-323 | every failure is a 500, and keys and phones stay unique |
| ApiRoutes.LoginSucceeds | src/apiRoutes.js:292-317 | a successful login registers exactly when the phone was new; the refresh token it returns is the one stored on the phone's row, replacing any earlier one; other rows are unchanged |
| ApiRoutes.LoginTwice | src/apiRoutes.js:280-292 | logging in again with the same phone adds no row, is not a registration, and updates the name and image |
| ApiRoutes.LoginTokens | src/apiRoutes.js:295-301 | both tokens are signed over the row's id and phone, with the access and the refresh secret respectively |
| ApiRoutes.LoginSignFailure | src/apiRoutes.js:295-304 | a signing failure answers 500 but keeps the upserted row, with no token stored |
| ApiRoutes.Login | src/apiRoutes.js:276-323 | the handler changes only the users table, exactly as `LoginSpec` says |
| ApiRoutes.RequestCollegeAuth | src/apiRoutes.js:337-359 | no file gives 400 and inserts nothing; otherwise one pending request with the upload's public path is inserted and the answer is 200 |
| ApiRoutes.UploadPathTruthy | src/apiRoutes.js:340-342 | the path of an uploaded file is never empty, so only a missing file is refused |
| ApiRoutes.Placeholder | src/apiRoutes.js:373 | one placeholder is `$` followed by digits, with no comma |
| ApiRoutes.Placeholders | src/apiRoutes.js:373 | the `$1,...,$n` text for n ids, modelled on its own: the `IN` query it is spliced into is `SelectedPartners`, which takes the ids directly; the two lemmas below state that the text has exactly one numbered placeholder per id |
| ApiRoutes.PlaceholdersEmpty | src/apiRoutes.js:371-373 | zero ids give the empty placeholder list |
| ApiRoutes.PlaceholdersNumbered | src/apiRoutes.js:373 | for n >= 1 the list splits on commas into exactly n fields, the i-th being `$` and the number i + 1 |
| ApiRoutes.SelectedPartners | src/apiRoutes.js:374-377 | the selected ids are listed ids of existing partners, in the engine's order; a pass without repeats selects each at most once |
| ApiRoutes.SelectedPartnersComplete | src/apiRoutes.js:374-377 | over a pass of the whole partners table, a partner is selected exactly when it is listed and exists |
| ApiRoutes.NamesOf | src/apiRoutes.js:378 | one name per selected partner, in the same order |
| ApiRoutes.GetUserCollege | src/apiRoutes.js:362-388 | the partner names joined with `", "`; no user, a NULL list or an empty list give the empty string |
| ApiRoutes.Me | src/apiRoutes.js:391-440 | 404 exactly when the user row is missing; otherwise the user's columns, the details of the user's partners, and `is_authenticating` exactly when a pending request of the user exists |
| DashboardRoutes.FirstNamed | src/dashboardRoutes.js:22-26 | the first admin with the name, or none when no admin has it |
| DashboardRoutes.FirstNamedFinds | src/dashboardRoutes.js:22-27 | an admin with the name is always found, at or before its position |
| DashboardRoutes.AdminLogin | src/dashboardRoutes.js:15-42 | 400 exactly when the name or the password is missing or empty, before any lookup; 401 for an unknown name or a failed comparison; otherwise a token for the admin's id and name |
| DashboardRoutes.DecisionError | src/dashboardRoutes.js:72-81 | a request is refused when the user id is empty, or when an acceptance has no colleges or an empty list |
| DashboardRoutes.VerifyUser | src/dashboardRoutes.js:83-88 | acceptance sets the colleges to exactly the given list and verifies the user; other users are unchanged |
| DashboardRoutes.RemoveRequestsOf | src/dashboardRoutes.js:91 | the user's pending requests are removed and no other request is |
| DashboardRoutes.RemoveRequestsClearsPending | src/dashboardRoutes.js:91 | afterwards the user has no pending request, and other users' pending status is unchanged |
| DashboardRoutes.AcceptReplacesColleges | src/dashboardRoutes.js:84-87 | the user's partner list becomes exactly the accepted colleges; the old list is replaced, not merged |
| DashboardRoutes.ApplyDecision | src/dashboardRoutes.js:83-91 | acceptance updates the user; the pending requests are deleted in both outcomes |
| DashboardRoutes.DecisionStatus | src/dashboardRoutes.js:67-104 | as written: 400 for a refused request, otherwise 500 |
| DashboardRoutes.DecisionStatusIntended | src/dashboardRoutes.js:99 | as intended: 400 for a refused request, otherwise 200 |
| DashboardRoutes.DecisionNeverSucceeds | src/dashboardRoutes.js:94-102 | as written the decision never answers 200; a request that passes the checks gets 500 where 200 is intended |
| DashboardRoutes.AcceptanceAnswers500 | src/dashboardRoutes.js:80-102 | a concrete acceptance answers 500 as written and 200 as intended |
| DashboardRoutes.DecideCollegeAuth | src/dashboardRoutes.js:67-104 | a refused request writes nothing; otherwise the writes happen, and the status is that of the handler as written |
| DashboardRoutes.DecideCollegeAuthIntended | src/dashboardRoutes.js:67-99 | the same writes, answering 200 |
| DashboardRoutes.StoreFieldsPresent | src/dashboardRoutes.js:115 | the `!name || !category || !lat || !lon || !url` test, on JavaScript truthiness |
| DashboardRoutes.StoreFieldsMeaning | src/dashboardRoutes.js:115 | the store check passes exactly when every text is present and non-empty and both coordinates are present and non-zero |
| DashboardRoutes.ZeroCoordinateRejected | src/dashboardRoutes.js:145 | a latitude or longitude of 0 is refused |
| DashboardRoutes.CreateStore | src/dashboardRoutes.js:111-133 | a missing field gives 400 and writes nothing; otherwise the new store row, with no image |
| DashboardRoutes.UpdateStore | src/dashboardRoutes.js:136-174 | 400 for an empty id or a missing field; 404 for an unknown id; both write nothing; otherwise the five columns are replaced and the rest of the row is kept |
| DashboardRoutes.DeleteStore | src/dashboardRoutes.js:177-194 | 200 whether or not the row existed, and only that row is removed |
| DashboardRoutes.CreatePartner | src/dashboardRoutes.js:200-221 | no name or no image gives 400 and writes nothing; otherwise the new partner with the upload's path |
| DashboardRoutes.UpdatedImage | src/dashboardRoutes.js:243-246 | a partner update without a file keeps the existing image |
| DashboardRoutes.UpdatePartner | src/dashboardRoutes.js:224-262 | 400 for an empty id or name; 404 for an unknown id; both write nothing; otherwise the name is replaced, and the image too when a file was uploaded |
| DashboardRoutes.DeletePartner | src/dashboardRoutes.js:265-282 | 200 whether or not the row existed, and only that row is removed |
| DashboardRoutes.PartnershipFieldsPresent | src/dashboardRoutes.js:292 | the test that all four body fields are truthy, on JavaScript truthiness |
| DashboardRoutes.PartnershipFieldsMeaning | src/dashboardRoutes.js:292 | the partnership check passes exactly when all four texts are present and non-empty |
| DashboardRoutes.CreatePartnership | src/dashboardRoutes.js:288-309 | a missing field gives 400 and writes nothing; otherwise the new link |
| DashboardRoutes.UpdatePartnership | src/dashboardRoutes.js:312-344 | 400 for an empty id or a missing field; 404 for an unknown id; both write nothing; otherwise the four columns are replaced and `updated_at` becomes the time of the update |
| DashboardRoutes.DeletePartnership | src/dashboardRoutes.js:347-361 | 200 whether or not the row existed, and only that row is removed |

## Left out

- HTML generation is not modelled: `generateMapHTML` and the page rendered by `/map` (Kakao Maps markup and browser script). `ApiRoutes.MapStores` stops at the grouped stores.
- Coordinates are exact reals. `parseFloat` in the map service and floating point in general are not modelled.
- Row order is fixed by the `scan` parameters. For the map service it is one particular order: the user's partner ids in list order, then the partnerships in scan order. The grouping lemmas hold for any row sequence, but the engine may choose another order.
- Foreign keys, cascades and schema defaults are not visible. Inserted rows take the JavaScript model defaults, and their `created_at` is left empty. A foreign-key error (for example, deleting a store that partnerships still reference) is not modelled.
- Body fields are modelled as optional strings and numbers. Other JSON types (arrays, objects, numeric strings) are not modelled. Neither is PostgreSQL's coercion of them, nor the NOT NULL errors that missing login fields would raise.
- The JSON messages and the echoed `RETURNING *` rows of the answers are not modelled.
- `/login` takes name, image and phone as strings. A missing phone (NULL, which never conflicts) is not modelled.
- Deleting the uploaded image file (`fs.existsSync`/`unlinkSync`) and multer's storage configuration are file-system I/O and are left out.
- `/refresh` and `/logUserClick` are not modelled; each is a single signing call or a single insert. `/dashboard/main` (a dump of every table) and the server wiring in `src/index.js` are left out too.
- Malformed ids are not modelled: every id in a route parameter or a body is taken to be a well-formed UUID. The id columns are `uuid`, so PostgreSQL rejects a malformed id. The query then throws, and the catch block answers 500 with no write. For such an id the model instead answers as for any unknown id: the Update handlers give 404, the Delete handlers give 200, `CreatePartnership` inserts the row, and `DecideCollegeAuth` goes on to the update.
- The Authorization scheme name is not checked by the source, and the model does not check it either.
- The asynchronous callback structure and errors thrown inside `jwt.sign`'s callbacks are not modelled. Each handler is one sequential method.
- The `/map` route groups into a plain object rather than a `Map`. It is modelled by the same fold, because object keys that are UUID strings enumerate in insertion order. The aliasing of the JavaScript store objects pushed into is modelled on values.
- The CollegeAuth, Partner and Partnership constructors only copy their arguments. They are the datatype constructors themselves and have no separate functions.

## Findings

| source | as written | input that shows it | evidently intended | confidence | as-written member | corrected member |
|---|---|---|---|---|---|---|
| src/dashboardRoutes.js:94 | after the user update and the deletion of the pending requests, the cleanup reads `r.info21_image`, but no `r` is declared, so the handler throws and the catch block answers 500 | `PATCH /dashboard/college_auths/u1` with `{status: "accepted", colleges: ["p1"]}` (see `DashboardRoutes.AcceptanceAnswers500` and `DashboardRoutes.DecisionNeverSucceeds`) | take the image path from the row just selected, delete the file, and answer 200 | high; not executed | DashboardRoutes.DecisionStatus | DashboardRoutes.DecisionStatusIntended |
