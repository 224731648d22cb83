# tatto_back in Dafny

A model of the request-handling core of **tatto_back**, an Express + PostgreSQL backend for
booking tattoo artists. Customers book appointments with artists, review completed
appointments, message each other and keep favorite artists. Artists keep a profile and a
list of services.

The model covers three layers.

- **The model files** (`src/models/*.ts`). These are the queries on the seven tables.
  - The database is a `Store.Database` of seven `Store.Table` objects. Each table holds its rows
    in heap order and knows its primary key and UNIQUE constraints.
  - Every `INSERT ... RETURNING *`, `UPDATE ... RETURNING *` and `DELETE` is a method on the
    table. `SELECT ... WHERE ... ORDER BY` is a function over the rows (`Sql.Select`).
  - The sparse-update loop that every model's `update` shares is written as the source writes
    it, in `SparseUpdate.Build`. The loop walks the patch entries, skips protected keys and
    `undefined` values, numbers the placeholders `$1..$k` and binds the id to `$(k+1)`.
    `SparseUpdate.RunMatchesPatch` proves that the generated statement writes exactly the
    surviving entries into the row with that id. `Store.UpdateSpec` states the whole
    `update(id, data)` on values. Each model's `Update` is proved against it with that
    model's protected columns.
  - `findAll` on artists builds its query text clause by clause (`ArtistModel.BuildQuery`).
    It is proved to select exactly the artists the filters describe.
- **The controllers** (`src/controllers/*.ts`).
  - A handler that writes is a method taking the database, the caller (`req.user`) and the
    request parts. It modifies only the table it writes.
  - A read-only handler is a function of the rows it reads.
  - Every handler returns an `Http.Outcome(status, success, message, data)`, the envelope
    that `successResponse`/`errorResponse` send.
  - Each guard of a handler's chain is a postcondition that fixes the status and message and
    says the table is unchanged on that rejection; a further postcondition says the handler
    succeeds exactly when every guard passes. The chain is: authenticated, required
    fields, entity exists, caller owns it, business rule.
- **The middleware** (`src/middleware/auth.ts`).
  - `authenticate` is a method on a `Request` object whose `user` field it sets.
  - `authorizeRoles` is a function from the allowed roles and the caller to the next step.

The JavaScript values that reach the handlers are `Json.Value`. A missing property reads as
`undefined`. Guards use JavaScript truthiness (`Json.Truthy`). A relational test such as
`rating < 1` uses JavaScript's coercion to a number (`Json.ToNumber`, `Json.Below`). SQL
equality never matches NULL (`Sql.SqlEq`), and `undefined` is bound as NULL (`Json.Bind`).

The review `create` handler stores the `artist_id` given in the request body. It does not
check it against the appointment. `ReviewController.Create` states this as written: the
stored row is built from `ReviewController.Draft` of the body.

## Model

| member | source | states |
|---|---|---|
| Json.Bind | src/models/Appointment.ts:17-25 | a parameter that is `undefined` is sent as NULL; every other value is sent unchanged |
| Types.ParseRole | src/controllers/authController.ts:29-31 | a role is accepted iff it is the string "customer" or "artist", and the accepted value spells the role it names |
| Types.ParseRoleName | src/types/index.ts:7 | each of the two roles is accepted under its own name |
| Types.ParseStatus | src/controllers/appointmentController.ts:115-124 | a status is accepted iff it is one of the five literals of `validStatuses`, and the accepted value spells the status it names |
| Types.StatusNamesRoundTrip | src/types/index.ts:56 | every appointment status has exactly one accepted spelling, and it is in `validStatuses` |
| Sql.Filter | src/models/User.ts:46-49 | the rows kept by a WHERE (or left by a DELETE) are exactly the table's rows for which the condition has the given truth |
| Sql.FilterCount | src/models/User.ts:46-49 | a WHERE keeps every copy of a matching row and drops every copy of a non-matching one |
| Sql.FirstWhere | src/models/User.ts:18-21 | `rows[0] \|\| null`: null iff no row matches; otherwise a stored row that matches |
| Sql.DeleteRemovedIff | src/models/User.ts:46-49 | `rowCount > 0` after a DELETE holds iff some row matched the condition |
| Sql.FindBy | src/models/User.ts:13-21 | lookup by a column: null iff no row has that non-NULL value; the row found has it; under a UNIQUE constraint on the column it is the only such row |
| Sql.Select | src/models/Review.ts:33-47 | `SELECT * WHERE c ORDER BY k`: every stored row that matches appears as often as it is stored, no other row appears, and the result is sorted by the ORDER BY keys |
| Sql.SortRows | src/models/Appointment.ts:37-51 | the sorted result is a permutation of its input and is in ORDER BY order |
| Sql.UpdateOneColumn | src/models/Message.ts:46-52 | a one-column SET writes that column in the matching rows and leaves every other cell as it was |
| Sql.UpdateConsistent | src/models/Service.ts:35-56 | an UPDATE that writes no column of a constraint keeps the constraint |
| Sql.AppendConsistent | src/models/Favorite.ts:5-11 | appending a row that clashes with no stored row on any constraint keeps every constraint |
| Sql.DeleteConsistent | src/models/Favorite.ts:32-38 | a DELETE keeps every constraint |
| Sql.FreshId | src/models/User.ts:5-11 | the id the database generates for an insert differs from every stored id |
| SparseUpdate.Surviving | src/models/User.ts:28-34 | the entries the loop forwards are exactly the patch entries whose key is not protected and whose value is not `undefined` |
| SparseUpdate.SurvivingSkipsProtected | src/models/Review.ts:54-66 | no forwarded entry names a protected column |
| SparseUpdate.Collect | src/models/User.ts:24-34 | the loop pushes one `key = $n` assignment per surviving entry, numbered `$1..$k` in entry order, and pushes that entry's value as the n-th parameter |
| SparseUpdate.Build | src/models/Appointment.ts:57-74 | the loop yields null iff no entry survives; otherwise the SET list numbers the surviving entries `$1..$k` in entry order, binds each to its value and binds the id to `$(k+1)` |
| SparseUpdate.RunMatchesPatch | src/models/Appointment.ts:76-81 | running the generated statement writes the surviving entries, in order, into the row with that id, and changes nothing else |
| SparseUpdate.SurvivingKeepsProtected | src/models/Appointment.ts:61-72 | after the update every protected column of every row is unchanged |
| Store.Table.WithNewId | src/models/User.ts:5-11 | the inserted row carries the given columns and a generated string id that no stored row has |
| Store.Table.Insert | src/models/Favorite.ts:5-11 | an INSERT appends the new row unless it clashes with a stored row on a constraint; then it is rejected and the table is unchanged; a table whose only constraint is the id never rejects |
| Store.Table.Execute | src/models/User.ts:38-43 | the generated UPDATE is applied when the new table keeps the constraints; it returns the row with the bound id, or null; otherwise the table is unchanged |
| Store.Table.Update | src/models/User.ts:23-44 | the shared `update(id, data)` loop and statement leave the table as `Store.UpdateSpec` says and return what it says |
| Store.Table.Delete | src/models/User.ts:46-49 | DELETE removes exactly the matching rows and reports whether any matched |
| Store.UpdateKeepsProtected | src/models/Service.ts:40-46 | an update never writes a protected column and never touches a row with another id |
| Store.UpdateKeepsUnnamed | src/models/Artist.ts:63-69 | a column the patch does not name keeps its value in every row |
| Store.UpdateWritesNamed | src/models/Artist.ts:63-76 | an accepted update writes each patch entry for an unprotected column with a defined value into the row with that id |
| Store.UpdateMatchesById | src/models/User.ts:36-43 | when an entry survives, the update returns the row with that id after the write, and returns one iff such a row existed |
| Store.ArtistPerUser | src/models/Artist.ts:13-18 | in a database that keeps its constraints, at most one artist profile has a given `user_id`, so `findByUserId` has one candidate |
| Store.UpdateNeverRejected | src/models/Service.ts:35-56 | an update whose protected columns cover every constraint is never rejected |
| UserModel.Create | src/models/User.ts:5-11 | stores exactly the given email, hash and role under a new id; the insert is rejected iff the email is already taken |
| UserModel.Update | src/models/User.ts:23-44 | the sparse update with `id` and `password_hash` protected |
| UserModel.UpdateReachesEmailAndRole | src/models/User.ts:28-34 | the user update does not exclude `email` or `role`: whenever it is accepted, a patch naming either writes its value into the user's row |
| UserModel.Delete | src/models/User.ts:46-49 | removes the row with that id; true iff there was one |
| ArtistModel.Create | src/models/Artist.ts:5-11 | inserts an artist row for the user; rejected iff the user already has one (`user_id` is UNIQUE) |
| ArtistModel.BuildQuery | src/models/Artist.ts:30-52 | one clause per truthy filter, in the order city, minRating, specialty; the parameter count equals the clause count; placeholders are numbered consecutively; each parameter is its filter's value (`%city%` for the city); the WHERE holds exactly for the wanted artists |
| ArtistModel.QueryMeaning | src/models/Artist.ts:30-52 | clauses of the requested kinds with their parameters select exactly the artists whose city contains the city (ignoring case), whose rating reaches the minimum and whose specialties include the specialty |
| ArtistModel.WhereOfAll | src/models/Artist.ts:30-52 | `WHERE 1=1 AND c1 AND ...` holds iff every clause holds |
| ArtistModel.WhereOfExtends | src/models/Artist.ts:34-49 | pushing a later parameter does not change the meaning of earlier placeholders |
| ArtistModel.ClauseMeaning | src/models/Artist.ts:34-49 | the city clause is a case-insensitive substring test, the rating clause is `rating >= min`, the specialty clause is membership in `specialties` |
| ArtistModel.RequestedOrder | src/models/Artist.ts:30-52 | the requested clause kinds are in the order city, minRating, specialty; each is present iff its filter is truthy |
| ArtistModel.FindAll | src/models/Artist.ts:25-56 | each wanted artist appears as often as it is stored and no other artist appears, ordered by rating desc, then total_reviews desc |
| ArtistModel.Update | src/models/Artist.ts:58-79 | the sparse update with `id` and `user_id` protected; never rejected |
| ArtistModel.Delete | src/models/Artist.ts:81-84 | removes the row with that id; true iff there was one |
| ServiceModel.Columns | src/models/Service.ts:5-19 | the inserted service has the given artist id as `artist_id`, the six given fields, and is active |
| ServiceModel.Create | src/models/Service.ts:5-20 | appends exactly that row under a new id |
| ServiceModel.FindByArtistId | src/models/Service.ts:27-33 | each of the artist's services with `is_active = true` appears as often as it is stored and no other row appears, newest first |
| ServiceModel.InactiveUnlisted | src/models/Service.ts:27-33 | an inactive service is never listed |
| ServiceModel.Update | src/models/Service.ts:35-56 | the sparse update with `id` and `artist_id` protected; never rejected |
| ServiceModel.Delete | src/models/Service.ts:58-61 | removes the row with that id; true iff there was one |
| AppointmentModel.Columns | src/models/Appointment.ts:5-28 | the inserted appointment has exactly the given customer, artist, service, date, time, notes and price, and status "pending" |
| AppointmentModel.Create | src/models/Appointment.ts:5-28 | appends exactly that row under a new id |
| AppointmentModel.FindByCustomerId | src/models/Appointment.ts:37-43 | exactly the customer's appointments, by scheduled_date desc then scheduled_time desc |
| AppointmentModel.FindByArtistId | src/models/Appointment.ts:45-51 | exactly the artist's appointments, in the same order |
| AppointmentModel.Update | src/models/Appointment.ts:53-82 | the sparse update with `id`, `customer_id` and `artist_id` protected; never rejected |
| AppointmentModel.UpdateStatusOnly | src/models/Appointment.ts:53-82 | a `{ status }` patch changes only the status cell of the appointment with that id, and returns that appointment |
| AppointmentModel.Delete | src/models/Appointment.ts:84-87 | removes the row with that id; true iff there was one |
| ReviewModel.Columns | src/models/Review.ts:5-26 | the inserted review has exactly the given appointment, customer, artist, rating, comment and images |
| ReviewModel.Create | src/models/Review.ts:5-26 | appends that row under a new id, unless the customer already reviewed that appointment; then it is rejected (23505) and nothing changes |
| ReviewModel.OneReviewPerAppointment | src/models/Review.ts:5-26 | the table never holds two reviews of one appointment by one customer |
| ReviewModel.FindByArtistId | src/models/Review.ts:33-39 | exactly the artist's reviews, newest first |
| ReviewModel.FindByCustomerId | src/models/Review.ts:41-47 | exactly the customer's reviews, newest first |
| ReviewModel.Update | src/models/Review.ts:49-76 | the sparse update with `id`, `appointment_id`, `customer_id` and `artist_id` protected; never rejected |
| ReviewModel.Delete | src/models/Review.ts:78-81 | removes the row with that id; true iff there was one |
| MessageModel.Columns | src/models/Message.ts:5-15 | the inserted message has exactly the given sender, recipient and content, and is unread |
| MessageModel.Create | src/models/Message.ts:5-15 | appends exactly that row under a new id |
| MessageModel.FindConversation | src/models/Message.ts:22-34 | each message from either user to the other appears as often as it is stored and no other message appears, oldest first |
| MessageModel.ConversationMeaning | src/models/Message.ts:22-34 | the conversation condition holds iff the message goes from one of the two users to the other |
| MessageModel.ConversationSymmetric | src/models/Message.ts:22-34 | the conversation of (a, b) is the same list as that of (b, a) |
| MessageModel.FindUserMessages | src/models/Message.ts:36-44 | each message the user sent or received appears as often as it is stored and no other message appears, newest first |
| MessageModel.ConversationInUserMessages | src/models/Message.ts:36-44 | every message of a conversation is among each participant's messages |
| MessageModel.MarkAsRead | src/models/Message.ts:46-52 | sets `is_read` of the message with that id and returns it, or null when there is none |
| MessageModel.MarkedReadOnlyIsRead | src/models/Message.ts:46-52 | marking changes no cell but `is_read`, and only in the message with that id, which becomes read |
| MessageModel.MarkedReadIdempotent | src/models/Message.ts:46-52 | marking twice leaves the table as marking once |
| MessageModel.MarkedReadAbsent | src/models/Message.ts:46-52 | marking an absent id changes nothing |
| MessageModel.Delete | src/models/Message.ts:54-57 | removes the row with that id; true iff there was one |
| FavoriteModel.Columns | src/models/Favorite.ts:5-11 | the inserted favorite links exactly the given user and artist |
| FavoriteModel.PairCond | src/models/Favorite.ts:21-38 | `user_id = $1 AND artist_id = $2` holds iff the row links that user and artist |
| FavoriteModel.FindByUserAndArtist | src/models/Favorite.ts:21-30 | null iff the pair is absent; otherwise the favorite for the pair, the only one |
| FavoriteModel.OnlyPair | src/models/Favorite.ts:21-30 | under the pair's UNIQUE constraint a found favorite is the only one linking the pair |
| FavoriteModel.Create | src/models/Favorite.ts:5-11 | `ON CONFLICT DO NOTHING`: for an existing pair nothing is inserted and no row is returned; otherwise the row is appended; afterwards the pair is present |
| FavoriteModel.OneFavoritePerPair | src/models/Favorite.ts:7 | the table never holds two favorites for one (user, artist) pair |
| FavoriteModel.FindByUserId | src/models/Favorite.ts:13-19 | exactly the user's favorites, newest first |
| FavoriteModel.Delete | src/models/Favorite.ts:32-38 | removes exactly the favorites linking the pair; true iff there was one |
| AuthMiddleware.BearerToken | src/middleware/auth.ts:12-16 | a token is found iff the header is present and starts with "Bearer "; the header is the prefix followed by the token |
| AuthMiddleware.BearerRoundTrip | src/middleware/auth.ts:16 | the token sent as `Bearer <token>` is the token the middleware verifies |
| AuthMiddleware.Authenticate | src/middleware/auth.ts:5-25 | 401 "No token provided" without a Bearer header, 401 "Invalid or expired token" when verification fails, both leaving `req.user` as it was; otherwise `req.user` becomes the decoded claims and the request goes on |
| AuthMiddleware.AuthorizeRoles | src/middleware/auth.ts:27-43 | 401 without a user; the request goes on iff the user's role is in the list; otherwise 403 |
| AuthMiddleware.AuthenticatedNeverUnauthorized | src/middleware/auth.ts:29-31 | with claims attached, the role gate never answers 401 |
| AppointmentController.OwnerIsParty | src/controllers/appointmentController.ts:86-89 | with one artist profile per user, `isOwner` holds iff the caller is the customer or owns the appointment's artist profile |
| AppointmentController.Create | src/controllers/appointmentController.ts:7-44 | 401; 400 without artist, date and time, with the table unchanged; otherwise 201 with the appended appointment, whose customer is the caller whatever the body says |
| AppointmentController.GetMyAppointments | src/controllers/appointmentController.ts:46-71 | 401; a customer gets exactly their appointments; another role gets 404 without an artist profile, else exactly the appointments of the profile `findByUserId` returns; each listed row appears as often as it is stored, latest first, and involves the caller |
| AppointmentController.GetById | src/controllers/appointmentController.ts:73-100 | 401, then 404, then 403 unless the caller is a party to the appointment; otherwise the appointment |
| AppointmentController.UpdateStatus | src/controllers/appointmentController.ts:102-153 | 401; 400 for a missing status or one outside the five, before any lookup; 404; 403 for a caller who is not a party; success exactly when every guard passes, and then only the status cell of that appointment changes and the updated row is returned |
| AppointmentController.Delete | src/controllers/appointmentController.ts:155-179 | 401; 404; 403 for anyone but the customer, its artist included, with the row kept; otherwise the row is removed |
| ReviewController.OutOfRangeNumber | src/controllers/reviewController.ts:22-24 | for a numeric rating the range test accepts exactly 1 to 5 |
| ReviewController.AppointmentCheck | src/controllers/reviewController.ts:26-40 | in order: 404 for a missing appointment, 403 unless the caller is its customer, 400 unless it is completed; none of them iff all pass |
| ReviewController.Create | src/controllers/reviewController.ts:7-59 | 401; 400 for missing fields; 400 for a rating outside 1..5 before any lookup; then the appointment checks; a duplicate review gives 400 "You have already reviewed this appointment"; the table is unchanged on every rejection; a created review's customer is the caller |
| ReviewController.GetByArtistId | src/controllers/reviewController.ts:61-72 | each of the artist's reviews appears as often as it is stored and no other review appears, newest first |
| ReviewController.Update | src/controllers/reviewController.ts:74-107 | 401; 404; 403 unless the caller wrote the review; only then, and only when truthy, the rating is checked (400); for an existing review, success exactly when the caller wrote it and the rating is absent or in 1..5; only rating, comment and images are written |
| ReviewController.Delete | src/controllers/reviewController.ts:109-133 | 401; 404; 403 unless the caller wrote the review, with the row kept; otherwise the row is removed |
| ServiceController.Fields | src/controllers/serviceController.ts:18-38 | the object passed to the model carries the body's six service fields |
| ServiceController.Create | src/controllers/serviceController.ts:7-45 | 401; 404 without an artist profile; 400 without a name; otherwise 201 with a service whose `artist_id` is the caller's own artist id |
| ServiceController.GetByArtistId | src/controllers/serviceController.ts:47-58 | each of the artist's active services appears as often as it is stored and no other row appears, newest first |
| ServiceController.Update | src/controllers/serviceController.ts:60-107 | 401; 404; 403 unless the caller's artist profile owns the service, with the table unchanged; `artist_id` is unchanged in every row |
| ServiceController.Delete | src/controllers/serviceController.ts:109-138 | 401; 404; 403 unless the caller's artist profile owns the service, with the row kept; the row is removed only after that check |
| AuthController.WithoutPassword | src/controllers/authController.ts:51 | the returned user has no `password_hash` and every other field of the stored user |
| AuthController.RegisterCheck | src/controllers/authController.ts:14-36 | in order: required fields, email format, password validity, role in {customer, artist}, email not taken; each failure is a 400 |
| AuthController.Register | src/controllers/authController.ts:10-66 | no user is created on a failed check; otherwise the user is stored with the hashed password; for the artist role the answer succeeds exactly when no artist profile already names the new user's id, and then that profile is appended; a failure is 500 "Registration failed" with the user kept; the token carries the stored user and the answer omits the hash |
| AuthController.Login | src/controllers/authController.ts:68-102 | 400 without email and password; 401 "Invalid credentials" for an unknown email and for a wrong password alike; success iff the email's user passes the password check; the user is returned without its hash |
| AuthController.LoginDoesNotEnumerate | src/controllers/authController.ts:76-84 | an unknown email and a wrong password give identical outcomes |
| AuthController.GetMe | src/controllers/authController.ts:104-122 | 401; 404 when the claimed user no longer exists; success exactly when the user exists, answering that user without its hash |
| ArtistController.FiltersOf | src/controllers/artistController.ts:10-13 | each filter is set iff its query parameter is present and non-empty, and then carries that parameter (minRating parsed) |
| ArtistController.GetAll | src/controllers/artistController.ts:6-22 | each artist the query's filters want appears as often as it is stored and no other artist appears, by rating desc then total_reviews desc |
| ArtistController.UnfilteredListsAll | src/controllers/artistController.ts:10-15 | without filters every artist is listed |
| ArtistController.GetById | src/controllers/artistController.ts:24-38 | 404 iff no artist has the id; success exactly when one does, answering that artist |
| ArtistController.GetMyProfile | src/controllers/artistController.ts:40-56 | 401; 404 without an artist profile; success exactly when the caller has one, answering the caller's own profile |
| ArtistController.Patch | src/controllers/artistController.ts:69-97 | the patch holds the twelve profile fields of the body and nothing else |
| ArtistController.UpdateProfile | src/controllers/artistController.ts:58-104 | 401; 404 without an artist profile, with the table unchanged; success exactly when the caller has a profile, and then the twelve-field patch is applied to that profile |
| ArtistController.ProfileUpdateKeeps | src/controllers/artistController.ts:84-97 | the profile update never changes a column outside the twelve profile fields, so rating, total_reviews and is_verified stay as they were in every row |
| ArtistController.ProfileUpdateKeepsOwner | src/models/Artist.ts:63-76 | the profile update never changes user_id or id of any row |
| ArtistController.ProfileUpdateOwnRowOnly | src/controllers/artistController.ts:64-84 | the profile update changes only the row whose `user_id` is the caller |
| ArtistController.SameIdSameOwner | src/controllers/artistController.ts:64-84 | the row the update addresses by id belongs to the caller |
| MessageController.Create | src/controllers/messageController.ts:6-29 | 401; 400 without recipient and content, with the table unchanged; otherwise 201 with the appended message, whose sender is the caller |
| MessageController.GetConversation | src/controllers/messageController.ts:31-49 | 401; otherwise each message between the caller and the other user, in either direction, appears as often as it is stored and no other message appears, oldest first |
| MessageController.GetMyMessages | src/controllers/messageController.ts:51-64 | 401; otherwise each message the caller sent or received appears as often as it is stored and no other message appears, newest first |
| MessageController.MarkAsRead | src/controllers/messageController.ts:66-90 | 401; 404 for an unknown message; success iff the caller is its recipient, so its sender never can; 403 otherwise; the table is unchanged on every rejection |
| FavoriteController.Add | src/controllers/favoriteController.ts:6-25 | 401; 400 without an artist id; otherwise 201 "Artist added to favorites" even when the pair existed and nothing was inserted; afterwards the caller has that favorite |
| FavoriteController.GetMyFavorites | src/controllers/favoriteController.ts:27-40 | 401; otherwise each of the caller's favorites appears as often as it is stored and no other row appears, newest first |
| FavoriteController.Remove | src/controllers/favoriteController.ts:42-61 | 401; success iff the caller had favorited the artist, else 404; afterwards no favorite links the caller and that artist, and every other favorite remains |
| UserController.GetProfile | src/controllers/userController.ts:6-22 | 404 iff no user has the id; otherwise that user without `password_hash` |
| UserController.Patch | src/controllers/userController.ts:30-36 | the patch holds full_name, phone and avatar_url of the body and nothing else |
| UserController.ProfileUpdateNeverRejected | src/controllers/userController.ts:30-36 | the profile patch can never break the UNIQUE email |
| UserController.ProfileUpdateKeepsAccount | src/controllers/userController.ts:30-36 | the profile update never changes id, email, role or password_hash, and no other user's row |
| UserController.UpdateProfile | src/controllers/userController.ts:24-49 | 401; the patch is applied to the caller's own row; 400 "Failed to update profile" iff no field is defined or the caller's row is gone; never a 500; otherwise the updated user without its hash |
| UserController.DeleteAccount | src/controllers/userController.ts:51-66 | 401; removes only the caller's row; 400 iff nothing was removed |

## Left out

- Numbers are integers. Prices, ratings, `lat`/`lng` and `parseFloat(minRating)` are not floating point. `parseFloat` is a parameter of `ArtistController.GetAll`.
- Json.StringToNumber: JavaScript's `Number(string)` is modelled only for strings of decimal digits and the empty string. Signs, fractions, exponents and surrounding blanks read as NaN.
- Timestamps are an integer `now` given to each insert. The database defaults (`created_at`, `updated_at`, `status = 'pending'`, `is_active = true`, `is_read = false`) are written into the inserted row by the model's `Columns`. The schema is not part of this model.
- Generated ids are strings that no stored row has. UUID syntax, and the 500 that PostgreSQL raises for a malformed id, are not modelled.
- The catch-all `catch` blocks and their 500 responses are not modelled, except where a unique violation reaches them. These are the duplicate review (400) and the artist row of `register` (500 "Registration failed").
- The UNIQUE constraints are assumed from the queries: users `email`, artists `user_id`, reviews `(appointment_id, customer_id)`, favorites `(user_id, artist_id)`. Foreign keys and cascading deletes are not modelled.
- SQL NULL and a column the row lacks are both a missing or NULL cell. `ILIKE` folds only ASCII case. `%` and `_` in a city filter act as wildcards, as they do in PostgreSQL.
- Sql.ILike: the backslash escape of `LIKE`/`ILIKE` is not modelled. PostgreSQL reads `\%`, `\_` and `\\` in a pattern as the literal character, and rejects a pattern ending in a lone backslash; the model treats a backslash in a city filter as an ordinary character, so `ArtistModel.ClauseMeaning` and `ArtistModel.QueryMeaning` differ from PostgreSQL for such a city, and the 500 that the rejected pattern causes is not modelled.
- Query-string values that are arrays or objects (`?city=a&city=b`) are not modelled. A query parameter is a string.
- Token signing and verification (`src/utils/jwt.ts`) are function parameters. So are password hashing and comparison and the email and password validators; `src/utils/password.ts` and `src/utils/validation.ts` are not part of this model.
- Routing, the role gates on routes and `validateRequest` are not modelled. So are Express wiring, `next` beyond the `Step` it yields, `async`/`await` and logging.
- The ORDER BY of a listing is stated as sortedness plus the count of each row: every matching row appears as often as it is stored, and no other row appears. The order PostgreSQL picks among equal keys is not fixed.
- `findById` on appointments, reviews, services and messages, and `findByUserId`/`findById` on artists and users, are `Sql.FindBy` on the respective column. Their contracts are those of `Sql.FindBy`.
