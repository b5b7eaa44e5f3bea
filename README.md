# oasis-backend halls and token gate, modelled in Dafny

This project models the core of the oasis-backend service, an Express and
drizzle/PostgreSQL backend for reserving halls. It covers four parts:

- **The schema** (`src/schema.ts`). The `Schema` module gives each table a row
  datatype and states the column bounds, the primary keys, the
  `unique_hall_name` index and the foreign keys. Each ON DELETE CASCADE is a
  function over a database snapshot, and the reservation defaults are
  modelled too. `Consistent` is the invariant every hall operation must keep.
- **The hall queries** (`src/queries.ts`): `addHall`, `deleteHallByName` and
  `updateHall`.
  - The `Database` module models the one SQL statement each query issues, as
    the database and its client libraries execute it:
    - parameters are read as 32-bit integer input;
    - an over-long `varchar` value is refused, unless the excess is spaces,
      which are cut off. The cast is an immutable function of a bound value,
      so PostgreSQL evaluates it while it plans the statement for the bound
      values. That happens before the sequence is drawn and before any row
      is matched;
    - the NOT NULL checks run in column order;
    - once the statement runs, the `halls_hall_id_seq` sequence is drawn even
      when the insert then fails (on NOT NULL or a unique key);
    - a missing value (`undefined`) is handled as drizzle and postgres-js
      handle it.
  - The `Queries` module turns each statement's outcome into what the query
    returns or throws. Errors are modelled as message texts, because the
    controllers only read the text.
  - The class `HallStore.Store` holds the tables and the sequence and performs
    each query in place. Each of its methods is proved against the
    corresponding `Queries` function.
- **The hall controllers** (`src/controllers/hallController.ts`):
  `addHallCtrl`, `deleteHall` and `updateHallEntry`. Each is a method over the
  `Store` that awaits one query and answers with a status and a JSON body. A
  failure's status is chosen by searching the thrown message for a phrase
  (`String.prototype.includes`, modelled as `Text.Contains`).
- **The token gate** (`src/jwtToken.ts`): `verifyToken` and
  `generateAccessToken`.
  - Verifying a token is a parameter: a function of the token and the secret
    that gives a payload or a named error.
  - A signed token is the `Minted` record of what was signed.
  - What the middleware does to the request and the response is returned as
    an `Effects` record: status, body, cookies, `req.user` and the number of
    `next()` calls.

Request bodies and headers are JavaScript values (`Js.JsValue`). `parseInt`,
`String(v)`, truthiness, `split(" ")`, `join` and `includes` are modelled
with their JavaScript meaning.

### Where the code does not do what its messages suggest

- `addHall` (src/queries.ts:23-30) does not check for missing fields. It also
  does not turn a duplicate name into an error of its own. Every failure is
  rethrown as `Error adding hall: ` followed by the database's message.
- The database's messages never contain "The following required fields are
  missing" or "Hall with this name already exists.", except by quoting the
  caller's own value (see the next point). This holds as long as
  drizzle-orm passes the driver's error on unwrapped, as it did before
  version 0.44 (see Left out). So the 400 and 409
  branches of `addHallCtrl` are never taken for the failures they were
  written for, and a missing name and a duplicate name are both answered 500.
  `HallController.AddHallMissingNameAnswers500` and
  `HallController.AddHallDuplicateNameAnswers500` prove this.
- Those two branches can only be reached through the caller's own text.
  `HallController.AddHallCapacityQuoted` and `HallController.AddHallIdQuoted`
  show such inputs: a capacity or a `hallId` that reads "Hall with this name
  already exists." is quoted in the invalid-integer message and answered 409.
- `addHall` inserts the request body as given, `hallId` included. A body
  without `hallId` gets the next value of `halls_hall_id_seq`. A body with a
  `hallId` is stored under that id and the sequence is not drawn, so a later
  insert that draws the same id fails on `halls_pkey`. A `hallId` of null
  fails the NOT NULL check on `hall_id`.
- `addHall` returns the insert's result. The insert has no `returning`
  clause, so the `data` of the 201 answer is an empty row list, not the new
  hall's id.
- `updateHallEntry` never answers 200 (see Findings).

## Model

| member | source | states |
|---|---|---|
| Text.ContainsIffOccurs | src/controllers/hallController.ts:14-16 | `includes` holds exactly when the phrase occurs at some position of the message |
| Text.MissingCharNotContained | src/controllers/hallController.ts:39 | a message lacking one character of the phrase does not include the phrase |
| Text.ContainsAfterPrefix | src/queries.ts:28 | a prefix that lacks the phrase's first character neither creates nor hides an occurrence of the phrase |
| Text.Split | src/jwtToken.ts:12 | `split` on one character gives at least one piece, and no piece holds the separator |
| Text.JoinSplit | src/jwtToken.ts:12 | joining the pieces of a split with the separator gives back the text |
| Text.SplitJoin | src/jwtToken.ts:12 | splitting a join of separator-free pieces gives back the pieces |
| Text.SplitAtSeparator | src/jwtToken.ts:12 | a text holding the separator splits into at least two pieces |
| Text.DigitsValueOfNatToText | src/controllers/hallController.ts:29 | the decimal text of a number reads back as that number |
| Text.UnsignedOfIntText | src/controllers/hallController.ts:29 | an integer's text is negative exactly when the integer is, and past the sign come the digits of its magnitude |
| Js.ParseInt | src/controllers/hallController.ts:29 | `parseInt(v, 10)` yields a number or NaN |
| Js.ParseIntOfIntText | src/controllers/hallController.ts:29 | `parseInt` of an integer's text, followed by anything that does not start with a digit, is that integer |
| Js.ParseIntSkipsWhiteSpace | src/controllers/hallController.ts:29 | leading white space does not change what `parseInt` reads |
| Js.ParseIntWithoutDigits | src/controllers/hallController.ts:29 | a text without digits reads as NaN |
| Schema.HallFitsByColumns | src/schema.ts:45-50 | a hall is within the schema's bounds exactly when its key and every column the queries address are: 32-bit integers, and varchar(100), varchar(10) and varchar(100) for name, type and person in charge |
| Schema.AddHallConsistent | src/schema.ts:42-55 | adding a hall within bounds, under a new key and with a new name, keeps every constraint |
| Schema.ReplaceHallConsistent | src/schema.ts:52-54 | replacing a hall's row within bounds, with a name no other hall has, keeps every constraint |
| Schema.WithoutReservations | src/schema.ts:80-94 | removing reservations also removes exactly the notifications and audit-log rows referring to them; all other rows stay unchanged |
| Schema.DeleteHallCascades | src/schema.ts:63-65 | deleting a hall removes exactly that hall and the reservations of it; users and holders stay; every constraint still holds |
| Schema.DeleteReservationCascades | src/schema.ts:80-94 | deleting a reservation removes it with its notifications and audit-log rows and keeps every constraint |
| Schema.DeleteHolderCascades | src/schema.ts:60-62 | deleting a reservation holder removes exactly it and the reservations it holds, and keeps every constraint |
| Schema.DeleteUserCascades | src/schema.ts:36-38 | deleting a user removes exactly it and the holders linked to it, leaves no audit-log row performed by it, leaves the halls alone and keeps every constraint |
| Schema.ReservationDefaults | src/schema.ts:72-74 | a reservation inserted without `status` or `food_requirement` gets "pending" and false; given values are stored as given |
| Database.Int4In | src/queries.ts:34-37 | integer input that is accepted is a 32-bit integer |
| Database.Int4OverflowBeforeTrailing | src/queries.ts:34-37 | digits whose magnitude exceeds 2147483648 are out of range, whatever text follows them |
| Database.Int4TrailingBeforeSign | src/queries.ts:34-37 | unsigned digits worth 2147483648 followed by anything but white space (as in "2147483648x") are invalid syntax, not out of range |
| Database.Int4InOfIntText | src/queries.ts:34-37 | an integer's decimal text reads back as the integer when it fits 32 bits, and is reported out of range otherwise |
| Database.Int4InWithoutStart | src/queries.ts:34-37 | input starting with neither white space, a sign nor a digit is refused as invalid integer syntax, quoting the input |
| Database.BindValue | src/queries.ts:83 | a text column receives the value's text (NULL for undefined and null); `capacity` receives the integer its text reads as, or that input's error; only `capacity` can refuse a value |
| Database.BindId | src/queries.ts:25 | a missing `hallId` leaves the id to the sequence, null gives NULL, and anything else is read as integer input, failing with that input's error |
| Database.CastLength | src/schema.ts:46-50 | NULL and integers pass the length cast unchanged; text that passes is stored fitted to its column; a failure is an over-long value |
| Database.AssignVarchar | src/schema.ts:46 | assignment to varchar(n) succeeds exactly when the text fits or the excess is all spaces; the stored text is a prefix of at most n characters and is the text itself when it fits |
| Database.BuildRowValues | src/queries.ts:25 | a row built from the record holds its values: its id, the facility and capacity as given, and the other texts fitted to their column |
| Database.InsertRow | src/schema.ts:45-54 | a row is stored exactly when its key and its name are both new; otherwise `halls_pkey` or `unique_hall_name` refuses it and nothing changes |
| Database.UpdateRow | src/queries.ts:81-85 | an update of the matched row, with a value already cast to the column's length, either fails on NOT NULL or `unique_hall_name` and changes nothing, or stores the value in the named column of that row; nothing else changes, the key stays, and a new name is one no other hall has |
| Database.InsertHallEffect | src/queries.ts:25 | a successful insert adds exactly one hall, holding the given values, under the given `hallId` or else the id drawn from the sequence; that key and that name were new |
| Database.LengthError | src/schema.ts:46-50 | an insert's texts all pass their length casts exactly when no length error is reported; a reported one is an over-long value |
| Database.ExecInsertHall | src/queries.ts:25 | an insert writes one row or fails; a failure leaves the tables unchanged; the sequence moves by at most one, not at all when the record gives a `hallId`, and not at all when a text is too long for its column |
| Database.InsertDrawnIdTaken | src/queries.ts:25 | when a hall already holds the next value of the sequence, an insert without `hallId` fails and adds nothing |
| Database.InsertRefusedBeforeDraw | src/queries.ts:25 | a `hallId` or capacity that is not integer input, and then a text too long for its column, fails the insert with that error before an id is drawn |
| Database.InsertHallKeepsValid | src/queries.ts:25 | an insert keeps every constraint and the sequence within its range |
| Database.InsertHallErrors | src/queries.ts:25-28 | an insert fails, in this order, with the given id's or the capacity's own input error, then the first over-long text; otherwise only with the exhausted sequence, a NOT NULL column (`hall_id` or another), or one of the two unique constraints |
| Database.InsertDuplicateName | src/queries.ts:25-28 | inserting a name another hall already has fails and leaves the tables unchanged |
| Database.ExecUpdateHall | src/queries.ts:81-85 | an update reports zero rows, one row or an error; anything but one row leaves the tables unchanged; an undefined value, and then an undefined key, is refused; one row is reported only for a value that passes the length cast |
| Database.UpdateHallApplied | src/queries.ts:81-85 | an update reporting one row stored the given value, read as the column reads it, in the named column of the keyed hall; it changed nothing else, kept the key, and gave a new name no other hall has |
| Database.UpdateMissingHall | src/queries.ts:81-88 | an update whose key names no hall changes nothing; it reports zero rows, or the length error when the value is too long for the column |
| Database.UpdateTooLong | src/queries.ts:81-85 | a text too long for its column fails the update with the length error whatever the key names, and changes nothing |
| Database.UpdateHallKeepsConsistent | src/queries.ts:81-85 | an update keeps every constraint |
| Database.UpdateHallSameKeys | src/queries.ts:81-85 | an update keeps the set of hall keys and every hall's `hall_id` |
| Database.ReplacedRowConsistent | src/schema.ts:45-54 | replacing a row by one that differs only in one column, within that column's bound, and takes no other hall's name, keeps every constraint |
| Database.UpdateFacility | src/queries.ts:81-85 | setting the facility of an existing hall always succeeds and changes only that column |
| Database.UpdateCapacity | src/queries.ts:81-85 | setting the capacity of an existing hall to a 32-bit number always succeeds, and the hall then holds that capacity |
| Database.ExecDeleteHall | src/queries.ts:34-37 | a delete removes one row exactly when the key reads as the id of a hall, and then removes that hall with its cascades; otherwise nothing changes; an undefined key is refused |
| Database.DeleteHallTwice | src/queries.ts:34-42 | deleting the same key a second time finds no row |
| Database.DeleteHallKeepsValid | src/queries.ts:34-37 | a delete keeps every constraint and the sequence |
| Queries.AddHallReturn | src/queries.ts:23-29 | `addHall` returns exactly when the insert wrote a row, with no returned rows; otherwise it throws the database message behind "Error adding hall: " |
| Queries.AddHall | src/queries.ts:23-30 | `addHall` returns an empty row list with a count of one, or throws a message starting "Error adding hall: " and adds nothing; a body that gives a `hallId` leaves the sequence alone |
| Queries.AddHallEffect | src/queries.ts:23-29 | `addHall` keeps the database valid. On success it adds one hall under the given `hallId` or else the drawn id, with the given facility, the name fitted to its column, and a key and a name no hall had. On failure it throws a prefixed database message |
| Queries.AddHallDuplicateName | src/queries.ts:25-28 | adding a name another hall already has throws and adds nothing |
| Queries.DeleteHallReturn | src/queries.ts:39-45 | the delete returns `Hall "<id>" has been deleted.` exactly when a row was deleted; otherwise it throws the database message, or `No hall found with the id "<id>"` |
| Queries.DeleteHallByName | src/queries.ts:32-50 | only a returned delete changes the database, never the sequence; it returns `Hall "<id>" has been deleted.`; an undefined id is refused by the driver |
| Queries.DeleteHallByNameEffect | src/queries.ts:32-50 | deleting an id that names a hall removes exactly that hall (with its cascades) and returns the message; otherwise nothing changes and a readable id throws "No hall found with the id …" |
| Queries.DeleteHallByNameTwice | src/queries.ts:40-42 | after a successful delete, deleting the same id again throws "No hall found with the id …" and changes nothing |
| Queries.ColumnNamed | src/queries.ts:64-72 | a column is named exactly when the name is a string among the five allowed, and the column found carries that property name |
| Queries.ColumnNamedExactly | src/queries.ts:64-72 | each column is named by exactly its own property name |
| Queries.UpdateHallReturn | src/queries.ts:87-93 | the update returns `Hall with ID "<id>" has been updated.` exactly when the update reported one row (a row set to its current value counts); otherwise it throws the database message, or `No hall found with ID "<id>" to update.` |
| Queries.UpdateHall | src/queries.ts:60-98 | a column outside the allow-list throws the invalid-column message and changes nothing; only a returned update changes the database, never the sequence; it returns `Hall with ID "<id>" has been updated.`; an undefined value throws "No values to set" |
| Queries.UpdateHallInvalidColumn | src/queries.ts:72-78 | `updateHall` throws the invalid-column message exactly when the column is not allowed, whether or not the hall exists, and then changes nothing |
| Queries.UpdateHallKeepsKeys | src/queries.ts:64-70 | an update never adds or removes a hall and never changes a hall's key |
| Queries.UpdateHallChangesOneColumn | src/queries.ts:81-85 | a successful update stored the given value, read as the column reads it, in the named column of the hall with that id; every other hall, column, table and the sequence are unchanged |
| Queries.UpdateCapacityRoundTrip | src/queries.ts:81-93 | `updateHall(id, "capacity", n)` on an existing hall returns the update message, and the hall then has capacity n |
| Queries.UpdateHallMissing | src/queries.ts:88-90 | updating an id that names no hall changes nothing and throws "No hall found with ID … to update.", or the length error's message when the value is too long for the column |
| Queries.UpdateHallKeepsValid | src/queries.ts:81-85 | an update keeps the database valid |
| HallStore.Store.constructor | src/schema.ts:42-55 | a new database is empty and valid, with the sequence at 1 |
| HallStore.Store.AddHall | src/queries.ts:23-30 | the insert, performed in place, keeps the store valid and gives the result and new state of `Queries.AddHall` |
| HallStore.Store.DeleteHallByName | src/queries.ts:32-50 | the delete, performed in place, keeps the store valid and gives the result and new state of `Queries.DeleteHallByName` |
| HallStore.Store.UpdateHall | src/queries.ts:60-98 | the update, performed in place, keeps the store valid and gives the result and new state of `Queries.UpdateHall` |
| Auth.AccessTokenOf | src/jwtToken.ts:11-12 | the access token read from the Authorization header never holds a space |
| Auth.RefreshTokenOf | src/jwtToken.ts:13-15 | the refresh token is the header's string, or the first element when the header is an array (a type guard only: Node joins repeated `refresh-token` headers into one string with ", ") |
| Auth.BearerToken | src/jwtToken.ts:12 | the access token of `<scheme> <token>[ <more>]` is `<token>` |
| Auth.NoSpaceNoAccessToken | src/jwtToken.ts:12 | a non-empty header without a space gives no access token |
| Auth.AccessTokenIffSpace | src/jwtToken.ts:12 | a non-empty header gives an access token exactly when it holds a space |
| Auth.GenerateAccessTokenSigns | src/jwtToken.ts:80-87 | `generateAccessToken` throws exactly when the access secret is not set; otherwise it signs exactly the given user with that secret for "2h" |
| Auth.VerifyToken | src/jwtToken.ts:10-78 | the outcome set is closed: `next` is called at most once, and then with nothing written and `req.user` set; every answer is one of 200, 401, 403 and 500; cookies are set exactly on the 200 answer |
| Auth.Refresh | src/jwtToken.ts:34-73 | the expired path never calls `next`; it answers 200, 401 or 500, or nothing, and sets cookies exactly with the 200 answer |
| Auth.MissingTokens | src/jwtToken.ts:17-21 | without both tokens the answer is 401 "No tokens provided", whatever the secrets and the verifier |
| Auth.MissingAccessTokenSecret | src/jwtToken.ts:25-29 | with both tokens but no access secret the answer is 500, before any verification |
| Auth.AccessGranted | src/jwtToken.ts:30-32 | `next` is called exactly when both tokens are present, the secret is set and the access token verifies; `req.user` is then its payload and nothing is written |
| Auth.ForbiddenIgnoresRefreshToken | src/jwtToken.ts:74-75 | a verification error other than expiry answers 403 "Forbidden", whatever the refresh token |
| Auth.Reissued | src/jwtToken.ts:48-66 | an expired access token and a refresh token that verifies with a `user` claim give a new access token for that user. Both cookies are set, httpOnly and sameSite strict. The answer is 200 with both tokens, and `next` is not called |
| Auth.ExpiredOutcomes | src/jwtToken.ts:37-72 | on the expired path: no refresh secret answers 500; a refresh token that fails verification answers 401; a string payload or one without `user` leaves the request unanswered |
| Auth.InvalidRefreshMeansRefreshFailed | src/jwtToken.ts:68-72 | the 401 "Invalid refresh token" answer means the refresh token itself failed verification; the signing failure cannot happen there |
| HallController.AddHallReply | src/controllers/hallController.ts:9-21 | a returned result is answered 201 with the result's rows. Failures are classified in order: the missing-fields phrase gives 400, then the name phrase gives 409, both with the message. Anything else gives 500 "Internal server error" |
| HallController.AddHallResponse | src/controllers/hallController.ts:5-23 | the answer is 201, 400, 409 or 500; 201 carries the empty row list; any other answer comes with the tables unchanged |
| HallController.AddHallCtrl | src/controllers/hallController.ts:5-23 | the handler keeps the store valid and gives the answer and state of `AddHallResponse` |
| HallController.AddHallAnswers | src/controllers/hallController.ts:9-11 | the answer is 201 exactly when the halls changed. Its data is then the empty row list, and exactly one key was added: the body's `hallId`, or else the next value of the sequence |
| HallController.AddHallFailsWith500 | src/controllers/hallController.ts:14-21 | once the `hallId` and the capacity are readable, every failure is answered with the generic 500 |
| HallController.AddHallDuplicateNameAnswers500 | src/controllers/hallController.ts:16-20 | a name already taken is answered 500, not 409, and nothing is added |
| HallController.AddHallMissingNameAnswers500 | src/controllers/hallController.ts:14-20 | a missing name is answered 500, not 400, and nothing is added |
| HallController.AddHallCapacityQuoted | src/controllers/hallController.ts:16-17 | with a readable `hallId`, a capacity reading "Hall with this name already exists." is answered 409, and nothing changes |
| HallController.AddHallIdQuoted | src/controllers/hallController.ts:16-17 | a `hallId` reading "Hall with this name already exists." is answered 409, and nothing changes |
| HallController.DeleteHallReply | src/controllers/hallController.ts:36-44 | a returned message is answered 200 with it; a thrown message including "No hall found" gives 404 with that message; anything else gives 500 "Internal server error" |
| HallController.DeleteHallResponse | src/controllers/hallController.ts:25-46 | the answer is 200, 400, 404 or 500; 400 exactly for a falsy `hallId`; only 200 comes with a changed database; the sequence never changes |
| HallController.DeleteHall | src/controllers/hallController.ts:25-46 | the handler keeps the store valid and gives the answer and state of `DeleteHallResponse` |
| HallController.DeleteHallWithoutId | src/controllers/hallController.ts:26-28 | a falsy `hallId` is answered 400 "Missing field: hallId" and deletes nothing |
| HallController.DeleteHallAnswers | src/controllers/hallController.ts:29-44 | the answer depends on the id `parseInt` reads. An id naming a hall gives 200 and removes that hall. A 32-bit id naming none gives 404 with the query's message. NaN or an out-of-range id gives 500. Only the 200 answer changes the database |
| HallController.NotFoundAnswers404 | src/controllers/hallController.ts:39-40 | the query's not-found message is answered 404 |
| HallController.DeleteNaNId | src/controllers/hallController.ts:41-43 | an id `parseInt` cannot read is refused by the database and answered 500, with nothing changed |
| HallController.DeleteOutOfRangeId | src/controllers/hallController.ts:41-43 | an id beyond 32 bits is refused by the database and answered 500, with nothing changed |
| HallController.UpdateHallEntryReplyAsWritten | src/controllers/hallController.ts:52-55 | as written every request is answered 500; a successful update gets the TypeError's message |
| HallController.UpdateHallEntryReply | src/controllers/hallController.ts:51-55 | a returned message is answered 200 with the `{ message }` object `updateHall` returns, and a thrown one 500 with that message |
| HallController.UpdateHallEntry | src/controllers/hallController.ts:48-56 | corrected handler (see Findings): it keeps the store valid and gives the answer and state of `UpdateHallEntryResponse` |
| HallController.UpdateHallEntryResponse | src/controllers/hallController.ts:48-56 | corrected handler (see Findings): the answer is 200 or 500; 200 carries `{ message }` with the update message; 500 comes with the database unchanged; a column outside the allow-list gets the invalid-column message |
| HallController.UpdateHallEntryAnswers | src/controllers/hallController.ts:50-55 | corrected handler (see Findings): 200 with `{ message: "Hall with ID … has been updated." }` means the named column of that hall now holds the given value, read as the column reads it, no other column changed and the keys are the same. Any other answer is 500 and changes nothing. A column outside the allow-list gets the invalid-column message |
| HallController.UpdateAppliedYetAnswered500 | src/controllers/hallController.ts:51-52 | a facility change is made, yet it is answered 500 as written; the corrected handler answers 200 with `{ message }` |

## Left out

- The Express bootstrap and routing (`src/index.ts`, `src/routes/hall.ts`) is framework wiring. So are helmet/CORS and `listen`.
- Mail sending (`src/mail.ts`) is network I/O whose errors are only logged.
- `console.log` and `console.error` logging has no effect on results.
- `jwt.verify` and `jwt.sign` cryptography is replaced by a verifier parameter and a `Minted` record. The "2h" expiry is carried as text and not interpreted.
- The `src/db.ts` connection, async/await and concurrency are out of scope. Each query is one atomic step on the store.
- `getAllReservations` (src/queries.ts:10-13) is a bare select with no logic.
- `fieldMapping` (src/queries.ts:52-58) is unused.
- `defaultNow()` timestamps depend on the clock. Timestamps are an unspecified optional value.
- Reservation dates and times are kept as text.
- Users, holders, reservations, notifications and audit-log rows are changed by no operation in the core. For them the model has only the constraints and the cascades.
- The controller imports `deleteHallById`, which `src/queries.ts` does not export; it exports `deleteHallByName`. The model treats the two as one operation.
- `Js.JsValue` has no booleans, objects, arrays or fractional numbers. A request field holding one of them is not modelled.
- Numbers are exact integers. Precision loss above 2^53 and exponent notation in `String(n)` are not modelled.
- Database.ExecInsertHall, Database.ExecUpdateHall, Database.UpdateMissingHall and Queries.UpdateHallMissing take the order of a plan made for the bound values, which PostgreSQL uses for an unnamed statement and for the first five executions of a prepared one. There the length casts run while planning, before the sequence draw and before the row match. A generic plan, which PostgreSQL may choose for a prepared statement from its sixth execution, casts only while running: after the draw, and only for a matched row. That order is not modelled. Which plan the program gets depends on the connection settings in `src/db.ts`, which is not part of this model.
- Queries.AddHall and HallController.AddHallCtrl take the request body to be one record. `express.json()` also accepts a JSON array, and drizzle's `values()` takes one. A non-empty array would insert several halls in one statement, drawing the sequence once per row. An empty array would throw "values() must be called with at least one value", which `addHall` rethrows and `addHallCtrl` answers 500. Array bodies are not modelled.
- Integer input follows PostgreSQL 15 and earlier, including the order of its checks: a magnitude beyond 2147483648 is out of range before trailing text is looked at, while "2147483648x" is invalid syntax. The hexadecimal, octal, binary and underscore forms that PostgreSQL 16 accepts, and its different order of checks, are not modelled.
- Errors are taken to reach the query layer as postgres-js reports them, with the server's primary message. This is drizzle-orm's behaviour before version 0.44. From 0.44 on, drizzle wraps driver errors in `DrizzleQueryError`, whose message is `Failed query: <sql>` followed by the parameters. That message quotes the caller's values, and so changes which `addHallCtrl` branch a failure takes and what `updateHallEntry`'s 500 body holds. The wrapped form is not modelled.
- Node keeps the first of repeated `Authorization` headers and joins repeated `refresh-token` headers with ", " into one string; the model takes the resulting string as given and does not model how Node builds it.
- `next()` throwing inside the middleware's `try` is not modelled.
- The `res.json` serialisation is represented by the `ReplyBody` and `Body` datatypes, not by JSON text.
- HallStore.Store.AddHall, HallStore.Store.DeleteHallByName and HallStore.Store.UpdateHall: their contracts tie each method to a `Queries` function through `old`. What each operation guarantees is proved about that function.

## Findings

| source | as written | input that shows it | evidently intended | confidence | as-written member | corrected member |
|---|---|---|---|---|---|---|
| src/controllers/hallController.ts:52 | on success the handler calls `req.status(200)`. `req` has no `status` method, so the TypeError "req.status is not a function" is caught and answered 500, although the update was applied | hall 1 exists; body `{ hallId: 1, field_name: "hallFacility", changes: "x" }` | `res.status(200).json(updatedField)` | high; not executed | HallController.UpdateHallEntryReplyAsWritten | HallController.UpdateHallEntryReply |
