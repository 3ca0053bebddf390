# Task manager backend: task routes and auth routes

A Dafny model of the two Express routers of the task manager backend:

- `backend/routes/tasks.js` — a task table in which every task belongs to the user who
  created it; create, list with search, get, partial update and delete, each scoped by
  the pair (task id, authenticated user).
- `backend/routes/auth.js` — a user table with unique emails; register, login, and
  reading and updating the profile of the authenticated user.

Modules:

- `Http`: request body values (`Json`, `Option`, where `None` is an absent field) and
  route replies (`Response`: `Ok` for 200, `Errors` with a `{field, message}` list
  for 400, or `NotFound` with a message for 404), and the `UserId` both tables share.
- `Validation`: the express-validator layer both routers use.
  - The string view a validator has of a field, and the `trim()` sanitizer.
  - Validation chains run in declaration order.
  - `formatValidationErrors`, which is the same function in both files
    (backend/routes/tasks.js:9-11 and backend/routes/auth.js:13-15).
- `Tasks`: the validation rules of POST / and PUT /:id, the ownership filter, the
  search and the newest-first order, and the class `TaskStore`. It holds the task
  collection as a map from task id to task, with one method per route.
- `Auth`: the validation rules of register and login, the email lookup and the login
  answer as functions of the user table, and the class `UserRegistry`. It holds the
  user collection, with one method per route.
  - Hashing (`bcrypt.hash`, `bcrypt.compare`) and token signing (`jwt.sign`, and the
    verification a client of the token does) are a `Crypto` value of four functions.
  - `Sound(crypto)` states the only two facts the routes rely on: a password matches
    its own hash, and a signed token verifies to the claims it was signed with.
- `Scenario`: two client methods that run the routes in sequence and reach their
  conclusions from the route contracts alone.
  - `RegisterAndLogin`: register, log in with the same credentials, register again.
  - `CreateSearchDelete`: create, search, try to read as another user, delete, get.

The authenticated caller (what the auth middleware puts in `req.user.id`) is a
parameter of every method that needs it.

How express-validator reports several failing validators of one field is library
behaviour the routers do not show. It is kept open as `ErrorPolicy`, which is either
every failure or only the first per field. Every property below holds under both
readings.

Security invariants of the model:

- A user never observes another user's task. Get, update and delete answer a foreign
  id exactly as they answer an unused one, and a listing depends only on the caller's
  own tasks.
- No route changes another user's tasks (`OthersUnchanged`).
- No route makes two users share an email (`UserRegistry.Valid`).
- Nothing is stored when validation fails.

## Model

| member | source | states |
|---|---|---|
| Validation.TrimShape | backend/routes/tasks.js:17 | the `trim()` sanitizer yields the slice of its input left once the white space before and after it is dropped; that slice has no white space at either end, and it is empty exactly when the input is all white space |
| Validation.TrimKeepsTrimmed | backend/routes/auth.js:19-20 | trimming a string with no white space at either end leaves it unchanged |
| Validation.RunChains | backend/routes/tasks.js:21-22 | `validationResult(req)` is empty exactly when every validator of every chain passed |
| Validation.RunChainsSound | backend/routes/auth.js:25-27 | every reported error names the field of a chain that failed, with the message of one of that chain's failing validators |
| Validation.RunChainsComplete | backend/routes/auth.js:25-27 | every chain with a failing validator is reported under its field, whatever the error policy |
| Validation.Failures | backend/routes/tasks.js:17 | a chain yields no messages exactly when none of its validators fails |
| Validation.FailuresFromFailing | backend/routes/tasks.js:17 | a chain reports no more messages than it has validators, and each message is the `withMessage` text of a validator that failed |
| Validation.FailuresOne | backend/routes/tasks.js:17 | a single validator contributes its message exactly when it fails |
| Validation.FailuresAppend | backend/routes/auth.js:19-22 | the messages of a chain are those of its first validators followed by those of the rest, so each failing validator's message appears once, in chain order |
| Validation.ChainErrors | backend/routes/auth.js:19 | a chain reports an error exactly when a validator fails; every error carries the chain's field and one of its failure messages; with every failure reported the count equals the number of failures, with the first only it is at most one |
| Validation.ChainErrorsInOrder | backend/routes/tasks.js:17 | with every failure reported, a chain's errors carry its failure messages in chain order; with only the first reported, the one error carries the first failure (`notEmpty` before `isLength`) |
| Validation.RunChainsAppend | backend/routes/auth.js:18-23 | the errors of chains declared one after another are those of the first chains followed by those of the rest, so errors come chain after chain in declaration order |
| Tasks.AbsentFieldsNotReported | backend/routes/tasks.js:65-67 | `optional()`: a field left out of a create or update body never gets an error under its name, whatever the other fields hold |
| Validation.PassingFieldNotReported | backend/routes/auth.js:25-27 | a field whose chains all pass is never named in the validation result |
| Validation.FormatValidationErrors | backend/routes/auth.js:13-15 | each validator error becomes `{field: param, message: msg}`, keeping the number of errors and their order |
| Validation.FormatValidationErrorsInjective | backend/routes/auth.js:13-15 | two error lists that format alike are equal, so formatting loses nothing |
| Validation.FormatValidationErrorsAppend | backend/routes/tasks.js:9-11 | formatting the errors of chains one after another equals formatting each chain's errors in turn |
| Tasks.CreateAccepted | backend/routes/tasks.js:17-18 | a create body that passes validation has a trimmed title of at least 2 characters and a description that is absent or a string |
| Tasks.CreateRulesSuffice | backend/routes/tasks.js:17-18 | conversely, such a body passes create validation |
| Tasks.CreateRejectsShortTitle | backend/routes/tasks.js:17-24 | a title that is empty or shorter than 2 characters after trimming is rejected with an error on the `title` field |
| Tasks.UpdateAccepted | backend/routes/tasks.js:65-67 | an update body that passes validation has only a string title of at least 2 characters, a string description, and a `completed` spelled as a boolean |
| Tasks.UpdateRulesSuffice | backend/routes/tasks.js:65-67 | conversely, an update body whose title is absent or a string of at least 2 characters, whose description is absent or a string, and whose `completed` is absent or spelled as a boolean passes validation |
| Tasks.UpdateRejects | backend/routes/tasks.js:65-72 | a present title shorter than 2 characters, or a `completed` that is not a boolean, is rejected |
| Tasks.Patch | backend/routes/tasks.js:77-80 | a partial update never changes a task's id, owner or creation time |
| Tasks.PatchKeepsTitleLength | backend/routes/tasks.js:65-78 | an update that passed validation keeps a stored title at least 2 characters long |
| Tasks.PatchCompletedOnly | backend/routes/tasks.js:77-80 | a body with only `completed` leaves the title, description and owner as they were and sets only the completed flag |
| Tasks.PatchNeutralAndIdempotent | backend/routes/tasks.js:77-80 | a body with no recognised field changes nothing, and applying the same body twice equals applying it once |
| Tasks.ForeignLooksMissing | backend/routes/tasks.js:53-54 | a task of another user is invisible to the caller: the caller's part of the table and every lookup are as if the task did not exist |
| Tasks.FindOneSeesOnlyOwn | backend/routes/tasks.js:53 | a lookup's answer depends only on the caller's own tasks |
| Tasks.ListedSeesOnlyOwn | backend/routes/tasks.js:41-43 | whether a task is listed depends only on the caller's own tasks |
| Tasks.PutOwnKeepsOthers | backend/routes/tasks.js:27-28 | saving a caller's task under a free id or one of the caller's ids changes no other user's tasks |
| Tasks.RemoveOwnKeepsOthers | backend/routes/tasks.js:92 | deleting one of the caller's tasks changes no other user's tasks |
| Tasks.EmptyQuerySelectsAll | backend/routes/tasks.js:40-42 | with `q` defaulting to the empty string, leaving the title pattern out for an empty `q` selects the same tasks as adding it would |
| Tasks.SubstringMatches | backend/routes/tasks.js:42 | a query occurring literally in a title matches it, ignoring case |
| Tasks.InsertAddsOne | backend/routes/tasks.js:43 | inserting into the sorted result adds exactly the one task, as a multiset and as a set of members |
| Tasks.InsertSorts | backend/routes/tasks.js:43 | inserting into a list sorted by `createdAt` descending keeps it so sorted |
| Tasks.InsertKeepsIdsDistinct | backend/routes/tasks.js:43 | inserting a task with a new id keeps the ids of the list distinct |
| Tasks.TaskStore.Create | backend/routes/tasks.js:14-35 | a body failing validation gets the formatted error list and nothing is stored; otherwise exactly one task is added under a fresh id, owned by the caller whatever owner the body names, with the trimmed title, not completed; no other user's tasks change |
| Tasks.TaskStore.List | backend/routes/tasks.js:38-49 | the reply holds exactly the stored tasks of the caller, narrowed by a non-empty `q` to titles containing it ignoring case, each once, newest first |
| Tasks.TaskStore.Get | backend/routes/tasks.js:51-60 | the caller's task with that id; any other id, unused or another user's, gets the same 404 `Not found` |
| Tasks.TaskStore.Update | backend/routes/tasks.js:62-88 | validation first, and on failure nothing changes; then a foreign or unused id is a 404 with nothing changed; otherwise the caller's task is replaced by its partial update and nothing else changes |
| Tasks.TaskStore.Delete | backend/routes/tasks.js:90-99 | removes exactly the caller's task with that id and answers `Deleted`; any other id gets the 404 and nothing changes; no other user's tasks change |
| Auth.RegisterAccepted | backend/routes/auth.js:19-22 | a registration body that passes validation has a trimmed name of at least 3 characters, a non-empty well-formed trimmed email, a password of at least 6 characters, and a confirmation equal to the password |
| Auth.RegisterRulesSuffice | backend/routes/auth.js:19-22 | conversely, a body keeping those rules passes registration validation |
| Auth.RegisterRejects | backend/routes/auth.js:19-27 | breaking any one registration rule makes validation fail |
| Auth.LoginRules | backend/routes/auth.js:55-56 | a login body passes validation exactly when its trimmed email is non-empty and well formed and its password is non-empty |
| Auth.RegisterRulesImplyLoginRules | backend/routes/auth.js:55-56 | credentials that pass registration validation pass login validation |
| Auth.FindByEmailUnique | backend/routes/auth.js:65 | with unique emails, the lookup by a user's email finds that user |
| Auth.AddUserKeepsEmailsUnique | backend/routes/auth.js:31-35 | adding a user whose email nobody holds keeps emails unique, and the new user is then found by that email |
| Auth.LoginUnknownEmail | backend/routes/auth.js:65-66 | a login with an email no user holds gets the email error `Account not found please register` |
| Auth.LoginWrongPassword | backend/routes/auth.js:67-68 | a login whose password does not match the stored hash gets the password error `Invalid password` |
| Auth.LoginRightPassword | backend/routes/auth.js:65-70 | a login that passes validation, names a held email and gives a password whose comparison with the stored hash succeeds is answered with a token signed over `{id, email}` of that user and its id, name and email |
| Auth.LoginIssuesClaims | backend/routes/auth.js:69-70 | a successful login returns the stored user found by the trimmed email, and a token that verifies to `{id, email}` of that user |
| Auth.RegisterThenLogin | backend/routes/auth.js:33-70 | after a successful registration, a login with the same email and password succeeds, and its token verifies to the id registration created |
| Auth.UserRegistry.Register | backend/routes/auth.js:17-50 | a body failing validation gets the formatted errors and a registered email gets `Email already registered`, both storing nothing; otherwise exactly one user is added under a fresh id, with the trimmed name and email and the hash of the password (never the password), the reply holds only id, name and email, and the token is signed over `{id, email}`; emails stay unique |
| Auth.UserRegistry.Login | backend/routes/auth.js:53-76 | the reply is the login answer for the current table, which its lemmas characterise |
| Auth.UserRegistry.Profile | backend/routes/auth.js:78-87 | the caller's id, name and email without password material, or a 404 `User not found` |
| Auth.UserRegistry.UpdateProfile | backend/routes/auth.js:89-101 | sets the caller's name only when a non-empty name is given, never changes email or password hash, changes no other user, and answers a 404 for a missing user with nothing changed |

## Left out

- Hashing and signing are uninterpreted functions, and `Sound` states the two facts
  the routes rely on. Salting (the cost factor 10), the algorithms behind them and
  the 7-day token expiry are not modelled. No clock is modelled.
- The `process.env.JWT_SECRET || 'secret'` fallback (backend/routes/auth.js:38, 69) is
  a defect: with no secret configured, anyone can sign tokens. The model has no secret
  at all, so it neither reproduces nor repairs this.
- The auth middleware (`../middleware/auth`) is not part of this model. The caller's
  user id is a method parameter.
- The `isEmail` grammar of express-validator is an abstract predicate (`isEmail`, a
  constant of the registry).
- `Auth.EmailChecks` and the other rule functions list their validators in order.
  Whether the library stops at the first failure of a field is left open as
  `ErrorPolicy`.
- Tasks.TaskStore.List: `q` is a MongoDB regular expression with the `i` option. The
  model matches it as a literal substring, and case is folded for ASCII letters only.
- The 500 "Server error" paths, `async`/`await` and interleaving of concurrent
  requests are not modelled; every store operation succeeds.
- Auth bodies hold strings or nothing (`Option<string>`). A non-string name or email
  would be turned into a string by `trim()`, and a non-string password reaches bcrypt
  only after the email lookup. None of these cases is modelled.
- Auth.UserRegistry.UpdateProfile: the name is a string or absent. PUT /profile tests
  `if (name)` (backend/routes/auth.js:94), so a truthy non-string such as the number 5
  would be stored after Mongoose casts it; the model does not cover that case.
- JSON values in the model are `null`, booleans, integers and strings. Arrays,
  objects, fractions and exponents are not modelled.
- Validation.Text: a JSON integer is exact and spelled in full in the model. In the
  source a number is an IEEE double. `JSON.parse` rounds integers beyond 2^53, and
  their string form switches to exponent notation from 10^21 on. So a title of
  `1000000000000000000000` is stored as "1e+21" by the source and in full by the model.
- Tasks.CreateChains, Tasks.UpdateChains, Auth.RegisterChains: the length minimums
  count every code point. validator.js `isLength` does not count the variation
  selectors U+FE0E and U+FE0F, so a title such as U+2764 U+FE0F is one character
  there and two here; the model accepts it where the library rejects it.
- The Mongoose schemas `models/Task.js` and `models/User.js` are not part of this
  model.
  - It is assumed that `completed` defaults to false.
  - `createdAt` is the `now` parameter of create.
  - An update's `completed` string is cast to a boolean.
- Tasks.TaskStore.Update: Mongoose's cast of `completed` is modelled for the four
  spellings validation lets through ("true", "false", "1", "0") and no others.
- Ids are handed out by a counter, standing for MongoDB ObjectId generation.
- Token claims hold the id as a number rather than an ObjectId string.
- `backend/server.js`, `frontend/src/services/api.js` and the React pages are Express
  wiring, an HTTP client and UI, and are not modelled.
- Behaviour kept as written:
  - PUT /profile does not validate the new name (backend/routes/auth.js:94), so the
    registry invariant puts no length rule on stored names.
  - PUT /:id does not trim the title (backend/routes/tasks.js:65), so the store's
    invariant is that stored titles have at least 2 characters, not that trimmed
    titles do.
