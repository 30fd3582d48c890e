# UserManagementAPI — a Dafny model

UserManagementAPI is a minimal ASP.NET service that manages user records in memory. It keeps one ordered
list of users and a dictionary from id to user, and exposes five routes:

- `GET /api/users` lists the users.
- `GET /api/users/{id}` fetches one; an id of 0 or less is a 400.
- `POST /api/users` creates a user. The name must not be blank and the address must parse; the server
  assigns id max + 1, or 1 in an empty store.
- `PUT /api/users/{id}` overwrites name and email.
- `DELETE /api/users/{id}` removes the user.

It also answers `GET /` with a greeting and `GET /api/test-exception` with a thrown exception. Every
request passes three middleware stages:

1. An outer exception boundary that answers any exception with a 500 carrying its message.
2. An authentication gate. It takes the first Authorization value, splits it on `' '` and compares the
   last piece with the fixed token `"valid-token"`; failing that it answers 401.
3. A logger, which sends the response through an in-memory buffer. A returned response reaches the
   client unchanged. On an exception, the logger leaves its disposed buffer installed, and the
   boundary's answer is lost (see Findings).

The model, module by module:

- `Users`: the user record (the `User` class at Program.cs:155-160, here the datatype `User`) and the
  name and email checks. Ids are C# `int`, the subset type `Int32`. Name and email are nullable strings,
  `Option<string>`.
- `Http`: the responses, their status codes, and the exception boundary (`Translate`).
- `StoreSpec`: the store as a value. Each handler is a function from the list to a reply and a new list.
  The dictionary is a function of the list (`IndexOf`): one assignment per appended user, so a repeated
  id would keep the later user.
- `StoreLaws`: how the dictionary follows the list through every handler, and what a client sees across
  several requests (round trips, consecutive ids).
- `UserStore`: the shared store as a class whose `users` and `index` fields the handlers update in place.
  Each method is proved against the matching `StoreSpec` function and keeps the invariant `Valid()`: ids
  are positive and unique, and the dictionary equals `IndexOf(users)`. The scan behind
  `users.Max(u => u.Id)` and the scan inside `List.Remove` are loops.
- `Auth`: the token extraction. `Split(" ")` keeps empty pieces and is proved to be the inverse of
  joining with single spaces. The accepted headers are characterised exactly.
- `Logging`: the logger's handling of the body stream, and what the client receives as written and
  with the stream put back in a `finally` block.
- `Pipeline`: the middleware chain and routing, as a function (`Serve`) and as a method on the shared
  store (`Handle`). The response it models is the one the boundary produces.
- `IdOverflow`: the id assignment exactly as the code computes it, without overflow checking, and what
  happens at `int.MaxValue` (see Findings).

The model follows the code in every handler but one place: id assignment. `StoreSpec.NextId`,
`StoreSpec.Create`, `UserStore.AssignId` and the `Pipeline` members built on them compute
`users.Max(u => u.Id) + 1` with overflow checking, so a create at `int.MaxValue` throws .NET's
overflow exception and is answered with a 500. The code as written computes the sum unchecked and
answers 201 with id `int.MinValue`. `IdOverflow` models that version and shows where the two differ
(Findings).

Some behaviours of the code that a reader might not expect, all modelled as written:

- The gate does not follow the Bearer scheme of RFC 6750 (section 2.1). It never checks the scheme
  word: the bare token passes, so does any word followed by a space and the token, and a trailing space
  fails (`Auth.AnySchemeWordPasses`, `Auth.TrailingSpaceRejected`).
- The server-assigned `User.Id` can be reused. After DELETE of the largest id m, the next POST hands
  out the largest remaining id plus one (1 when nobody remains). That never exceeds m, and it is m
  again exactly when m - 1 is still stored or m is 1 (`StoreLaws.DeleteMaxThenCreate`; with ids 1, 2
  and 3, `StoreLaws.IdReusedAfterDelete`). With ids 1 and 5 stored, DELETE of 5 then POST gives id 2.
- PUT does not apply the POST handler's checks (Program.cs:94-102). A blank name or an invalid email is
  stored as given (`StoreSpec.UpdateOutcome`).

## Model

| member | source | states |
|---|---|---|
| Users.IsNullOrWhiteSpace | Program.cs:94 | defines `string.IsNullOrWhiteSpace`: null, or only .NET white-space characters (`Users.IsWhiteSpace`); the empty string counts; `StoreSpec.Validate` refuses a name exactly when it holds |
| Users.IsWhiteSpace | Program.cs:94 | defines `char.IsWhiteSpace` by its code points: space, U+0009..U+000D, U+0085, U+00A0, U+1680, U+2000..U+200A, U+2028, U+2029, U+202F, U+205F, U+3000 |
| Users.IsValidEmail | Program.cs:135-146 | defines the email helper: null is refused (the parser throws and the helper catches it), otherwise the answer of the address parser `parses`; `StoreSpec.Validate` refuses a non-blank name's body exactly when it fails |
| StoreSpec.IndexOf | Program.cs:72 | the dictionary's keys are exactly the ids in the list, and under unique ids each user is stored under its own id |
| StoreSpec.MaxId | Program.cs:104 | `users.Max(u => u.Id)` is an id some user has, and no user has a larger one |
| StoreSpec.NextId | Program.cs:104 | checked increment: the next id is one more than a stored id and above every stored id, so it is the largest plus one; an empty store gets 1; it is positive when the stored ids are; there is none exactly when `int.MaxValue` is taken |
| StoreSpec.FindIndex | Program.cs:85 | the first position holding the id, or none exactly when no user has it |
| StoreSpec.Get | Program.cs:78-90 | 400 "Invalid user ID." exactly when id <= 0; 404 exactly for a positive id nobody has; otherwise 200 with a stored user that has that id |
| StoreSpec.Acceptable | Program.cs:94-102 | defines a body the POST handler accepts: a name that is not blank and an address the email helper accepts; `StoreSpec.Validate` and `StoreSpec.CreateOutcome` state when it holds |
| StoreSpec.Validate | Program.cs:94-102 | the body is accepted exactly when the name is not blank and the address parses; a blank name is refused with "Name is required." whatever the address; every refusal is one of the two 400s |
| StoreSpec.Create | Program.cs:92-108 | defines POST as a step on the list: Validate, then NextId, then append; its contract is carried by `StoreSpec.CreateOutcome`, `StoreSpec.CreatePreservesValid` and `UserStore.Store.Create` |
| StoreSpec.Update | Program.cs:110-119 | defines PUT as a step on the list: the first user with the id gets the body's name and email; its contract is carried by `StoreSpec.UpdateOutcome` and `UserStore.Store.Update` |
| StoreSpec.Delete | Program.cs:121-130 | defines DELETE as a step on the list: the first user with the id is cut out; its contract is carried by `StoreSpec.DeleteOutcome` and `UserStore.Store.Delete` |
| StoreSpec.CreateOutcome | Program.cs:92-108 | the create with the checked increment: 400 "Name is required." exactly for a blank name; 400 "Invalid email format." exactly for a non-blank name with a refused address; an exception exactly when the body is accepted and `int.MaxValue` is taken; otherwise 201 with the body's name and email appended under the largest id plus one (1 in an empty store); only the 201 changes the list |
| StoreSpec.CreatePreservesValid | Program.cs:104-106 | a create keeps ids positive and unique |
| StoreSpec.UpdateOutcome | Program.cs:110-119 | 404 exactly when no user has the id, and then nothing changes; otherwise 204; length, order and every id are kept, other users are untouched, and the target gets the body's name and email |
| StoreSpec.UpdatePreservesValid | Program.cs:110-119 | an update keeps ids positive and unique |
| StoreSpec.DeleteOutcome | Program.cs:121-130 | 404 exactly when no user has the id, and then nothing changes; otherwise 204, one user with that id is cut out and the rest keep their order; the ids lose exactly that id; validity is kept |
| StoreLaws.IndexAgreesWithList | Program.cs:85 | under unique ids, a dictionary lookup finds a user exactly when a scan of the list does, and finds the same one |
| StoreLaws.IndexDetermined | Program.cs:71-72 | under unique ids, the dictionary that holds every user under its id and nothing else is unique |
| StoreLaws.IndexOfAppend | Program.cs:105-106 | adding to the list and assigning the dictionary entry keep the two structures in step |
| StoreLaws.IndexOfReplace | Program.cs:112-115 | overwriting a stored user in the list is overwriting its dictionary entry |
| StoreLaws.IndexOfRemove | Program.cs:123-126 | removing a user from the list is removing its id from the dictionary |
| StoreLaws.CreateThenGet | Program.cs:85-87 | a GET of the id a successful POST returned yields the created user |
| StoreLaws.GetAfterUpdate | Program.cs:110-119 | a GET after a PUT on a stored id yields the new name and email under the same id |
| StoreLaws.GetAfterDelete | Program.cs:121-130 | a GET after a DELETE of the same id is 404 |
| StoreLaws.CreateOnConsecutive | Program.cs:104-105 | on a store holding ids 1..n, an accepted create appends the body under n + 1 |
| StoreLaws.ConsecutiveIds | Program.cs:104-105 | on a store holding ids 1..n, a run of accepted creates appends the bodies in order under n + 1, n + 2, ... |
| StoreLaws.FoldNumbered | Program.cs:104-105 | any step that appends the next consecutive id numbers a whole run of bodies consecutively |
| StoreLaws.IdReusedAfterDelete | Program.cs:104-126 | with ids 1, 2 and 3 stored, DELETE of 3 and then an accepted POST hands out id 3 again |
| StoreLaws.DeleteMaxThenCreate | Program.cs:104-126 | on any valid store, DELETE of the largest id m succeeds and a following accepted POST answers 201 with the largest remaining id plus one (1 when nobody remains); that id is at most m, and equals m exactly when m - 1 was stored or m is 1 |
| StoreLaws.DeleteMaxFacts | Program.cs:104-126 | deleting the largest id m answers 204 and leaves exactly the other ids, all below m and without `int.MaxValue`; when m is 1 nobody remains |
| StoreLaws.MaxIdBounds | Program.cs:104 | in a valid store, `users.Max(u => u.Id)` is a stored id and every stored id lies between 1 and it |
| StoreLaws.CreatesFromEmpty | Program.cs:104 | from an empty store, n accepted creates give exactly the ids 1..n, in order, with the bodies' names and emails |
| UserStore.ScanMaxId | Program.cs:104 | the loop computing `users.Max(u => u.Id)` returns MaxId |
| UserStore.AssignId | Program.cs:104 | the id assignment, with the increment checked, returns NextId |
| UserStore.Store.constructor | Program.cs:71-72 | the store starts empty and valid |
| UserStore.Store.List | Program.cs:76 | GET /api/users is a 200 carrying the whole list, in order |
| UserStore.Store.Get | Program.cs:78-90 | the dictionary-based GET gives the same answer as StoreSpec.Get on the list |
| UserStore.Store.Create | Program.cs:92-108 | the in-place POST, with the checked increment, returns and leaves what StoreSpec.Create does, and keeps the store valid |
| UserStore.Store.Append | Program.cs:105-106 | appending a user whose id is fresh keeps the list and the dictionary in step |
| UserStore.Store.Update | Program.cs:110-119 | the in-place PUT returns and leaves what StoreSpec.Update does, and keeps the store valid |
| UserStore.Store.Delete | Program.cs:121-130 | the in-place DELETE, with its scan for the record, returns and leaves what StoreSpec.Delete does, and keeps the store valid |
| Auth.Split | Program.cs:27 | `Split(" ")` always yields at least one piece, so `.Last()` never fails |
| Auth.JoinSplit | Program.cs:27 | the pieces contain no space and, joined with single spaces, give back the header |
| Auth.SplitJoin | Program.cs:27 | splitting space-free pieces joined with single spaces gives back the pieces |
| Auth.LastSegment | Program.cs:27 | defines `.Split(" ").Last()`; its contract is carried by `Auth.LastSegmentIsFinalRun` and `Auth.FinalRunOfSuffix` |
| Auth.ExtractToken | Program.cs:27 | defines `FirstOrDefault()?.Split(" ").Last()`: no token without a header value, otherwise the last piece of the first value; see `Auth.OnlyFirstValueRead` |
| Auth.ValidateToken | Program.cs:149-153 | defines the token check as equality with "valid-token" |
| Auth.Authorized | Program.cs:27-28 | defines the gate's test: a token was found and it validates; its contract is carried by `Auth.AuthorizedIff` |
| Auth.LastSegmentIsFinalRun | Program.cs:27 | the last piece is the header's longest space-free suffix: the whole header, or what follows its last space |
| Auth.FinalRunOfSuffix | Program.cs:27 | a space-free word that is the whole header, or follows its last space, is the last piece |
| Auth.AuthorizedIff | Program.cs:27-34 | the gate passes exactly when the first Authorization value is "valid-token" or ends in " valid-token" |
| Auth.AnySchemeWordPasses | Program.cs:27-28 | the bare token passes, and so does any word followed by a space and the token |
| Auth.TrailingSpaceRejected | Program.cs:27-28 | a header ending in a space has an empty last piece and is refused |
| Auth.OnlyFirstValueRead | Program.cs:27 | only the first Authorization value matters, and a missing header is refused |
| Http.Status | Program.cs:18-130 | defines the framework's status table: the status code each `Results.*` value carries (200, 201, 204, 400, 404) and the codes the middleware sets (401, 500) |
| Http.Translate | Program.cs:9-21 | the boundary's answer: a thrown exception becomes a 500 with its message; a returned result passes unchanged; 500 exactly when something threw or the result was a 500 |
| Logging.BodyAfterLogger | Program.cs:47-62 | defines the body stream left installed after the logger: the connection's stream after a normal return; after a throw, the disposed buffer as written, or the connection's stream with a `finally`; see `Logging.ThrowLosesMessage` |
| Logging.Deliver | Program.cs:15-20 | defines what the client receives from the boundary over a given stream: a returned response as it is, a caught exception as a 500 with its message, or a bare 500 when the stream is the disposed buffer; see `Logging.RestoredDeliversTranslate` |
| Logging.DeliverAsWritten | Program.cs:47-62 | defines delivery through the logger as written; its contract is carried by `Logging.ThrowLosesMessage` and `Logging.ReturnedDeliveredIntact` |
| Logging.DeliverRestored | Program.cs:47-62 | defines delivery through a logger that puts the stream back in a `finally` block; its contract is carried by `Logging.RestoredDeliversTranslate` |
| Logging.ThrowLosesMessage | Program.cs:47-62 | as written, every endpoint exception reaches the client as a 500 without a body, not as the boundary's answer |
| Logging.ReturnedDeliveredIntact | Program.cs:47-62 | as written, a returned response is copied out of the buffer and reaches the client unchanged |
| Logging.RestoredDeliversTranslate | Program.cs:47-62 | with the stream put back in a `finally` block, the client receives exactly the boundary's answer on both paths |
| Pipeline.Endpoint | Program.cs:66-130 | defines routing: each route's handler as a step on the list, the test route throwing; its contract is carried by `Pipeline.EndpointEffects` and `Pipeline.Dispatch` |
| Pipeline.Serve | Program.cs:9-35 | defines the chain: the gate first, then the endpoint, then the boundary's Translate; its contract is carried by `Pipeline.ServeEffects` and `Pipeline.Handle` |
| Pipeline.EndpointEffects | Program.cs:66-130 | only POST, PUT and DELETE change the store; an endpoint throws exactly on the test route or the checked create at the id limit; a returned result is never 401 or 500; no endpoint breaks validity |
| Pipeline.PostEffects | Program.cs:92-108 | a create that returns answers 400 or 201, and keeps the store valid |
| Pipeline.PutEffects | Program.cs:110-119 | an update answers 204 or 404, and keeps the store valid |
| Pipeline.DeleteEffects | Program.cs:121-130 | a delete answers 204 or 404, and keeps the store valid |
| Pipeline.ServeEffects | Program.cs:9-35 | a 401 comes back exactly when the gate refuses; only an authorized POST, PUT or DELETE changes the store; every request keeps it valid |
| Pipeline.UnauthorizedShortCircuits | Program.cs:28-33 | a refused request gets 401 and the store is unchanged |
| Pipeline.ThrownBecomes500 | Program.cs:15-20 | the boundary answers an endpoint exception with a 500 carrying its message, with the store unchanged; the test route always gives 500 "This is a test exception." |
| Pipeline.Only500FromThrow | Program.cs:15-20 | the boundary answers 500 exactly for an authorized test route, or an authorized create at the id limit under the checked increment |
| Pipeline.Dispatch | Program.cs:66-130 | routing on the shared store returns and leaves what Endpoint does, and keeps the store valid |
| Pipeline.Handle | Program.cs:9-35 | one request on the shared store yields what Serve does, and keeps the store valid |
| IdOverflow.Wrap32 | Program.cs:104 | 32-bit wrap-around: the result is congruent to the input modulo 2^32, and equal to it in range |
| IdOverflow.NextIdAsWritten | Program.cs:104 | defines the unchecked id assignment: 1 for an empty store, otherwise `Wrap32` of the largest id plus one; see `IdOverflow.AsWrittenAgreesBelowLimit` |
| IdOverflow.CreateAsWritten | Program.cs:92-108 | defines POST as written: the same Validate, then the unchecked id; see `IdOverflow.AsWrittenAgreesBelowLimit` and `IdOverflow.AsWrittenBreaksStore` |
| IdOverflow.AsWrittenAgreesBelowLimit | Program.cs:104 | while `int.MaxValue` is not taken, the unchecked create and the checked one agree |
| IdOverflow.ChurnRound | Program.cs:104-126 | with the create as written, creating and then deleting the older user moves a one-user store from id k to id k + 1 |
| IdOverflow.IterateRaisesId | Program.cs:104 | repeating such a step r times moves id k to id k + r |
| IdOverflow.LimitReachable | Program.cs:104-126 | with the create as written, from an empty store, one create and 2^31 - 2 create/delete rounds leave a single user with id `int.MaxValue` |
| IdOverflow.AsWrittenBreaksStore | Program.cs:104-106 | at the limit, the unchecked create hands out `int.MinValue`, which GET refuses; a second create hands it out again, so two users share one id and the dictionary keeps only the later one |

## Left out

- The logging middleware's console output (Program.cs:42, 57) is left out. Its effect on the body
  stream is modelled in `Logging`; `Pipeline` models the boundary's answer, which is what the client
  receives whenever the endpoint does not throw.
- JSON serialisation, the stack trace in a 500's `detail` field, the `Location` header of a 201, and
  content types are left out; responses are values.
- Hosting, route matching and model binding are left out. A request arrives already routed, with `{id}`
  bound to an `int`; a path segment that does not bind never reaches an endpoint.
- Concurrent requests are left out. The service shares one unlocked list and dictionary across requests,
  while the model handles one request at a time.
- `System.Net.Mail.MailAddress`, the address parser behind `IsValidEmail`, is a parameter `parses`. The
  model decides only what the helper adds around it: null is refused.
- Object sharing: the service keeps one `User` object in both the list and the dictionary, and PUT
  changes that object. The model stores values and rewrites both copies. `List.Remove` compares by
  reference, while the model compares by value; under unique ids both find the same position.
- A client-supplied `id` in a POST body is ignored, because the handler overwrites it; the model never
  reads `body.id`.
- Exceptions raised by the framework are left out. The exceptions modelled are the test endpoint's, the
  overflow of the corrected id assignment, and the boundary's failed write on the disposed buffer
  (`Logging`).

## Findings

| source | as written | input that shows it | evidently intended | confidence | as-written member | corrected member |
|---|---|---|---|---|---|---|
| Program.cs:47-62 | the `using` block disposes the buffer, and the original stream is put back only after the block, so an exception skips that step; the boundary then writes its JSON answer to the disposed buffer, that write throws, and the host answers a bare 500 | GET /api/test-exception with a valid token (the only route that throws in the code as written; once the id increment is checked, a create at the id limit takes the same path) | the client receives the boundary's `{message, detail}` body, with the stream put back in a `finally` block | not executed | Logging.ThrowLosesMessage | Logging.RestoredDeliversTranslate |
| Program.cs:104 | `users.Max(u => u.Id) + 1` is evaluated unchecked, so at `int.MaxValue` it wraps to `int.MinValue` | a store reduced to one user with id 2147483647 (reachable from empty by one POST and 2^31 - 2 rounds of POST then DELETE of the older user), then two accepted POSTs | a new id that is positive and unused, or a failed request that leaves the store as it was | not executed | IdOverflow.AsWrittenBreaksStore | StoreSpec.CreateOutcome |

`Pipeline` models the boundary's answer, which is what `Logging.RestoredDeliversTranslate` delivers.
The corrected create checks the increment: at the limit it throws .NET's overflow exception, which the
boundary turns into a 500, and the store stays valid (`StoreSpec.CreatePreservesValid`,
`Pipeline.ServeEffects`). The rest of the model uses this version.
