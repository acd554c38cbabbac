# DiscountTracker: a Dafny model of the server core and the activity filter

DiscountTracker is a small web application. Signed-in users browse activities (a name, a category,
a price and a discount percentage) and switch each activity's discount on and off. This project
models the parts of it that decide things:

- **The in-memory store `MemStorage`** (`server/storage.ts` and its JavaScript twin
  `server/storage.js`), as the Dafny class `Storage.MemStorage`.
  - It has two insertion-ordered JavaScript `Map`s: activities keyed by id, and users keyed by an id
    taken from the counter `currentUserId`.
  - A `Map` is modelled by `JsMap.OrderedMap`: the keys in insertion order plus a finite map.
  - The TypeScript and JavaScript stores are the same class. Only the seed list differs:
    `Storage.MockActivities` has 8 activities and `Storage.JsMockActivities` has 1.
  - Each method is proved against a specification function or states its new state. For the
    toggle, that function is `Storage.ToggleIn`.
- **Password storage** (`hashPassword` and `comparePasswords` in `server/auth.ts` and
  `server/auth.js`), in module `Credentials`.
  - A stored hash is `<hex of the 64-byte scrypt key>.<hex of the 16-byte salt>`.
  - scrypt is a function parameter of type `Kdf`. The random salt bytes are a parameter too.
  - `toString("hex")`, `Buffer.from(_, "hex")`, `split(".")` and `timingSafeEqual` are written out.
- **Authentication** (`server/auth.ts`, `server/auth.js`), in module `Auth`: the local login
  strategy, session (de)serialisation, and the `/api/register`, `/api/login`, `/api/logout` and
  `/api/user` handlers.
  - The session is a value (`Anonymous` or `LoggedIn(id)`) that the handlers take and return.
  - Where the two servers differ, a `Build` parameter selects one. `/api/register` is the case:
    TypeScript spreads the whole request body into the new user, JavaScript keeps only the
    username and the hash.
- **Routes** (`server/routes.js`, `server/routes.ts`), in module `Routes`:
  - `/api/user-exists`;
  - the 401 gate in front of `/api/activities`, present in the JavaScript build only;
  - the activity listing;
  - the toggle route, which maps the store's "Activity not found" to 404.
- **The home page filter** (`client/src/pages/home.tsx`), in module `ActivityFilter`. It keeps, in
  order, the activities whose lower-cased name contains the lower-cased search text and whose
  category matches. Category `"all"` or `""` matches any category.

Some behaviours of the code are easy to miss; the model states them as written:

- `/api/register`, `/api/login` and `/api/user` answer with the stored user record, so the
  password hash is part of the answer.
- `server/storage.js` seeds one activity (id 1). Line 62 is a placeholder comment, not the other
  seven activities.
- `server/routes.ts` installs no authentication gate, so under the TypeScript build
  `/api/activities` answers everyone.
- `/api/logout` is not gated in either build.

## Model

| member | source | states |
|---|---|---|
| JsMap.Empty | server/storage.ts:30 | `new Map()` is a well-formed map with no keys and no entries |
| JsMap.Get | server/storage.ts:39 | `map.get(k)` finds a value exactly when `k` is stored, and it is the stored value |
| JsMap.Set | server/storage.ts:51 | `map.set(k, v)` stores `v` under `k`, keeps a present key's position and appends a new key |
| JsMap.Values | server/storage.ts:57 | `Array.from(map.values())` lists the stored value of each key, in key-insertion order |
| JsMap.FromPairs | server/storage.ts:29 | `new Map(pairs)` stores every pair's key and holds no more keys than pairs |
| JsMap.FromPairsKeys | server/storage.ts:29 | every key `new Map(pairs)` stores is the key of some pair |
| JsMap.FromPairsLastWins | server/storage.ts:29 | under a key that occurs more than once, `new Map(pairs)` stores the value of its last pair |
| JsMap.FromDistinctPairsKeys | server/storage.ts:29 | `new Map(pairs)` with distinct keys lists the keys in the order of the pairs |
| JsMap.FromDistinctPairs | server/storage.ts:29 | `new Map(pairs)` with distinct keys lists the keys and the values in the order of the pairs |
| JsMap.SetAbsentAppends | server/storage.ts:51 | `set` on a new key appends its value to the `values()` enumeration |
| JsMap.SetPresentKeepsOrder | server/storage.ts:69 | `set` on a present key replaces the value in place: same length, other positions unchanged |
| Storage.IdPairs | server/storage.ts:29 | `mockActivities.map(a => [a.id, a])`: one pair per seed activity, its id and itself, in seed order |
| Storage.SeedTable | server/storage.ts:29 | the seeded table is a well-formed map holding every seed activity's id, with no more keys than the seed has activities |
| Storage.SeedTableKeyedById | server/storage.ts:29 | the seeded table stores every activity under its own id, whatever the seed |
| Storage.SeedTableLists | server/storage.ts:29 | a seed with distinct ids is listed exactly, in seed order, under its ids |
| Storage.NumberedSeedLists | server/storage.ts:29 | a seed numbered 1, 2, 3, … is listed exactly, under the keys 1, 2, 3, … |
| Storage.MockActivitiesRecords | server/storage.ts:74-155 | the TypeScript seed has 8 activities with ids 1 to 8, all inactive, discounts in 0..100, categories from the client's list |
| Storage.MockActivitiesListed | server/storage.ts:74-155 | the TypeScript store starts listing the 8 seed activities in seed order under keys 1 to 8 |
| Storage.JsMockActivitiesFacts | server/storage.js:51-63 | the JavaScript store starts with activity 1 only, inactive |
| Storage.Flip | server/storage.ts:68 | the copy has `isActive` negated and every other field as in the original |
| Storage.ToggleIn | server/storage.ts:64-71 | an unknown id fails with ActivityNotFound and changes nothing; a known id stores and returns the record with `isActive` negated and every other field kept; keys, their order and all other entries unchanged |
| Storage.ToggleKeepsKeyedById | server/storage.ts:64-71 | after a toggle, every activity is still stored under its own id, and the returned record has the requested id |
| Storage.ToggleTwiceRestores | server/storage.js:41-48 | toggling an id twice restores the original table, and the second toggle returns the original record |
| Storage.ToggleKeepsListingOrder | server/storage.ts:56-71 | `getActivities()` after a toggle lists the same activities in the same order, with only the toggled one flipped |
| Storage.ToggleScenario | server/storage.ts:64-71 | on a fresh TypeScript store, toggling id 1 twice answers the seed record active, then the seed record inactive again |
| Storage.FirstByUsername | server/storage.ts:42-46 | the result is absent exactly when no user has the name; otherwise it is the first user, in insertion order, with exactly that name |
| Storage.FirstByUsernameFinds | server/storage.js:20-24 | the lookup over `users.values()` finds a user exactly when the table holds one with that name, and returns a stored user |
| Storage.AddFreshUsernameKeepsUnique | server/storage.ts:48-53 | adding a user whose name the lookup does not find keeps usernames pairwise distinct |
| Storage.StoreAllowsDuplicateUsernames | server/storage.ts:48-53 | `createUser` itself does not check names: adding a taken name makes usernames non-unique |
| Storage.MemStorage.constructor | server/storage.ts:28-35 | activities seeded from the seed list, no users, counter at 1, store invariant established |
| Storage.MemStorage.GetUser | server/storage.ts:38-40 | a user is found exactly for the ids 1 up to the counter minus one, and it is the record stored under that id, whose own id is that id |
| Storage.MemStorage.GetUserByUsername | server/storage.ts:42-46 | the loop returns the first match in insertion order, present exactly when some user has the name |
| Storage.MemStorage.CreateUser | server/storage.js:26-31 | the new user is the argument with the counter's value as its id, which overwrites any `id` field and was unused; it is appended to the users table; the counter goes up by one; activities unchanged; invariant kept |
| Storage.MemStorage.GetActivities | server/storage.ts:56-58 | every stored activity, in insertion order; an id is listed exactly when it is stored |
| Storage.MemStorage.GetActivityById | server/storage.ts:60-62 | found exactly when the id is stored, and then it is the activity with that id |
| Storage.MemStorage.ToggleActivityDiscount | server/storage.ts:64-71 | result and new activities table are those of `ToggleIn`; users and counter unchanged; invariant kept |
| Credentials.Hex | server/auth.ts:22 | hex encoding writes two lower-case hex digits per byte |
| Credentials.FromHex | server/auth.ts:27 | hex decoding yields at most one byte per two characters |
| Credentials.FromHexDecodesPairs | server/auth.ts:27 | byte `i` is decoded from the hex characters at positions `2i` and `2i+1` (either case), and decoding stops at the first pair that is not two hex characters |
| Credentials.FromHexOfHex | server/auth.ts:21-27 | decoding the hex encoding gives back the bytes |
| Credentials.Split | server/auth.ts:26 | splitting yields at least one part, no part contains the separator, and joining the parts gives back the string |
| Credentials.SplitOfJoin | server/auth.ts:22-26 | splitting a join of separator-free parts gives back exactly those parts |
| Credentials.HashPassword | server/auth.ts:19-23 | a stored hash is 161 characters: lower-case hex digits with "." at position 128, followed by the salt's hex |
| Credentials.HashPasswordFormat | server/auth.ts:19-23 | a stored hash splits on "." into exactly the 128-digit key hex and the 32-digit salt hex, and the key part decodes to scrypt's key under that salt |
| Credentials.TimingSafeEqual | server/auth.ts:29 | throws exactly on buffers of different lengths, else answers byte equality |
| Credentials.ComparePasswords | server/auth.ts:25-30 | throws SaltMissing exactly when the stored string has no "."; with a ".", throws LengthMismatch exactly when the part before it does not decode to 64 bytes, and otherwise the answer is true exactly when the decoded key part equals scrypt of the candidate under the part after the first "." |
| Credentials.CompareAgainstHash | server/auth.js:20-27 | against a hash made by `hashPassword`, the comparison never throws and is true exactly when scrypt gives the candidate the stored key |
| Credentials.CompareAcceptsOwnHash | server/auth.ts:25-30 | the password a hash was made from is accepted by that hash |
| Credentials.CompareRefusesOtherKey | server/auth.ts:25-30 | a password that scrypt maps to a different key under the stored salt is refused |
| Auth.Decide | server/auth.ts:58-70 | no user found: rejected; an accepted user is the one found; the verdict is an error exactly when the comparison against a found user throws, and it carries that error |
| Auth.DecideAcceptsExactly | server/auth.ts:56-72 | the strategy accepts exactly when a user was found and the comparison answered true, accepts that user, and rejects when no user was found |
| Auth.DecideAcceptsRegisteredPassword | server/auth.ts:61-66 | a user whose stored hash was made from the password is accepted with it |
| Auth.DecideRejectsWrongPassword | server/auth.js:62-66 | a password with a different scrypt key is rejected, not errored |
| Auth.LocalStrategy | server/auth.js:52-74 | outcome of the lookup and comparison; an unknown username is rejected; an accepted user has that username and is stored |
| Auth.DeserializeUser | server/auth.ts:79-88 | a user is found exactly when the session holds the id of a stored user, and it is that user |
| Auth.KeptFields | server/auth.ts:97-100 | the extra body fields that end up in the stored user: none in the JavaScript build; in the TypeScript build every body field except `id`, `username` and `password`, which the hash, the username and the store's id overwrite |
| Auth.Register | server/auth.ts:90-110 | taken username: 400 "Username already exists", store and session unchanged; otherwise exactly one user appended with the hash (not the password) and the build's extra fields, 201 with that record, session logged in; distinct usernames stay distinct |
| Auth.Login | server/auth.ts:112-124 | empty username or password, unknown user or wrong password: the same 401 "Invalid credentials", session unchanged; comparison error: 500; accepted: 200 with the record and the session logged in as that user |
| Auth.Logout | server/auth.ts:126-133 | 200 and an anonymous session |
| Auth.CurrentUser | server/auth.js:154-161 | 401 exactly when the session does not hold a stored user; otherwise 200 with that user's record |
| Routes.UserExists | server/routes.js:9-17 | 200 `{exists: true}` when some user has the name, else 404 `{exists: false}`; no state change |
| Routes.ActivitiesGate | server/routes.js:19-24 | a request passes exactly when the build has no gate or the session holds a stored user |
| Routes.ListActivities | server/routes.js:26-29 | gated: 401 "Unauthorized"; otherwise 200 with every stored activity in insertion order |
| Routes.ToggleActivity | server/routes.js:31-39 | gated: 401 with no change; NaN or an unknown id: 404 "Activity not found" with no change; a known id: 200 with the flipped activity and the table `ToggleIn` gives; users never touched |
| ActivityFilter.Lower | client/src/pages/home.tsx:41-43 | lower-casing keeps the length and maps each character on its own |
| ActivityFilter.LowerIdempotent | client/src/pages/home.tsx:41-43 | lower-casing twice is lower-casing once |
| ActivityFilter.Includes | client/src/pages/home.tsx:41-43 | true exactly when the text occurs at some position; the empty text occurs everywhere |
| ActivityFilter.Select | client/src/pages/home.tsx:40 | `filter` returns no more elements than its input; membership, order and positions are stated by the lemmas below |
| ActivityFilter.SelectMembership | client/src/pages/home.tsx:40-46 | an element is in the filtered list exactly when it is in the input and passes the test |
| ActivityFilter.SelectConcat | client/src/pages/home.tsx:40-46 | filtering distributes over concatenation |
| ActivityFilter.SelectPositions | client/src/pages/home.tsx:40-46 | the filtered list is the input at strictly increasing positions, and those are exactly the positions whose element passes |
| ActivityFilter.SelectIdempotent | client/src/pages/home.tsx:40-46 | filtering a filtered list again with the same test changes nothing |
| ActivityFilter.Filter | client/src/pages/home.tsx:40-46 | no longer than the input, and every kept activity is from the input and matches both the search and the category |
| ActivityFilter.FilterSelectsKept | client/src/pages/home.tsx:40-46 | `filteredActivities` is the order-preserving subsequence of exactly the activities that match both the search and the category |
| ActivityFilter.FilterIdempotent | client/src/pages/home.tsx:40-46 | filtering again with the same search and category yields the same list |
| ActivityFilter.FilterUnrestricted | client/src/pages/home.tsx:41-45 | empty search with category "all" or "" returns the whole list |

## Left out

- Sessions are a value passed in and out of the handlers. express-session, memorystore, cookies,
  the 24-hour `maxAge`, the expiry sweep and passport's internals are not modelled.
- The `log` calls, the debug middleware and the Express request/response objects are not
  modelled. Each handler runs to completion before the next one starts; requests whose `await`s
  interleave are not modelled.
- `Auth.Register`: a request body without a password is read as an empty password, so the model
  answers 201 and stores a user. The source passes `undefined` to scrypt, which throws, and the
  handler answers 500 through `next(error)` and stores nobody.
- `Auth.Register`: usernames stay distinct only if register requests do not interleave. The
  handler awaits `hashPassword` between the username check and `createUser`, so two concurrent
  registrations of one name can both pass the check and both be stored.
- scrypt is an arbitrary deterministic function yielding 64 bytes, and `randomBytes(16)` is a salt
  parameter. The constant-time behaviour of `timingSafeEqual` is not modelled.
- Errors raised by `req.login` and `req.logout` (passed to `next(err)`) are not modelled. Neither
  are errors thrown by `getUser` during deserialisation, which the in-memory store never throws.
- Non-string request-body fields are not modelled. The body is always a username, a password and
  a map of the other fields. A missing username or password is read as the empty string. At
  `/api/login` that gives the same answer as the source, because passport-local refuses both.
- `Auth.CurrentUser` and `Routes.ActivitiesGate`: a session holding the id of a user the store
  does not have answers 401 in the model. passport would instead fail deserialisation with an
  error and answer 500. The store never removes users, so such a session does not arise.
- `Auth.Login`: the 500 answer stands for Express's default error handler, reached by
  `next(err)` when the comparison throws. The page content is not modelled.
- `Routes.ToggleActivity`: `parseInt` is modelled as either a number or NaN. Its treatment of
  leading whitespace, signs and trailing text is not modelled.
- `ActivityFilter.Lower`: `toLowerCase` is modelled on ASCII letters only. Unicode case mapping
  is not modelled.
- `totalSavings` (`client/src/pages/home.tsx:48-53`) and the card prices use floating point and
  are not modelled.
- React rendering, hooks and the other client pages and components are not modelled.
- The drizzle and zod declarations in `shared/schema.ts` supply only the record fields and the
  category list.
