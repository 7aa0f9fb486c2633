# User store and login handler: a Dafny model

This project models the user store of a small REST backend. Users have a
profile and two relation lists, `friends` and `enemies`. The model covers:

- the repository `UsersMongoRepo` (create, login, getAll, getById, search,
  update, addFriend, addEnemy, removeFriend, removeEnemy, delete);
- the `login` handler of `UsersController`.

Files:

- `errors.dfy` (module `Errors`) holds `HttpError` with the status codes and
  messages the store uses: 401, 404 and 406. It also holds `Result`, the value
  or error a repository call settles with.
- `entities.dfy` (module `Entities`) holds the `User` record. Its `friends` and
  `enemies` are sequences of user ids, because the store pushes and pulls raw
  ids into them.
- `auth.dfy` (module `Auth`) holds password hashing, password comparison and
  token signing. They are fields of function type, so the model works for any
  functions and assumes nothing about them.
- `relations.dfy` (module `Relations`) holds `Pull`, the model of MongoDB's
  `$pull`. It also holds the functions `AddRelation` and `RemoveRelation`,
  which map the id-to-record table before a relation call to the result and
  the table after it. The lemmas that state the relation rules are here too.
- `users_mongo.dfy` (module `UsersMongo`) holds the class `UsersMongoRepo`.
  Its fields are a map from id to record and the insertion order of the ids.
  Each method makes the source's guarded writes in place. Each state-changing
  method is proved equal to its specification function, or states its new
  state outright. This file also holds the query and update functions and
  their lemmas.
- `users_controller.dfy` (module `Controllers`) holds `LoginResult`. It picks
  `getById` or `login`, and the lemmas about that choice sit beside it. It
  also holds the `UsersController.Login` method, which writes a `Response`
  object or hands the error back for `next`.

Two things the code does that are easy to assume otherwise:

- The code keeps no global invariant over the relation lists. `create` and
  `update` store whatever lists they are given, so a user can be listed as its
  own friend, or an id can be both a friend and an enemy. An add that finds the
  id already in its target list returns without touching the opposite list.
  So the model proves that the relation operations *preserve* these properties
  (`AddPreservesExclusive`, `AddNoSelfReference`, `RemovePreserves`), and shows
  that `update` can break them (`UpdateBypassesRelationGuards`).
- An add makes up to two writes. The `$pull` from the opposite list runs only
  when the id is in that list; the `$push` onto the target list runs on every
  add that gets past the early return. The methods make the same writes under
  the same condition, and each call is one atomic step.

## Model

| member | source | states |
|---|---|---|
| `Relations.Pull` | repos/users/users.mongo.repo.ts:93-99 | `$pull` removes every occurrence of the id and keeps every other entry as often as it was there; it is the identity on a list without the id |
| `Relations.PullDropsOnly` | repos/users/users.mongo.repo.ts:148-154 | entries other than the pulled id keep their order, for lists with repeats too: removing an occurrence of the id between a and b leaves a and b pulled in place, and exactly a + b when neither holds the id |
| `Relations.PullNoDuplicates` | repos/users/users.mongo.repo.ts:232-236 | a duplicate-free list stays duplicate-free under `$pull` |
| `Relations.AppendAbsentNoDuplicates` | repos/users/users.mongo.repo.ts:107-113 | `$push` of an id that is absent keeps a duplicate-free list duplicate-free |
| `Relations.AddRejectsSelf` | repos/users/users.mongo.repo.ts:80-82 | relating a user to itself fails with 406 before any lookup, so 406 takes precedence over 404, and the table is unchanged (addEnemy: lines 135-137) |
| `Relations.AddMissingUser` | repos/users/users.mongo.repo.ts:83-86 | a missing acting user fails with 404 "User not found" and the table is unchanged (addEnemy: lines 138-141) |
| `Relations.AddAlreadyListed` | repos/users/users.mongo.repo.ts:88-90 | an id already in the target list returns the stored record and writes nothing (addEnemy: lines 143-145) |
| `Relations.AddIdempotent` | repos/users/users.mongo.repo.ts:80-120 | a second identical add gives the same result and the same table |
| `Relations.AddWrites` | repos/users/users.mongo.repo.ts:92-113 | on the write path the id is appended at the end of the target list; every occurrence leaves the opposite list, whose other entries keep their order and multiplicity (it is exactly `Pull` of the old list); the target id's existence is never checked |
| `Relations.AddEstablishes` | repos/users/users.mongo.repo.ts:88-113 | after a successful add the id is in the target list, and it is out of the opposite list exactly when it was not already listed on both sides |
| `Relations.AddFrame` | repos/users/users.mongo.repo.ts:107-113 | an add changes no other record and no key, and changes nothing of the acting record except its two lists; it resolves with the stored record |
| `Relations.AddPreservesNoDuplicates` | repos/users/users.mongo.repo.ts:88-113 | duplicate-free friend and enemy lists stay duplicate-free |
| `Relations.AddPreservesExclusive` | repos/users/users.mongo.repo.ts:147-167 | disjoint friend and enemy lists stay disjoint |
| `Relations.AddNoSelfReference` | repos/users/users.mongo.repo.ts:80-82 | an add never makes a user its own friend or enemy |
| `Relations.FriendThenEnemy` | repos/users/users.mongo.repo.ts:135-173 | befriending and then declaring an enemy leaves the id among the enemies, and out of the friends exactly when it was not on both lists beforehand (then both early returns fire); other ids on both lists do not matter |
| `Relations.EnemyBecomesFriend` | repos/users/users.mongo.repo.ts:92-113 | a user with friends [] and enemies ["b1"] who befriends "b1" ends with friends ["b1"] and enemies [] |
| `Relations.RemoveMissingUser` | repos/users/users.mongo.repo.ts:221-225 | removing for a missing user fails with 404 and changes nothing |
| `Relations.RemoveAbsent` | repos/users/users.mongo.repo.ts:227-230 | an id that is not listed returns the stored record unchanged, with no self check |
| `Relations.RemoveWrites` | repos/users/users.mongo.repo.ts:232-242 | a remove takes every occurrence out of that list only; the list is exactly `Pull` of the old one, so other entries keep their order and multiplicity; the opposite list, the profile and every other record stay |
| `Relations.RemoveIdempotent` | repos/users/users.mongo.repo.ts:255-276 | a second identical remove is a no-op |
| `Relations.RemovePreserves` | repos/users/users.mongo.repo.ts:266-270 | a remove keeps lists duplicate-free and disjoint, and never puts a user into its own lists |
| `UsersMongo.Matching` | repos/users/users.mongo.repo.ts:53 | a find returns exactly the stored records that match the filter, each once; its first element is the first match in scan order |
| `UsersMongo.FindOne` | repos/users/users.mongo.repo.ts:22 | findOne by email gives the first record in scan order that has the email, and gives nothing exactly when no record has it |
| `UsersMongo.FindById` | repos/users/users.mongo.repo.ts:33-37 | getById succeeds exactly when the id is stored, with that record, and otherwise fails with 404 "GetByid not possible" |
| `UsersMongo.Authenticate` | repos/users/users.mongo.repo.ts:21-26 | login resolves with a stored record that has the email and whose hash the password matches; every failure is 401; no record with the email means failure |
| `UsersMongo.AuthenticateUnique` | repos/users/users.mongo.repo.ts:21-26 | with unique emails, login succeeds if and only if some record has the email and a matching hash |
| `UsersMongo.ApplyPatch` | repos/users/users.mongo.repo.ts:60-62 | each field present in the patch is overwritten, each absent one kept, the id never rewritten |
| `UsersMongo.UpdateRejectsSelf` | repos/users/users.mongo.repo.ts:58-59 | a patch whose id equals the target id fails with 406 before the lookup and changes nothing |
| `UsersMongo.UpdateOutcome` | repos/users/users.mongo.repo.ts:60-64 | otherwise a missing id fails with 404 "Update not possible" and changes nothing; a stored one is patched and returned, and nothing else changes |
| `UsersMongo.UpdateIdempotent` | repos/users/users.mongo.repo.ts:57-65 | applying the same update twice equals applying it once |
| `UsersMongo.UpdateBypassesRelationGuards` | repos/users/users.mongo.repo.ts:57-65 | the update guard does not stop friends and enemies from overlapping, or from naming the user itself |
| `UsersMongo.UsersMongoRepo.constructor` | router/users.router.ts:13 | a new repository wraps the collection exactly as stored, with no invariant on the relation lists beyond one record per id, and uses the Auth service it is given |
| `UsersMongo.UsersMongoRepo.Create` | repos/users/users.mongo.repo.ts:15-19 | the record is stored under its new id with the hashed password and every other field as given, and appended to the scan order |
| `UsersMongo.UsersMongoRepo.Login` | repos/users/users.mongo.repo.ts:21-26 | fails with 401 exactly when no record has the email or the first one's hash does not match; otherwise resolves with that record |
| `UsersMongo.UsersMongoRepo.GetAll` | repos/users/users.mongo.repo.ts:28-31 | returns every stored record exactly once |
| `UsersMongo.UsersMongoRepo.GetById` | repos/users/users.mongo.repo.ts:33-37 | equals `FindById`: resolves with the record under the id, or fails with 404 "GetByid not possible" when there is none |
| `UsersMongo.UsersMongoRepo.Search` | repos/users/users.mongo.repo.ts:39-55 | returns exactly the stored records whose field equals the value, each once |
| `UsersMongo.UsersMongoRepo.Update` | repos/users/users.mongo.repo.ts:57-65 | makes the writes of `UpdateStep` in place and keeps the table well formed |
| `UsersMongo.UsersMongoRepo.AddFriend` | repos/users/users.mongo.repo.ts:80-120 | makes the writes of `AddRelation` for friends in place: self check, lookup, early return, `$pull` from enemies, `$push` onto friends |
| `UsersMongo.UsersMongoRepo.AddEnemy` | repos/users/users.mongo.repo.ts:135-174 | makes the writes of `AddRelation` for enemies in place |
| `UsersMongo.UsersMongoRepo.Delete` | repos/users/users.mongo.repo.ts:176-181 | fails with 404 "Delete not possible" exactly when the id is missing; otherwise removes exactly that key, and every remaining record, including references to the deleted id, stays |
| `UsersMongo.UsersMongoRepo.RemoveEnemy` | repos/users/users.mongo.repo.ts:215-247 | makes the writes of `RemoveRelation` for enemies in place |
| `UsersMongo.UsersMongoRepo.RemoveFriend` | repos/users/users.mongo.repo.ts:249-281 | makes the writes of `RemoveRelation` for friends in place |
| `Controllers.LoginResult` | src/controllers/users.controller.ts:19-21 | the chosen call resolves with a stored record; it fails with getById's 404 when userId is truthy and with login's 401 otherwise |
| `Controllers.LoginByIdSkipsPassword` | src/controllers/users.controller.ts:19-20 | a truthy userId gives getById's result, whatever the password comparison would say |
| `Controllers.LoginByCredentials` | src/controllers/users.controller.ts:21 | a falsy userId gives the repository's login result; it succeeds exactly when the first record with the email matches the password, and otherwise fails with 401 |
| `Controllers.LoginWithStoredId` | src/controllers/users.controller.test.ts:108-134 | a body with only a stored user's id logs that user in even when no password matches |
| `Controllers.UsersController.constructor` | src/controllers/users.controller.ts:12-15 | the controller keeps the repository it is given; tokens are signed with the repository's Auth service, the one Auth of the source |
| `Controllers.Response.constructor` | src/controllers/users.controller.test.ts:16-19 | a fresh response has no JSON payload written |
| `Controllers.UsersController.Login` | src/controllers/users.controller.ts:17-36 | on success: status 202, reason "Accepted", payload {user, token} with the token signed over the user's id and email, nothing passed to `next`; on failure: the error goes to `next` and the response is untouched |

## Left out

- HTTP routing and middleware (the router, the token check, the avatar upload interceptor) and debug logging: this is plumbing around the modelled calls.
- The database connection and its configuration: this is environment and network.
- The base `Controller` class and its other CRUD handlers are not part of this model.
- Password hashing, password comparison and token signing are arbitrary functions. bcrypt's salting means real hashes differ from call to call; the model does not capture that.
- Concurrency: each repository method is one atomic step. The race between the lookup and the update writes of the relation operations is not modelled.
- The "Update not possible" 404 branches after a successful lookup in the relation operations cannot happen when each call runs alone, so they are not modelled.
- Mongoose casting: a malformed ObjectId raises a cast error (a 500) in the real store. The model takes ids as plain strings.
- `UsersMongoRepo.Search`: it filters only on the scalar fields email, passwd, name, surname and age. On `friends`/`enemies` MongoDB matches list membership, and `id` is a virtual field, so those keys are left out. Mongoose also casts a filter value to the field's schema type: `age` given as the text "30" matches users aged 30, and a text that is not a number fails with a cast error. The model does no casting, so a text value never matches `age` and the cast error is not modelled.
- `UsersMongoRepo.Create`: the database's fresh ObjectId is a parameter that must be new to the table. The store does not enforce unique emails, and neither does the model. The caller's object is not modelled as changed in place.
- `UsersMongoRepo.Update`: the patch's `id` is only read by the guard; the model never renames a record. Like the source, it stores a patched password without hashing it. Schema casting of patch values is not modelled.
- The scan order of a find is taken to be insertion order, which stands in for MongoDB's natural order; `login` takes the first record with the email in that order.
- The avatar field of a user is not modelled. `age` is an unbounded integer, not a JavaScript number.
- `UsersController.Login`: `userId` is an optional string, and truthy means present and non-empty; other JSON values are not modelled. Errors that are not `HttpError`s (the generic 500 path) are not modelled.
- `Matching`: its contract fixes which records come back and which one comes first (what `findOne` and login rely on); it does not state the relative order of the later results of getAll and search.
