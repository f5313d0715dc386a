# Blog API core in Dafny

This project models the core of a NestJS blog API: users, posts and likes stored through Prisma, with
JWT sessions and refresh-token rotation. The parts modelled are these:

- **Session lifecycle.** `register`, `login` and `refreshToken` in the auth controller, and the
  token table and signer wrapper of the auth service.
- **Authorization decisions.** The role guard, and the existence and ownership gates of the post
  controller.
- **Engagement ledger and cascades.** Liking, publishing, post deletion and the four-step user
  delete of the two services.
- **Validation.** The `CreateUserDto` rules.
- **In-memory classes.** `User` and `Post`, whose constructors draw ids from a class-wide
  counter.

The database is one object, `Schema.Database`. It holds a users table and a posts table as
sequences, the like relation as a set, the token table as a map keyed by `(userId, type)`, and the
two autoincrement counters. `Schema.TablesValid` is the invariant over those tables:
- unique ids and emails;
- ids below their counters;
- every foreign key resolves;
- every token record sits under its own key.

The invariant is kept by every method. Each Prisma `$transaction` is one method, so it is atomic.
A rolled-back transaction leaves the tables as they were.

bcrypt and the JWT signer are modelled as concrete symbolic functions in `Crypto`:
- `Hash(y, salt)` keeps its input.
- The law `Compare(x, Hash(y, salt)) <==> x == y` is a lemma, `Crypto.CompareHash`.
- A signed token is `header.payload.mac`, and `Mac(secret, input)` records both.

Salts, the clock (`now`, in milliseconds) and `new Date(date)` are parameters.

The code is followed wherever it departs from the system's written description:

- **Login failures.** The description says an unknown email and a wrong password give the same
  error. The code answers `'Invalid credentials!!!!'` / `AC-l-1` for the first and
  `'Invalid credentials'` / `AC-l-2` for the second, both 401. The model keeps them apart.
- **Missing refresh record.** The description says refresh fails as a stale token when no record is
  stored. The code destructures `null` and throws, which is a 500. The model gives a `RuntimeError`.
- **Replayed refresh token.** The description says a rotated refresh token is always refused on
  replay. The code refuses it only when the new token's signature differs from the old one.
  - Two refreshes in the same second sign the same claims, `iat` and `exp`, so they produce the same
    token.
  - `AuthController.SameSecondRefreshReissuesPresentedToken` proves this case.
  - The rotation theorem therefore carries that hypothesis.

## Model

| member | source | states |
|---|---|---|
| AuthService.GetByUnique | src/auth/auth.service.ts:49-53 | finds a record exactly when the compound key `(userId, type)` is present, and in a well-keyed table that record carries the same userId and type |
| AuthService.Upserted | src/auth/auth.service.ts:62-72 | the keys afterwards are the old keys plus the one key; every other key keeps its record; the key's token is the new one; a present key keeps its userId, type and expirationDate; an absent key gets exactly `{userId, token, type}`; well-keyedness is kept |
| AuthService.UpsertToken | src/auth/auth.service.ts:62-72 | the token table becomes `Upserted(...)`, the returned record is what `getByUnique` now finds, and no other table changes |
| AuthService.CreateToken | src/auth/auth.service.ts:34-41 | an already-present compound key fails with P2002 and leaves the table alone; otherwise exactly the given record is added |
| AuthService.Deleted | src/auth/auth.service.ts:79-86 | removes exactly the one key and keeps every other record and well-keyedness |
| AuthService.DeleteToken | src/auth/auth.service.ts:79-86 | an absent key fails with P2025 and changes nothing; otherwise the table becomes `Deleted(...)` |
| AuthService.GetAfterUpsert | src/auth/auth.service.ts:49-72 | after an upsert, `getByUnique` on the same key returns a record with the new token, userId and type |
| AuthService.UpsertTwice | src/auth/auth.service.ts:62-72 | a second upsert under the same key overrides the first: the table equals a single upsert of the second token |
| AuthService.GetAfterDelete | src/auth/auth.service.ts:49-86 | after deleting a key, `getByUnique` on it returns null |
| AuthService.IssuedAt | src/auth/auth.service.ts:26 | the signer's `iat` is the current time in whole seconds, rounded down |
| AuthService.CreateJwt | src/auth/auth.service.ts:21-27 | the signature segment of the token is the MAC, under exactly the given secret, of the payload with `iat` and `exp = iat + expiresIn` |
| AuthController.WithHashedPassword | src/auth/auth.controller.ts:44 | names and email are unchanged, the stored password differs from the raw one, and `compare` accepts exactly the raw password against it |
| AuthController.Register | src/auth/auth.controller.ts:31-51 | an existing email fails with 409 `AC-r-1` and creates nothing; otherwise exactly one user row is appended, with the hashed password |
| AuthController.Authenticate | src/auth/auth.controller.ts:59-82 | unknown email gives `AC-l-1` exactly when no row has the email; success returns the row whose password `compare` accepts; with unique emails, a wrong password gives `AC-l-2` |
| AuthController.StoredDigest | src/auth/auth.controller.ts:102 | the stored hash is accepted by `compare` for exactly the presented tokens whose third segment equals the issued one |
| AuthController.Login | src/auth/auth.controller.ts:53-111 | on either credential failure nothing changes; on success both tokens are issued for the user's claims under the two secrets, and the refresh key holds the hash of the refresh token's signature segment |
| AuthController.RefreshCheck | src/auth/auth.controller.ts:119-138 | a missing record throws; a token without a third segment throws; a signature that `compare` rejects against the stored hash fails with 401 `AC-g-refresh`; success holds exactly when `compare` accepts it |
| AuthController.RefreshToken | src/auth/auth.controller.ts:113-167 | a failed check changes nothing; success reissues both tokens from `req.user`'s claims and overwrites the stored hash with the new signature's |
| AuthController.RotationRejectsPreviousToken | src/auth/auth.controller.ts:141-160 | after a successful refresh whose new signature differs from the presented one, presenting the old token again fails with `AC-g-refresh` |
| AuthController.SameSecondRefreshReissuesPresentedToken | src/auth/auth.controller.ts:141-160 | a refresh within the same second as the login reissues the very token of the login, and that token then passes the check again |
| AuthController.LoginTokenPassesRefreshCheck | src/auth/auth.controller.ts:99-138 | the refresh token just issued at login passes the refresh check |
| AuthController.RegisterThenLogin | src/auth/auth.controller.ts:44-82 | a freshly registered user authenticates with the raw password |
| AuthController.ReplayAfterRotation | src/auth/auth.controller.ts:53-167 | a successful login lets the following refresh succeed, and when the rotated signature differs, replaying the login's refresh token fails with `AC-g-refresh` |
| RolesGuard.CanActivate | src/auth/guards/roles.guard.ts:15-44 | no metadata allows; metadata without a user raises `RG-001`; a user without a role raises `RG-002`; otherwise the answer is whether the role is in the handler's list, or the class's list when the handler has none |
| RolesGuard.GrantedIff | src/auth/guards/roles.guard.ts:17-43 | access is granted exactly when no metadata exists, or when the user has a role that is in the effective list |
| RolesGuard.RaisesOnlyWithoutUserOrRole | src/auth/guards/roles.guard.ts:22-41 | the guard raises exactly when metadata exists and the user or their role is missing |
| RolesGuard.HandlerRolesOverrideClassRoles | src/auth/guards/roles.guard.ts:17-20 | once the handler has metadata, the class's metadata has no effect |
| RolesGuard.EmptyRolesRefuseEveryone | src/auth/guards/roles.guard.ts:22-43 | an empty role list is present metadata, so it refuses every user who has a role |
| PostsService.FindOne | src/posts/posts.service.ts:64-74 | finds a row exactly when some row has the id; with unique ids that is the row |
| PostsService.Lookup | src/posts/posts.service.ts:32-52 | a found value is the query's value under that key, and no value is found only when no entry has the key |
| PostsService.Truthy | src/posts/posts.service.ts:32-52 | a value counts as given exactly when it is present and not the empty string |
| PostsService.DecimalValue | src/posts/posts.service.ts:34-49 | `Number()` yields a value exactly for a non-empty string of decimal digits |
| PostsService.DecimalOfRendering | src/posts/posts.service.ts:34-49 | `Number()` of the decimal rendering of any natural number `n` is `n` |
| PostsService.NumberFilter | src/posts/posts.service.ts:32-51 | an absent or empty value sets no condition; a given value is refused exactly when it is NaN or beyond Prisma's 32-bit `Int`; otherwise the condition is `Number()` of the value |
| PostsService.FilterEverything | src/posts/posts.service.ts:57-62 | a `where` that every row meets returns the table unchanged |
| PostsService.FindByUser | src/posts/posts.service.ts:76-81 | exactly the rows of that user |
| PostsService.FindUnpublishedByUser | src/posts/posts.service.ts:125-133 | exactly that user's unpublished rows |
| PostsService.FindByDate | src/posts/posts.service.ts:189-199 | an invalid date fails; otherwise exactly the rows created in `[day, day + 24h)` |
| PostsService.FindLatest | src/posts/posts.service.ts:117-123 | newest first, drawn from the table, `min(count, n)` rows for `count >= 0` and `min(-count, n)` rows for a negative count; for `count >= 0` no row left out is newer than a row kept, and for a negative count none is older |
| PostsService.FindMostPopular | src/posts/posts.service.ts:201-207 | sorted by views descending and holding each qualifying row exactly as often as the table does, and nothing else |
| PostsService.BuildWhere | src/posts/posts.service.ts:30-57 | fails exactly when the `id` or `userId` value is refused; the title and description conditions are exactly the truthy query values; `isPublished` is set exactly when truthy and means `'true'`; `id` and `userId` are set exactly when truthy, to `Number()` of the value |
| PostsService.FindAll | src/posts/posts.service.ts:30-62 | fails exactly when the `where` object cannot be built; otherwise exactly the rows meeting every condition, no more rows than the table |
| PostsService.IdFilterFindsId | src/posts/posts.service.ts:30-62 | `?id=n` for any `n` that fits Prisma's `Int` succeeds and returns exactly the rows with id `n` |
| PostsService.OversizedIdRefused | src/posts/posts.service.ts:32-36 | `?id=n` for an `n` beyond Prisma's `Int` fails |
| PostsService.TitleFilterFindsTitle | src/posts/posts.service.ts:37-41 | `?title=t` for a non-empty `t` returns exactly the rows whose title contains `t` |
| PostsService.EmptyWhereFindsAll | src/posts/posts.service.ts:30-62 | a query whose every value is empty returns the whole table in order |
| PostsService.FindStats | src/posts/posts.service.ts:106-115 | as written: it fails exactly when the user has no posts; otherwise the number of the user's posts and the `createdAt` of the last of them in table order |
| PostsService.FindStatsLastInTable | src/posts/posts.service.ts:107-113 | the reported date is that of a post of the user after which the table holds no other post of theirs |
| PostsService.FindStatsFailsWithoutPosts | src/posts/posts.service.ts:110-114 | a user without posts makes `findStats` fail with status 500 |
| PostsService.FindStatsOrEmpty | src/posts/posts.service.ts:106-115 | corrected: the number of the user's posts; no date exactly when there are none; otherwise the `createdAt` of the last of them |
| PostsService.FindStatsOrEmptyAgrees | src/posts/posts.service.ts:106-115 | where the original succeeds, the corrected version gives the same numbers |
| PostsService.ToggledLikes | src/posts/posts.service.ts:157-185 | the pair is in the new relation exactly when it was not in the old one; every other pair is untouched |
| PostsService.ToggledLikesOf | src/posts/posts.service.ts:157-185 | a toggle changes the number of likes of the toggled post by exactly the counter's delta, and of every other post by nothing |
| PostsService.ToggleKeepsValid | src/posts/posts.service.ts:145-187 | a toggle that deletes an existing like, or creates one between an existing user and post, keeps the table invariant, and the post can still be found |
| PostsService.SameKeysKeepValid | src/posts/posts.service.ts:167-184 | rewriting rows without touching ids or authors keeps the invariant |
| PostsService.ToggleTwiceRestores | src/posts/posts.service.ts:145-187 | toggling twice restores the like relation and every counter |
| PostsService.ToggleKeepsLikeCounts | src/posts/posts.service.ts:145-187 | if every counter equals its post's number of likes before a toggle, it does after |
| PostsService.ToggleLike | src/posts/posts.service.ts:145-187 | creating a like for a missing user or post fails with P2003 and rolls back; otherwise the pair flips and the post's counter moves by -1 or +1; the invariant holds |
| PostsService.ApplyToggle | src/posts/posts.service.ts:156-186 | the two writes of the transaction: the toggled relation, the shifted counter, and the updated row is returned |
| PostsService.FindUser | src/posts/posts.service.ts:20-22 | `connect` finds the user exactly when a row has that id |
| PostsService.CreateKeepsValid | src/posts/posts.service.ts:16-28 | appending a fresh-id row of an existing author with no likes keeps the invariant and the like counters |
| PostsService.Create | src/posts/posts.service.ts:16-28 | connecting a missing user fails with P2025 and adds nothing; otherwise exactly the new row is appended and the counter moves on |
| PostsService.RewriteKeepsValid | src/posts/posts.service.ts:83-89 | a rewrite that keeps id, author and counter keeps the invariant and the like counters |
| PostsService.Update | src/posts/posts.service.ts:83-89 | a missing id fails with P2025 and changes nothing; otherwise that row is rewritten and nothing else |
| PostsService.PublishTwiceRestores | src/posts/posts.service.ts:135-143 | publishing twice restores the table |
| PostsService.Publish | src/posts/posts.service.ts:135-143 | a missing post throws on reading `isPublished`; otherwise the row's flag flips and nothing else changes |
| PostsService.WithoutPost | src/posts/posts.service.ts:99-102 | exactly the rows with another id remain |
| PostsService.PostDeleteKeepsValid | src/posts/posts.service.ts:91-104 | removing a post and its likes keeps the invariant |
| PostsService.PostDeleteKeepsReferences | src/posts/posts.service.ts:91-104 | deleting the likes first and then the post leaves no dangling reference |
| PostsService.PostDeleteKeepsLikeCounts | src/posts/posts.service.ts:91-104 | removing a post and its likes keeps every remaining counter equal to its likes |
| PostsService.Delete | src/posts/posts.service.ts:91-104 | a missing post fails with P2025 and rolls back the like deletion; otherwise both statements apply and the deleted row is returned |
| PostsController.MutationGate | src/posts/posts.controller.ts:187-198 | 404 exactly when the post is missing, the handler's 403 exactly when it exists and the caller is neither admin nor author, success otherwise |
| PostsController.AdminOrAuthorPasses | src/posts/posts.controller.ts:187-198 | an admin, or the post's author, always passes the gate of an existing post |
| PostsController.CreatePost | src/posts/posts.controller.ts:39-63 | a caller whose row is missing gets 404 `PC-c-1` naming the id; otherwise a post authored by the caller is appended |
| PostsController.UpdatePost | src/posts/posts.controller.ts:181-203 | the gate's failure is returned with no change; otherwise the row is patched and returned |
| PostsController.PublishMessage | src/posts/posts.controller.ts:226 | the message says "unpublished" exactly when the post was published before |
| PostsController.PublishPost | src/posts/posts.controller.ts:205-229 | the gate's failure is returned with no change; otherwise the flag flips and the message reflects the state before |
| PostsController.LikePost | src/posts/posts.controller.ts:231-247 | only existence is checked: no ownership gate; a missing post is 404; the toggle runs for the caller |
| PostsController.DeletePost | src/posts/posts.controller.ts:249-273 | the gate's failure is returned with no change; otherwise the post and its likes go |
| PostsController.FindStatsResponse | src/posts/posts.controller.ts:133-149 | a missing user is 404; an existing user without posts gets the service's 500; otherwise the response carries the message naming the user id and exactly the service's statistics: the number of the user's posts and the `createdAt` of the last of them in table order |
| PostsController.FindAllMessage | src/posts/posts.controller.ts:70-79 | "All posts fetched successfully" exactly for an empty query, otherwise every `key: value` joined by `, ` |
| PostsController.EntryTexts | src/posts/posts.controller.ts:76-78 | one `key: value` text per query entry, in order |
| PostsController.OneFilterMessage | src/posts/posts.controller.ts:75-79 | a single filter is named `key: value` |
| PostsController.FindAllResponse | src/posts/posts.controller.ts:65-82 | fails exactly when the service does, and otherwise pairs its rows with the message |
| PostsController.FindByDateMessage | src/posts/posts.controller.ts:128 | the "no posts" message exactly when nothing was found |
| PostsController.FindByDateResponse | src/posts/posts.controller.ts:121-131 | an invalid date fails; otherwise exactly the day's rows, under the message saying whether there are any |
| PostsController.FindByUserResponse | src/posts/posts.controller.ts:151-164 | 404 exactly when the user is missing; otherwise exactly the user's rows |
| PostsController.FindOneResponse | src/posts/posts.controller.ts:166-179 | 404 exactly when no post has the id; otherwise that post |
| UsersService.FindOneById | src/users/users.service.ts:68-72 | finds a row exactly when some row has the id; with unique ids that is the row |
| UsersService.FindOneByEmail | src/users/users.service.ts:74-78 | finds a row exactly when some row has the email; with unique emails that is the row |
| UsersService.FindAppendedEmail | src/users/users.service.ts:13-78 | a row appended with an unused email is what `findOneByEmail` finds |
| UsersService.Create | src/users/users.service.ts:13-17 | a used email fails with P2002 and adds nothing; otherwise exactly the new row is appended under the next id |
| UsersService.Cascade | src/users/users.service.ts:88-105 | the four statements in order: likes on the user's posts, the user's likes, the user's posts, the user; the invariant holds |
| UsersService.Delete | src/users/users.service.ts:87-106 | a missing user fails with P2025 and rolls the first three statements back; otherwise the cascade applies and the user row is returned |
| UsersService.CascadeKeepsValid | src/users/users.service.ts:87-106 | the cascade keeps the table invariant |
| UsersService.CascadeKeepsReferences | src/users/users.service.ts:88-105 | after the cascade every post's author and every like's user and post exist |
| UsersService.CascadeRemovesEveryTrace | src/users/users.service.ts:88-105 | no user row, post or like of the deleted user, nor any like on their posts, remains |
| UsersService.CascadeKeepsOthers | src/users/users.service.ts:88-105 | every other user, every post of another author, and every like of another user on another author's post survives |
| UsersService.UserDeleteLeavesStaleLikeCount | src/users/users.service.ts:93-96 | as written: a two-user table that meets the invariant, where the cascade leaves another author's `likeCount` above its number of likes |
| UsersService.CountedPostsAfterUserDelete | src/users/users.service.ts:93-100 | corrected step 3: the same remaining posts in the same order, each differing at most by its counter, lowered by at most the one like the deleted user can have on it |
| UsersService.CountedCascadeKeepsLikeCounts | src/users/users.service.ts:88-105 | with the corrected counters, every counter still equals its likes after the cascade |
| UsersService.FindActiveInLastWeek | src/users/users.service.ts:108-121 | every user created in the last seven days is listed, and every entry is the name-and-email summary of such a user |
| UserDto.ValidEmailIffPattern | src/users/dto/create-user.dto.ts:23-25 | the one-pass check accepts exactly the strings of the form `L@D1.D2` with every piece non-empty and free of white space and `@` |
| UserDto.AcceptedEmailHasOneAt | src/users/dto/create-user.dto.ts:23-25 | an accepted email has exactly one `@`, neither first nor last |
| UserDto.ValidPasswordIffPattern | src/users/dto/create-user.dto.ts:32-38 | the scan accepts exactly what the four lookaheads and the `{8,16}` body accept |
| UserDto.AcceptedPasswordKinds | src/users/dto/create-user.dto.ts:33 | an accepted password has a lowercase letter, an uppercase letter, a digit and one of `@$!%*?&`, and nothing outside those classes |
| UserDto.AcceptedDto | src/users/dto/create-user.dto.ts:13-43 | an accepted body has non-empty names, an email matching the pattern with one `@`, a password matching its pattern, and an `isAdmin` that, when present and not null, is a boolean |
| UserDto.LengthChecksRedundant | src/users/dto/create-user.dto.ts:30-33 | dropping the length decorators accepts the same bodies |
| Ids.Counter.constructor | src/user.class.ts:2 | the counter starts at 1 |
| Ids.Counter.Take | src/user.class.ts:19 | `nextId++` yields the current value and moves the counter on by exactly one |
| UserClass.User.constructor | src/user.class.ts:12-27 | the id is the counter's value, which moves on by one; the fields equal the arguments; `isAdmin` defaults to false; both dates are `now` |
| UserClass.ConstructAll | src/user.class.ts:17-19 | users built in sequence get consecutive, so distinct and strictly increasing, ids, and are not admins when `isAdmin` is omitted |
| PostClass.Post.constructor | src/post.class.ts:13-21 | the id is the post counter's value, which moves on by one; title, description and author reference equal the arguments; `isPublished` is true |
| PostClass.ConstructAll | src/post.class.ts:4-21 | posts built in sequence get consecutive, strictly increasing ids, are all published and point to their author; the user counter and the author are untouched |
| Strings.SplitJoin | src/auth/auth.controller.ts:124 | splitting on `.` a join of dot-free segments gives those segments back |
| Crypto.CompareHash | src/auth/auth.controller.ts:132 | `compare(x, hash(y))` holds exactly when `x == y` |
| Crypto.SignatureOfSigned | src/auth/auth.service.ts:26 | the third `.`-segment of a signed token is its MAC |
| Crypto.HashIsNotSecret | src/auth/auth.controller.ts:44 | the stored hash never equals the raw password |
| Strings.JoinSplit | src/auth/auth.controller.ts:102 | joining the pieces of a split with the separator gives the string back |
| Seqs.FilterMultiset | src/posts/posts.service.ts:201-206 | a filter keeps each qualifying element exactly as often as the input holds it, and drops the rest |
| Seqs.Filter | src/posts/posts.service.ts:57-62 | the result is no longer than the input and holds exactly the input's elements that pass |
| Seqs.FilterKeepsDistinctKeys | src/users/users.service.ts:98-104 | a filter of a table with distinct keys has distinct keys |
| Seqs.SortDescSorted | src/posts/posts.service.ts:119 | `orderBy: desc` gives a descending permutation of its input |
| Seqs.TakeOfSorted | src/posts/posts.service.ts:119-120 | `take` of a descending sequence is descending and drawn from it; for `count >= 0` it holds the largest keys and for a negative count the smallest |
| Seqs.FilterLast | src/posts/posts.service.ts:113 | the last element a filter keeps is the input's last element that passes |

## Left out

- The Prisma client is replaced by the in-memory tables of `Schema.Database`. The schema file is not
  part of this model, so some details are assumed:
  - the role values are `Regular | Admin`, with `Regular` as the default;
  - `isPublished` defaults to false, and the counters start at zero;
  - the `include`/`select` projections of related users are not modelled;
  - `id` and `userId` are Prisma `Int` columns, 32-bit signed integers;
  - the token table's foreign key to users is not modelled. So `UsersService.Delete` succeeds and leaves the deleted user's token records in place. A restricting foreign key would make the source's delete fail instead, and a cascading one would remove them.
- bcrypt has no cost factor here, does not truncate at 72 bytes, and its salts are parameters.
  The signer is a symbolic MAC.
- JWT verification, expiry and the refresh and access guards are not modelled. Their effect is
  taken as given: `req.user` holds verified claims, and `req.refresh` holds the presented token.
- `expiresIn` is a number of seconds. The environment strings such as `"15m"` are not parsed.
- Concurrency is not modelled. In particular, `toggleLike` reads `existingLike` before its
  transaction opens, so two concurrent toggles can race. Each transaction here is atomic.
- Clocks and `new Date(date)` are parameters. `findActiveInLastWeek` uses a fixed seven-day window,
  so daylight-saving shifts of `setDate` are not modelled.
- `findAll` returns table order. `findByUser` and the `findMany` inside `findStats` have no `orderBy` either, so the model reads them in table order. The date `findStats` reports is that of the user's last post in table order, which the database does not guarantee.
  - `Number()` is modelled for decimal digit strings only. Every other string reads as NaN, including signs, spaces, hex and exponents, which JavaScript would accept.
  - Repeated query keys are not modelled. Express parses a repeated key into an array, and Prisma refuses an array as a `contains` or `equals` value. The model keeps the first value instead.
- `findLatest` breaks ties against the table's order, while the database leaves that order
  unspecified.
- `UsersService.findAll` and `UsersService.update` are not modelled.
  - `findAll` relies on `applyFilters`, and src/utils/filters is not part of this model.
  - `update` is a plain Prisma update outside the named operations.
- Not all of the post update body is modelled. src/posts/dto/update-post.dto.ts is not part of this
  model, so the patch covers title, description and `isPublished`.
- The controller handlers for `findLatest`, `findMostPopular` and `findUnpublishedPostsByUser` are
  not modelled. They only wrap the modelled service results in a constant message, and
  `ParseIntPipe`'s 400 on non-integers is not modelled.
- `@IsEmail()` and `@IsString()` are library checks and are not modelled.
  - The string fields of `CreateUserDto` are strings by type.
  - The validation error messages and their order are not modelled.
- `register` returns the stored row, password hash included, as the code does. The in-place
  assignment to `registerDto.password` is modelled as a new value.
- File I/O (`data.json`), seeding, the users controller, the exception filters and the Nest
  modules are not modelled.
- `AuthController.RotationRejectsPreviousToken` assumes that the new signature differs from the
  old one. Without that hypothesis the property is false, as
  `AuthController.SameSecondRefreshReissuesPresentedToken` shows.

## Findings

| source | as written | input that shows it | evidently intended | confidence | as-written member | corrected member |
|---|---|---|---|---|---|---|
| src/users/users.service.ts:93-96 | the user delete removes the user's likes on other authors' posts without decrementing those posts' `likeCount` | user 1 likes post 10 of user 2, whose `likeCount` is 1; deleting user 1 leaves `likeCount` 1 with no likes | each removed like lowers its post's counter, as `toggleLike` does | not executed | UsersService.UserDeleteLeavesStaleLikeCount | UsersService.CountedCascadeKeepsLikeCounts |
| src/posts/posts.service.ts:110-114 | `posts[posts.length - 1].createdAt` on an empty list reads a property of `undefined` | an existing user with no posts; `GET /posts/byUser/:id/stats` answers 500 | 0 posts and no last date | not executed | PostsService.FindStatsFailsWithoutPosts | PostsService.FindStatsOrEmptyAgrees |
