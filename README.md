# Reddit-clone server: authentication and post rules

A Dafny model of the business rules behind the GraphQL server of a
Reddit-style site: the registration validator, the user resolver
(`changePassword`, `forgotPassword`, `me`, `register`, `login`) and the post
resolver (`posts`, `post`, `createPost`, `updatePost`, `deletePost`).

The stores the resolvers change become fields of two classes:

- `UserService.UserResolver` holds the `user` table (`map<int, User>`), the
  Redis key space for reset tokens (`map<string, int>`, keys `prefix + token`),
  the request's session (`Option<int>`, the logged-in user's id) and the next
  value of the table's id sequence. Its `Valid()` states what the database
  guarantees: each row sits under its own positive id below the sequence
  value, and username and email are unique.
- `PostService.PostResolver` holds the `post` table (`map<int, Post>`) and its
  id sequence.

Each mutation is a method with `modifies` and an `ensures` that gives the
whole new state for every branch of the source: which error it answers, and
that nothing changes on an error path. The read-only queries (`me`, `post`,
`posts`) and the table lookups are functions. Database lookups
(`findOne`, `find`) are scans over the id range (`UserService.FindOne`,
`PostService.Scan`), proved to find the first match or to enumerate every row
once in id order.

Foreign calls become parameters. `argon2.hash` is the resolver's constant
`hash: string -> string`, and `argon2.verify(h, p)` holds exactly when
`h == hash(p)`. `FORGOT_PASSWORD_PREFIX` is defined in `constants.ts`, which is
not part of this model, so it is the resolver's constant `prefix`. The uuid
drawn by `forgotPassword` is a parameter `token`. `sendEmail` has no effect.

Behaviour the model keeps as the code has it:

- The username check refuses length 2 too (`<= 2`). Its message speaks of
  "less than 2 characters". The password check is the same: it refuses
  length 3 while its message says "less than 3".
  `Validation.TwoCharacterUsernameRefused` is a concrete instance.
- `updatePost` answers with the row as it was read *before* the update, so the
  old title is returned. `changePassword` does the same thing: it returns the
  user record read before `User.update`, still holding the old hash. Its
  contract shows this, and it also shows that `Me()` afterwards sees the new hash.
- `me` treats a session id of `0` like a missing one, because the JavaScript
  check is on truthiness. Ids start at 1, so no stored user is hidden by this.
- A duplicate email is reported with the same `username already exists!`
  error as a duplicate username, because both come from the one unique-violation
  code `23505`.
- `posts()` takes no arguments and returns every row (post.ts:7-10): there
  is no limit and no cursor. `createPost` takes only a title and does no
  login check (post.ts:22-27).

## Model

| member | source | states |
|---|---|---|
| `Validation.ValidateRegister` | redditclone-server/src/utils/validateRegister.ts:3-42 | The answer is `None` exactly when the email has an `@`, the username is longer than 2 and has no `@`, and the password is longer than 3. Otherwise it is a list of exactly one error. A missing `@` in the email gives the email error whatever the other fields are. A short username gives the username error once the email passes. A username with `@` gives the other username error. The password error comes only after all email and username checks pass. |
| `Validation.TwoCharacterUsernameRefused` | redditclone-server/src/utils/validateRegister.ts:14-21 | A two-character username is refused with the "less than 2 characters" message. |
| `UserService.FindOne` | redditclone-server/src/resolvers/user.ts:99 | A lookup by a column returns a stored row whose column equals the value and no row with a smaller id matches. It returns nothing exactly when no row in the range matches. |
| `UserService.UserResolver.FindUser` | redditclone-server/src/resolvers/user.ts:183-187 | Under the uniqueness guarantees, a lookup by username or email returns the one stored user with that value. It returns nothing exactly when no user has it. |
| `UserService.UserResolver.Me` | redditclone-server/src/resolvers/user.ts:127-131 | `me` is nothing when the session holds no id. Otherwise it is the stored user with the session's id, or nothing if there is no such row. |
| `UserService.UserResolver.ChangePassword` | redditclone-server/src/resolvers/user.ts:35-90 | A new password of length 3 or less gives the `newPassword` error. A missing token key gives `token expired`. A token whose user is gone gives `user no longer exists` and the token is not deleted. All three change nothing. On success the user's hash becomes `hash(newPassword)`, the token key is removed, the session holds the user's id and the other users are untouched. The answer carries the record read before the update. |
| `UserService.UserResolver.ForgotPassword` | redditclone-server/src/resolvers/user.ts:95-123 | The answer is always true. With no user for the email the token store is unchanged. Otherwise the key `prefix + token` maps to that user's id. For a fresh token this is exactly one new key, and no other key changes. |
| `UserService.UserResolver.Register` | redditclone-server/src/resolvers/user.ts:136-174 | Validation errors are returned as they are, with no insert and no session change. A username or email already in use gives `username already exists!` and changes nothing. Otherwise one user is inserted under a fresh id with the hashed password, the session holds the new id, and `me` is that user. |
| `UserService.UserResolver.Login` | redditclone-server/src/resolvers/user.ts:178-215 | The lookup is by email exactly when the input contains `@`, and by username otherwise. No match gives the `usernameOrEmail` error. A hash mismatch gives the `password` error. Both failures leave the session unchanged. Success answers the user and logs them in. |
| `UserService.ResetTokenIsSingleUse` | redditclone-server/src/resolvers/user.ts:50-84 | After a successful `changePassword`, a second call with the same token, with a long enough password, fails with `token expired`. |
| `UserService.RegisterTwice` | redditclone-server/src/resolvers/user.ts:147-169 | After a successful registration, a second valid registration that reuses the username or the email fails with `username already exists!`. |
| `UserService.RegisterThenLogin` | redditclone-server/src/resolvers/user.ts:183-214 | After a successful registration, logging in with the username and the same password answers that user and `me` returns them. A password with a different hash gives the `password` error. |
| `UserService.ResetFlow` | redditclone-server/src/resolvers/user.ts:95-131 | After `forgotPassword` for an existing user's email, `changePassword` with that token and a password longer than 3 succeeds for that user. `me` then returns that user with the hash of the new password. |
| `PostService.Scan` | redditclone-server/src/resolvers/post.ts:9 | Scanning an id range gives every stored row of the range exactly once, in increasing id order, and no other row. |
| `PostService.ScanCount` | redditclone-server/src/resolvers/post.ts:9 | The scan yields as many rows as the range holds ids. |
| `PostService.PostResolver.Posts` | redditclone-server/src/resolvers/post.ts:7-10 | `posts()` returns every stored post, each exactly once, ordered by id, and as many rows as the table holds. |
| `PostService.PostResolver.PostById` | redditclone-server/src/resolvers/post.ts:14-19 | `post(id)` is the stored post for `id`, or nothing exactly when `id` is absent. |
| `PostService.PostResolver.CreatePost` | redditclone-server/src/resolvers/post.ts:22-27 | Exactly one new post with the given title is added under a fresh id. Existing posts are unchanged. |
| `PostService.PostResolver.UpdatePost` | redditclone-server/src/resolvers/post.ts:30-43 | A missing id answers nothing and leaves the table unchanged. A given title replaces only that post's title. An omitted title leaves the table unchanged. The answer is the row as read before the update. |
| `PostService.PostResolver.DeletePost` | redditclone-server/src/resolvers/post.ts:46-53 | The answer is always true. Afterwards the id is absent and every other post is unchanged. An absent id is a no-op. |
| `PostService.UpdateAnswersStaleTitle` | redditclone-server/src/resolvers/post.ts:35-42 | After creating a post and updating its title, the mutation answers the old title while `post(id)` shows the new one. |

## Left out

- `logout` (user.ts:217-231): it destroys the session through a callback and clears the cookie. That is session-store and HTTP I/O, so it is not modelled. In effect it sets the session to nothing.
- Token expiry is not modelled, because wall-clock time is out of scope; an expired token is simply a key that is absent. The code sets the key with `'ex', 1000 * 60 * 60 * 24` (user.ts:108-113), and Redis reads `EX` in seconds, so the TTL is 86,400,000 seconds (about 1000 days), not the 24 hours its comment claims.
- `sendEmail` and the reset link's contents are left out. They are outgoing I/O with no effect on the stores.
- `register`'s exceptions other than the unique violation `23505` are left out. The source falls through with `user` undefined and crashes; the model has no other insert failure.
- `Register`: the database sequence also advances on a failed insert. The model keeps `nextId` unchanged on the duplicate path, so it does not model id gaps.
- `UpdatePost`: an explicit GraphQL `null` title is not distinguished from a given title. `None` stands only for an omitted argument. A `null` would reach `Post.update` and fail on the non-null column.
- `ForgotPassword`: the token is not required to be fresh. A colliding uuid overwrites the key, as `redis.set` does.
- Password hashing is deterministic in the model. argon2 salts each hash, so two hashes of one password differ in the real system; only `verify` is relied on.
- String lengths are counted in Dafny characters. JavaScript counts UTF-16 code units, so the two differ for characters outside the Basic Multilingual Plane.
- `PostById`, `UpdatePost`, `DeletePost`: the `id` argument is an integer. GraphQL maps `id: number` (post.ts:16, 32, 49) to `Float`, so a client can send `1.5`, which Postgres rejects with an error (for instance `deletePost(1.5)` raises, where the model would answer true). Non-integer ids and that error are not modelled.
- Columns the resolvers never read or write are left out: `createdAt`/`updatedAt`, and a post's `text` and `creatorId`.
- `findOne` and `find` return rows in no promised order. The model scans ids in ascending order. Uniqueness makes the user lookups independent of that choice.
- Each resolver call is one atomic step; overlapping requests are not modelled. Two overlapping `changePassword` calls with one token can both pass `redis.get` (user.ts:51) before either reaches `redis.del` (user.ts:84), so both succeed and the last update wins. `ResetTokenIsSingleUse` holds for calls that run one after the other.
- Express, Apollo, CORS, Redis and database configuration, and the web front end, are framework wiring and UI. They are not part of this model.
