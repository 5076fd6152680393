# Blog backend: authentication gate, credentials and posts

A Dafny model of the request handlers of a small blogging service's HTTP
backend (`backend/server.js`). The service keeps two tables, `users` and
`posts`. The handlers are modelled here:

- `POST /api/auth/register`: presence check, duplicate-name check, bcrypt hash, insert.
- `POST /api/auth/login`: presence check, lookup, password compare, sign a one-hour token.
- `authenticateToken`: the bearer-token middleware. It returns 401 when there is no
  token and 403 when the token does not verify. Otherwise it passes on the decoded claims.
- `POST /api/posts` (behind the middleware): inserts one post owned by the token's user.
- `GET /api/posts`: all posts joined with their owner's name, newest first.
- `GET /api/posts/:id`: one post joined with its owner's name, or 404.

Layout:

- `wrappers.dfy`: `Option` and `Result`.
- `text.dfy`: JavaScript's `split` on one character, its inverse `Join`, and decimal numerals.
- `bcrypt.dfy`: a stand-in for `bcrypt.hash`/`bcrypt.compare`. A digest records its cost
  and salt. `Matches` re-hashes the candidate with them. The digest accepts exactly the
  password it was made from.
- `jwt.dfy`: a stand-in for `jwt.sign`/`jwt.verify`. A token is five `.`-separated
  decimal fields: user id, name as character codes, `iat`, `exp`, and a keyed checksum.
  `Verify` is proved to invert `Sign` until the expiry second. It is also proved to accept
  nothing that `Sign` did not produce with the same secret.
- `gate.dfy`: token extraction from the `Authorization` header and the 401/403/pass decision.
- `tables.dfy`: the rows, the inner join, the newest-first ordering and the by-id lookup.
- `server.dfy`: the responses, the login handler, the two read routes, and the class
  `BlogServer`. The class holds both tables and their `AUTO_INCREMENT` counters. Its
  methods `Register` and `CreatePost` update them in place.
- `scenarios.dfy`: properties across handlers. These are register-then-login, the login
  token passing the gate, and a created post reading back by id. One end-to-end method
  runs register, login, create and read on a fresh server.

Inputs the handlers get from outside are parameters of the model:

- the random bcrypt salt (`salt`);
- the clock (`now`, in seconds), used both for token expiry and for `created_at`.

What the handlers expose:

- The routes are under `/api/...`.
- A successful login answers only `{message, token}`, not the user id and name.
- The list and by-id queries return `id, title, body, created_at, username`. There is no
  user id and no image URL.
- There is no update or delete route, so there is no ownership check to model.

## Model

| member | source | states |
|---|---|---|
| `Text.Split` | backend/server.js:31 | `split(' ')` gives at least one field and no field contains the separator |
| `Text.SplitHasSecondField` | backend/server.js:31 | `split(' ')[1]` exists exactly when the header contains a space |
| `Bcrypt.Hash` | backend/server.js:61 | the digest records the cost factor and salt it was made with |
| `Bcrypt.Matches` | backend/server.js:94 | `bcrypt.compare` reads cost and salt from the stored digest and accepts exactly when re-hashing the candidate with them reproduces the digest |
| `Bcrypt.MatchesHash` | backend/server.js:94 | `bcrypt.compare` accepts a digest for exactly the password it was hashed from, whatever the salt |
| `Jwt.Verify` | backend/server.js:35-36 | a token verifies only before its `exp` second |
| `Jwt.VerifySign` | backend/server.js:102 | a signed token verifies to its own claims before expiry and is refused as expired from then on |
| `Jwt.VerifySound` | backend/server.js:35-36 | a token that verifies is exactly the signature of the claims it decodes to, so anything not produced by `Sign` with the secret is refused |
| `Jwt.Sign` | backend/server.js:101-102 | a signed token splits on `.` into exactly the payload fields `{userId, username, iat, exp}` and their signature, and contains no space, so it survives as the second field of the header |
| `Gate.BearerToken` | backend/server.js:30-31 | the token is missing exactly when the header is absent, or is non-empty with no space; an empty header yields the empty token; a token never contains a space |
| `Gate.Authenticate` | backend/server.js:29-40 | 401 exactly when no token is extracted; 403 exactly when the extracted token fails to verify; otherwise the claims passed on are those the token was signed with and are unexpired |
| `Gate.BearerTokenAfterScheme` | backend/server.js:31 | the second space-separated field is the token, whatever the first field is and whatever follows |
| `Gate.SchemeIgnored` | backend/server.js:31 | two headers differing only in the scheme word get the same decision, whatever fields follow the token (the `Bearer` scheme is never checked) |
| `Gate.SignedTokenAdmitted` | backend/server.js:35-38 | a signed token after any one-word scheme is admitted with its claims before expiry and gets 403 after |
| `Gate.EmptyHeaderForbidden` | backend/server.js:31-36 | an empty header is not `== null`, so it gets 403, not 401 |
| `Gate.NoSpaceUnauthorized` | backend/server.js:31-33 | a non-empty header without a space gets 401 |
| `Tables.FindUserByName` | backend/server.js:85 | the lookup returns a row with the requested name, and returns none exactly when no row has that name |
| `Tables.OwnerRows` | backend/server.js:123 | the join rows of one post are exactly its pairings with the user rows whose id is its `user_id` |
| `Tables.Joined` | backend/server.js:120-125 | the inner join holds a row exactly for each post paired with an owning user row; posts without an owner row are dropped |
| `Tables.InsertByDate` | backend/server.js:124 | inserting into a newest-first list keeps it newest-first and adds exactly that row |
| `Tables.SortNewestFirst` | backend/server.js:124 | `ORDER BY created_at DESC`: the result is newest-first and a permutation of its input |
| `Tables.ListPosts` | backend/server.js:120-125 | the list query is newest-first, a permutation of the join, and holds exactly the posts whose owner exists |
| `Tables.FirstWithId` | backend/server.js:141-147 | the first row with the id, and none exactly when no row has it |
| `Tables.PostById` | backend/server.js:137-147 | the by-id query finds a joined row with that id, and finds none exactly when no post with that id has an owner row |
| `Server.Login` | backend/server.js:75-111 | 400 exactly when a field is missing or empty; with unique names, 401 exactly when no row with that name accepts the password; every 401 carries the same message; 200 signs `{userId, username}` of a matching row with a one-hour expiry |
| `Server.ListPostsRoute` | backend/server.js:117-131 | always 200 with a newest-first permutation of the join: each post whose owner exists appears exactly as often as the join yields it, and nothing else |
| `Server.GetPostRoute` | backend/server.js:134-152 | 404 exactly when no post with the id has an owner row; otherwise 200 with a joined row of that id |
| `Server.BlogServer.Register` | backend/server.js:46-72 | 400 with no change when a field is missing or empty; 409 with no change when the name exists, whatever the password; otherwise exactly one row with the name and the password's digest, 201 with the new id; posts untouched; user names and ids stay unique |
| `Server.BlogServer.CreatePost` | backend/server.js:155-170 | the gate decides first (401/403 with no change, even if the title is missing); then 400 with no change on a missing field; otherwise exactly one post owned by the token's `userId`, 201 with its id; users untouched |
| `Scenarios.FindUserAfterInsert` | backend/server.js:64 | inserting a user row changes a name lookup only when the name was absent |
| `Scenarios.RegisterThenLogin` | backend/server.js:61-105 | after registering a fresh name, logging in with the same password returns 200 and a token for the new id and name, expiring one hour later |
| `Scenarios.LoginTokenAdmitted` | backend/server.js:101-105 | the login token passes the gate as the matched user for one hour, then gets 403 |
| `Scenarios.LoginFailuresIndistinguishable` | backend/server.js:86-97 | an unknown name and a wrong password get the identical 401 response |
| `Scenarios.JoinedAppend` | backend/server.js:164 | inserting a post appends exactly its join rows to the join |
| `Scenarios.CreatedPostReadsBack` | backend/server.js:137-147 | a new post whose owner row exists reads back by id with its title, body, timestamp and owner's name |
| `Scenarios.RegisterLoginPostRoundTrip` | backend/server.js:155-165 | register, login, create a post with the token, then read it by id: the post comes back with its title, body and the new user's name |
| `Scenarios.LoginOnValidServer` | backend/server.js:85-97 | on a consistent server (unique user names), login answers 401 exactly when both fields are present and no user row with the name accepts the password |
| `Scenarios.CreatedPostReadsBackOnServer` | backend/server.js:164 | on a consistent server, the post the create route inserts for an existing user reads back by id with its title, body, timestamp and the user's name |

## Left out

- The `catch` branches answering 500, and all console logging: these are storage failures and diagnostics.
- The MySQL pool, the SQL text, `startServer` and `app.listen`: these are I/O and configuration. The tables are in-memory sequences.
- Concurrency between requests: each handler runs as one atomic step on the class.
- The frontend (React pages, `apiClient.js`): UI and network client code.
- Bcrypt.Hash: this is not the real bcrypt function. It is an injective stand-in, so it
  is not one-way. It also does not model bcrypt's 72-byte truncation of passwords.
- Jwt.Sign: this is not the RFC 7519 compact format, and the checksum is not HMAC-SHA256.
  So the model does not capture that a token cannot be forged without the secret.
  Only the `exp` claim is checked, as the library does for these tokens.
- User-name comparison uses exact string equality. The database collation
  (which may, depending on the server version and collation, treat names differing in
  case, accents or trailing spaces as equal) is not modelled.
- Request-body fields are strings or absent. Other JSON values (numbers, booleans)
  are not modelled.
- The `:id` route parameter is a natural number. MySQL's coercion of a non-numeric
  string parameter is not modelled.
- The schema (foreign key on `posts.user_id`, default of `created_at`) is not part
  of the model. `created_at` is the `now` input. A post's owner is whatever `userId`
  the verified token carries.
- Server.Login: the "401 exactly when no row accepts the password" direction is stated
  for tables with unique user names. `BlogServer.Valid` keeps them unique, and
  `Scenarios.LoginOnValidServer` states the clause for any consistent server. Without it,
  the handler looks only at the first row with that name.
- Node's trimming of whitespace around header values is not modelled. The header
  string is taken as the handler sees it.
