# Time-bound digital access vault: backend model

A Dafny model of the FastAPI backend of the time-bound secret vault. Users
register and log in. They store text secrets (vault items) and hand out share
links. A share link expires at a set time, allows a set number of views and
may be protected by a password. Anyone holding a link can read its public
metadata and try to redeem it. Every redemption attempt on an existing link
is written to an access log, and the owner of an item can read that log.

The model keeps the database as a `Models.Database` object with one sequence
per table (`users`, `items`, `links`, `logs`). The handlers are methods that
change that object in place. Read-only endpoints do not modify it; all of them
except `Vault.ReadItemLogs`, which builds its response in a loop, are
functions that read it.
`Database.Valid()` collects the invariants that every handler keeps:

- usernames are unique and every user has a password hash;
- share-link tokens are unique;
- every item, link and log refers to an existing user, item and link;
- a link's `currentViews` equals the number of `"allowed"` log entries for it;
- `currentViews` is 0 or at most `maxViews`.

Modules:

- `Wrappers`: `Option` and `Result`.
- `Security`: stand-ins for bcrypt and for the JSON Web Token.
- `Query`: the shapes of the SQL queries. These are first match, filter,
  OFFSET/LIMIT and ORDER BY … DESC.
- `Schemas`: response bodies and the HTTP error.
- `Models`: the four record types, the column defaults, the database and its
  invariants.
- `Auth`: `register` and `login`.
- `Vault`: item creation and listing, share-link creation, link metadata,
  redemption and the audit log.

Redemption (`Vault.AccessSharedContent`) is specified against the pure
function `Vault.Decide`. `Decide` runs the checks in the source's order:
expiry, then the view limit, then the password. The method's contract says:

- the new `links` table is the old one with the link replaced by
  `AfterAttempt`, which adds one view only when the attempt is allowed;
- the new `logs` table is the old one plus exactly one row, which carries the
  link's id and the outcome text;
- an unknown token changes nothing.

`Vault.GetShareMetadata` reports `is_locked` and `is_password_protected`.
`Vault.MetadataPredictsAccess` proves that these two flags predict the
outcome of an attempt made at the same moment.

One behaviour of the source is kept as it is: `is_active` and `is_deleted`
are stored with their defaults, but no endpoint reads them. A link therefore
cannot be revoked through them (`Vault.RevocationFlagsNotConsulted`).

## Model

| member | source | states |
|---|---|---|
| `Security.Hash` | backend/core/security.py:21-22 | a stored hash is never empty, so a present hash always counts as set |
| `Security.Significant` | backend/core/security.py:21-22 | the part of a password that enters its hash is a prefix of it: the whole password when it has at most 72 characters, otherwise exactly its first 72 |
| `Security.Verify` | backend/core/security.py:18-19 | a password verifies against a hash when hashing it gives that hash (its properties are `Security.VerifyExactlyHashed`) |
| `Security.VerifyExactlyHashed` | backend/core/security.py:18-19 | verification accepts exactly the passwords that agree with the hashed one on their first 72 characters; among passwords of at most 72 characters, the hashed password and no other |
| `Security.CreateAccessToken` | backend/core/security.py:24-28 | the issued token's subject is the username it was issued for |
| `Schemas.Bearer` | backend/routers/auth.py:32-33 | the token response carries subject `username` and token type `"bearer"` |
| `Query.FirstIndex` | backend/routers/vault.py:330-331 | `.first()` returns a matching row with no earlier match, or nothing exactly when no row matches |
| `Query.Where` | backend/routers/vault.py:251 | a filter returns exactly the matching rows, each as often as in the table |
| `Query.Page` | backend/routers/vault.py:251 | OFFSET/LIMIT returns at most `limit` rows, taken in order from position `skip` |
| `Query.SortDescending` | backend/routers/vault.py:405 | ORDER BY … DESC returns a permutation of its input with descending keys |
| `Query.DescendingAllPairs` | backend/routers/vault.py:405 | in a descending result every earlier row's key is at least every later row's key |
| `Models.NewShareLink` | backend/models.py:20-30 | a new link starts with 0 views, active and not deleted, and keeps the given columns |
| `Models.CountAllowedUnreferenced` | backend/models.py:35 | a link that no log refers to has no allowed attempts |
| `Models.CountAllowedAppend` | backend/routers/vault.py:369-375 | one appended log row adds one allowed attempt to its own link only, and only when its outcome is `"allowed"` |
| `Models.Database.constructor` | backend/models.py:6-38 | the empty tables satisfy every invariant |
| `Models.ValidDatabaseRows` | backend/models.py:6-38 | a valid database has unique usernames and tokens, a hash for every user, and every item, link and log referring to an existing user, item and link |
| `Models.ItemIndexIsPosition` | backend/models.py:14 | looking an item up by primary key finds the row with that id, or nothing for an unused id |
| `Models.LinkIndexByIdIsPosition` | backend/models.py:22 | looking a link up by primary key finds the row with that id, or nothing for an unused id |
| `Models.UserIndexUnique` | backend/models.py:9 | with unique usernames, the lookup by username finds the one user that has it |
| `Models.LinkIndexUnique` | backend/models.py:24 | with unique tokens, the lookup by token finds the one link that has it |
| `Auth.Login` | backend/routers/auth.py:36-52 | login succeeds exactly when a user with that name exists and the password verifies; then it returns a bearer token for the name, otherwise 401; it changes nothing |
| `Auth.Register` | backend/routers/auth.py:16-33 | a taken username gives 400 and adds no user; otherwise exactly one user is appended with the hash of the password, usernames stay unique, and logging in with the same password then succeeds |
| `Vault.CreateVaultItem` | backend/routers/vault.py:226-240 | exactly one item is appended, owned by the caller, with the next id |
| `Vault.ReadVaultItems` | backend/routers/vault.py:244-254 | returns only the caller's items, at most `limit`, in order from position `skip` among them; `skip` defaults to 0 and `limit` to 100 |
| `Vault.DefaultPageIsFirstHundred` | backend/routers/vault.py:246-247 | without paging parameters the listing is the caller's first 100 items: a prefix of them, as long as the smaller of 100 and their number |
| `Vault.FirstPageHoldsAllOwned` | backend/routers/vault.py:251 | a first page as long as the table returns every item of the caller |
| `Vault.OwnsItem` | backend/routers/vault.py:265-268 | the share check passes when the item exists and its owner is the caller; `Vault.CreateShareLink` answers 404 otherwise |
| `Vault.LinkPasswordHash` | backend/routers/vault.py:275 | a link is protected exactly when a non-empty password is given, and its hash verifies that password |
| `Vault.FreshToken` | backend/routers/vault.py:272 | the generated token is non-empty and held by no existing link |
| `Vault.ShareUrl` | backend/routers/vault.py:288 | the URL handed to the owner ends with the link's token, so the token can be read back from it |
| `Vault.CreateShareLink` | backend/routers/vault.py:258-294 | a missing item or one owned by someone else gives 404 and creates nothing; otherwise exactly one link is appended with a fresh token, the defaults and the hashed password, and the response carries its URL, expiry and view limit |
| `Vault.IsExpired` | backend/routers/vault.py:339 | a link is expired when its expiry lies before `now` |
| `Vault.IsExhausted` | backend/routers/vault.py:343 | a link is exhausted when its views have reached `max_views` |
| `Vault.IsLocked` | backend/routers/vault.py:308-318 | `is_locked` is "expired or exhausted" (proved to predict refusals in `Vault.LockedIffGone` and `Vault.MetadataPredictsAccess`) |
| `Vault.PasswordAccepted` | backend/routers/vault.py:348-349 | a link with a non-empty stored hash lets through only a non-empty password that verifies; a link without one lets every attempt through |
| `Vault.Decide` | backend/routers/vault.py:339-352 | the outcome of an attempt: expiry first, then the view limit, then the password (its properties are `Vault.ChecksRunInOrder`, `Vault.LockedIffGone`, `Vault.LinkPasswordRoundTrip`) |
| `Vault.OutcomeText` | backend/routers/vault.py:340-356 | an attempt is logged as `"allowed"` exactly when it was allowed, so the view count can be recounted from the log |
| `Vault.Refusal` | backend/routers/vault.py:340-352 | an expired link and a reached view limit answer 410 with their own details, a rejected password 401 |
| `Vault.AfterAttempt` | backend/routers/vault.py:355 | the link after an attempt has one more view when allowed and is unchanged otherwise (proved in `Vault.AttemptViewAccounting`) |
| `Vault.ClientHost` | backend/routers/vault.py:336 | the logged address is the client's host, or `"unknown"` without a client |
| `Vault.LogAttempt` | backend/routers/vault.py:369-375 | appends exactly one log row for the link with the outcome and address, and changes nothing else |
| `Vault.AccessSharedContent` | backend/routers/vault.py:323-365 | an unknown token gives 404 and logs nothing; otherwise exactly one log row with the link's id and the outcome of the ordered checks is appended, a view is consumed only on success, a refusal returns its 410/410/401 error, and success returns the item's content |
| `Vault.AttemptKeepsValid` | backend/routers/vault.py:339-356 | an attempt keeps views within the limit and keeps each link's views equal to its allowed log entries |
| `Vault.ChecksRunInOrder` | backend/routers/vault.py:339-352 | expiry is reported before the view limit and the view limit before the password; an attempt is allowed exactly when the link is unlocked and the password is accepted |
| `Vault.LockedIffGone` | backend/routers/vault.py:339-345 | an attempt is refused as expired or out of views exactly when the link is locked; those refusals carry 410, and any other refusal 401 |
| `Vault.AttemptViewAccounting` | backend/routers/vault.py:343-356 | an attempt changes only the view count, adds exactly one view when allowed and none when refused, and never takes the views past the limit |
| `Vault.LinkPasswordRoundTrip` | backend/routers/vault.py:348-352 | on an unlocked link created with a password, an attempt succeeds exactly when the link is unprotected or the same password is presented |
| `Vault.RevocationFlagsNotConsulted` | backend/routers/vault.py:339-356 | the outcome of an attempt does not depend on `is_active` or `is_deleted` |
| `Vault.AllowedAttemptsBounded` | backend/routers/vault.py:343-356 | the attempts ever allowed on a link never outnumber its `max_views` |
| `Vault.ItemTitle` | backend/routers/vault.py:311-315 | the title shown for a link is its item's title, or `"Unknown Item"` when the item is gone |
| `Vault.GetShareMetadata` | backend/routers/vault.py:298-319 | an unknown token gives 404; otherwise `is_locked` is "expired or out of views", `is_password_protected` is "a hash is stored", and the title is the item's or "Unknown Item" |
| `Vault.MetadataPredictsAccess` | backend/routers/vault.py:308-318 | `is_locked` holds exactly when an attempt now is refused as expired or out of views; an unlocked unprotected link lets every attempt through; an unlocked protected link lets through exactly a verifying password |
| `Vault.ItemLogRows` | backend/routers/vault.py:401-406 | the log query: logs joined with their link's token, kept for the item's links, ordered by access time descending (its properties are `Vault.ItemLogRowsAreTheItemsLogs`) |
| `Vault.LogOfItemIsAt` | backend/routers/vault.py:401-403 | on a valid links table, joining a log to its link by primary key and reading the link at position id-1 keep the same logs for an item |
| `Vault.ItemLogRowsAreTheItemsLogs` | backend/routers/vault.py:401-406 | the log query returns each log of the item's links exactly once and no other log, each with its link's token, newest first |
| `Vault.LogResponse` | backend/routers/vault.py:414-420 | a response row carries the log's id, access time, outcome and address and its link's token |
| `Vault.LogResponses` | backend/routers/vault.py:411-422 | the response holds one entry per query row, in the query's order, each the row's `Vault.LogResponse` |
| `Vault.ReadItemLogs` | backend/routers/vault.py:382-422 | a missing item gives 404 and another user's item 403; otherwise one response per query row, in the query's order, so newest first: every row is a log of one of the item's links with that link's token, and every such log appears |

## Left out

- bcrypt is replaced by a deterministic, unsalted stand-in (`Security.Hash`, `Security.Verify`). The model keeps three facts: a hash is never empty, only the first 72 characters of a password count, and verification accepts exactly the passwords that agree with the hashed one there.
- `Security.Significant`: bcrypt truncates at 72 bytes of the UTF-8 encoding, the model at 72 characters; they differ for passwords with non-ASCII characters, since strings are not encoded here. The stand-in's hash also does not have bcrypt's fixed 60-character form.
- The JSON Web Token keeps only its subject. The expiry claim comes from the wall clock, and the signature and encoding are foreign library code.
- `secrets.token_urlsafe` is replaced by `Vault.FreshToken`, a deterministic token longer than every existing one. Only its freshness is modelled, not its randomness or its length of 22 characters.
- Resolving the caller from the bearer token (`get_current_user`) is not part of this model. Handlers take the caller's user id. `Vault.CreateVaultItem` assumes the caller is an existing user: backend/routers/vault.py:214 imports `get_current_user` for this, but backend/core/security.py does not define it. backend/main.py also includes neither router, so the endpoints modelled here are not served by the application as it stands.
- The two-second delay after a wrong password, and the async and await plumbing, are left out. So is the race between the view-limit check and the increment under concurrent requests: every call is atomic here.
- The commit and rollback in `log_attempt` are left out. Every insert and update succeeds.
- Time is an integer `now` given to each call. Timezones and datetime types are not modelled. The `access_time` and `created_at` server defaults take that `now`.
- Ids are positions plus one. This is what an auto-increment key gives when rows are never deleted.
- A SELECT without ORDER BY returns rows in table order. ORDER BY … DESC breaks ties in one fixed way, while the database leaves tie order unspecified.
- `Vault.ReadVaultItems`: `skip` and `limit` are natural numbers. The database rejects negative values, and that error path is not modelled.
- `Vault.CreateShareLink`: the Integer columns are 32-bit on the database and Dafny's integers are unbounded. A `max_views` outside the 32-bit range fails at commit with a server error and stores no link; the model stores the link.
- `Vault.ReadItemLogs`: an `item_id` outside the 32-bit range makes the database raise an error, where the model answers 404. The same holds for `vault_item_id` in `Vault.CreateShareLink`.
- `Vault.CreateVaultItem`: ids past the 32-bit range are not modelled; the model keeps numbering rows without limit.
- Response headers (`WWW-Authenticate`), FastAPI request validation, the CORS and app wiring, the engine and session setup, and the whole frontend are left out.
