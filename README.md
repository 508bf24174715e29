# Feature-request board: a Dafny model

This project models the feature-request board of the newsnow repository.

- **Sign-in by magic link.** A visitor submits an email address. The server stores a single-use token that expires after 15 minutes and mails a link carrying it. Redeeming the token creates the user or finds them, and returns a signed session token.
- **Requests and votes.** With that session token as a bearer credential, a user may create a feature request. Users get three new requests per trailing 24 hours. Each user can cast one vote per request; toggling a vote removes it again.
- **Listing.** Anyone may list the requests, filtered by status, sorted by votes or by creation time, and paginated. Owner emails are masked. The caller's own votes are flagged.
- **Seeding.** A development endpoint loads three users, five requests and five votes.
- **Column layout.** On the client, the column layout ("metadata") is merged with the built-in columns when it is loaded. The atom that holds it accepts only writes that are newer than its current value.

The model is split into one module per source file or concern:

| module | models |
|---|---|
| `FeatureRequestStore` (store.dfy) | The SQLite tables of `server/database/feature-requests.ts`. `FeatureRequestTable` is a class whose `db` field holds the four tables as sequences plus the AUTOINCREMENT counters. Each mutating method is tied to a value-level function (`ToggleDb`, `UpsertUser`, `ConsumeToken`, `KeepUnexpired`). The schema constraints and the `vote_count` counter are proved to hold in `Consistent`. |
| `Jwt` (jwt.dfy) | `extractToken` and `getUserFromToken`. Signing and verification are function parameters. |
| `Email` (email.dfy) | `isValidEmail` as a character scan, proved equal to the regular expression. Also the magic-link URL, the message body and the message fields. |
| `ListHandler`, `CreateHandler`, `LoginHandler`, `VerifyHandler` | The four HTTP handlers. The listing handler only reads, so it is a function from the database to the reply. The other three are methods over the store class that return a `Result`, whose error tags correspond one to one to the handlers' error replies. |
| `Seed` (seed.dfy) | `POST /api/feature-requests/seed`, as a method over the store. |
| `Metadata` (metadata.dfy) | `preprocessMetadata`, `getInitialValue`, and the guarded setter of the metadata atom. |
| `JsString`, `Http`, `Wrappers` | ECMAScript `trim`, `startsWith`, `indexOf` and `Number.parseInt`; the handlers' `||` fallbacks on environment variables and query strings; `Option` and `Result`. |

The model takes the clock (`now`), the random token string and the environment variables as parameters. The JWT sign and verify functions and the mail transport are function-typed parameters.

Where the written specification of the system and the code disagree, the model follows the code:

- `createRequest` does not re-validate its input. Validation happens only in the POST handler.
- Listing has no secondary sort key. The model uses a stable sort, so ties stay in table order.
- Verification cannot tell an unknown token from an expired one. Both give `null`, so the model has a single `TokenInvalidOrExpired` error.
- Email masking and the request quota are enforced in the handlers, not in the store.
- `toggleVote` runs its read and its writes without a transaction. The model runs them as one sequential step.

## Model

| member | source | states |
|---|---|---|
| FeatureRequestStore.EmptyDb | server/database/feature-requests.ts:58-137 | The freshly initialised tables satisfy every schema constraint: unique emails, unique vote pairs, the token primary key, increasing AUTOINCREMENT ids, and `vote_count` in step with the vote rows. |
| FeatureRequestStore.FeatureRequestTable.constructor | server/database/feature-requests.ts:51-53 | The table object wraps a consistent database as it is. |
| FeatureRequestStore.GetRequests | server/database/feature-requests.ts:145-193 | The page is the status-filtered requests, joined with their owners, sorted descending by `vote_count` (or by `created_at` when sort is not "votes"), then cut at the offset and the limit. `total` counts every row matching the status filter, ignoring the join and the paging. At most `limit` rows come back when `limit` is non-negative. Every row matches the filter, carries its owner's email, and has `has_voted` true exactly when a non-zero caller id has a vote on it. |
| FeatureRequestStore.JoinUsersKeeps | server/database/feature-requests.ts:154-161 | A request whose owner row exists is in the join, with the owner's email and the caller's vote flag. |
| FeatureRequestStore.ListingComplete | server/database/feature-requests.ts:145-193 | With no offset and no limit, every request that matches the status filter and has an owner is listed. |
| FeatureRequestStore.FilterStatus | server/database/feature-requests.ts:165-168 | A row is kept exactly when the status is "all" or equals the row's status text, and each kept row keeps its multiplicity. So `total` in GetRequests is the number of matching rows. |
| FeatureRequestStore.JoinUsers | server/database/feature-requests.ts:154-161 | The inner join keeps only rows whose owner exists, attaches the owner's email and `has_voted`, and drops nothing when every owner exists. |
| FeatureRequestStore.SortDesc | server/database/feature-requests.ts:170 | The result is sorted descending on the sort key and is a permutation of the input. |
| FeatureRequestStore.Page | server/database/feature-requests.ts:171-172 | SQLite `LIMIT ? OFFSET ?`: the result is the slice starting at the offset, clamped at zero. A negative limit means no limit. |
| FeatureRequestStore.FeatureRequestTable.CreateRequest | server/database/feature-requests.ts:198-219 | Appends a `pending` row with `vote_count` 0, both timestamps `now` and the next id, and returns that row. Nothing else changes and consistency is kept. |
| FeatureRequestStore.FeatureRequestTable.ToggleVote | server/database/feature-requests.ts:224-265 | The new state is `ToggleDb` of the old one. `hasVoted` is true exactly when no vote existed before, and the vote now exists exactly when `hasVoted`. The returned count equals the number of vote rows for the request and moved by exactly one. |
| FeatureRequestStore.ToggleVotesEffect | server/database/feature-requests.ts:226-254 | Toggling keeps vote pairs unique and flips only its own pair. It changes only its own request's vote count, by -1 when a vote existed and +1 otherwise. |
| FeatureRequestStore.ToggleVotesTwice | server/database/feature-requests.ts:226-254 | Toggling twice restores every vote pair and every count, and restores the exact vote table when there was no vote at first. |
| FeatureRequestStore.ToggleDbConsistent | server/database/feature-requests.ts:224-265 | A toggle on an existing request keeps every schema constraint, and keeps `vote_count` equal to the number of vote rows. |
| FeatureRequestStore.ToggleDbResult | server/database/feature-requests.ts:257-264 | The count read back after a toggle is the old counter plus or minus one and equals the number of vote rows. The vote exists exactly when it did not before. |
| FeatureRequestStore.ToggleDbVotes | server/database/feature-requests.ts:224-265 | A toggle changes neither users nor tokens nor the set of request ids. It flips only its own pair and moves only its own request's count. |
| FeatureRequestStore.ToggleDbTwice | server/database/feature-requests.ts:224-265 | Two identical toggles restore every request's `vote_count` and every vote pair. |
| FeatureRequestStore.CounterMatchesVotes | server/database/feature-requests.ts:81 | In a consistent database, a request's denormalised `vote_count` is its number of vote rows. |
| FeatureRequestStore.ToggleShowsInListing | server/database/feature-requests.ts:158 | After a toggle, the caller's listing of that request shows `has_voted` as the negation of the old state, with the count moved accordingly. |
| FeatureRequestStore.FeatureRequestTable.GetOrCreateUser | server/database/feature-requests.ts:270-297 | The new state and result are `UpsertUser` of the old state. The row carries the email, and afterwards the email is bound to exactly that user id. |
| FeatureRequestStore.UpsertUserEffect | server/database/feature-requests.ts:270-297 | An upsert keeps consistency and changes only the users table. A known email returns the row as read before the update and adds no row. An unknown email adds one row with `created_at = last_login = now`. |
| FeatureRequestStore.UpsertUserTwice | server/database/feature-requests.ts:270-297 | A second upsert of the same email returns the same id and adds no row. |
| FeatureRequestStore.UpsertKeepsOtherBindings | server/database/feature-requests.ts:270-297 | An upsert never changes which id another email is bound to. |
| FeatureRequestStore.LastLoginKeepsBinding | server/database/feature-requests.ts:291-293 | Updating `last_login` keeps the email bound to the same id. |
| FeatureRequestStore.DistinctEmailsDistinctIds | server/database/feature-requests.ts:61-66 | Under the UNIQUE email constraint, two rows with different emails have different ids. |
| FeatureRequestStore.FeatureRequestTable.CreateMagicToken | server/database/feature-requests.ts:302-315 | A new token is stored with `expires_at = now + 15 minutes` and returned. A token string already present violates the primary key, fails, and leaves the store unchanged. |
| FeatureRequestStore.FeatureRequestTable.VerifyMagicToken | server/database/feature-requests.ts:320-346 | The new token table and the result are `ConsumeToken` of the old table. Nothing else changes, and afterwards the token is absent in every path. |
| FeatureRequestStore.TokenSingleUse | server/database/feature-requests.ts:320-346 | Once a token has been looked up, a second verification of it fails and changes nothing. |
| FeatureRequestStore.TokenExpiryBoundary | server/database/feature-requests.ts:302-336 | A token made at `t0` still verifies at `t0 + 15 min` and fails one millisecond later. |
| FeatureRequestStore.FeatureRequestTable.CleanupExpiredTokens | server/database/feature-requests.ts:351-358 | Exactly the tokens with `expires_at < now` are deleted, and nothing else changes. |
| FeatureRequestStore.KeepUnexpired | server/database/feature-requests.ts:353-355 | A token survives the sweep exactly when `expires_at >= now`. |
| FeatureRequestStore.SweepKeepsVerification | server/database/feature-requests.ts:351-358 | A sweep at `now` never changes the outcome of a verification at `now`. |
| FeatureRequestStore.CreatedRequestCounts | server/database/feature-requests.ts:363-379 | A new request raises its owner's 24-hour count by one when it falls inside the window, and leaves every other user's count unchanged. |
| FeatureRequestStore.RequestWindowShrinks | server/database/feature-requests.ts:363-379 | A later window start never counts more requests. It counts strictly fewer when one of the user's requests falls between the two starts. |
| FeatureRequestStore.RequestQuotaReopens | server/database/feature-requests.ts:363-379 | With three requests in the window, the check answers `allowed=false, count=3, limit=3`. Once one of them ages past 24 hours, a new request is allowed. |
| FeatureRequestStore.CastVoteCounts | server/database/feature-requests.ts:384-400 | A new vote raises its user's 24-hour vote count by one when it falls inside the window. |
| FeatureRequestStore.UnvoteFreesQuota | server/database/feature-requests.ts:384-400 | Removing a vote never raises the user's vote count. It lowers the count when the removed vote was inside the window. |
| FeatureRequestStore.RequestQuotaAdmits | server/database/feature-requests.ts:363-379 | The request check reports the user's count in the trailing 24 hours. It allows exactly when one more request made now keeps that count at 3 or less. |
| FeatureRequestStore.VoteQuotaAdmits | server/database/feature-requests.ts:384-400 | The vote check reports the user's vote count in the trailing 24 hours. It allows exactly when one more vote cast now keeps that count at 20 or less. |
| Jwt.ExtractToken | server/utils/jwt.ts:55-66 | There is no token exactly when the header is missing or empty. Otherwise the token is a suffix of the header, and it differs from the header only when the header is "Bearer " followed by the token. |
| Jwt.ExtractBearer | server/utils/jwt.ts:61-63 | "Bearer " followed by a token yields that token. |
| Jwt.BareBearerIsAnonymous | server/utils/jwt.ts:77-80 | The header "Bearer " alone identifies nobody, because the extracted token is empty. |
| Jwt.SessionRoundTrip | server/utils/jwt.ts:73-88 | A non-empty signed token that the verifier accepts identifies its payload when presented as a bearer credential. |
| Jwt.IdentifiedOnlyByVerifier | server/utils/jwt.ts:73-88 | A caller is identified only through a non-empty extracted token that the verifier accepts. |
| Email.IsValidEmailMatchesRegex | server/utils/email.ts:18-21 | The scan accepts exactly the strings matched by `^[^\s@]+@[^\s@][^\s.@]*\.[^\s@]+$`. |
| Email.ValidEmailShape | server/utils/email.ts:18-21 | An accepted address has no whitespace and exactly one '@', with something before it. |
| Email.SampleAddressAccepted | server/utils/email.ts:18-21 | "test@example.com" is accepted. |
| Email.MagicLinkUrl | server/utils/email.ts:27 | The link is the base URL, then "/auth/verify?token=", then the token unencoded. |
| Email.GenerateMagicLinkEmail | server/utils/email.ts:26-109 | The link appears twice in the HTML: as the button's `href` right after the opening anchor, and again as text. |
| Email.MagicLinkMessage | server/utils/email.ts:144-153 | The message goes to the address with the fixed subject and the default sender. Its link is built from `PUBLIC_URL`, or "http://localhost:5173" when that is unset or empty. |
| ListHandler.MaskEmail | server/api/feature-requests/index.get.ts:73-78 | An address without '@' is returned unchanged. |
| ListHandler.MaskSingleAt | server/api/feature-requests/index.get.ts:73-78 | For an address with one '@' and both parts non-empty, the mask is the first character, then "***@", then the domain. |
| ListHandler.MaskEmailExample | server/api/feature-requests/index.get.ts:73-78 | "foo@bar.com" masks to "f***@bar.com". |
| ListHandler.MaskKeepsSecondSegmentOnly | server/api/feature-requests/index.get.ts:74-77 | With several '@', only the segment between the first and the second '@' survives. `local@domain@rest` masks like `local@domain`. |
| ListHandler.MaskEmptyPartUnchanged | server/api/feature-requests/index.get.ts:74-76 | An empty part before the first '@', or between the first and the second, returns the address unchanged, as in "@x@y", "x@" and "x@@y"; any address that starts with '@' is returned unchanged. |
| ListHandler.MaskHidesLocalPart | server/api/feature-requests/index.get.ts:73-78 | Two addresses that share the first character and the domain mask identically. |
| ListHandler.MaskEmailIdempotent | server/api/feature-requests/index.get.ts:73-78 | Masking a masked address changes nothing. |
| ListHandler.ResolveLimit | server/api/feature-requests/index.get.ts:23 | `parseInt(limit) \|\| 50` is never 0. |
| ListHandler.ResolveDecimal | server/api/feature-requests/index.get.ts:23-24 | A decimal numeral n gives limit n (50 when n is 0) and offset n. |
| ListHandler.ResolveNonNumeric | server/api/feature-requests/index.get.ts:23-24 | A missing or non-numeric parameter gives limit 50 and offset 0. |
| ListHandler.MaskAll | server/api/feature-requests/index.get.ts:48-51 | Every row is kept in place, with only its owner email masked. |
| ListHandler.ListRequests | server/api/feature-requests/index.get.ts:18-59 | The rows are the store's page for the resolved query and caller, in the same order and number, with only the owner email masked. `total` is the store's total. The reply echoes the resolved limit and offset, holds at most `limit` rows, and is sorted by the resolved key. Every row matches the status filter and carries its owner's masked email. `has_voted` is true exactly for a verified caller with a non-zero id who voted on that row. |
| ListHandler.AnonymousSeesNoVotes | server/api/feature-requests/index.get.ts:28-45 | Without a verified caller, no row is marked as voted. |
| CreateHandler.ValidateBody | server/api/feature-requests/index.post.ts:51-78 | The body passes exactly when both fields are non-blank strings, the title has at most 200 characters and the description at most 2000. It then yields the trimmed pair. |
| CreateHandler.ValidationOrder | server/api/feature-requests/index.post.ts:51-78 | The checks run in the source's order: title missing, description missing, title too long, description too long. |
| CreateHandler.ValidatedFieldsAreClean | server/api/feature-requests/index.post.ts:51-99 | Stored fields are non-empty, within their bounds, and neither start nor end with whitespace. |
| CreateHandler.LengthCheckedBeforeTrim | server/api/feature-requests/index.post.ts:66-71 | Length is measured before trimming: "a" followed by 200 spaces is rejected as too long, although it trims to "a". |
| CreateHandler.CreateFeatureRequest | server/api/feature-requests/index.post.ts:33-106 | Gates in order: login, validation, then the quota, answered with the count and the limit. Any failure leaves the store unchanged. Success is exactly a verified caller with a valid body under the quota. On success, the only changes are the appended trimmed row and the next request id. Afterwards the caller has at most 3 requests in the window. |
| LoginHandler.Login | server/api/auth/login.post.ts:20-68 | A missing or empty email, then an invalid one, fails before the store is touched. Otherwise one token row is stored and the magic link is mailed. The reply reflects the mailer's answer and carries the token only in development mode. A token string already stored fails with no mail. |
| LoginHandler.LoginThenVerify | server/database/feature-requests.ts:302-346 | A token issued at `now` and redeemed no later than `now + 15 min` returns its email and removes exactly that row. |
| VerifyHandler.Verify | server/api/auth/verify.post.ts:24-78 | A missing or empty token fails untouched. Otherwise the token is consumed. An unknown, expired or empty-email token fails. A valid one upserts the user and returns a session signed over the user's id and email with a 30-day lifetime. Afterwards the token is gone and the email is bound to the returned id. |
| VerifyHandler.SessionIdentifiesUser | server/api/auth/verify.post.ts:56-77 | The session token issued at verification identifies the same user on later requests. |
| Seed.SeedData | server/api/feature-requests/seed.post.ts:7-77 | The users table and its counter are those of three `getOrCreateUser` calls on the sample emails. Other emails keep their ids, and the three sample emails end up bound to three distinct ids, reusing existing rows. The stored request table is the old one plus the five created rows, in order with their titles and owners; only their `vote_count` and `updated_at` differ, and earlier rows are kept as they were. The vote table is the old one plus exactly the five sample ballots. The request and vote counters each move by 5, and the tokens are unchanged. The new requests end up with 2, 2, 1, 0 and 0 votes and no self-votes. The summary reports 3 users, 5 requests and 5 votes. |
| Seed.SeedUsers | server/api/feature-requests/seed.post.ts:15-18 | The new state is exactly that of three `getOrCreateUser` calls in turn, so only the users table and its id counter change. Other emails keep their ids. Three distinct emails are bound to three distinct ids, which are the previous ids for emails already present. |
| Seed.SeedRequests | server/api/feature-requests/seed.post.ts:20-65 | The five sample requests are appended in order with consecutive ids, then voted to counts 2, 2, 1, 0, 0. The stored rows are the old ones plus the created ones, differing only in `vote_count` and `updated_at`, and earlier rows are unchanged. Users, tokens and the user counter are kept. The request and vote counters each move by 5, and the vote table is the old one plus the five ballots. |
| Seed.CreateAll | server/api/feature-requests/seed.post.ts:49-53 | The loop appends one created row per input, in order, with consecutive ids. |
| Seed.SeedVotes | server/api/feature-requests/seed.post.ts:55-65 | Every one of the five toggles inserts, so exactly the five ballots are appended. Users, tokens and the user and request counters stay, and the vote counter moves by 5. Every request row keeps its place and all fields but `vote_count` and `updated_at`, and rows older than the seed are not touched. |
| Seed.BallotsEffect | server/api/feature-requests/seed.post.ts:55-65 | Each seed toggle meets a pair with no vote yet. Afterwards the counts are 2, 2, 1, 0, 0 and no owner has voted on their own request. |
| Seed.SeedUsersDistinct | server/api/feature-requests/seed.post.ts:15-18 | Three upserts of distinct emails give distinct ids and keep earlier bindings. |
| Seed.SeedOutcome | server/api/feature-requests/seed.post.ts:55-65 | The counters of the five new requests equal 2, 2, 1, 0, 0, and no owner has a vote on their own request. |
| Metadata.PreprocessMetadata | src/atoms/primitiveMetadataAtom.ts:45-65 | The result has exactly the built-in column keys. A stored built-in column becomes its merge: the focus rules for "focus", the kept known built-in ids followed by the missing built-in ones otherwise. A built-in column that was not stored gets its built-in list. `action` and `updatedTime` are copied. |
| Metadata.FocusFollowsStoredOrder | src/atoms/primitiveMetadataAtom.ts:53-55 | The focus column keeps the stored order: merging a concatenation is concatenating the merges. |
| Metadata.FocusMembers | src/atoms/primitiveMetadataAtom.ts:53-55 | An id is in the merged focus column exactly when a known stored id redirects to it. |
| Metadata.EveryInitialIdPresent | src/atoms/primitiveMetadataAtom.ts:56-58 | Every built-in id of a non-focus column is in its merged list. |
| Metadata.MergedIdsOrigin | src/atoms/primitiveMetadataAtom.ts:56-58 | Every id in a merged non-focus column is built in, or is the redirect target of a known built-in id that was stored. |
| Metadata.PreprocessIdempotent | src/atoms/primitiveMetadataAtom.ts:45-65 | When every built-in id is a source without a redirect and redirects lead to such sources, merging a merged layout changes nothing. |
| Metadata.GetInitialValue | src/atoms/primitiveMetadataAtom.ts:11-24 | The result is the built-in layout with time 0 when nothing usable is stored. Otherwise it is the merge of the parsed stored layout with `action` set to "init", which keeps the stored time. Either way `action` is "init" and the keys are the built-in columns. |
| Metadata.ReloadMerged | src/atoms/primitiveMetadataAtom.ts:11-24 | Under a settled catalogue, a stored layout that is itself a merge loads back as it was, marked "init". |
| Metadata.Written | src/atoms/primitiveMetadataAtom.ts:26-32 | A strictly newer proposed value is installed as it is. Any other write leaves the current value. The time never goes back. |
| Metadata.WrittenAllMonotone | src/atoms/primitiveMetadataAtom.ts:26-32 | After any series of writes the time has not gone back. An unchanged time means an unchanged value. |
| Metadata.ReplaceTwice | src/atoms/primitiveMetadataAtom.ts:26-32 | Writing the same value twice is the same as writing it once. |
| Metadata.MetadataAtom.constructor | src/atoms/primitiveMetadataAtom.ts:25 | The atom starts from `getInitialValue` of what storage holds. |
| Metadata.MetadataAtom.Set | src/atoms/primitiveMetadataAtom.ts:26-32 | A function update is applied to the current value first. Value and storage change only for a strictly newer time, and the stored text is then the encoding of the new value. |
| JsString.TrimEmptyIffBlank | server/api/feature-requests/index.post.ts:51 | `trim()` is empty exactly when the string is all whitespace. |
| JsString.TrimIdempotent | server/api/feature-requests/index.post.ts:96-97 | Trimming twice is trimming once. |
| JsString.ParseIntDecimal | server/api/feature-requests/index.get.ts:23-24 | `parseInt` reads back every decimal numeral. |

## Left out

- JWT internals: the HS256 signature, `iat` and `exp` are behind the `Signer` and `Verifier` parameters. Expiry of a session token is whatever the verifier decides.
- Random token generation (`crypto.randomUUID`) is a parameter. A collision with a stored token is modelled as the primary-key failure.
- Mail transport: `sendEmail` as written always returns true. The model takes the mailer as a parameter, so the failure branch of the login handler stays reachable. The HTML is modelled as static fragments around the link; the fragments' exact text is not reproduced.
- Logging, the `init` DDL (the model starts from a consistent database), and the `try`/`catch` around each handler for faults of the database driver.
- Concurrency and transactions: each handler runs as one sequential step on the store.
- `createRequest` reads the row back with `title = ? AND user_id = ?`. The model returns the inserted row. The two differ only when the same user created an identical title in the same millisecond.
- FeatureRequestStore.FeatureRequestTable.ToggleVote: requires that the request exists. On an unknown id the source inserts an orphan vote and then fails reading the missing row. Whether the insert is kept depends on the driver's foreign-key enforcement.
- Lengths are counted in Dafny characters, not UTF-16 code units. `parseInt` has no floating-point precision limit.
- The vote handler (`[id]/vote.post.ts`) and `me.get.ts` are outside this model, apart from the store operations they call.
- The order of tied rows in a listing is stable table order; SQL leaves it unspecified.
- A query parameter given several times (an array) and a request with no JSON body are not modelled. A body field is missing, a string, or some other value.
- The UI, the news sources, the layout presets and the JSON format of stored metadata are not modelled. `parse` and `encode` are parameters, and the `sources` catalogue and built-in columns are inputs.
- A handler reads the clock once. The source calls `Date.now()` separately in each store call, a few milliseconds apart.
