# Coretent newsletter ingestion, modelled in Dafny

This project models the core of the coretent backend. The backend gives each user a private e-mail alias. Mail providers deliver newsletters to that alias through a signed webhook. A background worker parses each delivery into a readable article. Users list their newsletters, mark them read or archived, and manage their subscriptions.

The model covers these parts:

- **Webhook signature check** (`WebhookSecurity`). The Mailgun timestamp/token/signature verifier works over a ledger of used tokens. Its middleware picks each field from the header or the body.
- **Ingestion** (`Ingestion`). `processIncomingEmail` is a transition over an in-memory store. It resolves the alias, checks that the user exists, skips duplicates by message id and rejects empty mail. It then writes a pending record, upserts the sender's subscription and queues one parse job. The module also holds the display-name and newsletter-name helpers.
- **Content extraction** (`Parser`). This covers word count and read time, the excerpt, publication and author precedence, platform detection, the body-field fallbacks and the error wrapping of `parseNewsletterEmail`.
- **Alias codec and comparisons** (`CryptoUtils`). It covers `generateEmailAlias`, `extractUserIdFromEmailAlias`, `timingSafeEqual` and `verifyHmacSignature`.
- **Parse worker** (`ParseJob`). One attempt is a status transition on one record. The job as a whole runs under the queue's limit of three attempts.
- **Services**:
  - `Newsletters`: a filtered listing with cursor pagination, plus owner-checked get, update and delete.
  - `Subscriptions`: create with a conflict on the `(userId, senderEmail)` key, list, update and delete.
  - `Users`: idempotent registration and alias lookup.
  - `Auth`: turning a bearer header into a user.

Supporting modules give the JavaScript operations the code relies on an explicit meaning:

- `Common`: `Option`, `Result`, the error kinds and the `||` of JavaScript on optional strings.
- `Text`: the `\s` whitespace class, `trim`, whitespace collapsing, `split`/`join`, `indexOf`, first-occurrence `replace`, `slice`.
- `Decimal`: `parseInt(…, 10)` and the decimal rendering of a number.
- `Store`: the records, the store and its unique constraints, and the ordered `findMany`.

The model treats the surrounding systems this way:

- **Database.** It becomes a value `Store` that holds three maps and the job queue. Every service call returns its result together with the new store.
- **Inputs from outside.**
  - Generated ids are parameters, each required to be unused.
  - The clock is a parameter.
  - `process.env` values are parameters.
  - The HMAC-SHA256 primitive is a function parameter.
  - The DOM/Readability/DOMPurify engine is a function parameter.
  - The `<meta>` lookup is a function parameter.

### Where the code differs from the written design

The model follows the code in each of these cases:

- **Read time.** It is `max(1, ceil(words / 200))`, so 200 words read in 1 minute.
- **Subscription domain.** `senderDomain` is the segment between the first and the second `@` (`split('@')[1]`), and it is absent when there is no `@`.
- **Alias pattern.** The alias pattern is case-insensitive: `U-ABC@…` is accepted.
- **Excerpt.** It is cut at 200 characters with no word-boundary logic.
- **Publication.** The publication name comes from the sender's domain even when the HTML names a site.

### Behaviour of the code the model makes visible

- **Orphaned record.** Suppose a sender has no run of non-`@` characters before an `@` and the mail has no subject. Then `extractNewsletterName` calls `slice` on `undefined` and throws a `TypeError`, after the pending record was created. The delivery then leaves the pending record behind with no queued job, and the sender's subscription is neither created nor updated (`Ingestion.Deliver`).
- **Futile retries.** A parse failure is a function of the job alone, so the two retries after a failed attempt fail the same way and leave the same record (`ParseJob.FailedAttemptRepeats`).
- **Stale parse error.** A successful parse does not clear an earlier attempt's `parseError` (`ParseJob.ParsedRecord`).

## Model

| member | source | states |
|---|---|---|
| Common.MessageOf | src/jobs/email-parsing.job.ts:47 | The recorded message is the error's own message for an `Error` value and 'Unknown error' otherwise |
| Common.OrElse | src/modules/webhooks/webhooks.service.ts:11-17 | `a \|\| b` yields `a` when it is a non-empty string and `b` otherwise; the result is truthy iff either operand is |
| Text.Trim | src/modules/webhooks/webhooks.service.ts:92 | `trim()` leaves no whitespace at either end and keeps every non-whitespace character in order; the result is the stretch of the input that starts right after its leading whitespace, with only whitespace after it; it is empty iff the input was all whitespace |
| Text.TrimKeepsWords | src/services/parser.service.ts:113 | Trimming keeps the maximal non-whitespace runs, in order |
| Text.Collapse | src/services/parser.service.ts:113 | `replace(/\s+/g, ' ')` keeps the non-whitespace characters, leaves no two adjacent whitespace characters, and keeps whether each end was whitespace |
| Text.CollapseKeepsWords | src/services/parser.service.ts:113 | Replacing each whitespace run by one space keeps the maximal non-whitespace runs, in order: no run is split or merged |
| Text.Normalize | src/services/parser.service.ts:113 | Trimming and collapsing gives single-spaced text with no edge whitespace and the same maximal non-whitespace runs, in order, as the input |
| Text.WordsCountRuns | src/services/parser.service.ts:43 | The non-empty pieces of `split(/\s+/)` are exactly as many as the maximal non-whitespace runs |
| Text.Split | src/modules/webhooks/webhooks.service.ts:99 | `split` on a set of single separator characters gives at least one piece, no piece holds a separator, and the first piece is the input's prefix up to its first separator |
| Text.SplitJoin | src/modules/subscriptions/subscriptions.service.ts:11 | `split('@')` loses nothing: joining its pieces with '@' gives back the input |
| Text.DomainPart | src/modules/subscriptions/subscriptions.service.ts:11 | `split('@')[1]` is absent iff there is no '@'; otherwise it is the text after the first '@' up to the next '@' |
| Text.IndexOf | src/services/parser.service.ts:124-129 | The first position at which the pattern occurs, and none when it occurs nowhere |
| Text.RemoveFirst | src/middleware/auth.middleware.ts:31 | `replace(pattern, '')` removes only the first occurrence and leaves the text unchanged when the pattern is absent |
| Text.FirstSome | src/services/parser.service.ts:99-106 | A chain of `\|\|` fallbacks: the first present candidate, and none iff every candidate is absent |
| Text.Take | src/modules/webhooks/webhooks.service.ts:104 | `slice(0, n)` is the prefix of length `min(n, length)` |
| Decimal.ParseInt | src/modules/webhooks/webhooks.security.ts:23-28 | `parseInt(s, 10)` is a number iff a digit follows the leading whitespace and optional sign; its value is the signed value of the longest digit run |
| Decimal.ToDecimal | src/modules/webhooks/webhooks.service.ts:17 | The decimal rendering of a number is a non-empty digit string with no leading zero whose value is the number |
| Decimal.ParseToDecimal | src/modules/webhooks/webhooks.security.ts:23 | Parsing a rendered number followed by a non-digit gives the number back |
| Decimal.NegativeToDecimal | src/modules/webhooks/webhooks.security.ts:23 | A minus sign before a rendered number parses to the negated number, so timestamps before the epoch are read as such |
| CryptoUtils.TimingSafeEqual | src/utils/crypto.utils.ts:7-13 | True iff the two strings are equal; a length mismatch gives false rather than an error |
| CryptoUtils.MismatchesZero | src/utils/crypto.utils.ts:9 | For equal lengths, the count of differing positions is zero iff the strings are equal |
| CryptoUtils.VerifyHmacSignature | src/utils/crypto.utils.ts:25-32 | True iff the signature equals the HMAC of the data under the secret |
| CryptoUtils.ExtractUserId | src/utils/crypto.utils.ts:45-48 | Returns an id iff the alias is 'u-' (either case), then a non-empty run of hex digits and '-', then '@'; the id returned is that run |
| CryptoUtils.GenerateEmailAlias | src/utils/crypto.utils.ts:54-57 | The alias is 'u-', the id, '@' and the configured domain, which defaults to 'newsletters.coretent.app' when it is unset or empty |
| CryptoUtils.AliasRoundTrip | src/utils/crypto.utils.ts:45-57 | Extracting the id from a generated alias gives the id back, for any id over hex digits and '-' and any domain |
| WebhookSecurity.VerifyMailgunSignature | src/modules/webhooks/webhooks.security.ts:15-73 | Valid iff the timestamp parses, lies within 300 s of now and the token is unused, the key is set and the signature is the HMAC of timestamp followed by token; a fresh token is recorded for 600 s before the signature is checked; any earlier rejection leaves the ledger unchanged |
| WebhookSecurity.ReplayRejected | src/modules/webhooks/webhooks.security.ts:35-45 | A token that was accepted is rejected again within its 600 s lifetime, whatever the signature |
| WebhookSecurity.FailedSignatureConsumesToken | src/modules/webhooks/webhooks.security.ts:44-62 | A fresh, in-window token is consumed even when the key is missing or the signature is wrong, so a retry with the correct signature is rejected |
| WebhookSecurity.WindowBoundary | src/modules/webhooks/webhooks.security.ts:30-33 | A clock difference of exactly 300 s is accepted in both directions, and 301 s is rejected |
| WebhookSecurity.Gather | src/modules/webhooks/webhooks.security.ts:83-85 | Each of timestamp, token and signature comes from the header when that is non-empty and from the body otherwise |
| WebhookSecurity.VerifyWebhookMiddleware | src/modules/webhooks/webhooks.security.ts:78-104 | A missing field gives 403 'Missing signature parameters' without touching the ledger; otherwise the verifier decides between 403 'Invalid signature' and passing the request on |
| WebhookSecurity.MiddlewarePassesOnlyAuthentic | src/modules/webhooks/webhooks.security.ts:87-103 | A request passed on carries a fresh timestamp, a previously unused token and a signature that is the HMAC under the configured key |
| Parser.EstimatedReadTime | src/services/parser.service.ts:44 | The read time is at least one minute and is the least whole number of minutes in which 200 words per minute cover the count |
| Parser.ReadTimeMonotonic | src/services/parser.service.ts:44 | More words never give a shorter read time |
| Parser.ReadTimeExamples | src/services/parser.service.ts:44 | 0 and 200 words read in 1 minute, 201 and 400 words in 2, 401 in 3, and 10,000 in 50 |
| Parser.WordCount | src/services/parser.service.ts:42-43 | The word count is the number of maximal non-whitespace runs in the text |
| Parser.CutOfNormalized | src/services/parser.service.ts:117 | Cutting normalized text and trimming the cut keeps a prefix of it that loses at most the one trailing space, and loses it iff the cut ends in whitespace |
| Parser.GenerateExcerpt | src/services/parser.service.ts:112-118 | The normalized text itself when it has at most 200 characters, else the trimmed first 200 characters plus '...'; never longer than 203; the kept text is 200 characters long iff the 200th character is not whitespace, and 199 otherwise |
| Parser.ExtractPublicationName | src/services/parser.service.ts:70-86 | With a non-empty sender domain, the first dot-label of that domain with its first letter upper-cased; otherwise the `og:site_name` value |
| Parser.PublicationIgnoresHtml | src/services/parser.service.ts:72-78 | When the sender has a domain, the HTML and the meta lookup do not affect the publication name |
| Parser.ExtractAuthorFromHtml | src/services/parser.service.ts:91-107 | `article:author`, then `name="author"`, then `og:author`; absent iff all three are |
| Parser.Author | src/services/parser.service.ts:48 | `byline \|\| extractAuthorFromHTML(html)` is the first present source in the order byline, `article:author`, `name="author"`, `og:author` |
| Parser.DetectNewsletterPlatform | src/services/parser.service.ts:123-131 | The first matching check in a fixed order wins, so a substack.com sender is 'substack' whatever the HTML; 'unknown' iff no check matches |
| Parser.ExtractEmailContent | src/services/parser.service.ts:136-145 | `body-html` before `html`, `body-plain` before `text`, each defaulting to ''; `hasHTML` iff the chosen HTML is non-empty |
| Parser.ParseNewsletterEmail | src/services/parser.service.ts:21-65 | Succeeds iff the engine yields an article; an empty article title becomes 'Untitled Newsletter', and the sanitised HTML and the generated excerpt fill the other empty fields; the author follows the byline-first precedence; every failure is an EmailParsingError |
| Store.InsertDesc | src/modules/newsletters/newsletters.service.ts:37 | Inserting into a descending list gives a descending permutation of the list with the new element added |
| Store.ListSorted | src/modules/subscriptions/subscriptions.service.ts:42-45 | `findMany` with a filter and a descending order returns every record passing the filter, each once, sorted by the key |
| Newsletters.Fetch | src/modules/newsletters/newsletters.service.ts:30-37 | The query takes up to limit + 1 rows of the listing, starting just after the cursor row when a cursor is given |
| Newsletters.Paginate | src/modules/newsletters/newsletters.service.ts:58-60 | `hasMore` iff more than `limit` rows were fetched; the look-ahead row is dropped; the next cursor is the last kept row's id exactly when there is more |
| Newsletters.PageOfListing | src/modules/newsletters/newsletters.service.ts:30-60 | A page cut from a sorted listing is sorted newest first and holds only listed rows |
| Newsletters.FirstPage | src/modules/newsletters/newsletters.service.ts:58-60 | Without a cursor, the page says there is more iff the listing exceeds the limit, and otherwise holds the whole listing |
| Newsletters.NextPageContinues | src/modules/newsletters/newsletters.service.ts:30-60 | With distinct non-empty ids, a page that says there is more holds the `limit` rows from where it starts, and the page its `nextCursor` asks for starts right after them |
| Newsletters.ConsecutivePages | src/modules/newsletters/newsletters.service.ts:30-60 | With distinct non-empty ids, a page followed by the page its cursor asks for is one unbroken stretch of the listing: no row skipped, none repeated |
| Newsletters.CursorResumes | src/modules/newsletters/newsletters.service.ts:33-36 | With distinct non-empty ids, a cursor naming the row at position i makes the page start at position i + 1 |
| Newsletters.FetchNewsletters | src/modules/newsletters/newsletters.service.ts:13-69 | The page is cut from the listing of exactly the caller's rows that pass the status filter, newest first, starting just after the cursor's row; in a valid store with no empty id the listing's ids are distinct and non-empty; at most `limit` rows; the hasMore/nextCursor contract; without a cursor, a page with no more holds every matching row |
| Newsletters.GetNewsletter | src/modules/newsletters/newsletters.service.ts:71-81 | Found iff the id exists and belongs to the caller; otherwise NotFound 'Newsletter not found: id' |
| Newsletters.UpdateNewsletter | src/modules/newsletters/newsletters.service.ts:83-105 | An ownership miss is NotFound with no change; otherwise only the read and archived flags named in the patch change, on that record only |
| Newsletters.DeleteNewsletter | src/modules/newsletters/newsletters.service.ts:107-124 | An ownership miss is NotFound with no change; otherwise exactly that record is removed and the rest of the store is untouched |
| Newsletters.ForeignRecordsUntouchable | src/modules/newsletters/newsletters.service.ts:71-124 | Another user's record can be neither read, updated nor deleted |
| Newsletters.DeletePreservesValid | src/modules/newsletters/newsletters.service.ts:107-124 | Deleting keeps the store's unique constraints |
| Newsletters.UpdatePreservesValid | src/modules/newsletters/newsletters.service.ts:83-105 | Updating the flags keeps the store's unique constraints |
| Subscriptions.CreateSubscription | src/modules/subscriptions/subscriptions.service.ts:6-39 | Conflict 'Subscription already exists for email' with no change iff the pair exists; otherwise one new subscription with the given name and the sender's `split('@')[1]` domain, nothing else changed |
| Subscriptions.CreatePreservesValid | src/modules/subscriptions/subscriptions.service.ts:13-34 | Creation keeps `(userId, senderEmail)` unique |
| Subscriptions.CreateTwiceConflicts | src/modules/subscriptions/subscriptions.service.ts:13-25 | A second create for the same pair is a Conflict whatever the name |
| Subscriptions.FetchSubscriptions | src/modules/subscriptions/subscriptions.service.ts:41-50 | Exactly the user's subscriptions, each once, newest `subscribedAt` first |
| Subscriptions.UpdateSubscription | src/modules/subscriptions/subscriptions.service.ts:52-74 | NotFound 'Subscription not found: id' with no change unless the caller owns it; otherwise only `isActive` of that record changes |
| Subscriptions.DeleteSubscription | src/modules/subscriptions/subscriptions.service.ts:76-93 | NotFound with no change unless the caller owns it; otherwise exactly that record is removed |
| Subscriptions.UpdateDeletePreserveValid | src/modules/subscriptions/subscriptions.service.ts:52-93 | Updating and deleting keep the store's unique constraints |
| Subscriptions.DeleteThenCreate | src/modules/subscriptions/subscriptions.service.ts:76-93 | After deleting a subscription, creating one for the same sender succeeds |
| Users.RegisterUser | src/modules/users/users.service.ts:7-24 | A known user gets the stored alias back with no write; a new one is stored with the generated alias, and that alias is returned |
| Users.GetUserEmailAlias | src/modules/users/users.service.ts:26-34 | The stored alias, or NotFound 'User not found: userId' for an unknown user |
| Users.RegisterIdempotent | src/modules/users/users.service.ts:7-13 | Registering twice returns the same alias and leaves the store as the first registration did |
| Users.RegisterThenLookup | src/modules/users/users.service.ts:7-34 | After registration the lookup returns the alias, the store stays valid, and the alias routes back to the user |
| Auth.TokenOf | src/middleware/auth.middleware.ts:31 | The token is the header with its first 'Bearer ', wherever it occurs, cut out; the rest of the header before and after it is kept; the header itself when there is none |
| Auth.UserFor | src/middleware/auth.middleware.ts:38-41 | The user id is the token and the alias is 'u-' + token + '@newsletters.coretent.app' |
| Auth.AuthenticateUser | src/middleware/auth.middleware.ts:18-44 | No header is Unauthorized 'No authorization header provided'; an empty token is Unauthorized 'Invalid authorization token'; otherwise the token's user |
| Auth.OptionalAuth | src/middleware/auth.middleware.ts:49-67 | Never fails; attaches a user iff the header is present and the token is non-empty |
| Auth.OptionalAgreesWithStrict | src/middleware/auth.middleware.ts:18-67 | The optional check attaches a user exactly when the strict one succeeds, and the same user |
| Auth.BearerRoundTrip | src/middleware/auth.middleware.ts:31-41 | 'Bearer ' + id authenticates as that id, and the attached alias routes back to it |
| Ingestion.ExtractNameFromEmail | src/modules/webhooks/webhooks.service.ts:90-93 | `^(.+?)\s*<(.+?)>$`: absent iff no split matches; otherwise the trimmed name at the shortest matching split |
| Ingestion.DisplayName | src/modules/webhooks/webhooks.service.ts:90-93 | 'Name <address>' gives the name |
| Ingestion.BareAddressHasNoName | src/modules/webhooks/webhooks.service.ts:91-92 | An address with no '<' has no display name |
| Ingestion.LocalPart | src/modules/webhooks/webhooks.service.ts:96 | `([^@]+)@` matches iff some '@' follows a non-'@' character; the capture is the non-empty '@'-free run that starts at the first non-'@' character and ends at the next '@' |
| Ingestion.LocalPartIsLeftmost | src/modules/webhooks/webhooks.service.ts:96 | Any '@'-free run followed by '@' makes the pattern match, at that run's start or earlier; a run starting where the match starts is the capture |
| Ingestion.RunAtUnique | src/modules/webhooks/webhooks.service.ts:96 | At a given start there is only one non-empty '@'-free run that an '@' follows, so the greedy capture is determined |
| Ingestion.LocalPartOfAddress | src/modules/webhooks/webhooks.service.ts:96 | For 'local@domain' the capture is the local part |
| Ingestion.Titled | src/modules/webhooks/webhooks.service.ts:98-101 | Each separator becomes a space and each character that starts a word is upper-cased; the length is kept |
| Ingestion.SplitCapitaliseJoin | src/modules/webhooks/webhooks.service.ts:98-101 | Splitting on `.`, `_`, `-`, upper-casing each word's first character and joining with spaces equals the character-level definition |
| Ingestion.ExtractNewsletterName | src/modules/webhooks/webhooks.service.ts:95-105 | The titled local part when the sender has one, else the subject's first 50 characters, else a TypeError |
| Ingestion.MessageIdOf | src/modules/webhooks/webhooks.service.ts:17 | The header message id, else the body's, else 'sendgrid-' and the clock in decimal |
| Ingestion.SubjectOrDefault | src/modules/webhooks/webhooks.service.ts:55 | The subject when non-empty, else 'No Subject' |
| Ingestion.GateOf | src/modules/webhooks/webhooks.service.ts:11-47 | The checks before any write, in order: a missing recipient is a TypeError; a bad alias is NotFound 'Invalid email alias'; an unknown user is NotFound 'User not found'; a known message id is skipped; no content is 'Email has no content' |
| Ingestion.PendingRecord | src/modules/webhooks/webhooks.service.ts:49-62 | The new record is pending and unparsed, holds `html \|\| text`, the display name, the defaulted subject and the clock |
| Ingestion.Upsert | src/modules/webhooks/webhooks.service.ts:64-78 | The pair's subscription gets count + 1 and the clock; with none, one is created with count 1 and the sender's domain; others are unchanged and the pair stays unique |
| Ingestion.Deliver | src/modules/webhooks/webhooks.service.ts:49-85 | The record is written first; a naming TypeError leaves just that record; otherwise the upsert follows and exactly one job for the record is queued |
| Ingestion.ProcessIncomingEmail | src/modules/webhooks/webhooks.service.ts:9-88 | A rejection leaves the store unchanged; a duplicate returns normally with no change; a queued delivery adds the pending record and exactly one job |
| Ingestion.WritesOnlyWhenAdmitted | src/modules/webhooks/webhooks.service.ts:21-78 | Nothing is written unless every check passes; after that the only failure is the naming TypeError of a sender with no local part and no subject, which leaves the pending record with no subscription change and no job |
| Ingestion.RedeliveryIsDuplicate | src/modules/webhooks/webhooks.service.ts:32-36 | Delivering the same payload again, at any time, is a duplicate and changes nothing |
| Ingestion.ProcessPreservesValid | src/modules/webhooks/webhooks.service.ts:32-78 | Ingestion keeps message ids unique and `(userId, senderEmail)` unique |
| Ingestion.ProcessKeepsCounts | src/modules/webhooks/webhooks.service.ts:67-78 | Each subscription's count equals the number of stored deliveries from that sender to that user, and an accepted delivery keeps this so |
| Ingestion.CountsNeverDecrease | src/modules/webhooks/webhooks.service.ts:69 | No delivery removes a subscription or lowers its count |
| Ingestion.QueuedJobMatchesRecord | src/modules/webhooks/webhooks.service.ts:80-85 | The queued job names the new pending record and carries its content, the sender and the defaulted subject |
| ParseJob.ParsedRecord | src/jobs/email-parsing.job.ts:21-34 | The success write sets every parsed field, the parse time and the success status, and touches no delivery field |
| ParseJob.FailedRecord | src/jobs/email-parsing.job.ts:43-49 | The failure write sets the failed status and the message; every other field, parsed ones included, keeps its value |
| ParseJob.RunAttempt | src/jobs/email-parsing.job.ts:11-53 | Completes iff the record exists and the parse succeeds; a parse failure is rethrown after the failed status and its message are written; only that one record changes |
| ParseJob.FailedAttemptRepeats | src/jobs/email-parsing.job.ts:39-53 | Re-running a failed attempt at any later time fails the same way and leaves the same store |
| ParseJob.RunJob | src/jobs/queue.config.ts:10 | At most three attempts; the job's outcome and the store are the first attempt's; a completed job took one attempt and a failed one took all three |
| ParseJob.QueuedJobFindsRecord | src/jobs/email-parsing.job.ts:12-49 | The job ingestion queues always finds its record, so the worker leaves it succeeded or failed, never pending |

Some members only pass values through and have no row of their own: `CryptoUtils.HmacSignature` applies the HMAC parameter, and `Ingestion.RecipientOf`, `Ingestion.SenderOf` and `Ingestion.ContentOf` pick payload fields with `||` (src/modules/webhooks/webhooks.service.ts:11-16). What they compute is stated by `CryptoUtils.VerifyHmacSignature`, `Ingestion.GateOf`, `Ingestion.PendingRecord` and `Ingestion.QueuedJobMatchesRecord`.

## Left out

- The HTML engine: JSDOM, Readability and DOMPurify are one function parameter. It yields a failure, no article, or an article with title, byline, content, text and excerpt, plus the sanitised HTML. The `<meta>` regular expressions are a lookup parameter. Only the precedence between their results is modelled.
- HMAC-SHA256 is a function parameter. Its cryptographic properties are not modelled.
- `generateRandomToken`, `hashPassword` and `verifyPassword` are not modelled: they wrap randomness and key derivation that have no logic of their own.
- Redis: the token ledger is a map from token to expiry instant. A Redis error inside the verifier also ends in `false`. That path is not modelled.
- Concurrency: concurrent deliveries are not modelled, so neither is the race between the duplicate check and the insert, or between the upsert's read and write. Each service call is one atomic step, except that a failure in the middle of ingestion keeps the writes made before it.
- Database failures other than a missing row are not modelled.
- The database's column defaults are taken as the schema's, which is not part of this model:
  - a new newsletter is unread and not archived;
  - a new subscription is active and subscribed at the clock's time;
  - a manually created subscription starts at count 0 with no last delivery.
- BullMQ: the exponential backoff, the worker concurrency of 5, the rate limit, job retention and the worker's event listeners are not modelled. Retries appear only as the attempt count.
- HTTP plumbing is not modelled: routes, controllers, the error handler, rate limiters, request validation, logging and shutdown handlers.
- The request schemas' constraints appear only as the `1 <= limit <= 100` precondition of `Newsletters.FetchNewsletters`.
- Strings are sequences of characters. JavaScript lengths and slices count UTF-16 code units, which differs for characters outside the Basic Multilingual Plane. `toUpperCase` is modelled for ASCII letters only.
- Payload fields are optional strings. Non-string JSON values in a webhook body are not modelled.
- Numbers are unbounded integers. `parseInt` past 2^53 loses precision in JavaScript but not in the model.
- `Date.now()` and `new Date()` within one delivery are taken as one clock reading.
- Newsletters.Fetch: the cursor is looked up in the caller's filtered, ordered listing, and a cursor not found there gives an empty page. The database positions a cursor by the row itself, even when that row does not pass the filter. This is not modelled.
- Newsletters.NextPageContinues: continuity of pages is proved only for listings whose ids are distinct and non-empty, which `FetchNewsletters` guarantees for a valid store with no record under the empty id. With repeated ids the model's cursor would resume after the first row carrying the id.
- Newsletters.FetchNewsletters: returns whole records rather than the selected columns. The order of rows with equal `receivedAt` is left open, as it is in the query. Ties make the cursor behaviour depend on that order.
- Store.ListSorted: any order of records with equal keys is allowed.
- Ingestion.ProcessKeepsCounts: the agreement between counts and stored deliveries is an invariant of ingestion alone. Deleting a newsletter or a subscription, or creating one by hand, does not keep it.
- Ingestion.RedeliveryIsDuplicate: requires the payload to carry a message id. Without one, each delivery gets a clock-based id and is not recognised as a repeat.
