# JobTracker inbox monitor and application store — a Dafny model

JobTracker watches a user's mailbox for job-application email. A monitor
polls each listening user's IMAP inbox. For every UNSEEN message it takes the
first chunk of the Subject and From headers and the plain-text body, composes
one text blob, and hands it to an LLM classifier. The classifier's answer goes
to a dispatch routine that records applications through a small HTTP API over
a Supabase `applications` table. The dashboard shows each application's status
as a coloured badge.

This project models four pieces of that code:

- `MailMessage` (`mail_message.dfy`): content extraction in both of its source
  variants, header first-chunk selection, the classifier blob, and the outcome
  of fetching, decoding and classifying one message.
- `EmailMonitor` (`email_monitor.dfy`): the batch monitor of
  `server/EmailMonitor.py`. It has a per-message loop that isolates failures,
  `check_inbox` with its logout guarantee, and `run_once` over the user list.
- `LegacyMonitor` (`legacy_monitor.dfy`): the earlier monitor of
  `server/server.py`. It has the type-1 dispatch to `POST /applications`, a
  message loop in which the first failure aborts the rest, and the
  check/sleep loop of `monitor_inbox`.
- `ApplicationStore` (`application_store.dfy`): the handlers of `db/dbAPI.py`.
  This covers the closed status enumeration, the request model and its default
  status, and a class `ApplicationsTable` holding the table as a sequence of
  rows. Lookup by natural key is a function on that class. Insert and status
  update are methods that reassign the rows. Each handler returns the HTTP
  error it raises.
- `Dashboard` (`dashboard.dfy`): the `getStatusClassName` badge class and its
  status slug.
- `Common` (`common.dfy`): Option, Result and Python's substring test.

Collaborators the code calls but does not define are parameters of the model:

- The IMAP session is a `Session` value. It holds the UNSEEN search result and
  a fetch function that gives, per message number, a parsed message or a
  failure.
- `connect_to_email` is a `Connector` function.
- The classifier is a function from the blob to a `ClassifierReply`: it
  raised, or it returned a parsed answer, which may be None.
- The logout's outcome is a boolean (`logoutOk`).
- `requests.post` success is a predicate on the request.
- The store's client errors are an optional error message (`fault`).

Where the system's intended design and its code differ, the model follows the code:

- The code has no reconciliation engine that chooses between create and
  update. `prosses_Email` in `server/server.py` posts a new application for
  type 1 and does nothing otherwise. The posted status is the classifier's
  string, not a fixed "Pending Response".
- The classifier blob starts with a newline (`"\nFrom: "`). Its content label
  is `"\nContent: "` in `server/EmailMonitor.py` and the misspelt
  `"\nContet: "` in `server/server.py`.
- Nothing in the handlers rejects a duplicate natural key.
  `DuplicateInsertKeepsBoth` shows that a second insert with the same key
  leaves two matching rows. After that, `GetApplicationId` no longer succeeds
  for the key.
- `monitor_inbox` logs out only when `imap` was assigned, and an error during
  that logout escapes. `check_inbox` always logs out after connecting and
  swallows a logout error.
- There is no scheduler back-off and no retry.

End to end, the status the classifier's prompt asks for with type 1,
"Pending", is not among the enumeration's display strings. So a post that
follows the prompt is refused by request validation before
`create_application` runs (`PromptStatusesRefused`). The prompt's type-2
statuses ("Accepted", "Rejected") never reach the store, because only type 1
is posted.

## Model

| member | source | states |
|---|---|---|
| `MailMessage.GetEmailContent` | server/EmailMonitor.py:25-43 | For a multipart message, the content is the walk-order concatenation of the decoded text/plain parts and one error is logged per text/plain part that fails to decode. For a single-part message whose decode fails, the content is the raw payload and one error is logged. |
| `MailMessage.GetEmailContentQuietly` | server/server.py:18-38 | The same content as the logging variant. Undecodable parts are dropped silently, and a single-part message falls back to its raw payload. |
| `MailMessage.WalkTextAppend` | server/EmailMonitor.py:30-33 | Extraction over a walk split in two is the extraction of the first half followed by that of the second, so part order is kept. |
| `MailMessage.WalkTextSkips` | server/EmailMonitor.py:31-35 | A part of another content type, or a text/plain part whose decode fails, contributes nothing. Extraction continues with the remaining parts as if it were absent. |
| `MailMessage.WalkTextAllPlain` | server/EmailMonitor.py:28-33 | When every part is decodable text/plain, the content is exactly the concatenation of their decoded payloads. |
| `MailMessage.FirstChunkText` | server/EmailMonitor.py:76-84 | A header yields text iff it is present, has a chunk, and that first chunk is text or bytes that decode. Text comes back as is and bytes as their decoding. |
| `MailMessage.FirstChunkOnly` | server/EmailMonitor.py:76-84 | A header yields text only if it is present with at least one chunk. The result depends on the first chunk alone; later chunks are ignored. |
| `MailMessage.ClassifierText` | server/EmailMonitor.py:90 | The blob's length is the sum of the lengths of the three labels and the three fields, so nothing is dropped or truncated. Where each field lies is stated by ClassifierTextFields. |
| `MailMessage.ClassifierTextFields` | server/EmailMonitor.py:89-91 | The blob is "\nFrom: " + from + "\nSubject: " + subject + label + content. Each field can be read back at its offset. |
| `MailMessage.LegacyTextDiffers` | server/server.py:105-107 | The blob with the misspelt label "\nContet: " is one character shorter than, and differs from, the "\nContent: " blob for the same message. |
| `MailMessage.OutcomeOwnFetch` | server/EmailMonitor.py:71-91 | A message's outcome depends only on what its own number fetches: not on the search result or on any other message. |
| `MailMessage.OutcomeStages` | server/EmailMonitor.py:71-91 | The outcome is a fetch failure iff the fetch raises, and a header failure iff fetch succeeds but Subject or From does not decode. Otherwise the classifier sees the first chunks of From and Subject and the content. The outcome is a classifier failure iff the classifier raises; otherwise it carries the classifier's parsed answer, None included. |
| `MailMessage.OutcomeIgnoresSkippedPart` | server/EmailMonitor.py:28-91 | Inserting a part of another content type, or an undecodable text/plain part, anywhere in a multipart message leaves its outcome unchanged. |
| `MailMessage.OutcomesAt` | server/EmailMonitor.py:69-96 | The outcome recorded for the k-th message is that message's own outcome, independent of every other message. |
| `MailMessage.PrepareMessage` | server/EmailMonitor.py:71-91 | The step-by-step fetch, header decoding, logged content extraction and classification of one message gives the outcome that OutcomeStages, OutcomeOwnFetch and OutcomeIgnoresSkippedPart characterise. |
| `EmailMonitor.CheckForNewEmails` | server/EmailMonitor.py:60-100 | A failing select or search propagates. Otherwise every UNSEEN number is visited once, in search order, each with its own outcome. prosses_Email is called for exactly the messages the classifier answered, in order, with the owner's address. A None answer still gets its call, with None. |
| `EmailMonitor.CallsAppend` | server/EmailMonitor.py:69-96 | The prosses_Email calls of a batch split in two are the calls of each half, in order. |
| `EmailMonitor.CallsSkipFailed` | server/EmailMonitor.py:94-96 | A message that fails at any stage produces no call. The calls before and after it are unchanged. |
| `EmailMonitor.CallsExactlyClassified` | server/EmailMonitor.py:87-92 | A call with a given answer, None included, is made iff some message's classifier returned that answer. Every call carries the mailbox owner's address, and there are no more calls than messages. |
| `EmailMonitor.CheckInbox` | server/EmailMonitor.py:102-118 | Never raises, whatever the logout does. Returns true iff connecting and select/search both succeed, a condition that does not involve the logout's outcome. Logout is attempted iff a connection was made. A logout error is logged iff the logout was attempted and raised. The calls are those of the whole UNSEEN batch. |
| `EmailMonitor.RunOnce` | server/EmailMonitor.py:131-150 | check_inbox runs once per listening user, in list order, and no other user is checked. When the user fetch yields None or an empty list, nothing is checked. Each recorded result is that user's check_inbox result. |
| `EmailMonitor.ListeningMembers` | server/EmailMonitor.py:136-140 | A user is checked iff it is in the fetched list and listening. |
| `EmailMonitor.ListeningAppend` | server/EmailMonitor.py:137-138 | The listening filter keeps list order: filtering a list split in two is filtering each half. |
| `LegacyMonitor.ProssesEmail` | server/server.py:51-70 | One POST to /applications iff the type is 1, with nothing sent for other types. The body's email is the configured EMAIL_ADDRESS, passed as `account`; company_name, job_title and status are copied unchanged. |
| `LegacyMonitor.PostsOnlyForTypeOne` | server/server.py:56-70 | Over a batch, a POST is sent for exactly the parsed type-1 classifications, each carrying that classification's fields. |
| `LegacyMonitor.PostsAppend` | server/server.py:86-109 | The POSTs of a batch split in two are the POSTs of each half, in order. |
| `LegacyMonitor.PostAcceptedIff` | server/server.py:60-65 | The posted body passes the store's request validation iff the classifier's status is one of the enumeration's display strings. Passing validation does not mean a row is inserted: `create_application` can still answer 409 or 400. |
| `LegacyMonitor.PromptStatusesRefused` | server/Requests.py:19-31 | A type-1 post with "Pending", the status the prompt asks for with type 1, fails validation; so would "Accepted", a type-2 status that is never posted. |
| `LegacyMonitor.HandleMessage` | server/server.py:86-109 | One iteration gives that message's outcome under the misspelt label. A POST is sent iff the classifier returned a parsed answer of type 1, and it is that answer's ProssesEmail request. |
| `LegacyMonitor.CheckForNewEmails` | server/server.py:76-109 | Messages are processed in search order with no handler. The run completes iff every message succeeds. Otherwise it stops at the first failing message: all earlier ones succeeded and no later one is fetched. A None answer is a failing message, because `prosses_Email(None)` raises on `.type`. The POSTs sent are those of the visited messages. |
| `LegacyMonitor.MonitorInbox` | server/server.py:112-132 | After a successful connect, check and sleep alternate until the first check that raises. A failed connect means no check and no logout. Logout happens iff imap was assigned. The exit escapes iff it is the interrupt or the logout raises. |
| `ApplicationStore.ParseStatus` | db/dbAPI.py:11-16 | A string validates to a status iff it is that status's display string. |
| `ApplicationStore.StatusesClosed` | db/dbAPI.py:11-16 | Exactly five statuses, with five distinct display strings, each validating back to its own status. |
| `ApplicationStore.ParseApplication` | db/dbAPI.py:18-22 | A request without a status gets PendingResponse. A status string validates iff it is a display string, otherwise 422. The other fields are kept. |
| `ApplicationStore.MatchingIdsMembers` | db/dbAPI.py:27-32 | The lookup finds exactly the app_ids of rows whose email, company_name and job_title all equal the arguments. |
| `ApplicationStore.ApplicationsTable.GetApplicationId` | db/dbAPI.py:24-42 | Succeeds iff there is no client error and exactly one row has the key, returning that row's app_id. Every failure is a 400, including the not-found 404 raised inside the try. With several matching rows it is a 400, as `.single()` raises inside the try. |
| `ApplicationStore.FirstInsertIsFound` | db/dbAPI.py:27-40 | After the first insert of a natural key, the lookup of that key finds exactly the inserted row. |
| `ApplicationStore.DuplicateInsertKeepsBoth` | db/dbAPI.py:48-53 | A second insert with an existing natural key leaves two matching rows, because nothing in the handlers rejects the duplicate. No unique constraint of the database is modelled. |
| `ApplicationStore.InsertError` | db/dbAPI.py:56-63 | An insert error maps to 409 "Email does not exist in users table" iff its message contains "violates foreign key constraint", and to 400 with the message otherwise. |
| `ApplicationStore.ForeignKeyViolationIsConflict` | db/dbAPI.py:57-62 | The foreign-key violation raised for an unknown email maps to the 409. |
| `ApplicationStore.ApplicationsTable.CreateApplication` | db/dbAPI.py:45-63 | Appends one row with exactly the four given fields and a fresh app_id, and returns that row. An unknown email or a client error changes neither the rows nor the id counter and returns the mapped error. The table invariant is kept. |
| `ApplicationStore.SetStatus` | db/dbAPI.py:69-74 | Only rows with the given app_id change, and only in their status field. The length is kept. |
| `ApplicationStore.LastWriteWins` | db/dbAPI.py:69-74 | Status updates overwrite: the second of two updates decides, and repeating an update changes nothing. |
| `ApplicationStore.SetStatusKeepsLookup` | db/dbAPI.py:69-74 | A status update never changes what a natural-key lookup finds. |
| `ApplicationStore.SetStatusKeepsValid` | db/dbAPI.py:69-74 | A status update with one of the enumeration's strings keeps the table invariant: ids are unchanged, every email is still a user's, and every status is still an enumeration value. |
| `ApplicationStore.FirstWithId` | db/dbAPI.py:79 | Gives the first row carrying the app_id, which is the row the update returns. |
| `ApplicationStore.ParseStatusUpdate` | db/dbAPI.py:66-67 | The `status_update` string validates iff it is a display string of the enumeration, giving that status; otherwise 422 before the handler runs. |
| `ApplicationStore.ApplicationsTable.UpdateApplicationStatus` | db/dbAPI.py:66-81 | Sets the status of the rows with the app_id to the enum's display string, and nothing else changes. Succeeds iff such a row exists, returning it updated. A missing app_id changes nothing and its 404 arrives as a 400. |
| `Dashboard.Slug` | ui/src/Components/Dashboard/Dashboard.jsx:83 | The slug has the status's length and no space or upper-case ASCII letter. Every space becomes "-". Every upper-case ASCII letter becomes its lower-case letter. Every character that is neither a space nor upper-case is kept. |
| `Dashboard.StatusClassName` | ui/src/Components/Dashboard/Dashboard.jsx:81-84 | The class has the length of its four pieces. It starts with "status-badge " and ends with the status's slug. |
| `Dashboard.SlugIsNormal` | ui/src/Components/Dashboard/Dashboard.jsx:83 | The slug has the status's length, contains no space and no upper-case ASCII letter, and slugging is idempotent. |
| `Dashboard.StatusClassNameShape` | ui/src/Components/Dashboard/Dashboard.jsx:81-84 | The class is "status-badge ", then the dark or light theme class, then " status-", then the slug; each segment is stated at its offset. Its only spaces are the two separators, because every space of the status becomes "-". |
| `Dashboard.ThreeClassesIff` | ui/src/Components/Dashboard/Dashboard.jsx:83 | The class string's only class separators (tab, LF, FF, CR, space) are the two fixed spaces, so it names exactly three classes, iff the status holds no tab, LF, FF or CR. The regex replaces spaces only, so such a character splits the status class. |
| `Dashboard.EnumBadgesNameThreeClasses` | ui/src/Components/Dashboard/Dashboard.jsx:81-84 | The badge of each of the five statuses names exactly three classes. |
| `Dashboard.EnumSlugs` | ui/src/Components/Dashboard/Dashboard.jsx:83 | The five display strings slug to "pending-response", "rejected", "interview-scheduled", "talk-scheduled" and "offer-received". |
| `Dashboard.BadgesDistinguishStatuses` | ui/src/Components/Dashboard/Dashboard.jsx:81-84 | Different statuses get different badge classes under the same theme. |

## Left out

- IMAP protocol, `imaplib`, `email.message_from_bytes`, `decode_header`, `walk()`: they are modelled only as the given parts, chunks and per-message outcomes. The wire protocols are not modelled.
- The OpenAI call `classify_email` and its prompt: it is an opaque function from the blob to a reply, either a raise or the parsed answer. A parsed answer of None stands for a completion that could not be parsed. The prompt's wording is not a guarantee of the code.
- The two-argument `prosses_Email` imported by `server/EmailMonitor.py`: server/Requests.py defines no two-argument version, so it is not part of this model. The model records its calls and nothing else. Whether it raises does not change the loop.
- `fetch_all_users` and its HTTP request: it is the `Option<seq<User>>` parameter of `RunOnce`. A user record missing `listening` or `email` (a KeyError, and `sys.exit(1)` in `run_once`) is not modelled. Users are records with those fields.
- `time.sleep`, the SIGINT handler and `sys.exit`: sleeps are counted and an interrupt is the end of the given rounds. An interrupt during a check, rather than during a sleep, is not modelled.
- MonitorInbox: does not return the POSTs of its rounds, only whether each round's check succeeded.
- CheckInbox: treats a connected session as truthy, as `if imap:` is for an IMAP object.
- Environment and config loading, logging output and printing: not modelled. Logged decode errors are counted by `GetEmailContent`.
- GetApplicationId: answers a 400 when several rows share the natural key, matching `.single()` raising inside the try. Its detail text is Supabase's, which is library behaviour, and the model's is only representative. The two not-found checks (on the response text and on empty data) collapse into "no matching row". The detail texts of the 400 responses follow Starlette's rendering of an HTTPException and are not otherwise promised.
- Supabase client, FastAPI routing and JSON handling: not modelled. A client exception is the `fault` parameter, assumed to occur before the table changes.
- Remaining database constraints: only the users foreign key and the status ENUM are modelled. Store-assigned app_ids come from a counter that a failed insert leaves unchanged. Whether the database's identity sequence is consumed by a failed insert is not modelled.
- UpdateApplicationStatus: takes the already validated status. A non-enum `status_update` is refused with 422 by `ParseStatusUpdate` before the handler runs, so the handler never sees it.
- Dashboard.Slug: lower-cases only ASCII letters. JavaScript's Unicode case mapping is not modelled.
- Other UI code (login, routing, theme toggle, fetch, `formatDate`): outside the modelled core.
