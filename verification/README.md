# Verified model of the THISJOWI server

A Dafny model of the parts of the THISJOWI services whose correctness depends on whole runs, on
interleavings or on string rewriting, with proofs of what those parts promise. `dafny verify
dfyconfig.toml` checks everything.

| file | what it models |
|---|---|
| `LikeEscape.dfy` | the escaping behind the title search, against a LIKE matcher |
| `RateLimiter.dfy` | the token bucket per address and its cleanup loop, over timed traces |
| `RateHistory.dfy` | which calls are admitted, from the history of an address alone |
| `OtpLockout.dfy` | OTP validation and its lockout, with calls interleaved at their critical sections |
| `LdapDirectory.dfy` | the LDAP user directory fed by an at-least-once event log |
| `NoteStore.dfy` | the notes table, its statements, and any interleaving of clients |
| `NoteService.dfy` | encrypted notes and the import, against a plaintext map |
| `PasswordKey.dfy`, `PasswordStore.dfy`, `PasswordDedup.dfy` | grouping and removal of duplicate passwords |
| `PasswordUpserts.dfy` | upsert transactions of the password table, interleaved |
| `DedupRuns.dfy` | the statements of that removal while other clients write the table |
| `ChatService.dfy` | unread counts, read receipts, direct conversations |
| `ChatRequests.dfy` | chat requests whose statements interleave |
| `KafkaConsumer.dfy` | the fetch, verify, handle, commit loop over crashes and restarts |
| `SocketIndex.dfy` | the two maps between users and sockets |

How it is built. Code that changes state is a class whose methods change fields and whose contracts
give the new state by a function of the old one; the theorems are lemmas about those functions over
all traces, runs or interleavings. One SQL or Mongo statement is one atomic step; a service method
that issues two statements is two steps wherever other clients matter. Clocks are explicit
nondecreasing readings in nanoseconds. Library code appears as a function parameter: the HMAC check
(`verify`), JSON and integer parsing (`parse`), AES-GCM with base64 (`seal` and `open`), the token
check of the gateway (`validate`) and the character fold of ILIKE (`fold`). Failing calls are
parameters too, so contracts say what happens when the database or the cipher does not answer.

Where the code does not do what one would expect of it, the model keeps the code and the lemmas say
exactly when it does: cleanup of the rate limiter is invisible under one condition on the
configuration (`CleanupInvisibleIff`), a drained address that keeps polling starves
(`DrainedRecoversIff`), k calls in flight can record 4 + k failures (`LockoutBoundIsTight`), store
errors change the LDAP directory unless redelivery makes them good (`Convergence`), redelivery can
drop a photo (`PhotoSurvivesIff`), the joined password key is ambiguous (`KeyIsUniqueIff`,
`NamedKeyIsUniqueIff`), removing duplicates can drop a password that cannot be opened
(`StoredSecretsKeptIff`), a failed Kafka message is committed over by a later one (`LostIff`),
reusing a socket id for another user breaks the socket index (`RegisterAgreesIff`), requests that
cross create a second direct conversation (`CanonicalIff`), and markRead can mark a message without
reporting its sender (`AllSendersReportedIff`). Removing duplicates while other clients write the
table is safe under three conditions on what they do (`QuietRunLosesNothing`), each of which is
needed: a run that breaks only that one loses a password (`DeletedKeptRowLoses`,
`ChangedKeptRowLoses`, `ChangedCopyLoses`, `RelabelledCopyLoses`).

## Model

| member | source | states |
|---|---|---|
| LikeEscape.EscapeLikeIsOnePass | services/note/internal/repository/note_repo.go:68-73 | the three ordered replace passes equal one pass that escapes each backslash, percent sign and underscore once |
| LikeEscape.SearchPatternMeansContains | services/note/internal/repository/note_repo.go:75-77 | for all titles and queries, the pattern the search builds matches a title iff the title contains the query, up to the character fold |
| LikeEscape.EscapedPatternIsWellFormed | services/note/internal/repository/note_repo.go:68-77 | the pattern never ends in a lone escape character, which PostgreSQL would refuse |
| LikeEscape.EscapeLikeIsInjective | services/note/internal/repository/note_repo.go:68-73 | two texts with the same escaped form are the same text |
| NoteStore.SearchFindsExactlyContaining | services/note/internal/repository/note_repo.go:75-83 | a search finds a row iff it belongs to the user and its title contains the query |
| RateLimiter.Limiter.constructor | pkg/middleware/ratelimit.go:24-33 | a new limiter knows no visitor and keeps its configuration |
| RateLimiter.Limiter.Allow | pkg/middleware/ratelimit.go:49-71 | one call: new visitors are admitted with burst - 1 left; known ones are refilled by whole intervals, capped, stamped and charged one token if they have one; no other visitor changes |
| RateLimiter.Limiter.Cleanup | pkg/middleware/ratelimit.go:35-47 | one tick of the cleanup removes exactly the visitors idle for longer than the period |
| RateLimiterHistory.HistoryDecides | pkg/middleware/ratelimit.go:49-71 | in any run of calls from any addresses, the k-th call of an address is admitted iff, for every call i of its own up to k, fewer calls from i on were admitted before k than the burst plus rate for each whole interval between successive calls since i |
| RateLimiterHistory.OwnCallsDecide | pkg/middleware/ratelimit.go:49-71 | the answers to one address are those it would get alone |
| RateLimiterHistory.FloodAdmits | pkg/middleware/ratelimit.go:53-70 | in any state of the table, m simultaneous calls of an address have admitted what is left plus rate per whole interval since its last call, capped at the burst and at m |
| RateLimiterHistory.IdleThenFlood | pkg/middleware/ratelimit.go:49-71 | a new address that makes a <= burst calls, is idle for n whole intervals and makes m calls at once has min(m, min(burst, burst - a + n * rate)) of them admitted |
| RateLimiterRuns.WindowBound | pkg/middleware/ratelimit.go:49-71 | in any window of any run without cleanup an address is admitted at most burst (at least one) times plus rate per whole interval of the window |
| RateLimiterRuns.ZeroBurstStillAdmitsOnce | pkg/middleware/ratelimit.go:53-57 | with burst 0 the first call is admitted, so the bound needs the "at least one" |
| RateLimiterRuns.FloodVerdicts | pkg/middleware/ratelimit.go:59-70 | calls at one instant are admitted first come first served, up to the tokens found on arrival |
| RateLimiterRuns.CleanupInvisibleIff | pkg/middleware/ratelimit.go:35-71 | cleanup never changes an answer in any run iff burst >= 1 and the whole intervals in the shortest evictable idle time refill the burst |
| RateLimiterRuns.CleanupShows | pkg/middleware/ratelimit.go:35-71 | when that condition fails, a concrete run gets an answer it would not get without cleanup |
| RateLimiterRuns.ServiceConfigurationHidesCleanup | services/note/cmd/server/main.go:66 | with rate 10, burst 20, one second and a five minute period, cleanup is invisible |
| RateLimiterRuns.WindowBoundWithCleanup | pkg/middleware/ratelimit.go:35-71 | under that condition the window bound also holds with cleanup passes anywhere in the run |
| RateLimiterRuns.RefinesIdealBucket | pkg/middleware/ratelimit.go:49-71 | on every trace each request the limiter admits is also admitted by a bucket that keeps the unused part of the interval |
| RateLimiterRuns.FastRetriesStarve | pkg/middleware/ratelimit.go:59-68 | a drained address that retries within every interval is never admitted again, because a refused call restarts its interval |
| RateLimiterRuns.DrainedRecoversIff | pkg/middleware/ratelimit.go:59-70 | a drained address is admitted iff a whole interval has passed since its last call, refused or not |
| OtpLockout.FailKeyInjective | services/otp/internal/service/otp_service.go:164 | the printed key user:id determines user and id, whatever the user id contains |
| OtpLockout.OtpService.CheckLockout | services/otp/internal/service/otp_service.go:165-176 | the first critical section: an expired entry is dropped, and the call is refused iff an unexpired entry counts five |
| OtpLockout.OtpService.RecordFailure | services/otp/internal/service/otp_service.go:201-208 | the second critical section after a wrong code: the entry is created if missing and counts one more |
| OtpLockout.OtpService.ClearFailures | services/otp/internal/service/otp_service.go:212-214 | the second critical section after a right code: the entry is gone |
| OtpLockout.OtpService.Validate | services/otp/internal/service/otp_service.go:163-216 | one call alone: a code is accepted iff the pair is not locked, the store answers, the row exists, is the caller's, is valid and unexpired, and its opened secret is the code; each error exactly when its check is the first to fail; a call for a row of somebody else is never right and counts no failure |
| OtpLockoutRuns.LockedExactlyDuringStreak | services/otp/internal/service/otp_service.go:163-216 | after any interleaving a call is refused iff five or more failures were recorded since the last reset (a right code, or a check more than a window after the first failure since the reset before) and the first of them is no older than the window |
| OtpLockoutRuns.EntryCountsSinceReset | services/otp/internal/service/otp_service.go:163-216 | after any interleaving the entry of a key counts the wrong codes recorded after the last reset and dates from the first of them; without any there is no entry |
| OtpLockoutRuns.LockoutBound | services/otp/internal/service/otp_service.go:163-216 | with at most k calls of a key in flight, recorded failures plus calls in flight never exceed 4 + k |
| OtpLockoutRuns.SequentialCallsStopAtFive | services/otp/internal/service/otp_service.go:163-216 | calls one at a time never record more than five failures |
| OtpLockoutRuns.LockoutBoundIsTight | services/otp/internal/service/otp_service.go:163-216 | for every k >= 1 some run records exactly 4 + k failures |
| OtpLockoutRuns.WrongCodeBudget | services/otp/internal/service/otp_service.go:163-216 | with no right code, a run compares at most 4 + k wrong codes for every whole window between the first failure and the last check, plus 4 + k; k = 1 is the sequential bound of five |
| OtpLockoutRuns.PairsAreIsolated | services/otp/internal/service/otp_service.go:164-214 | counter, calls in flight and refusals of one (user, OTP) pair after any run are those of the calls for that pair alone |
| LdapDirectory.LdapService.UpsertUser | services/messaging/src/ldap/ldap.service.ts:24-39 | sets the four profile fields of one user, keeps the photo, inserts if missing |
| LdapDirectory.LdapService.RemoveUser | services/messaging/src/ldap/ldap.service.ts:41-44 | removes one user |
| LdapDirectory.LdapService.ClearDomain | services/messaging/src/ldap/ldap.service.ts:101-103 | removes exactly the users of one domain |
| LdapDirectory.LdapService.UpdatePhoto | services/messaging/src/ldap/ldap.service.ts:66-75 | sets the photo of a user only in the given domain |
| LdapDirectory.LdapConsumer.EachMessage | services/messaging/src/ldap/ldap.consumer.ts:22-53 | one message: empty, badly signed (X-Signature, else X-HMAC-Signature) or unreadable messages and store errors change nothing; unsigned messages are accepted; otherwise the event is applied |
| LdapConvergence.AfterReset | services/messaging/src/ldap/ldap.service.ts:24-44 | what the exactly-once directory says of a user: the profile of the last event that provisions or deletes the user, unless its domain is cleared later |
| LdapConvergence.EarlyEventIsAbsorbed | services/messaging/src/ldap/ldap.service.ts:24-44 | an event applied ahead of a log that contains it makes no difference at the end of that log |
| LdapConvergence.ConvergesIffSettled | services/messaging/src/ldap/ldap.service.ts:24-44 | handling a sequence of offsets gives the exactly-once directory on every log and from every directory iff no offset is missing and the last handlings of the offsets are in increasing order |
| LdapConvergence.RestLeadsToExactlyOnce | services/messaging/src/ldap/ldap.consumer.ts:22-53 | in every reachable state the events from the frontier (up to where everything has been handled in order) on lead to the exactly-once directory |
| LdapConvergence.Convergence | services/messaging/src/ldap/ldap.consumer.ts:22-53 | for any rewinds, store errors and photo uploads, the profiles end as the exactly-once fold on every log iff the offsets handled without error have settled: none below the furthest point missing, last handlings in order |
| LdapConvergence.ConvergenceUnderRedelivery | services/messaging/src/ldap/ldap.consumer.ts:22-53 | without store errors, whenever delivery is back at the furthest offset the profiles equal the exactly-once fold |
| LdapConvergence.EventsKeepPhotos | services/messaging/src/ldap/ldap.service.ts:24-44 | no event touches the photo of a user it leaves in the directory; a new user has none; only provisioning renews the sync time |
| LdapConvergence.PhotoSurvivesIff | services/messaging/src/ldap/ldap.service.ts:41-103 | a photo survives a run without another upload for its user iff no step handles a delete of the user or a clear of the domain the user has at that moment |
| LdapConvergence.UploadedPhotoIff | services/messaging/src/ldap/ldap.service.ts:41-103 | after an upload in the right domain and no other for the user, the photo is the uploaded one iff no step since deletes the user or clears the user's domain |
| LdapConvergence.StoreErrorLosesEvent | services/messaging/src/ldap/ldap.consumer.ts:50-52 | a run in which some passed offset was never handled without error ends in a different directory on some log |
| LdapConvergence.RedeliveryDropsPhoto | services/messaging/src/ldap/ldap.service.ts:41-44 | whenever a restart redelivers a delete of a user, a photo uploaded since is gone, whatever comes back |
| NoteStore.NoteRepo.FindByID | services/note/internal/repository/note_repo.go:36-50 | the row with the id, or none |
| NoteStore.NoteRepo.FindByTitleAndUser | services/note/internal/repository/note_repo.go:52-66 | the one row with the title and user, or none |
| NoteStore.NoteRepo.Upsert | services/note/internal/repository/note_repo.go:85-98 | on a new (title, user) inserts version 0 under a fresh id, otherwise replaces the content and raises the version; id and version are written back; uniqueness is kept |
| NoteStore.NoteRepo.Update | services/note/internal/repository/note_repo.go:100-113 | writes only if id, user and version match, then raises the version; otherwise a conflict; a title taken by another note of the user changes nothing |
| NoteStore.NoteRepo.Delete | services/note/internal/repository/note_repo.go:115-124 | removes the row iff it belongs to the user, and reports whether it did |
| NoteRuns.StepIsLater | services/note/internal/repository/note_repo.go:85-135 | every statement keeps (title, user) unique, only raises versions, changes a row only with its version, never changes owner or creation time, and never brings an id back |
| NoteRuns.NoLostUpdate | services/note/internal/service/note_service.go:105-129 | in every interleaving of clients, the guarded write hits iff the row has been the one that was read in every state since the read |
| NoteRuns.SuccessfulWrite | services/note/internal/service/note_service.go:113-123 | a hit replaces title and content of the row that was read and raises its version by one; every other outcome leaves the table alone |
| NoteRuns.OutcomeIff | services/note/internal/repository/note_repo.go:100-113 | in every interleaving the write reports a conflict iff the row did not stay as it was read; a refused title belongs to another note of the user; success leaves exactly the new title, content and next version, every other outcome the table as it was |
| NoteRuns.DeleteIs | services/note/internal/repository/note_repo.go:115-124 | a delete removes the row of its owner and nothing else; of anybody else, nothing |
| NoteRuns.ConflictHasACause | services/note/internal/repository/note_repo.go:106-109 | a reported conflict means that some step between read and write changed or deleted the row |
| NoteService.Service.EncryptNote | services/note/internal/service/note_service.go:163-175 | seals a non-empty content in place when there is a key |
| NoteService.Service.DecryptNote | services/note/internal/service/note_service.go:177-190 | opens the content in place; on failure the content becomes empty and the error is reported |
| NoteService.Service.Create | services/note/internal/service/note_service.go:85-103 | stores the sealed content by upsert and returns the note with the plain content it was asked to store; on any error the table is unchanged |
| NoteService.Service.Import | services/note/internal/service/note_service.go:146-161 | the table after all requests in order; imported counts the stored ones, skipped the store errors that mention "unique", errors the rest, and the three add up to the total |
| NoteService.Service.Update | services/note/internal/service/note_service.go:105-129 | alone, an update never conflicts and either replaces title and content of the caller's own note, raises its version and returns it with the plain content, or changes nothing and says why |
| NoteService.ImportRefinesPlaintext | services/note/internal/service/note_service.go:146-190 | what can be read of the table after an import is the plaintext last-writer-wins map updated with the stored requests, and uniqueness holds |
| NoteService.ImportKeepsSealed | services/note/internal/service/note_service.go:163-175 | with a key, an import leaves only sealed or empty contents in a table that had only such |
| NoteService.VersionsCountHits | services/note/internal/repository/note_repo.go:87-91 | each stored request raises the version of its document by one, from zero if new; other documents are untouched |
| NoteService.LastWriterWins | services/note/internal/service/note_service.go:146-161 | the last stored request for a title decides its readable content |
| PasswordKey.KeyIsUniqueIff | services/password/internal/service/dedup_service.go:33 | a (name, website, username) is the only one with its joined key iff no part contains "::", name and website do not end in a colon, and website and username do not start with one |
| PasswordKey.NamedKeyIsUniqueIff | services/password/internal/model/password.go:12-17 | among triples with a name, as requests must have, one is the only one with its key iff it meets that condition without the first character of its name |
| PasswordKey.CleanKeysAreInjective | services/password/internal/service/dedup_service.go:33 | among triples whose name and website contain no "::" and do not end in a colon, the key determines the triple |
| PasswordStore.PasswordRepo.FindByUserID | services/password/internal/repository/password_repo.go:26-33 | exactly the rows of the user, ascending by id |
| PasswordStore.PasswordRepo.FindByID | services/password/internal/repository/password_repo.go:35-49 | the row with the id, or none |
| PasswordStore.PasswordRepo.Delete | services/password/internal/repository/password_repo.go:129-138 | removes the row iff it belongs to the user |
| PasswordStore.PasswordRepo.Upsert | services/password/internal/repository/password_repo.go:78-113 | with nobody in between: replaces the row with the same user, name and website or inserts a fresh id, and keeps the unique constraint |
| PasswordUpserts.EntriesStayUnique | services/password/internal/repository/password_repo.go:51-138 | in every interleaving of upsert transactions, inserts, updates and deletes, (user, name, website) stays unique and a row a transaction has found stays its entry |
| PasswordUpserts.WriteIsUpsert | services/password/internal/repository/password_repo.go:78-113 | in every interleaving the write of a transaction is refused iff its select found no row and the entry has been taken since; otherwise it does at that instant what an upsert does in one step |
| PasswordDedup.GroupRows | services/password/internal/service/dedup_service.go:29-47 | the grouping loop yields the keys in first-occurrence order and for each key its ids in listing order, its count and the labels of its first row |
| PasswordDedup.CollectRepeated | services/password/internal/service/dedup_service.go:49-59 | the result holds the groups of more than one row in that order and the total surplus |
| PasswordDedup.GroupingIsCorrect | services/password/internal/service/dedup_service.go:29-59 | the groups partition the rows of the user, ids ascend, keys are distinct and in the order of their first rows, and the total is rows minus distinct keys |
| PasswordDedup.AnalysisIsCorrect | services/password/internal/service/dedup_service.go:23-60 | in terms of the table: every reported group is all rows of one owner and key, two or more, ascending, under the labels of the row of least id; every row that shares owner and key with another is reported |
| PasswordDedup.DedupService.AnalyzeDuplicates | services/password/internal/service/dedup_service.go:23-60 | the analysis of exactly the rows of the user, or a failure when the listing fails |
| PasswordDedup.DedupService.RemoveDuplicates | services/password/internal/service/dedup_service.go:62-95 | whatever statements fail, only rows that read like the greatest row of their group go (a password that cannot be opened reads as empty), what can be read under each (user, key) stays, and the returned number is exactly the number removed; if nothing fails, all redundant rows go |
| PasswordDedup.DedupService.PruneGroup | services/password/internal/service/dedup_service.go:69-93 | one group: its greatest id is kept, other groups are untouched, and without failures no row with its password is left beside it |
| PasswordDedup.SortDescendingSorts | services/password/internal/service/dedup_service.go:70-72 | sorting the ids of a group gives the descending list of the same ids |
| PasswordDedup.DedupKeepsInformation | services/password/internal/service/dedup_service.go:62-107 | a run, also a failing one, keeps everything that can be read under each (user, key) and the greatest id of every group, and every removed row has a surviving one of greater id that reads the same; when both can be opened they hold the same text |
| PasswordDedup.GivenPasswordsAreKept | services/password/internal/service/dedup_service.go:62-107 | for a table that holds given passwords, sealed when there is a key: a run, also a failing one, keeps every (user, key, given password), and a removed row has a surviving one of greater id under the same key that was given the same password |
| PasswordDedup.PrunedOnGiven | services/password/internal/service/dedup_service.go:62-107 | a complete run removes a row of the user iff the greatest row under its key is another one that was given the same password |
| PasswordDedup.StoredSecretsKeptIff | services/password/internal/service/dedup_service.go:80-107 | a complete run loses nothing that is stored, readable or not, iff in each group the rows that read as empty like its greatest row hold the same as that row |
| PasswordDedup.UnreadableCopyIsLost | services/password/internal/service/dedup_service.go:97-107 | of two different stored passwords under one key that cannot be opened, one is lost |
| PasswordDedup.SecondRunRemovesNothing | services/password/internal/service/dedup_service.go:62-95 | after a run without failures another run removes nothing |
| PasswordDedup.CleanUniqueRowsHaveNoGroups | services/password/migrations/003_add_unique_password.up.sql:1 | with unique (user, name, website) and clean names and websites the analysis reports no group |
| PasswordDedup.CollidingEntriesAreMerged | services/password/internal/service/dedup_service.go:33-36 | every ambiguous entry can lose, in a table that meets the unique constraint, against a different entry that shares its key and password, with a name if the entry has one and another named entry shares the key |
| DedupRuns.QuietRunLosesNothing | services/password/internal/service/dedup_service.go:62-95 | started from the analysis, no statement loses anything readable as long as other clients leave three things alone: the kept row from its read to the end of its group, the password of a copy from its read to its delete, and that the rows still to be compared are in the group of their kept row |
| DedupRuns.DeletedKeptRowLoses | services/password/internal/service/dedup_service.go:73-90 | a run from the analysis in which only the first condition is broken, by a delete of the kept row, and the entry is lost |
| DedupRuns.ChangedKeptRowLoses | services/password/internal/service/dedup_service.go:73-90 | the same by a new password in the kept row |
| DedupRuns.ChangedCopyLoses | services/password/internal/service/dedup_service.go:80-90 | a run in which only the second condition is broken, and the new password is lost |
| DedupRuns.RelabelledCopyLoses | services/password/internal/service/dedup_service.go:79-90 | a run in which only the third condition is broken, and the relabelled entry is lost, because the key is not checked again |
| DedupRuns.RunAloneIsRemoveDuplicates | services/password/internal/service/dedup_service.go:62-95 | with nobody else writing, the statements do what RemoveDuplicates promises: only redundant rows go, a bounded number of statements finishes, and if all are answered every redundant row is gone |
| ChatService.ChatService.CreateConversation | services/messaging/src/chat/chat.service.ts:21-55 | deduplicates the participants, returns an existing direct conversation, refuses fewer than two, otherwise appends |
| ChatService.ChatService.SendMessage | services/messaging/src/chat/chat.service.ts:96-134 | only participants of an existing conversation add a message, with a sender and a text that are not empty; it is read by its sender and sets the preview |
| ChatService.ChatService.MarkRead | services/messaging/src/chat/chat.service.ts:146-173 | adds the user to every unread message of others in the conversation and returns their distinct senders |
| ChatService.ChatService.GetUserConversations | services/messaging/src/chat/chat.service.ts:57-77 | exactly the conversations of the user, each once, with its unread count |
| ChatRuns.CreateIs | services/messaging/src/chat/chat.service.ts:28-44 | one creation: an existing direct conversation of the caller and the others is returned, fewer than two people are refused, otherwise one of this kind and name with each of them once is added |
| ChatRuns.UnreadCountAgreesWithHistory | services/messaging/src/chat/chat.service.ts:65-69 | after any run the unread count is the number of messages others sent since the user last marked the conversation read |
| ChatRuns.ReadReceipts | services/messaging/src/chat/chat.service.ts:110-118 | readBy starts with the sender, repeats nobody, and holds exactly the sender and those who marked the conversation read after the message was sent |
| ChatRuns.IsReadIff | services/messaging/src/chat/chat.service.ts:136-144 | isRead holds iff somebody other than the sender marked the conversation read after the message was sent |
| ChatRuns.MessagesAreThoseSent | services/messaging/src/chat/chat.service.ts:110-119 | after any run the messages are exactly those accepted, in order, with the sender, conversation, text and key they were sent with |
| ChatRuns.ReportedSenders | services/messaging/src/chat/chat.service.ts:150-172 | with nothing between its two statements, markRead reports once each sender of a message it marks, and nobody else |
| ChatRuns.QueryIsSetEquality | services/messaging/src/chat/chat.service.ts:31-35 | on lists without repeats the $all and $size conditions are equality of participant sets |
| ChatRuns.DirectConversationsAreCanonical | services/messaging/src/chat/chat.service.ts:28-44 | after any run of single operations there is at most one direct conversation per participant set, with distinct participants, at least two |
| ChatRuns.CreateTwiceFindsFirst | services/messaging/src/chat/chat.service.ts:30-37 | asking again for the same people, by any of them and in any order, returns the same conversation and changes nothing |
| ChatRuns.PreviewIsLastSent | services/messaging/src/chat/chat.service.ts:121-123 | the preview of a conversation is the last message sent to it |
| ChatRequests.LookUpThenSaveIsCreate | services/messaging/src/chat/chat.service.ts:28-44 | a lookup directly followed by its save is the creation of one request alone |
| ChatRequests.DuplicatesAreOvertakenSaves | services/messaging/src/chat/chat.service.ts:28-44 | in every interleaving the direct conversations between the same people number one, if there are any, plus one per save overtaken by another for the same people since its lookup |
| ChatRequests.CanonicalIff | services/messaging/src/chat/chat.service.ts:28-44 | in every interleaving direct conversations stay canonical iff no save is overtaken |
| ChatRequests.OneAtATimeIsNeverOvertaken | services/messaging/src/chat/chat.service.ts:28-44 | when each save directly follows its own lookup, none is overtaken |
| ChatRequests.CrossingRequestsDuplicate | services/messaging/src/chat/chat.service.ts:30-44 | two requests whose lookups both precede either save leave two conversations for one pair |
| ChatRequests.AllSendersReportedIff | services/messaging/src/chat/chat.service.ts:150-172 | with any operations between its two statements, earlier messages never matter: markRead reports every sender of a message it marks iff each unread message that arrived in between is from a sender reported anyway |
| ChatRequests.LateSenderIsMissed | services/messaging/src/chat/chat.service.ts:150-172 | any message sent between the two statements by somebody not reported is among those marked |
| KafkaConsumer.Consumer.VerifySignature | pkg/kafka/consumer.go:54-66 | accepts iff the first X-Signature header is non-empty and verifies |
| KafkaConsumer.SignedIff | pkg/kafka/consumer.go:54-66 | a message counts as signed iff the first header named X-Signature is non-empty and verifies |
| KafkaConsumer.Consumer.Run | pkg/kafka/consumer.go:34-52 | the loop from a start to its end: a bad signature or a failed handler goes on without a commit, a failed fetch or commit stops it, and a commit may reach the broker although it failed here |
| KafkaConsumer.CommittedIs | pkg/kafka/consumer.go:34-52 | after any session the committed offset is the one after the last message whose commit got through, and unchanged when there is none |
| KafkaConsumer.PassedAndSucceeded | pkg/kafka/consumer.go:34-52 | the position passes exactly the messages whose turn fetches, and a message succeeds iff its turn fetches, its signature verifies and its handler returns no error |
| KafkaConsumer.CleanSession | pkg/kafka/consumer.go:34-52 | a session in which nothing fails commits everything it fetches |
| KafkaConsumer.ConsumerIsSafe | pkg/kafka/consumer.go:34-66 | over any sessions: committed never passes the position, every offset below it was fetched, the last committed message was handled without error, and the handler was given exactly the fetched messages whose signature verifies, in order |
| KafkaConsumer.RestartRedeliversFromCommitted | pkg/kafka/consumer.go:34-52 | the deliveries of a restarted session are exactly the contiguous offsets from the committed one on, and committed never goes back |
| KafkaConsumer.LostIff | pkg/kafka/consumer.go:44-50 | in any session a message not handled before is lost iff its own turn fails and a later turn commits |
| KafkaConsumer.LostForGood | pkg/kafka/consumer.go:34-52 | after a message is lost, all later sessions deliver only offsets above it |
| SocketIndex.GatewayService.RegisterConnection | services/messaging/src/gateway/gateway.service.ts:19-36 | adds the socket to the set of its user and to the socket map; a rejected token changes nothing; set objects are not shared between users |
| SocketIndex.GatewayService.RemoveConnection | services/messaging/src/gateway/gateway.service.ts:38-50 | removes the socket from both maps and drops a set that becomes empty |
| SocketIndex.GatewayService.GetUserSockets | services/messaging/src/gateway/gateway.service.ts:52-55 | the set kept for the user, or none |
| SocketIndex.GatewayService.GetUserId | services/messaging/src/gateway/gateway.service.ts:57-59 | the user of a socket, or none |
| SocketIndex.GatewayService.GetConnectionCount | services/messaging/src/gateway/gateway.service.ts:61-63 | the number of registered sockets |
| SocketIndex.RegisterRegisters | services/messaging/src/gateway/gateway.service.ts:19-36 | a registration puts the socket in the set of its user, makes it that client's and leaves every other socket and set alone |
| SocketIndex.LastOperationDecides | services/messaging/src/gateway/gateway.service.ts:19-50 | after any run a socket belongs to a client iff the last operation about it registered it for that client |
| SocketIndex.SocketsAreLastRegistered | services/messaging/src/gateway/gateway.service.ts:14-55 | after any run without a socket id changing hands, the sockets of a user are those whose last operation registered them for that user |
| SocketIndex.RegisterAgreesIff | services/messaging/src/gateway/gateway.service.ts:19-36 | a registration keeps the two maps in agreement iff the socket is new or already belongs to the same user |
| SocketIndex.RemoveUndoesRegister | services/messaging/src/gateway/gateway.service.ts:19-50 | removing a freshly registered socket restores both maps |
| SocketIndex.DoubleIndex | services/messaging/src/gateway/gateway.service.ts:14-63 | after any run without a socket id changing hands, the sockets of a user are exactly those whose user it is, no set is empty, and the set sizes add up to the connection count |

## Left out

- HTTP handlers, dependency wiring, configuration, metrics, discovery, CORS and security headers: plumbing without a property of its own.
- AES-GCM, base64, HMAC, JWT, JSON, QR codes: library code; it enters as function parameters, and the only assumption used is that opening gives back what was sealed and that a sealed text is not empty.
- Published events, logging and socket emits: they never feed back into the state.
- Several partitions of the LDAP topic: the log of `LdapConvergence` is one ordered partition.
- Deleting photos: not modelled. Photos and sync times are no part of the convergence claim.
- ILIKE folds one character at a time in the model; folds that change the length of a text are not modelled.
- ORDER BY created_at in the note queries and updatedAt in the conversation list: the model gives sets or the order of the collection.
- Paging of messages, the password service's CRUD and the OTP service's CRUD: only easy members.
- `sort.Slice`: a specification-level insertion sort stands for the library routine; sorting in place is not captured.
- The password row id that Upsert and Insert write back into the passed struct: returned as a value.
- A password upsert commits in the step that writes; waiting for another transaction's uncommitted insert of the same entry is not modelled apart. The field length limits of requests are not modelled.
- Several partitions and rebalances of a Go consumer: `KafkaConsumer` is one partition with one owner at a time.
- A database statement that takes effect although its answer is lost: a failing statement changes nothing in the model.
- ChatService.ChatService.SendMessage: message and preview are saved in one step; with two overlapping sends the preview may show the earlier one, the unread counts do not depend on it.
- Machine integer overflow and clock readings that go back: readings are nondecreasing, integers unbounded.
- Deleting a note ignores its version: `Delete` is a step of `NoteRuns`, but nothing is claimed about what it overwrites.
