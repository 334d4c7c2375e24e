# Webmail backend, verified

A Dafny model of the parts of the mail backend whose behaviour is decided by data rather than by the network: thread
reconstruction, text transformers (LIKE escaping, link rewriting, RFC 2047 words), calendar arithmetic, the session
store, the outbox worker, TOTP with lockout, the per-user database pools, and the assistant's streaming client, tools
and turn loop.

SQLite tables are maps or sequences, and the statements used on them have their plain meaning. Keyed hashes, the TOTP
code function, JSON reading, padded base64, lossy UTF-8 decoding, Unicode lower-casing, the send routine, the mailbox
and the language model are function parameters that may answer anything. Clocks are parameters that never go back;
fresh ids are assumed unused.

Objects that the backend mutates are classes (`OutboxTable`, `Sessions`, `MfaTables`, `DbPoolManager`,
`StreamAccumulator`, `RefTable`, `ToolContext`). Each of their methods is proved equal to a function on values, and the
theorems are about those functions over whole runs.

Beside them stand laws that say what the functions mean without going through them, with the constants and texts of
the program written out: which codes are accepted (`TotpCodes`), when sessions expire (`SessionExpiry`), what headers
say (`HeaderText`), what a stream says (`StreamText`), what the tools ask and tell (`ToolResults`), and a whole turn
(`TurnTrace`).

## Files

| file | content |
|---|---|
| `Wrappers`, `Words`, `Numerals`, `Bytes`, `Base64Url` | results, white space, decimal numerals, UTF-8, base64url and hexadecimal |
| `Like` | the LIKE matcher and both escapings |
| `Threads`, `ThreadComponents` | the transitive walk as a least fixpoint, and when threads are connected components |
| `Calendar`, `Timestamps`, `IsoParser` | civil dates, epochs, timestamps ordered as text, and reading them from header bytes |
| `Outbox`, `OutboxProtocol`, `OutboxEarlyRetry` | the outbox table, the worker as a step system with crashes and lost writes, and a run with an early retry |
| `SessionStore`, `SessionRuns`, `SessionExpiry` | the four session maps, their refinement of one plain table, and when lookups are answered |
| `Totp`, `TotpCodes` | replay prevention, pruning and lockout, and which codes are accepted |
| `PoolManager` | open pools as a recency list |
| `LinkProxy`, `LinkTheorems`, `LinkVerification` | link rewriting, rescanning, and verification |
| `EncodedWords`, `Utf8Text`, `HeaderText` | RFC 2047 header words, UTF-8 as code points, and what headers made of words say |
| `ModelStream`, `StreamText` | network chunks to one model reply, and what a stream says line by line |
| `Refs`, `Fence`, `Actions`, `Tools`, `Provenance`, `ToolResults` | message refs, fenced mail, proposals, the tools, where everything cited comes from, and what each tool asks and tells |
| `Turn`, `TurnTheorems`, `TurnTrace` | the bounded turn loop, what every turn keeps, and a whole turn spelled out |

## Where the code and its promises part

Each of these has a witness and an exact condition.

- The thread query escapes `%` and `_` but not the backslash that its ESCAPE clause names: it is exact if and only if
  the id holds no backslash (`WildcardEscapingIsExactIff`). The contact search escapes all three and is exact always.
- The thread query compares references with LIKE, which folds ASCII case, and ids with `=`, which does not. On headers
  built by the IMAP client its queries are exact if and only if no two ids clash in case (`QueryIsMembership`); with a
  clash, threads need not be mutual (`CaseClashBreaksThreads`). On any table they are mutual if and only if each
  single find leads back (`MutualIffFindsLeadBack`).
- Date headers and link tags are sliced by bytes. Both panic if a slice cuts a character before anything fails to
  parse, and never on ASCII (`DatePanicsIff`, `AccentedDatePanics`; `VerificationPanicsIff`, `AccentedTagPanics`).
- The hexadecimal reader accepts a plus sign and capitals: a tag text is the only one for its bytes if and only if it
  is lower-case hexadecimal (`PrintedIffLowerHex`, `OtherSpellings`).
- Retry deadlines are printed in whole seconds, so in real time a retry may start up to one second before its backoff
  is over; the full backoff is sure exactly when the attempt ended on a whole second (`FullBackoffIffWholeSecond`,
  `EarlyRetryIsReachable`). In whole-second clock readings the spacing always holds.
- The idle sweep reads the clock once per entry. It keeps the most recent pools whatever the readings exactly when no
  older pool is still fresh at its start while a newer one is idle at its end (`SweepKeepsRecentIff`,
  `CrossingSweepBreaksOrder`).
- Links are proxied whatever the letter case of their scheme and with white space before it, but a link comes back
  only if it starts with lower-case `http://` or `https://` (`LinkComesBackIff`, `CapitalSchemeIsLost`,
  `SpacedLinkIsLost`).

## Model

| member | source | states |
|---|---|---|
| Like.EscapeLikeIsOnePass | backend/src/db/contacts.rs:51-55 | three successive replacements equal one escape per character |
| Like.SearchIsExact | backend/src/db/contacts.rs:205-228 | for every term and text, the search pattern matches exactly the texts that contain the term up to ASCII case |
| Like.EscapeWildcardsIsOnePass | backend/src/db/messages.rs:645-646 | the thread query's two replacements equal one escape per character |
| Like.WildcardEscapingIsExactIff | backend/src/db/messages.rs:644-653 | the thread query's pattern is exact for all texts if and only if the id holds no backslash |
| Threads.GetThreadMessages | backend/src/db/messages.rs:640-671 | one query returns exactly the matching rows, each once, oldest first |
| Threads.InsertKeepsOrder | backend/src/db/messages.rs:747-748 | the step of the stable sort by date keeps a sorted list sorted |
| Threads.SortIsStable | backend/src/db/messages.rs:747-748 | the sort keeps the order of messages of one date |
| Threads.AddFound | backend/src/db/messages.rs:720-741 | found messages are appended and all their ids become known, nothing else |
| Threads.QueryRound | backend/src/db/messages.rs:703-742 | one round queries every id not yet queried, in any order, keeps the known ids within the least closure and the explored ids closed |
| Threads.GetFullThread | backend/src/db/messages.rs:681-751 | terminates on every table; returns the messages matched by the least id set that contains the seed and is closed under their ids, each (folder, uid) once, sorted by date |
| Threads.WalksAgree | backend/src/db/messages.rs:681-751 | two walks over the same ids return the same messages, whatever order the hash sets are iterated in |
| ThreadComponents.OccursIffListed | backend/src/imap/client.rs:546-558 | in space-joined `<id>` tokens an id occurs as text exactly if it is one of the tokens |
| ThreadComponents.QueryFinds | backend/src/db/messages.rs:640-658 | on headers so built the query finds exactly the messages that mention the id or reference a variant of it in ASCII case |
| ThreadComponents.QueryIsMembership | backend/src/db/messages.rs:640-658 | on headers so built, all queries for known ids return exactly the messages that mention them if and only if no message references a case variant of a known id that it does not mention |
| ThreadComponents.ThreadIsReachable | backend/src/db/messages.rs:681-751 | on every table a thread is exactly what its message reaches by one query after another |
| ThreadComponents.MutualIffFindsLeadBack | backend/src/db/messages.rs:681-751 | on every table reaching is mutual if and only if each single find leads back |
| ThreadComponents.ThreadIsComponent | backend/src/db/messages.rs:681-751 | where queries are exact, finding is sharing an id, so a thread is a connected component, and finds lead back |
| ThreadComponents.ThreadsPartition | backend/src/db/messages.rs:681-751 | where finds lead back, asking from any member gives the same thread, from any other message a disjoint one |
| ThreadComponents.CaseClashBreaksThreads | backend/src/db/messages.rs:647-655 | a table with well-formed headers and two ids that differ in letter case on which one thread holds a message whose own thread does not hold it back |
| ThreadComponents.ThreadIdRefinesThread | backend/src/db/messages.rs:69-84 | where queries are exact, messages filed under the same stored thread id are in one thread |
| ThreadComponents.ThreadIdPreference | backend/src/db/messages.rs:69-84 | a message is filed under the first of its references, however they are spaced, else under the id it replies to, else under its own |
| Calendar.DatetimeToEpoch | backend/src/db/messages.rs:188-217 | the counting loops equal the closed day count, before and after 1970, for every field value the header parser can produce |
| Calendar.EpochIsIncreasing | backend/src/db/messages.rs:188-217 | on valid UTC dates an earlier date and time has a smaller epoch |
| Calendar.EpochOrder | backend/src/db/messages.rs:188-217 | order of epochs is exactly order of civil time, so epochs are injective |
| Calendar.NextSecondIsOneLater | backend/src/db/messages.rs:188-221 | the next civil second is one epoch second later across minutes, days, months, leap years and centuries |
| Calendar.CivilOf | backend/src/db/messages.rs:188-217 | every epoch second of the years 0000 to 9999 is the epoch of a valid civil time |
| Calendar.FixedPoints | backend/src/db/messages.rs:188-221 | counting starts at the first second of 1970; 2000 was a leap year and 1900 was not |
| Calendar.FieldsAreCountedOn | backend/src/db/messages.rs:188-217 | for every field value: months are clamped to the year, and days, hours, minutes and seconds, however large, are counted on from the first of the month |
| Calendar.ZoneClockShowsFields | backend/src/db/messages.rs:208-216 | at the instant a header names, the clocks of its zone show the date and time it states |
| Timestamps.TextOrderIsTimeOrder | backend/src/realtime/outbox_worker.rs:29-31 | for years 0000 to 9999 text order of timestamps is exactly epoch order |
| Timestamps.StampOrder | backend/src/db/outbox.rs:138-147 | the same for the timestamps of any two instants |
| IsoParser.ParseIso8601ToEpoch | backend/src/db/messages.rs:224-249 | the epoch of every printed timestamp; fields at fixed bytes, cut to their widths; never panics on ASCII |
| IsoParser.DatePanicsIff | backend/src/db/messages.rs:224-235 | parsing panics exactly if, in the trimmed text of at least 19 bytes, a field is cut inside a character and every field before it is a number |
| IsoParser.AccentedDatePanics | backend/src/db/messages.rs:230 | every text of at least 19 bytes whose fifth byte lies inside a character panics |
| IsoParser.ParseIsoRoundTrip | backend/src/db/messages.rs:224-249 | reading a printed timestamp returns its epoch |
| IsoParser.FieldsAtFixedBytes | backend/src/db/messages.rs:224-249 | for every ASCII text of at least 19 bytes when trimmed: the six fields stand at fixed bytes, only the year may be negative, each is cut to its width, and one that is no number makes the text malformed |
| IsoParser.PaddedTimestampParses | backend/src/db/messages.rs:224-249 | so it does with white space around it |
| Outbox.OutboxTable.Enqueue | backend/src/db/outbox.rs:79-108 | adds one scheduled entry with no attempts |
| Outbox.OutboxTable.ListDue | backend/src/db/outbox.rs:138-152 | exactly the scheduled entries whose deadline text is not after now, each once, by deadline |
| Outbox.OutboxTable.NextSendAfter | backend/src/db/outbox.rs:154-161 | the least deadline text of a scheduled entry, if there is one |
| Outbox.OutboxTable.MarkSending | backend/src/db/outbox.rs:163-169 | sets the state of the entry, whatever it was |
| Outbox.OutboxTable.MarkRetry | backend/src/db/outbox.rs:171-180 | reschedules and counts one more attempt |
| Outbox.OutboxTable.MarkFailed | backend/src/db/outbox.rs:182-192 | records the failure |
| Outbox.OutboxTable.Delete | backend/src/db/outbox.rs:194-201 | removes the entry and says whether there was one |
| Outbox.OutboxTable.Requeue | backend/src/db/outbox.rs:203-212 | only a failed entry is scheduled anew, with its attempts forgotten |
| Outbox.DueIffDeadlineReached | backend/src/db/outbox.rs:138-147 | the due query selects an entry exactly if it is scheduled and its deadline has come |
| Outbox.EarliestTextIsEarliestDeadline | backend/src/db/outbox.rs:154-161 | the least deadline text is the earliest deadline, the first moment anything is due |
| OutboxProtocol.StepKeepsInv | backend/src/realtime/outbox_worker.rs:154-302 | every step of worker, routes, crash or lost write keeps table, snapshot and attempt history in agreement, and lets only transient refusals be retried |
| OutboxProtocol.FinishedSendDecidesRow | backend/src/realtime/outbox_worker.rs:257-301 | a finished send, written back, leaves no row exactly if it was delivered; after a refusal the row is scheduled a backoff later exactly if the refusal is retryable and fewer than four failures came before, and failed with the reason otherwise |
| OutboxProtocol.EnsuredWorkerRuns | backend/src/realtime/outbox_worker.rs:101-138 | after ensuring a worker exactly one task runs, and a running one is left alone |
| OutboxProtocol.SendLeavesOneTrial | backend/src/realtime/outbox_worker.rs:256-302 | a send adds exactly one trial to the last round of its entry, with its start, its end and whether it was accepted, transiently or permanently refused |
| OutboxProtocol.InFlightCannotBeCancelled | backend/src/routes/outbox.rs:141-161 | while the send of an entry is under way, the check of the cancel route refuses it |
| OutboxProtocol.BackoffDoubles | backend/src/realtime/outbox_worker.rs:34-37 | the delay starts at 30 seconds and doubles up to half an hour |
| OutboxProtocol.AtMostOneWorker | backend/src/realtime/outbox_worker.rs:101-138 | over every run a user has at most one worker task |
| OutboxProtocol.SentAtMostOnce | backend/src/realtime/outbox_worker.rs:216-302 | over every run with crashes, respawns, lost writes, cancels and requeues, at most one attempt of an entry is not a known failure, attempts cut off by a crash included: no entry is sent twice |
| OutboxProtocol.AttemptsAreBoundedAndSpaced | backend/src/realtime/outbox_worker.rs:34-37 | each enqueue or requeue leads to at most five attempts, each after a transient refusal and a full backoff later than it, in whole-second readings |
| OutboxProtocol.PermanentRefusalIsLast | backend/src/realtime/outbox_worker.rs:272-301 | over every run no attempt of a round follows a permanent refusal |
| OutboxProtocol.FiveAttemptsSpan450Seconds | backend/src/realtime/outbox_worker.rs:34-37 | five attempts of one round span at least 450 seconds of readings |
| OutboxProtocol.FullBackoffIffWholeSecond | backend/src/realtime/outbox_worker.rs:271-278 | in real time the full backoff is sure exactly when the failed attempt ended on a whole second |
| OutboxEarlyRetry.EarlyRetryIsReachable | backend/src/realtime/outbox_worker.rs:271-278 | whenever a first attempt fails off the whole second, some run of the worker starts its retry before the backoff is over |
| OutboxProtocol.BackoffFallsShortByLessThanASecond | backend/src/realtime/outbox_worker.rs:271-278 | and it never falls short by a second or more |
| SessionStore.Sessions.CreateBrowser | backend/src/auth/session.rs:101-105 | adds an empty browser |
| SessionStore.Sessions.AddAccountToBrowser | backend/src/auth/session.rs:107-148 | updates all four maps for the new account |
| SessionStore.Sessions.Get | backend/src/auth/session.rs:259-273 | answers exactly if the token is stored and its last access no further back than its own timeout or the general one; refreshes it then, and drops it with its account otherwise |
| SessionStore.Sessions.GetAccountSession | backend/src/auth/session.rs:170-189 | answers only for an account listed under the browser with that token; `GetAccountIsAnsweredIffRecent` says when over whole runs |
| SessionStore.Sessions.RemoveAccount | backend/src/auth/session.rs:191-213 | removes exactly the account, its session and its place in the list of its browser, by way of the reverse index |
| SessionStore.Sessions.RemoveBrowser | backend/src/auth/session.rs:215-229 | removes a browser, the accounts it lists and their sessions, and no other account |
| SessionStore.Sessions.EvictAccount | backend/src/auth/session.rs:282-293 | removes an account from every browser and drops the browsers left empty |
| SessionStore.Sessions.PurgeExpired | backend/src/auth/session.rs:295-312 | keeps exactly the sessions accessed within their timeout, in whatever order the others are evicted, and drops browsers left empty |
| SessionStore.Sessions.CheckConsistency | backend/src/auth/session.rs:318-381 | finds nothing exactly when the four maps agree |
| SessionRuns.ApplyKeepsInv | backend/src/auth/session.rs:107-312 | every operation keeps tokens and accounts in bijection and the reverse index exact |
| SessionRuns.ReachableIsConsistent | backend/src/auth/session.rs:318-381 | every reachable store passes its own consistency check |
| SessionRuns.ReverseIndexIsExact | backend/src/auth/session.rs:107-148 | the reverse index names a browser exactly when the account occurs once there and in no other browser |
| SessionRuns.ReverseIndexMatchesScan | backend/src/auth/session.rs:191-213 | removal by reverse index and by full scan remove the same account entries |
| SessionRuns.StoreRefinesTable | backend/src/auth/session.rs:107-312 | the four maps behave as one table of live sessions |
| SessionRuns.PurgesAreUnobservable | backend/src/auth/session.rs:295-312 | runs that differ only in where they purge give the same results of `get` and `get_account_session` |
| SessionExpiry.GetIsAnsweredIffRecent | backend/src/auth/session.rs:259-273 | over every run a lookup is answered exactly if the token was given out, neither its account nor its browser was removed since, and its last access, read off the operations, is no further back than the timeout |
| SessionExpiry.GetAccountIsAnsweredIffRecent | backend/src/auth/session.rs:170-189 | the same for lookups by browser and account, which must be those the token was given to |
| Totp.MfaTables.VerifyAndRecord | backend/src/mfa/totp.rs:50-98 | the loop over three steps accepts, refuses a replay or counts a failure; success resets the lockout row, a replay leaves it alone; `CodesAreAnswered` says which it is |
| Totp.MfaTables.IncrementLockout | backend/src/db/mfa.rs:114-140 | counts one failure, notes its time, and locks for 900 seconds from the fifth on |
| Totp.MfaTables.CheckLockout | backend/src/db/mfa.rs:100-110 | locked exactly before the stored time; `LockedOutIff` says when that is |
| TotpCodes.CodesAreAnswered | backend/src/mfa/totp.rs:50-98 | over every run from empty tables a code is wrong exactly if it is the code of no 30-second step within one of the current one; else the earliest such step is accepted if the run has not accepted it before, and a replay if it has |
| Totp.LockedOutIff | backend/src/db/mfa.rs:100-150 | over every run: locked out exactly if at least five failures followed the last success and the last of them is under 900 seconds old |
| Totp.PrunedRefinesUnpruned | backend/src/mfa/totp.rs:77-78 | a run with pruning gives the same verdicts as one that never forgets a step |
| Totp.NoStepAcceptedTwice | backend/src/mfa/totp.rs:80-94 | no time step is accepted twice in any run on a clock that never goes back |
| Totp.CounterIsFailuresSinceSuccess | backend/src/db/mfa.rs:114-150 | the stored counter is the number of wrong codes and unconfirmed passwords since the last success, replays not counted |
| Totp.LockoutBoundsFailures | backend/src/mfa/totp.rs:50-108 | with every call gated by the lockout check, N failures of either kind without success over T seconds satisfy N <= 5 + T / 900 |
| Totp.ReachableTables | backend/src/db/mfa.rs:68-150 | what the two results above assume of the tables holds of empty ones and after every run |
| PoolManager.DbPoolManager.LeastRecent | backend/src/db/pool.rs:81-91 | the eviction victim is a pool least recently used |
| PoolManager.DbPoolManager.GetPool | backend/src/db/pool.rs:67-104 | a hit touches the pool; a miss below the limit evicts nothing, at the limit exactly one pool least recently used |
| PoolManager.DbPoolManager.EvictIdle | backend/src/db/pool.rs:107-111 | closes exactly the pools idle at the moment each is looked at; `SweepKeepsRecentIff` says what that keeps |
| PoolManager.SweepKeepsRecentIff | backend/src/db/pool.rs:107-111 | the exact condition under which a sweep keeps the most recent pools whatever its clock readings |
| PoolManager.OpenPoolsAreMostRecent | backend/src/db/pool.rs:67-111 | over every run in which no sweep crosses, the open pools are exactly the n most recently used users for some n up to max(1, `max_users`) |
| PoolManager.PoolsFillUp | backend/src/db/pool.rs:67-104 | while every pool opens and nothing is swept, the open pools are those of the most recent users, as many as fit: no more is evicted than has to be |
| PoolManager.CrossingSweepBreaksOrder | backend/src/db/pool.rs:107-111 | a run with a crossing sweep after which the open pools are the n most recently used users for no n |
| Base64Url.DecodeEncode | backend/src/link_proxy.rs:87 | decoding undoes encoding (section 5 of RFC 4648) |
| Base64Url.EncodeDecode | backend/src/link_proxy.rs:105-107 | only the encoding of given bytes decodes to them |
| Base64Url.TestVectors | backend/src/link_proxy.rs:87 | three test vectors of section 10 of RFC 4648 without padding, and one with `-` and `_` |
| Base64Url.DecodeEncodeHex | backend/src/link_proxy.rs:196-211 | reading a printed tag returns it (section 8 of RFC 4648) |
| Base64Url.EncodeDecodeHex | backend/src/link_proxy.rs:204-211 | among lower-case texts only the printed tag reads as given bytes |
| Base64Url.HexDigitsInOrder | backend/src/link_proxy.rs:196-202 | the sixteen digits print as `0` to `9` and `a` to `f` |
| Base64Url.PrintedIffLowerHex | backend/src/link_proxy.rs:204-211 | a text that reads as bytes is their printed form if and only if it is lower-case hexadecimal throughout |
| Base64Url.OtherSpellings | backend/src/link_proxy.rs:204-211 | `0f`, `+f` and `0F` all read as the byte 15 |
| Base64Url.PanicsIff | backend/src/link_proxy.rs:204-211 | reading a text of even length panics exactly if a pair is cut inside a character and every pair before it is read |
| LinkProxy.FindHref | backend/src/link_proxy.rs:154-187 | the first quoted `href=` of any letter case that is closed |
| LinkProxy.FoundInRange | backend/src/link_proxy.rs:154-187 | what is found opens an attribute and nothing before it does |
| LinkProxy.RewriteHtmlLinks | backend/src/link_proxy.rs:56-83 | the loop equals one rewrite per attribute, with links that expire 2592000 seconds after the call |
| LinkProxy.ConstantEq | backend/src/link_proxy.rs:214-219 | the accumulated difference is zero exactly for equal byte strings |
| LinkProxy.Verify | backend/src/link_proxy.rs:92-122 | the checks in order, with the error of the first that fails; answers with a url exactly if the parameters are its encoding, an expiry not past and a spelling of its tag, and it is a web address |
| LinkTheorems.RewritingChangesValuesOnly | backend/src/link_proxy.rs:56-83 | a mail is its text and attributes up to the letter case of `href`; rewriting replaces values only |
| LinkTheorems.RescanFindsTheSame | backend/src/link_proxy.rs:56-83 | with a quote-free base, scanning the output finds the same attributes in the same order and the same text around them |
| LinkTheorems.OpensIff | backend/src/link_proxy.rs:158-183 | an attribute opens exactly where `href=` in any letter case meets a double or single quote that comes again later |
| LinkVerification.LinkRoundTrip | backend/src/link_proxy.rs:85-122 | until it expires a rewritten web link leads the same user back to the url it replaced |
| LinkVerification.LinkComesBackIff | backend/src/link_proxy.rs:92-122 | what following a proxied link gives: refused as expired after its expiry, else its url if it starts with lower-case `http://` or `https://`, else refused as no web link |
| LinkVerification.CapitalSchemeIsLost | backend/src/link_proxy.rs:134-144 | links with the scheme in capitals are proxied, and refused as no web links while unexpired |
| LinkVerification.SpacedLinkIsLost | backend/src/link_proxy.rs:134-144 | so are links with a space before them |
| LinkVerification.RewritingKeepsUtf8 | backend/src/link_proxy.rs:56-83 | every slice is at a character boundary: a well-formed mail is rewritten to a well-formed one |
| LinkVerification.RewrittenLinksVerify | backend/src/link_proxy.rs:56-122 | in a rewritten mail the k-th link leads to the k-th url of the original |
| LinkVerification.LinksLastThirtyDays | backend/src/link_proxy.rs:26-83 | in a mail rewritten at a given time, the k-th web link leads to the k-th url of the original for 30 days, and is refused as expired after that |
| LinkVerification.ProxiedLinkSpelledOut | backend/src/link_proxy.rs:69-90 | a proxied link is the base, the path of the redirect and the query of encoded url, expiry and tag |
| LinkVerification.SignedBytes | backend/src/link_proxy.rs:124-132 | the tag covers url, user and the expiry as eight bytes, highest first, a newline after each text |
| LinkVerification.MacInputIsInjective | backend/src/link_proxy.rs:124-132 | the signed bytes determine url, user and expiry, users being free of newlines |
| LinkVerification.OtherUserNeedsCollision | backend/src/link_proxy.rs:92-132 | following a link as another user checks a different message, and succeeds exactly if the link is a live web link and the tags of those two messages agree |
| LinkVerification.VerifiedWasSigned | backend/src/link_proxy.rs:92-122 | parameters that verify hold the one encoding of the url and a spelling of its tag, and are what signing produces if and only if the tag is lower-case hexadecimal |
| LinkVerification.VerificationPanicsIff | backend/src/link_proxy.rs:92-122 | verification panics exactly if it gets as far as reading the tag and a pair of the tag is cut inside a character before any pair fails |
| LinkVerification.AsciiTagNeverPanics | backend/src/link_proxy.rs:92-122 | with an ASCII tag it always answers |
| LinkVerification.AccentedTagPanics | backend/src/link_proxy.rs:204-211 | one well-formed tag text on which it panics for every secret and user |
| EncodedWords.DecodeQuotedPrintableHeader | backend/src/imap/parse.rs:107-126 | the byte loop equals recursive Q decoding, and fails on a bad or cut escape |
| EncodedWords.DecodeRfc2047 | backend/src/imap/parse.rs:43-105 | terminates with every slice in range; equals decoding the first word and going on behind it; `WordSays` and `WordsReadInOrder` say what that means |
| EncodedWords.WordParts | backend/src/imap/parse.rs:56-72 | the parts of a parsed word, put back together, are the text they came from |
| EncodedWords.DecodesWordByWord | backend/src/imap/parse.rs:43-105 | each clean word is replaced on its own and decoding goes on behind it; `WordSays` says by what |
| EncodedWords.LatinWordsDecodeExactly | backend/src/imap/parse.rs:43-136 | Q-encoded ISO-8859-1 words separated by white space, every byte written `=XX`, decode to exactly their bytes run together (section 6.2 of RFC 2047) |
| Utf8Text.HeadIsScalar | backend/src/imap/parse.rs:130-134 | a well-formed head is the shortest encoding of a scalar value (section 3 of RFC 3629) |
| Utf8Text.ScalarIsRead | backend/src/imap/parse.rs:130-134 | every scalar value's encoding is read back as one character |
| Utf8Text.SpaceIsWhiteSpace | backend/src/imap/parse.rs:88-91 | the bytes trimmed as white space are those of Unicode's white-space characters |
| HeaderText.QDecodesIff | backend/src/imap/parse.rs:107-126 | Q text decodes exactly to the bytes it spells, `=XX` for any byte, `_` for a space and other characters for themselves, and to nothing if it spells none |
| HeaderText.LatinIsOneCharPerByte | backend/src/imap/parse.rs:128-136 | the ISO-8859-1 reading is well-formed text with one character per byte, numbered by it |
| HeaderText.WordSays | backend/src/imap/parse.rs:43-136 | a word in either encoding, in either letter case, turns into what its bytes say in its character set: UTF-8 by two names, ISO-8859-1 by three, for any other UTF-8 if valid and one character per byte if not; a word that stands for no bytes is kept; the text before it is kept |
| HeaderText.StrayMarkerIsKept | backend/src/imap/parse.rs:54-100 | a marker that opens no word is kept |
| HeaderText.GapRule | backend/src/imap/parse.rs:88-91 | white space behind a word is dropped in front of another marker and kept in front of anything else |
| HeaderText.Utf8WordSays | backend/src/imap/parse.rs:43-136 | a UTF-8 word between plain text decodes to its bytes read as UTF-8, to the bytes themselves if they are valid |
| HeaderText.AccentComesThrough | backend/src/imap/parse.rs:128-136 | the header `=?UTF-8?Q?=C3=A9?=` says `é` |
| HeaderText.WordsReadInOrder | backend/src/imap/parse.rs:43-136 | words in any mix of character sets and encodings, with white space between them, read as their texts run together |
| EncodedWords.DecodingKeepsUtf8 | backend/src/imap/parse.rs:43-136 | every cut is at a character boundary: well-formed text decodes to well-formed text |
| ModelStream.StreamAccumulator.PushCall | backend/src/assistant/model.rs:114-135 | one fragment changes the call at its own index only; an index over 16 is refused |
| ModelStream.StreamAccumulator.PushLine | backend/src/assistant/model.rs:84-136 | after a line the reply is the summary of all chunks so far; says which lines are errors and what text is shown |
| ModelStream.ReadStream | backend/src/assistant/model.rs:214-233 | for every way of cutting the bytes into chunks the result and the text shown are those of the whole byte stream |
| ModelStream.SuccessfulReading | backend/src/assistant/model.rs:77-141 | a reply results exactly if the stream is whole and every line acceptable; then at most 17 calls, text shown is the content, arguments are fragments in order |
| StreamText.LinesAreRows | backend/src/assistant/model.rs:215-232 | the lines are the newline-terminated rows of the stream, then the rest unless empty or broken off |
| StreamText.LineEndIsTrimmed | backend/src/assistant/model.rs:224-228 | only the line end is trimmed from a terminated line |
| StreamText.LineSays | backend/src/assistant/model.rs:84-123 | which lines carry data, which data is an error, and what text each shows |
| StreamText.LineAdds | backend/src/assistant/model.rs:97-135 | an acceptable line adds its text and call fragments to the reply; its token counts replace earlier ones |
| StreamText.CallsAreTheirFragments | backend/src/assistant/model.rs:113-135 | one call for each index up to the largest named, with the id sent last and the names and arguments sent for it, in order |
| StreamText.ReadingFails | backend/src/assistant/model.rs:214-233 | a reading is fatal exactly if some line is unacceptable, and worth retrying exactly if it broke off without one |
| ModelStream.Complete | backend/src/assistant/model.rs:199-234 | one retry, only of a retryable refusal and before anything is streamed |
| Refs.RefTable.Mint | backend/src/assistant/refs.rs:18-27 | a location keeps its ref, a new one gets the next |
| Refs.RefTable.Find | backend/src/assistant/refs.rs:29-31 | resolves exactly the minted refs |
| Refs.ResolveIff | backend/src/assistant/refs.rs:29-31 | exactly `m1` to `mN` resolve, to the N locations in minting order |
| Refs.MintThenResolve | backend/src/assistant/refs.rs:18-31 | minting is undone by resolving and earlier refs keep their meaning |
| Refs.RefsAreABijection | backend/src/assistant/refs.rs:10-15 | refs and minted locations are in bijection |
| Fence.FenceClosesOnce | backend/src/assistant/tools.rs:139-146 | whatever the mail says, the closing marker occurs once, at the end |
| Fence.AlteredIffMarked | backend/src/assistant/tools.rs:143-146 | text is altered exactly if it holds a closing marker |
| Fence.FenceHoldsText | backend/src/assistant/tools.rs:139-146 | between opening and closing stands the whole text, with nothing changed but its closing markers, each spaced out |
| Actions.ExactAddressIff | backend/src/assistant/actions.rs:30-37 | an address is exact if text stands before its first `@`, a dot and no `@` behind it, and no white space or wildcard anywhere |
| Actions.ProposesWhatWasAsked | backend/src/assistant/actions.rs:40-82 | exactly the action asked for is proposed: its kind by name, the folder named or the first Archive, the sender trimmed and lower-cased, the messages given, at most 50, and its summary |
| Tools.ToolContext.CiteMail | backend/src/assistant/tools.rs:119-128 | mints a ref and adds a source unless the ref is already cited |
| Tools.ToolContext.CollectMessages | backend/src/assistant/tools.rs:206-219 | the first unknown ref is an error, repeated messages count once |
| Tools.ToolContext.Run | backend/src/assistant/tools.rs:159-233 | all five tools, their errors and their effect on refs, sources and proposals |
| Provenance.CollectIsGrounded | backend/src/assistant/tools.rs:206-219 | the messages of an action are cited sources, none repeated, and include every ref given |
| Provenance.ToolsKeepProvenance | backend/src/assistant/tools.rs:166-233 | after any tool run sources are exactly `m1` to `mN`, every source quotes a message the mailbox returned, proposals name only such messages and existing folders, and nothing is taken back |
| Provenance.RepliesShowReturnedMail | backend/src/assistant/tools.rs:166-203 | every message shown to the model was returned by the mailbox, resolves by its ref and is fenced |
| ToolResults.SearchShowsFirstTen | backend/src/assistant/tools.rs:169-177 | a search passes its arguments on and shows the first ten messages found, in order, fenced, under refs that resolve to them |
| ToolResults.ReadShowsMessage | backend/src/assistant/tools.rs:178-184 | reading asks for the message the ref stands for and shows all of it |
| ToolResults.ThreadShowsMessages | backend/src/assistant/tools.rs:185-194 | reading a thread shows all its messages, in order |
| ToolResults.UnknownRefIsRefused | backend/src/assistant/tools.rs:130-132 | a ref nobody was shown is refused and the mailbox is not asked |
| ToolResults.DraftIsOffered | backend/src/assistant/tools.rs:195-205 | a draft is offered exactly for a message that was shown and with a body that is not white space only |
| ToolResults.ActionIsOffered | backend/src/assistant/tools.rs:206-230 | an action on messages that were shown is offered exactly if it is possible as asked; its messages are those behind the refs, each once, and none for a filter |
| ToolResults.UnknownRefStopsAction | backend/src/assistant/tools.rs:206-219 | the first ref nobody was shown is named in the refusal |
| ToolResults.OtherCallsAreRefused | backend/src/assistant/tools.rs:159-168 | unreadable arguments and unknown tools are refused and change nothing |
| Turn.History | backend/src/routes/assistant.rs:53-72 | accepted exactly if the last message is the user's and the last 20 are from user or assistant and at most 8000 characters long; then the last 20, in order |
| Turn.RunCalls | backend/src/assistant/session.rs:136-147 | the calls of a step are answered as specified |
| Turn.RunTurn | backend/src/assistant/session.rs:73-156 | the loops emit, send and run exactly what the turn function says; `TurnUnfolds` says what that is |
| TurnTheorems.CallsAreAnswered | backend/src/assistant/session.rs:136-147 | at most five calls of a step are run, all are answered in order, each run shows one status |
| TurnTheorems.StepKeepsGoing | backend/src/assistant/session.rs:105-148 | a step that goes on keeps transcripts well formed, counts right and the context sound |
| TurnTheorems.EveryTurnFollowsTheProtocol | backend/src/assistant/session.rs:73-156 | at most 6 model calls and 25 tool runs; well-formed transcripts, each strictly extending the last; text and status events, then one error, or sources, proposals and one `Done` with the token sums; everything cited or proposed came from the mailbox |
| TurnTrace.ModelIsGivenTheConversation | backend/src/assistant/session.rs:73-97 | every transcript begins with the system prompt, which holds the open email fenced as `m1` if it could be read, and the conversation of the request |
| TurnTrace.TurnUnfolds | backend/src/assistant/session.rs:73-156 | the whole turn, spelled out: what each model call is given, which answers its tool calls get, when the turn goes on, and every event in order |

## Left out

- SessionStore `insert` and `remove`, which by design do not maintain the other maps, and `get_browser_accounts`, which does not check expiry.
- SessionStore concurrency inside one operation: each method is one atomic step.
- Length limits and NUL bytes of SQLite's LIKE, and errors of the database itself.
- Order and pagination of the contact lists, and the threaded message list that groups by the stored thread id.
- `parse_iso`, which reads the next deadline back in the application's own format through the date library, and how long the worker sleeps on it: liveness of the worker is not stated.
- Cancelling an outbox entry once it is in a snapshot: such an entry may still be sent, and nothing here says otherwise.
- A worker panicking in the middle of a status write: the write happens whole or not at all.
- Concurrent TOTP calls: calls run one after the other, and the caller that gates them on the lockout check is stated as the protocol.
- Removing TOTP, which forgets used steps and the lockout.
- Cryptography, randomness, percent-decoding of query parameters, and the timing of constant-time comparison.
- `name_attribute_to_string`, attachments and addresses of the IMAP parser.
- Tools.ToolContext.Run: does not model the JSON text of replies, only what is in them, nor the random ids of proposals.
- The wording of the system prompt and the 60-second limit around a turn, which ends a turn at a waiting point with one more error event.
- HTTP, IMAP, SMTP and WebSocket traffic, routing, configuration, full-text search, calendar crates, single-table CRUD modules and the frontend: they would add only easy members or lie outside the program.
