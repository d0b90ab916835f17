# FreeHSM in Dafny

A model of the stateful core of FreeHSM, a software PKCS#11 module with a signing
daemon, together with proofs of what that core is for: the tamper-evident audit log
and its group commit, the module-wide entry lock with deferred release, the daemon's
admission machinery (refusal budget, fairness table, session pool, hand-off ring,
burst compressor, request reader), the generated mechanism dispatch table, and the
conversion of ECDSA signatures between their two formats.

`dafny verify dfyconfig.toml` checks the whole project.

## How the model is built

Code that updates tables and buffers in place is a class or a method with loops, proved
against functions on values. Code that several threads execute is a state machine: each
stretch between two lock operations is one atomic step, a `Run` is any interleaving of
enabled steps, and the results quantify over all runs from the initial state.

| files | what they hold |
|---|---|
| `CText` | `strstr`, `%llu`, `strtoull`, `fgets` and C strings |
| `AuditLine`, `AuditFormat` | one log line, its text member by member, and that it reads one way |
| `AuditSearch`, `AuditChain` | where the verifier's substring searches land in a line, the writer and the verifier |
| `AuditIntegrity` | which files are accepted, and what an accepted file is |
| `AuditFailures`, `AuditTorn` | logs with failed attempts, and with writes cut short anywhere |
| `AuditCommit`, `AuditReturns` | group commit in every interleaving, and which events return OK |
| `AuditRecovery` | what a crash leaves of the log |
| `ApiLock`, `ApiFrees` | the entry lock and the retired list in every interleaving, and what became of every value |
| `Budget`, `BudgetRate`, `BudgetLaws`, `Identity` | the refusal budget, how fast refusals can be collected, and its file over restarts |
| `Fairness`, `FairnessRuns` | the per-identity concurrency table, and its account over runs |
| `FairnessPresence`, `FairnessBursts` | who is refused told from the history alone, and bursts of refusals |
| `SessionPool` | the pool and its sleeping workers |
| `Handoff`, `HandoffRuns` | the listener's wait set and ring; acceptor and workers in every interleaving |
| `Burst` | the burst compressor |
| `HttpRequest`, `RequestReader` | what a request is; the reader that finds it whatever way the bytes arrive |
| `HttpHeaders`, `HttpPrinted`, `HttpRefusals` | what headers say, reading as the inverse of printing, and the fault behind every refusal |
| `Dispatch` | validation, sorting, profile rewrite and lookup of the mechanism table |
| `EcdsaRaw` | big-endian numbers, DER, and the two conversions |

Clocks, the answers of `C_OpenSession`, `fdatasync`, `write` and `malloc`, the sizes
`read` returns and the scheduler are parameters or free choices of the steps. The MAC is
an arbitrary function from texts to 32-byte tags; the integrity theorem adds that the
texts the author MACed have distinct tags and that nobody else produced a tag. Text is
one character per byte.

## Where the code and its documentation part

The model follows the code. In each case the exact condition is a theorem.

- The chain comment (`src/fhsm_audit.c:758-766`) lists what the three checks catch. The
  chain head's label is MACed under the same key as the lines, and `prev_hmac` and `seq`
  are searched over the whole line, so a line whose authenticated part is that label is
  accepted anywhere (`AuditIntegrity.HeadLineAccepted`). `ChainIntegrity` says that an
  accepted file is the beginning of one opening if and only if it has no such line.
- A log is accepted back if and only if no printed parameter is named `hmac` and the
  first one named `prev_hmac`, if any, reads as the predecessor's tag
  (`HonestLogAcceptedIff`); nothing in the writer rules such a name out.
- After a failed write the module records its own transition to the error state
  (`src/fhsm_state.c:136-142`). A failed attempt has used up its sequence number, so a
  whole line after one that left no bytes is refused. After a write cut behind its tag,
  though, the next line is glued to it: the file is accepted and that line is not seen
  (`AuditTorn.LineIsSwallowed`), even when its event was acknowledged
  (`AuditRecovery.AcknowledgedNotShown`). `AuditTorn.LogAcceptedIff` says of every log
  whether it is accepted, and `AuditRecovery.AcknowledgedShownIff` which events an
  accepted one shows.
- The refusal budget charges an identity only while its table has a slot; 256 others
  with a refusal each leave none (`Budget.UnchargedExactlyWhenFull`,
  `BudgetRate.TableFills`).
- "A free entry always exists" (`service/fhsm_service.c:421-423`) does not hold: 128
  identities served within the window fill the table (`FairnessRuns.TableFills`), and
  exactly then a newcomer is admitted uncounted (`Fairness.UncountedExactlyWhenFull`,
  `FairnessRuns.AccountKeptIff`). No identity is ever counted for too much
  (`FairnessRuns.NeverOvercounts`).
- A burst of refusals is meant not to "take its count to the grave"
  (`service/fhsm_service.c:553-554`); it does when a newcomer takes the expired entry
  first, and only then (`FairnessBursts.RefusalsWrittenIff`).
- "Cannot overflow" (`service/fhsm_service.c:2143-2145`) does not hold of the ring: wait
  set and ring are bounded apart, so the ring fills at any depth, and a connection that
  spoke is then closed (`HandoffRuns.RingFillsAtAnyDepth`, `SpokenIsQueuedIff`).
- The expiry pass reads `revents` by position while it moves entries, so a connection
  that has spoken can be timed out; `Handoff.SpokenSparedIff` says exactly when.
- A worker whose `C_OpenSession` fails on an empty pool sleeps with nobody left to wake
  it (`SessionPool.FailedOpenStrandsAWorker`). A sleeper has somebody to wake it if and
  only if some open has succeeded, however many fail later (`SessionPool.SleeperHasWaker`).
- The forced flush at a stop can write one closing line more than the rate allows, if
  and only if it follows the previous closing line within the cooldown
  (`Burst.RateAtStopIff`).
- `_validate` does not bound the codes, which are 32 bits wide in the emitted table. A
  row beyond that can be answered under a code it does not have
  (`Dispatch.WrappedCodeAnswers`) or hide another (`WrappedCodeHides`), but need not do
  either; `DispatchExact` says exactly when the table still means what its source does.
- A parameter text of exactly 1023 bytes leaves no room for its closing brace; the line
  is written without it (`AuditLine.Params`), and the verifier still accepts it.

## Model

| member | source | states |
|---|---|---|
| `CText.StrToUllOfDec` | src/fhsm_audit.c:828 | a printed number below 2^64 reads back as itself whatever non-digit text follows |
| `CText.StrToUllReads` | src/fhsm_audit.c:828 | any number with blanks and a sign in front reads as itself, the largest value when too wide, or its negation modulo 2^64 |
| `CText.ChunksOfLine` | src/fhsm_audit.c:805-808 | a newline-terminated line that fits the buffer is read whole, and reading goes on behind it |
| `CText.ChunksExact` | src/fhsm_audit.c:805-808 | for every file the reads put together are the file, and each stops behind a newline, at a full buffer or at the end and nowhere else |
| `AuditLine.Hex32` | src/fhsm_audit.c:139-145 | writes the 64 hex digits of a tag into the buffer and touches nothing behind them |
| `AuditLine.Unhex32` | src/fhsm_audit.c:372-386 | reads a tag at any position, or nothing when a digit is missing or not hex, in either case of letter |
| `AuditLine.HexRoundTrip` | src/fhsm_audit.c:139-386 | reading the printed form of a tag, wherever it stands, gives the tag |
| `AuditLine.SafeAscii` | src/fhsm_audit.c:149-155 | accepts exactly the present strings of printable bytes without quote and backslash |
| `AuditLine.SetActor` | src/fhsm_audit.c:163-172 | the actor is empty for none, otherwise the first 127 bytes of the subject, or INVALID if those are not safe |
| `AuditLine.Params` | src/fhsm_audit.c:617-643 | the parameter object never exceeds 1023 bytes, for any number and length of parameters |
| `AuditLine.BuildParams` | src/fhsm_audit.c:617-643 | the bounded, filtering loop computes that object, the overflow case included |
| `AuditLine.LineFits` | src/fhsm_audit.c:645-686 | every line with its suffix is below 2048 bytes, so neither truncation branch is reachable |
| `AuditFormat.ParamsIs` | src/fhsm_audit.c:617-643 | the parameters are a comma-separated object of quoted pairs, INVALID for the value where key or value is not plain; one byte too large loses the brace, more becomes an empty object |
| `AuditFormat.LineIs` | src/fhsm_audit.c:645-686 | every line is one object: seq, ts, event, slot, session, role (SO, USER or NONE), actor, result (OK exactly for code 0), rv, params, prev_hmac and hmac in that order, each printed from its own field |
| `AuditFormat.LineTellsAll` | src/fhsm_audit.c:645-686 | equal lines come from equal numbers, fields, parameter texts and tags: a line can be read only one way |
| `AuditSearch.LandsOnSegment` | src/fhsm_audit.c:810-812 | searching a text of quote-free segments for a field lands on the first segment of that name that opens a string value, and nowhere else |
| `AuditSearch.ShownOneLine` | src/fhsm_audit.c:622-679 | a character that could end a line or a C string is in a line if and only if a printed key brings it there: values and numbers never do |
| `AuditSearch.PrevLands` | src/fhsm_audit.c:811-818 | unless a printed parameter is named `prev_hmac`, and as long as no key contains a quotation mark, the search finds the writer's own field and reads the predecessor's tag |
| `AuditSearch.HmacLands` | src/fhsm_audit.c:810-820 | unless a printed parameter is named `hmac`, and as long as no key contains a quotation mark, the search finds the suffix, so the authenticated part is exactly the writer's body |
| `AuditSearch.SeqLands` | src/fhsm_audit.c:812-828 | the number read is the number written, whatever follows the body |
| `AuditSearch.NamesakeCatches` | src/fhsm_audit.c:810-818 | the first parameter named like a tag field is what the search finds, and what is read there is what its own value reads as |
| `AuditChain.PastIsFixed` | src/fhsm_audit.c:645-702 | later attempts change no earlier line, tag or text |
| `AuditChain.AppendedLine` | src/fhsm_audit.c:688-702 | one attempt appends its whole line, a torn part of it or nothing, and moves the chain exactly when the line was written whole |
| `AuditChain.FormatBody` | src/fhsm_audit.c:645-661 | formats the body of the line, never truncated |
| `AuditChain.AddSuffix` | src/fhsm_audit.c:678-686 | completes the line, never truncated |
| `AuditChain.Writer.constructor` | src/fhsm_audit.c:508-524 | a fresh opening starts at the chain head with an empty file |
| `AuditChain.Writer.Emit` | src/fhsm_audit.c:611-703 | the running sequence number, chain value and file stay those of the attempts so far; succeeds exactly when MAC and write did |
| `AuditChain.CheckLine` | src/fhsm_audit.c:806-830 | a line passes exactly when its tag matches its authenticated part, its predecessor field matches and its number is the line number |
| `AuditChain.Verify` | src/fhsm_audit.c:787-840 | accepts exactly the files whose every line links; otherwise names the first line, counted from 1, that does not |
| `AuditIntegrity.TextReadsBack` | src/fhsm_audit.c:803-808 | a log without a failed write is read back line for line |
| `AuditIntegrity.HonestLink` | src/fhsm_audit.c:806-830 | a written line passes all three checks and authenticates the writer's bytes |
| `AuditIntegrity.HonestLogAccepted` | src/fhsm_audit.c:787-840 | printer and verifier agree: every log of a run without a failed write, cut at any line boundary, is accepted |
| `AuditIntegrity.HonestLogAcceptedIff` | src/fhsm_audit.c:615-840 | a log without a failed write is accepted if and only if no printed parameter is named `hmac` and the first one named `prev_hmac`, if any, reads as the predecessor's tag |
| `AuditIntegrity.FileIsShort` | src/fhsm_audit.c:828 | no accepted file without the head's text as a line reaches 2^64 lines |
| `AuditIntegrity.LinkBack` | src/fhsm_audit.c:820-830 | the predecessor of an accepted line is its predecessor in its own opening, and was written whole |
| `AuditIntegrity.ChainIntegrity` | src/fhsm_audit.c:787-840 | among any number of openings sharing key and head, an accepted file is attempts 1, 2, ... of a single opening if and only if no line authenticates the head's own text: no insertion, deletion, reordering or splice |
| `AuditIntegrity.IntactLogIsPrefix` | src/fhsm_audit.c:787-840 | with no failed write the accepted lines are the first lines of one log |
| `AuditIntegrity.HonestSetting` | src/fhsm_audit.c:508-702 | every honest log meets the hypotheses of the integrity theorem |
| `AuditIntegrity.HeadLineAccepted` | src/fhsm_audit.c:796-828 | behind any accepted lines one more line holding the head's text is accepted, so the condition is needed |
| `AuditIntegrity.HeadLineFileAccepted` | src/fhsm_audit.c:796-840 | the same of files: an accepted file that ends in a newline stays accepted with that line behind it, and is then the beginning of no opening |
| `AuditTorn.TagInText` | src/fhsm_audit.c:676-694 | wherever writes were cut, every readable tag in a log stands where the attempt it was computed for left it |
| `AuditTorn.GluedLinks` | src/fhsm_audit.c:806-830 | a line cut behind its tag passes the three checks whatever text is glued to it |
| `AuditTorn.ReadableAccepted` | src/fhsm_audit.c:688-840 | for every MAC: a log is accepted when nothing was left from its first failed attempt on, or that write was cut behind its tag and all that followed ends no later than the first newline; it then shows no line beyond that attempt |
| `AuditTorn.CutTagRefused` | src/fhsm_audit.c:688-818 | for every MAC: a log whose first failure was cut within its tag is refused, whatever was recorded after it |
| `AuditTorn.UngluedAcceptedIff` | src/fhsm_audit.c:612-840 | for every MAC: when nothing was recorded behind torn bytes, that condition is exact, so nothing whole may follow an attempt that left no bytes |
| `AuditTorn.LogAcceptedIff` | src/fhsm_audit.c:612-840 | for every run of whole, torn and failed attempts and every MAC: that condition is exact, unless something was recorded behind torn bytes and the text so glued has the tag of a different text the author MACed |
| `AuditTorn.LineIsSwallowed` | src/fhsm_audit.c:688-702 | a write cut behind its tag and the whole line recorded next are accepted as one line, that of the first |
| `AuditCommit.StepKeeps` | src/fhsm_audit.c:688-744 | every step of every writer keeps the commit invariant: one barrier at a time, covering only lines in the file before it began |
| `AuditCommit.Durability` | src/fhsm_audit.c:705-744 | in every interleaving an event returns OK only after a successful barrier that began with its line in the file, so no crash that keeps the durable prefix loses it; `AuditReturns` says that it does return OK unless a barrier failed |
| `AuditCommit.BarrierEconomy` | src/fhsm_audit.c:707-728 | barriers never outnumber events and no writer sits through more than two |
| `AuditCommit.NoLostWakeup` | src/fhsm_audit.c:708-728 | a sleeping writer implies another that runs a barrier or is about to publish one |
| `AuditCommit.FailureSticks` | src/fhsm_audit.c:722-741 | after one failed barrier no later event of the opening returns OK |
| `AuditReturns.ReturnsOkIff` | src/fhsm_audit.c:705-744 | in every interleaving, when a step ends an event its line is acknowledged if and only if no barrier has failed |
| `AuditReturns.AllAnsweredAtRest` | src/fhsm_audit.c:688-744 | with nobody inside, the log is every attempt made, a failure is noted if and only if some fdatasync failed, and if none did the events acknowledged are exactly those written whole |
| `AuditCommit.ProgressIsBounded` | src/fhsm_audit.c:705-744 | without new events only so many steps are left, however they interleave |
| `AuditCommit.NeverStuck` | src/fhsm_audit.c:705-744 | while an event is open some such step can be taken, so every event returns |
| `AuditRecovery.CrashLeavesAnIntactLog` | src/fhsm_audit.c:688-840 | for every run, what a crash keeps beyond the durable prefix holds in its place the line of every event acknowledged before the first failed attempt, and is accepted if readable; without a failed write that is always so and covers every acknowledged event |
| `AuditRecovery.AcknowledgedShownIff` | src/fhsm_audit.c:688-840 | of an accepted log, no texts clashing, an acknowledged event is shown if and only if it was recorded before the first failed attempt |
| `AuditRecovery.AcknowledgedNotShown` | src/fhsm_audit.c:688-744 | a run of four steps in which an event is durable and acknowledged and the accepted log does not show it |
| `ApiLock.StepKeeps` | src/fhsm_apilock.c:98-170 | every step keeps the lock discipline, the minding of the retired list and the account of every value |
| `ApiLock.NoFreeUnderBorrower` | src/fhsm_apilock.c:98-170 | in every interleaving of shared, exclusive and nested calls a value another call in flight may have borrowed is released by a step if and only if that step frees it outside any call |
| `ApiLock.FreeOutsideHitsABorrower` | src/fhsm_apilock.c:151-156 | a run in which such a free releases a value a shared call may hold |
| `ApiLock.NothingParkedAtRest` | src/fhsm_apilock.c:118-170 | a non-empty retired list has a thread minding it; with no call in progress the list is empty and every value handed in was released once or leaked; `ApiFrees.LeakedIff` says which leaked |
| `ApiFrees.LeakedIff` | src/fhsm_apilock.c:151-170 | over every run a value has leaked if and only if a shared call freed it and its node could not be allocated |
| `ApiFrees.ReleasedExactlyOnceAtRest` | src/fhsm_apilock.c:98-170 | when every such allocation succeeds nothing leaks, and with no call in progress a value has been released exactly once if it was freed and never otherwise |
| `ApiLock.ReleasedAtMostOnce` | src/fhsm_apilock.c:98-170 | no value is released twice, and a released one is neither in the store nor parked |
| `ApiLock.SharedCallsReadIntactValues` | src/fhsm_apilock.c:118-170 | in every run of guarded calls nothing a shared call may have borrowed has been released |
| `ApiFrees.StoreIff` | src/fhsm_apilock.c:118-170 | over every run the store holds exactly what was there or created and was not freed |
| `ApiFrees.CallsMayBorrowAnything` | src/fhsm_apilock.c:98-136 | every call in flight has had everything in the store within reach, and keeps it until it ends, so the safety results leave no borrower out |
| `ApiFrees.NestingIsTransparent` | src/fhsm_apilock.c:98-136 | a nested call takes and gives nothing: entering and leaving it restores the state |
| `Budget.DelayGrows` | service/fhsm_service.c:645-652 | the delay grows with the count and reaches its 60 s cap at 11 |
| `Budget.DelayLadder` | service/fhsm_service.c:643-652 | in seconds: nothing up to 4 refusals, then 1, 2, 4, 8, 16, 32 and 60 from the 11th on |
| `Budget.DecayLaw` | service/fhsm_service.c:655-662 | the count stands for ten minutes after the last refusal, then falls by one for every ten minutes more, and never rises by itself |
| `Budget.ChargeEffect` | service/fhsm_service.c:755-783 | a charge decays and bumps its own entry; another entry survives untouched unless it had decayed to nothing |
| `Budget.UnchargedExactlyWhenFull` | service/fhsm_service.c:761-773 | a refusal finds no slot if and only if every slot belongs to another identity with something left to forgive; it then changes nothing and costs nothing |
| `Budget.Table.constructor` | service/fhsm_service.c:639-641 | the table starts empty |
| `Budget.Table.RetryAfter` | service/fhsm_service.c:733-749 | answers exactly the seconds the identity still owes; `BudgetLaws.OwesTheLadder` gives them in numbers |
| `Budget.Table.Charge` | service/fhsm_service.c:755-801 | the new table, the count reached, whether the crossing is announced, and the file saved exactly past the free allowance |
| `Budget.Table.Save` | service/fhsm_service.c:666-683 | the file becomes the record of the whole table, or stays as it was when a write fails |
| `Budget.SavedText` | service/fhsm_service.c:675-679 | the saving loop prints the header and one line for every count in the table |
| `Budget.Table.Load` | service/fhsm_service.c:685-717 | the table becomes what the file records, its decay clocks starting now |
| `Budget.LoadText` | service/fhsm_service.c:693-712 | the line loop keeps exactly the records of the well-formed lines, up to the table's size |
| `Budget.LineGivesIff` | service/fhsm_service.c:695-707 | a line of the file yields a record if and only if it is a number, a tab, a subject of 1 to 127 bytes and line ends, no comment, with a count that is not zero in 32 bits |
| `Budget.FileReadsBack` | service/fhsm_service.c:666-717 | loading a saved file gives back every count and subject |
| `Budget.HeaderIsSkipped` | service/fhsm_service.c:675-697 | the header line is skipped by the loader |
| `BudgetRate.ChargeIsPaid` | service/fhsm_service.c:645-662 | a charge after a clear check adds a minute of worth to the entry: what the count gives up to decay, the clock more than repays |
| `BudgetRate.ChargeKeepsWorth` | service/fhsm_service.c:645-662 | no charge lowers the worth of an entry |
| `BudgetRate.StepKeeps` | service/fhsm_service.c:733-801 | every check, charge and end of every request keeps the account of leading charges paid and grouped |
| `BudgetRate.ProbingRate` | service/fhsm_service.c:1549-1670 | for every schedule of requests side by side, each checked before it can be charged, an identity with at most K in flight collects at most K(11 + T/60) refusals within T seconds of its first |
| `BudgetRate.SingleFileRate` | service/fhsm_service.c:733-801 | with one request at a time that is 11 refusals and one more per minute |
| `BudgetRate.TableFills` | service/fhsm_service.c:761-773 | 256 acceptable identities refused once each fill the table, and for ten minutes no refusal of a newcomer is charged |
| `BudgetLaws.DelayEnds` | service/fhsm_service.c:733-749 | sixty seconds after its last charge an identity is let through, whoever asked or was refused meanwhile |
| `BudgetLaws.OwesTheLadder` | service/fhsm_service.c:733-801 | an identity refused n times within ten minutes from no entry, whoever else is checked or refused meanwhile, owes the n-th step of that ladder less the time since its last refusal, and stands announced exactly from the fifth on |
| `BudgetLaws.RecordsCount` | service/fhsm_service.c:676-679 | what a save records of an identity is its count |
| `BudgetLaws.PlacedEntry` | service/fhsm_service.c:705-711 | what a load puts back is the recorded count, decay starting now |
| `BudgetLaws.RestartNeverHelps` | service/fhsm_service.c:666-795 | over any history of requests and restarts with successful saves, a crash and reload leaves every identity owing at least what it owed |
| `Identity.AcceptedSubjectIsGood` | service/fhsm_service.c:1226-1242 | a subject the request reader accepts has the bytes and length the budget file carries |
| `Identity.RestartNeverHelpsRequests` | service/fhsm_service.c:1549-1670 | restart never helps for every history whose identities come out of accepted requests |
| `Fairness.Scan` | service/fhsm_service.c:476-493 | one pass finds the identity's entry, the reusable slot least recently seen, and whether another identity is present |
| `Fairness.Table.constructor` | service/fhsm_service.c:463-465 | the table starts empty |
| `Fairness.Table.Enter` | service/fhsm_service.c:470-551 | the new table, the verdict and what is to be logged |
| `Fairness.Table.Leave` | service/fhsm_service.c:575-588 | the new table: one fewer in flight, presence only if served |
| `Fairness.Table.FlushBursts` | service/fhsm_service.c:555-571 | writes the count of every burst still open and closes them |
| `Fairness.EnterCounts` | service/fhsm_service.c:495-548 | entering raises the identity's count by one exactly when it is admitted and countable, and nobody else's |
| `Fairness.LeaveCounts` | service/fhsm_service.c:575-588 | leaving lowers the identity's count by one and nobody else's |
| `FairnessRuns.FairnessAccounting` | service/fhsm_service.c:470-588 | in every run whose admissions find an entry or slot, each count equals the requests admitted and not yet left, and subjects stay unique |
| `FairnessRuns.AccountKeptIff` | service/fhsm_service.c:498-548 | an entry keeps that account if and only if it is refused or finds an entry or slot |
| `FairnessRuns.NeverOvercounts` | service/fhsm_service.c:470-588 | in every run at all, slots found or not, no identity is counted for more requests than it has |
| `FairnessRuns.CapHolds` | service/fhsm_service.c:495-517 | while another identity stays present, one at or below workers - 1 never gets past it |
| `FairnessPresence.SeenAfterLeave` | service/fhsm_service.c:573-588 | leaving served sets the time of service to now, leaving otherwise sets nothing, and nobody else is touched |
| `FairnessPresence.OthersAreHere` | service/fhsm_service.c:476-493 | the table sees somebody else present if and only if some other identity has a request open or was served within 30 s |
| `FairnessPresence.RefusedIff` | service/fhsm_service.c:470-517 | over every run whose admissions find a slot, a request is refused if and only if its identity has all workers busy, or all but one when there are several and some other identity has a request open or was served within 30 s |
| `Fairness.RefusalChangesNothing` | service/fhsm_service.c:498-517 | a refusal changes no count and nobody's presence, then or later |
| `Fairness.UncountedExactlyWhenFull` | service/fhsm_service.c:533-548 | an admission goes uncounted if and only if the identity is new and every slot is held by somebody present |
| `FairnessRuns.TableFills` | service/fhsm_service.c:421-548 | a run of 128 acceptable identities, each served and gone, leaves no slot within the window though nobody is in flight; a newcomer is then let in and breaks the account |
| `FairnessBursts.FlushWritesPending` | service/fhsm_service.c:555-571 | the flush at shutdown writes exactly the count an identity has pending |
| `FairnessBursts.RunBalances` | service/fhsm_service.c:498-571 | over every run the refusals of an identity are its opening lines, its closing counts, its pending count and what newcomers overwrote |
| `FairnessBursts.RefusalsWrittenIff` | service/fhsm_service.c:498-571 | after the flush every refusal is written or counted in a line if and only if no newcomer took the entry while it held a count |
| `FairnessBursts.BurstsByTheRule` | service/fhsm_service.c:498-545 | over every run the first refusal of a burst is written and the rest are counted; an admission at least 5 s after the last refusal, and no other, closes it with the number behind the first and the time since the first |
| `FairnessBursts.CountCanBeLost` | service/fhsm_service.c:486-545 | a run in which such a count is overwritten |
| `SessionPool.Pool.constructor` | service/fhsm_service.c:308-312 | the pool starts with no session open |
| `SessionPool.Pool.TryAcquire` | service/fhsm_service.c:324-351 | one turn of the loop lends the first free slot, or a newly opened session below the ceiling, or nothing |
| `SessionPool.Pool.Release` | service/fhsm_service.c:355-363 | gives back the slot of that handle and no other |
| `SessionPool.LendCounts` | service/fhsm_service.c:324-351 | lending raises the number lent by one, never passes the ceiling, and fails only with every slot lent |
| `SessionPool.LendLoans` | service/fhsm_service.c:324-351 | the session lent was not on loan, and every other loan stands |
| `SessionPool.StepKeeps` | service/fhsm_service.c:320-363 | every step of every worker keeps the loan and wake-up invariants |
| `SessionPool.PoolSafety` | service/fhsm_service.c:320-363 | in every interleaving no session is lent twice, the ceiling holds, and while a worker sleeps free slots never outnumber pending wakes |
| `SessionPool.NoAcquireWaits` | service/fhsm_service.c:2573-2590 | with a ceiling of at least the worker count and opens that succeed, no worker ever sleeps |
| `SessionPool.SleeperHasWakerIff` | service/fhsm_service.c:320-363 | in every interleaving, whatever opens fail, a sleeper that nobody already up will relieve has a worker holding a session if and only if some open has succeeded |
| `SessionPool.SleeperHasWaker` | service/fhsm_service.c:320-363 | without spurious wake-ups a sleeper has somebody to wake it if and only if some open has succeeded |
| `SessionPool.FailedOpenStrandsAWorker` | service/fhsm_service.c:337-343 | a failed open on an empty pool leaves the worker asleep with nobody to wake it |
| `Handoff.Listener.constructor` | service/fhsm_service.c:2311-2323 | the listener starts with an empty wait set and ring |
| `Handoff.Listener.ReadyPush` | service/fhsm_service.c:2140-2155 | the ring is a bounded queue: the connection goes to its end, or is turned away exactly when it is full |
| `Handoff.Listener.TakeReady` | service/fhsm_service.c:2165-2169 | takes the oldest entry of the ring, or nothing exactly when it is empty |
| `Handoff.Listener.Enlist` | service/fhsm_service.c:2282-2297 | a connection joins the wait set, or is turned away exactly when it is full |
| `Handoff.Listener.Expire` | service/fhsm_service.c:2225-2239 | the in-place pass with swap-removal computes `Sweep` |
| `Handoff.Listener.Remove` | service/fhsm_service.c:2256-2258 | finds a connection by identity and swap-removes it, or leaves everything |
| `Handoff.SweepExact` | service/fhsm_service.c:2225-2239 | the pass closes a late connection if and only if it is silent, or the late and silent ones before it outnumber the punctual ones behind it |
| `Handoff.SpokenSparedIff` | service/fhsm_service.c:2225-2243 | a late connection that has spoken is spared if and only if the silent ones before it do not outnumber the punctual ones behind it |
| `Handoff.SpokenCanExpire` | service/fhsm_service.c:2225-2239 | a connection that has spoken is timed out in a concrete case |
| `HandoffRuns.StepMoves` | service/fhsm_service.c:2140-2309 | every step moves connections between wait set, ring, hands and closed without losing or doubling one |
| `HandoffRuns.StepKeeps` | service/fhsm_service.c:2140-2309 | every step keeps the bounds, the queue order, the exit rule and the wake-up rule |
| `HandoffRuns.Conservation` | service/fhsm_service.c:2140-2309 | at all times every accepted connection is in exactly one of wait set, ring, a worker's hands and closed |
| `HandoffRuns.ClosedExactlyOnce` | service/fhsm_service.c:2301-2309 | after shutdown every accepted connection has been closed exactly once |
| `HandoffRuns.FirstInFirstOut` | service/fhsm_service.c:2140-2173 | under any interleaving workers take connections in the order they were pushed, and a sleeping worker leaves enough awake to empty the ring |
| `HandoffRuns.ShutdownEnds` | service/fhsm_service.c:2157-2309 | from the stop on only so many steps are left, and when none is possible everything has finished |
| `HandoffRuns.SpokenIsQueuedIff` | service/fhsm_service.c:2140-2155 | a connection that spoke is queued if and only if the ring has room, and closed otherwise |
| `HandoffRuns.AcceptedWaitsIff` | service/fhsm_service.c:2282-2297 | a new connection joins the wait set if and only if it has room, and is closed otherwise |
| `HandoffRuns.OnlyTheHeardAreServed` | service/fhsm_service.c:2140-2173 | over every run what the workers took and then what the ring holds is, in order, who spoke while the ring had room |
| `HandoffRuns.RingFillsAtAnyDepth` | service/fhsm_service.c:2140-2155 | for every depth some run fills the ring and closes a connection that spoke |
| `Burst.Bursts.constructor` | service/fhsm_service.c:2086-2090 | both kinds start quiet |
| `Burst.Bursts.Note` | service/fhsm_service.c:2097-2110 | the first refusal of a burst is written, the others counted; the other kind is untouched |
| `Burst.Bursts.Flush` | service/fhsm_service.c:2112-2126 | each kind is closed exactly when it is open and forced or quiet for the cooldown |
| `Burst.Lossless` | service/fhsm_service.c:2097-2126 | after the forced flush the closing lines account for exactly the refusals noted |
| `Burst.LinesTell` | service/fhsm_service.c:2097-2126 | the counters write the very lines the full list of refusals would: when a burst opens and closes, how many refusals it had and how long from the first to the last |
| `Burst.LineRate` | service/fhsm_service.c:2097-2126 | with a clock that does not go back, no window of T seconds holds more than 2(1 + T/5) lines of one kind |
| `Burst.RateAtStopIff` | service/fhsm_service.c:2305 | the forced flush keeps that rate if and only if it writes nothing or follows the previous closing line by the cooldown |
| `Burst.RateAtStop` | service/fhsm_service.c:2305 | one line beyond the rate is all a stop can add |
| `HttpRequest.RequestLineIff` | service/fhsm_service.c:1174-1205 | a request line is accepted if and only if it is GET or POST, a visible target and HTTP/1.1, one space apart, within the bounds |
| `HttpRequest.LinesOfUnlines` | service/fhsm_service.c:1207-1282 | lines without a CRLF of their own are split back out of their concatenation |
| `HttpRequest.UnlinesOfLines` | service/fhsm_service.c:1207-1282 | splitting a head into lines loses no byte |
| `HttpRequest.NamesAreSole` | service/fhsm_service.c:1231-1264 | with no repetition flagged, the subject and the key each stand on exactly one header line, and an absent one on none |
| `HttpRequest.FramedOnce` | service/fhsm_service.c:1265-1284 | an accepted head declares its length on exactly one line or none, and flags every transfer coding |
| `HttpRequest.BodyIsExact` | service/fhsm_service.c:1291-1312 | an accepted body is exactly the declared bytes after the first blank line, which ends within the header bound |
| `HttpRequest.FollowingBytesIgnored` | service/fhsm_service.c:1286-1312 | an accepted request stays the same whatever bytes follow it |
| `HttpHeaders.HeaderIff` | service/fhsm_service.c:1215-1229 | a header line gives a name and a value if and only if it is that name of 1 to 64 characters without colon, a colon, and that value of at most 256 printable characters between blanks |
| `HttpHeaders.LengthIff` | service/fhsm_service.c:1267-1274 | a content length is read as n if and only if it is n in decimal within nine digits and 65536; beyond that it is too large |
| `HttpHeaders.SignatureIff` | service/fhsm_service.c:1243-1255 | a signature length is read as n if and only if it is n in decimal, a plus sign allowed, within 31 characters, 1 to 65536 |
| `HttpHeaders.RefusedIff` | service/fhsm_service.c:1231-1280 | behind headers in good order a further one is refused for the limit it breaks and for nothing else |
| `HttpHeaders.HeadersIff` | service/fhsm_service.c:1207-1282 | header lines are accepted, giving certain fields, if and only if they are at most 32 printed headers that keep the limits and say those fields: first subject, first key, last signature length, the one content length, and which came twice |
| `HttpPrinted.HeadIff` | service/fhsm_service.c:1173-1284 | a head gives a method, a target and fields if and only if it is printed from them and headers that say them, with no transfer coding |
| `HttpPrinted.ParseIff` | service/fhsm_service.c:1136-1313 | reading is the inverse of printing: a stream is read as a request if and only if it is that request printed, with anything after it |
| `HttpPrinted.RequestIsRead` | service/fhsm_service.c:1136-1313 | for every method, target, subject, key, signature length and body within the limits, in any letter case of the names and with any blanks around the values, the printed request is read back exactly |
| `HttpRefusals.HeadersRefusedIff` | service/fhsm_service.c:1207-1280 | header lines are refused with a reason if and only if the first line that does not follow on is wrong in that way |
| `HttpRefusals.HeadRefusedIff` | service/fhsm_service.c:1173-1284 | the same of a head: request line first, then the headers in order, a transfer coding last |
| `HttpRefusals.ParseRefusedIff` | service/fhsm_service.c:1136-1313 | the same of a stream: no blank line in sight, a wrong head, or fewer body bytes than declared; every refusal has its reason and every such fault its refusal |
| `RequestReader.Peer.Read` | service/fhsm_service.c:1160-1166 | hands over the next bytes of the stream, at least one before its end |
| `RequestReader.NameEq` | service/fhsm_service.c:1010-1019 | compares a header name without regard to ASCII case |
| `RequestReader.CheckTarget` | service/fhsm_service.c:1193-1198 | accepts exactly the bounded, visible targets that start with a slash |
| `RequestReader.ReadRequestLine` | service/fhsm_service.c:1174-1205 | reads or refuses the request line as `RequestLine` does, reason included |
| `RequestReader.Trim` | service/fhsm_service.c:1220-1223 | moving the two bounds strips the blanks off both ends |
| `RequestReader.ReadHeaderLine` | service/fhsm_service.c:1215-1229 | reads or refuses a header line as `Header` does, reason included |
| `RequestReader.ReadLength` | service/fhsm_service.c:1267-1274 | the digit loop gives the value of one to nine digits within the body bound, or the refusal |
| `RequestReader.ReadField` | service/fhsm_service.c:1231-1280 | the fields after one header, or the refusal, as `Absorb` has them; `HttpHeaders.HeadersIff` and `RefusedIff` say what those are |
| `RequestReader.ReadHead` | service/fhsm_service.c:1148-1171 | however the reads split the stream, finds the first blank line within the buffer, or tells early end from overflow |
| `RequestReader.ReadLines` | service/fhsm_service.c:1173-1284 | the pointer walk over the buffer gives the reading of the head line by line |
| `RequestReader.ReadBody` | service/fhsm_service.c:1292-1311 | the body is the declared bytes, and nothing beyond them is read |
| `RequestReader.ReadRequest` | service/fhsm_service.c:1136-1313 | chunking independence: for every stream and every way reads split it, verdict, fields and body are those of the one pure reading, which `HttpPrinted.ParseIff` and `HttpRefusals.ParseRefusedIff` tie to the bytes |
| `Dispatch.Validate` | scripts/gen_p11_thunks.py:719-734 | accepts exactly the tables with distinct names, distinct values, handlers and known statuses; otherwise names the first row that spoils the table |
| `Dispatch.SortKeeps` | scripts/gen_p11_thunks.py:865 | sorting orders the rows by value and neither drops nor adds one |
| `Dispatch.Lookup` | scripts/gen_p11_thunks.py:956-967 | the emitted loop computes `Search`, whatever the table |
| `Dispatch.SearchEnds` | scripts/gen_p11_thunks.py:956-967 | on any table the search ends at the one row of that code to which every probe on the way points, or finds nothing |
| `Dispatch.AnswerIff` | scripts/gen_p11_thunks.py:864-967 | for every accepted table and every code the lookup answers a row if and only if it has that emitted code and is reached |
| `Dispatch.DispatchExact` | scripts/gen_p11_thunks.py:864-967 | for every accepted table the lookup answers every code with exactly the source row of that value or none, if and only if the rows it reaches are those whose value fits 32 bits |
| `Dispatch.InRangeIsExact` | scripts/gen_p11_thunks.py:864-967 | in particular when all values fit |
| `Dispatch.ProfilesAgree` | scripts/gen_p11_thunks.py:937-967 | for every table and code both profiles answer alike; rows marked approved are identical, all others differ only in the rejecting handler |
| `Dispatch.LookupIsSourceRow` | scripts/gen_p11_thunks.py:864-967 | for every accepted table in range and each of its rows, looking up its value gives its name, family and operation, marked approved exactly when its status is, with its own handler in the full profile and, in the strict one, its own if approved and the rejecting one otherwise |
| `Dispatch.UnknownCodeIsNone` | scripts/gen_p11_thunks.py:956-967 | in such a table a code that no row has is not answered |
| `Dispatch.WrappedCodeAnswers` | scripts/gen_p11_thunks.py:945-962 | a row beyond 32 bits can be answered under a code it does not have |
| `Dispatch.WrappedCodeHides` | scripts/gen_p11_thunks.py:945-962 | and can hide a row in range |
| `EcdsaRaw.PaddedOfValue` | src/fhsm_ecdsa_raw.c:41-42 | right-aligning a number in the width it was read from gives its octets back, leading zeros included |
| `EcdsaRaw.ReadSignatureOf` | src/fhsm_ecdsa_raw.c:29-34 | the DER of a pair reads back as the pair, whatever follows |
| `EcdsaRaw.SignatureOfRead` | src/fhsm_ecdsa_raw.c:29-34 | what reads as a pair begins with its DER: the encoding is unique |
| `EcdsaRaw.SignatureIff` | src/fhsm_ecdsa_raw.c:29-34 | the DER of a pair is 0x30 and a shortest definite length, then 0x02, a length and r in shortest form, then 0x02, a length and s, and those octets are nothing else |
| `EcdsaRaw.BigEndian` | src/fhsm_ecdsa_raw.c:41-42 | the first octet weighs most |
| `EcdsaRaw.PutNumber` | src/fhsm_ecdsa_raw.c:41-42 | writes a number's octets before a position and touches nothing else |
| `EcdsaRaw.WriteRaw` | src/fhsm_ecdsa_raw.c:25-45 | on success writes r and s right-aligned and returns their width; too wide leaves zeros, anything else leaves the buffer alone |
| `EcdsaRaw.RawRoundTrip` | src/fhsm_ecdsa_raw.c:25-65 | for every width and every r and s, DER and back is the identity, leading zeros and sign octets included |
| `EcdsaRaw.DerRoundTrip` | src/fhsm_ecdsa_raw.c:25-65 | what decodes is encoded to the very bytes it was read from |
| `EcdsaRaw.HalvesInOrder` | src/fhsm_ecdsa_raw.c:47-65 | encoding gives some octets if and only if the input has the right width and they are the signature of its first half and its second, in that order |
| `EcdsaRaw.DecodeFailsIff` | src/fhsm_ecdsa_raw.c:36-40 | decoding a well-formed signature fails if and only if r or s needs more than nlen octets |

## Left out

- AuditIntegrity.HonestLogAcceptedIff: a parameter named `hmac` whose value opens with 64 hex digits is excluded, because what the verifier then decides is whether those digits are the MAC of the text before them.
- AuditSearch.PrevLands: keys that contain a quotation mark are excluded, as they break out of their string; every caller in the repository passes literal names.
- AuditSearch.HmacLands: keys that contain a quotation mark are excluded, for the same reason.
- AuditTorn.LogAcceptedIff: when two texts do clash, which of the two verdicts falls is left to the MAC; the runs are shorter than 2^64 attempts.
- AuditIntegrity.ChainIntegrity: the MAC's unforgeability is a hypothesis about the file at hand, and openings have fewer than 2^64 attempts with parameter names clear of the tag fields.
- Audit-key provisioning, sealing, file numbering and permissions: device and file-system I/O.
- The thread-local guard against nested audit events and the early return before the log is open (`src/fhsm_audit.c:591-598`): one-line tests.
- Fork handling and the allocator behind the entry lock (`src/fhsm_apilock.c:74-90`): process semantics outside the file.
- Budget.Table.Charge: counts are unbounded naturals; the wrap of a 32-bit count after 2^32 refusals is not modelled.
- Budget.Table.Save: the temporary file and its rename are one step that succeeds or changes nothing.
- BudgetRate.ProbingRate: charges that find no slot are outside it; `Budget.UnchargedExactlyWhenFull` says which they are.
- BudgetLaws.OwesTheLadder: the clock does not go back within the ten minutes.
- BudgetLaws.RestartNeverHelps: histories are shorter than 2^32 acts, the width of a stored count.
- FairnessRuns.FairnessAccounting: admissions that find no slot are outside it; `AccountKeptIff` says which they are and `NeverOvercounts` covers every run.
- FairnessPresence.RefusedIff: the clock does not go back and has passed 30 s; before that the code counts every entry as present, served or not. Runs in which an admission finds no slot are outside it.
- HandoffRuns.ClosedExactlyOnce: the private listener only; `main` also sets the public listener's stop flag from outside.
- Handoff.Listener.Expire: deadlines appear as the set of connections that were late when looked at.
- Burst.Bursts.Note: the 64-bit wrap of the refusal counter and the rendering of the lines.
- RequestReader.ReadRequest: no timeouts and no I/O errors; the fields left behind by a refused request, the `hdr_used` counter, which nothing reads, and the HTTP status that goes with each reason are not modelled.
- The branch for a header line without CRLF (`service/fhsm_service.c:1212`) is unreachable and has no counterpart.
- EcdsaRaw.WriteRaw: malformed signatures are those the DER rules refuse; what a lenient library would accept beyond them is not modelled, nor is the truncation of `nlen` to `int`.
- EcdsaRaw.RawRoundTrip: any limit of the library on very long numbers is not modelled; allocation failures return 0 and are left out.
- Routing, authorisation policy, signing, OCSP, responses and signal handling of the daemon: plumbing around the parts modelled here.
- `fhsm_mech_is_ecdsa`, `fhsm_pq_params.c`, attribute helpers, configuration and policy parsing: short, easy facts.
- The test-vector reader, cryptographic self-tests and everything behind OpenSSL calls: code over an unseen library.
