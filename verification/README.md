# Verification of the VoxTranslate relay's stateful core

A Dafny model of the parts of the VoxTranslate repository (a Rust/Axum relay for translated video
calls, its browser audio code and its splash-screen script) that carry state, parse text, or run
concurrently, with proofs about every input, every run or every schedule. Each module follows one
source file. Code that changes state is a class or a method with loops; it is proved against a
specification function, and the properties are lemmas about that function.

| module | models |
|---|---|
| `Money`, `Ledger`, `LedgerSteps` | credit ledger: rounding, the operations one at a time, and the same operations as interleaving transactions |
| `Png` | PNG reader and writer of the splash-screen script |
| `LogShipping` | IP redaction of log lines |
| `GlossaryCsv`, `Glossary` | CSV reader, normaliser, import and lookup of the glossary |
| `Docx` | text scanner for Word documents |
| `RateLimit` | fixed-window limiter with eviction |
| `Friends` | friend requests over one row per pair |
| `AudioCapture`, `PcmCapture`, `Rnnoise`, `PcmPlayback` | recorder protocol, capture chunker, denoiser reblocking, jitter buffer |
| `Text`, `Sequences`, `Arithmetic`, `Wrappers` | shared definitions |

## What the proofs found

- **Ledger rounding.** The program rounds a new balance half to even, the `DECIMAL(10, 6)` column of
  the ledger rounds half away from zero. An amount that lies half a millionth between two values can
  therefore move the balance and the ledger apart; `BooksKeptExactlyWhen` says exactly when and
  `HalfAMillionthIsLost` gives the input. Amounts made by `usd` never do (`UsdIsExact`).
- **Rate limiter eviction.** The repository calls one limiter with windows of 30, 60 and 3600
  seconds. Pruning with a short window forgets live entries of a longer one, so eviction is visible;
  `EvictionInvisibleExactlyWhen` gives the exact condition. What the mix costs is exact too: a key whose
  window nobody undercuts gets at most 2·max − 1 calls through in one window length (sharp), and
  `IntervalBoundExactlyWhen` shows that the bound is lost as soon as one caller has a shorter window; then
  `SharedBound` holds, which allows 2·max − 1 calls at one instant (`SharedBoundIsReached`). A refusal is
  deserved whatever the windows and limits are.
- **Friend requests.** `request` reads and writes in two statements. When they are not atomic, a
  withdrawn request can still turn into a friendship (`LateWriteCanBypassConsent`, and as a run
  `BypassIsReachable`). Over every interleaving this happens exactly when the write of a handler that
  read a request of the other user meets a pending request of its own caller: `ConsentBrokenExactlyWhen`,
  `InterleavedConsent`.
- **Recorder protocol.** Frames on the wire are bracketed unless a recorder is started while the
  socket is still connecting, or `recorder.start` throws after the `start` frame has been sent:
  `OffenceExactlyWhenGarbled` shows both conditions are needed.
- **Denoiser priming.** The comment at `client/public/rnnoise-worklet.js:155` speaks of the first 480
  samples; the silent 128-sample quanta are the 1st, 2nd, 3rd and 7th (`SilentAt128`).
- **Jitter buffer.** The depth count is right at every moment of a run exactly when no quantum reaches an
  empty frame (`AlwaysInSyncExactlyWhen`), it can be trusted from a state on exactly when no empty frame is
  queued there (`StaysInSyncExactlyWhen`), and `EmptyFrameLosesCount` is a run that loses it.
- **Glossary CSV.** A first row whose first field spells `source_lang` is dropped, whatever it means;
  no row the normaliser accepts can be such a row (`SoundIsNotHeader`), so re-importing a stored
  glossary changes nothing. Terms may hold newlines, though, and a glossary with one cannot be exported
  as text at all (`ExportableExactlyWhen`).
- **PNG writer.** Pixels missing from any row but the last make the file unreadable, pixels beyond the
  last row are ignored: `WriteThenRead` says exactly which inputs come back.

## Modelling decisions

Audio samples are reals. Times of the limiter are whole ticks of any length. Money is counted in
millionths of a dollar: balances and columns are integers, amounts handed to the ledger are reals.
The step model of the ledger uses PostgreSQL's READ COMMITTED behaviour: row locks and inserted unique
keys are held until the transaction ends, a waiting `SELECT … FOR UPDATE` sees the row as committed, a
waiting insert of a taken key conflicts. A friend request is one step in the first part of `Friends`; in
the last part its two statements interleave with everything else, and it enters the history when its
write takes effect. Compression and checksums, XML entities, the denoising model,
Unicode lower-casing and the ids the database generates are parameters.

## Model

| member | source | states |
|---|---|---|
| Money.RoundingsAgreeExactlyWhen | server/src/billing.rs:145 | the rounded new balance and the rounded ledger amount agree if and only if the amount is no tie or the tie falls on the right parity |
| Money.RoundingsAreClose | server/src/billing.rs:145 | they never differ by more than one millionth |
| Money.UsdIsExact | server/src/billing.rs:457-461 | an amount made by `usd` is whole millionths, within half a millionth of the dollars, and reconciles with every balance |
| Money.RoundHalfEvenIs | server/src/billing.rs:145 | the new balance is the nearest whole number of millionths, and of two nearest ones the even one |
| Money.RoundHalfAwayIs | server/migrations/001_init.sql:20-23 | a ledger column is the nearest one, and of two nearest ones the one further from zero |
| Ledger.Billing.AddCredits | server/src/billing.rs:131-166 | new balance, ledger row and outcome of a credit, including an unknown user |
| Ledger.Billing.CreditFromStripeEvent | server/src/billing.rs:174-219 | a recorded event credits nothing; otherwise event, balance and row are written together or not at all |
| Ledger.Billing.DeductUsage | server/src/billing.rs:226-271 | deduction with balance check, ledger row and usage-session accumulation |
| Ledger.Billing.DeductFeature | server/src/billing.rs:279-319 | deduction with balance check and a row of the feature's kind |
| Ledger.Billing.UpsertGoogleUser | server/src/auth.rs:190-251 | an account is found, or created with balance and welcome row |
| Ledger.CreditArrives | server/src/billing.rs:139-165 | a whole credit `a` on balance `b` gives exactly b + a, with a row of that amount, balance, kind and event |
| Ledger.StripeArrives | server/src/billing.rs:182-218 | a new payment of `a` on balance `b` gives exactly b + a, with its row and the event on record |
| Ledger.UsageIsTaken | server/src/billing.rs:231-270 | covered usage takes exactly its amount, and its session gains the seconds and the amount |
| Ledger.FeatureIsTaken | server/src/billing.rs:284-318 | a covered charge takes exactly its amount, with a row named after the feature |
| Ledger.SignInGrants | server/src/auth.rs:197-251 | a first sign-in creates an account that holds exactly the grant, a later one changes nothing |
| Ledger.CreditsAreAnswered | server/src/billing.rs:131-219 | a credit is refused exactly for an unknown user, a payment also for an event on record, and then nothing changes |
| Ledger.AnyAmountArrives | server/src/billing.rs:145 | a committed amount, whole or not, changes the balance by itself to within half a millionth |
| Ledger.BalanceIsNetWorth | server/src/billing.rs:131-319 | over any run of whole amounts a balance is the starting balance plus welcome grants, committed credits and payments, less committed deductions |
| Ledger.BooksKeptExactlyWhen | server/src/billing.rs:145-164 | an operation keeps "balance = sum of rows, each row the running sum" if and only if it commits nothing or its amount reconciles |
| Ledger.HalfAMillionthIsLost | server/src/billing.rs:145-164 | the input for which the books go wrong |
| Ledger.BooksBalanceExactlyWhen | server/src/billing.rs:145-164 | the books balance at every moment of a run if and only if every committed amount reconciles |
| Ledger.BooksStayBalanced | server/migrations/001_init.sql:17-28 | from balanced books, any operations without ties leave balanced books, account creation included |
| Ledger.DeductionsAreCovered | server/src/billing.rs:239-242 | a deduction commits if and only if the balance covers it, never leaves debt, and otherwise changes nothing |
| Ledger.NobodyOverspends | server/src/billing.rs:222-225 | over any run with non-negative credits no balance is negative |
| Ledger.OnceStaysOnce | server/src/billing.rs:168-173 | over any run an event is recorded if and only if exactly one row credits it, and every user has exactly one welcome row and one account |
| Ledger.AccruesExactlyWhen | server/src/billing.rs:257-268 | cost and ledger row round to the same amount if and only if the amount is no tie or does not change the sign |
| Ledger.SessionCostExactlyWhen | server/src/billing.rs:257-268 | a session's cost is what its committed usage took off balances at every moment of a run if and only if every charge accrues |
| Ledger.SessionCostIsSpent | server/src/billing.rs:257-268 | a session costs what its committed usage took off balances, for all amounts that are not negative and for all without ties |
| Ledger.EqualDeductions | server/src/billing.rs:231-272 | what any number of equal deductions leaves of a balance |
| Ledger.LeftIs | server/src/billing.rs:239-242 | exactly the first ⌊balance / amount⌋ equal deductions are covered |
| LedgerSteps.OthersKeep | server/src/billing.rs:139-144 | a statement of one transaction never disturbs what another one's locks protect |
| LedgerSteps.StepIsAtomic | server/src/billing.rs:139-165 | nothing is visible before the commit, which has the effect of the whole operation at that moment |
| LedgerSteps.Serializable | server/src/billing.rs:131-319 | every schedule with crashes is equivalent to running the ended transactions one at a time, with the same rows and the same reports |
| LedgerSteps.BooksBalanceConcurrently | server/src/billing.rs:131-319 | the books balance at every moment of every schedule |
| LedgerSteps.NobodyOverspendsConcurrently | server/src/billing.rs:221-225 | no schedule overspends a balance |
| LedgerSteps.OnceConcurrently | server/src/billing.rs:168-173 | exactly-once credit and welcome under replays, races and crashes |
| LedgerSteps.CommittedIsRecorded | server/src/billing.rs:247-256 | a reported success has its row in the ledger, and a reported deduction left no debt |
| LedgerSteps.BalanceIsWhatIsReported | server/src/billing.rs:131-319 | in every schedule with crashes and whole amounts, a balance is the starting balance plus what transactions reported as committed: grants, credits and payments, less deductions |
| LedgerSteps.OneDeliveryCredits | server/src/billing.rs:182-194 | of all deliveries of one event at most one credits |
| LedgerSteps.RecordedMeansCredited | server/src/billing.rs:172-173 | an event on record has been credited by one of the deliveries |
| LedgerSteps.OneSignInCreates | server/src/auth.rs:185-189 | racing sign-ins of one Google account get one user, created at most once |
| LedgerSteps.RaceIsExact | server/src/billing.rs:570-593 | n racing deductions of a from b commit at most ⌊b/a⌋ times, and exactly min(n, ⌊b/a⌋) when none is cut off |
| LedgerSteps.NoDeadlock | server/src/billing.rs:182-199 | while a transaction has not ended, one of them is not blocked |
| LedgerSteps.MovesEnd | server/src/billing.rs:131-319 | every statement and crash brings the end nearer |
| LedgerSteps.AllCanEnd | server/src/billing.rs:131-319 | from every reachable state all transactions can run to their end |
| Png.UnpackedPacked | scripts/gen-ios-splash.py:60-63 | four-byte numbers survive packing |
| Png.PaethIsNearest | scripts/gen-ios-splash.py:73-76 | the predictor is the neighbour nearest to a + b − c, ties in the order a, b, c |
| Png.StandardIsDifference | scripts/gen-ios-splash.py:85-94 | a stored byte is the one section 6 of RFC 2083 prescribes (1 left, 2 above, 3 half their sum, 4 nearest neighbour) if and only if it is the difference the reader undoes |
| Png.StandardImageIsRead | scripts/gen-ios-splash.py:78-96 | rows stored byte by byte as that section prescribes are read as the image |
| Png.LayoutIsStandard | scripts/gen-ios-splash.py:57-65 | signature, chunk names and the places of width, height and colour type |
| Png.UnfilteringInverts | scripts/gen-ios-splash.py:82-94 | left-to-right reconstruction inverts differencing for any predictor and pixel size |
| Png.UnfilterRow | scripts/gen-ios-splash.py:82-94 | the in-place loop computes the reconstruction, or fails exactly when an index runs off the line |
| Png.DecodeRows | scripts/gen-ios-splash.py:78-96 | the row loop with its carried previous row, short data included |
| Png.WalkChunks | scripts/gen-ios-splash.py:58-68 | the chunk loop, which advances by at least 12 bytes |
| Png.DecodePngRgb | scripts/gen-ios-splash.py:54-102 | the reader with all its error cases |
| Png.RowsInvert | scripts/gen-ios-splash.py:79-96 | rows stored with any filter each are read back |
| Png.WalkAll | scripts/gen-ios-splash.py:58-68 | the walk over any chunks gathers their data in order and the last header |
| Png.DecodeInvertsLayout | scripts/gen-ios-splash.py:54-102 | reading returns the image for every choice of filters, split of the data and other chunks in between |
| Png.DecodeReadsStandard | scripts/gen-ios-splash.py:54-102 | a file with the signature, a header of colour type 2 or 6 and rows stored as the standard prescribes is read as its size and colours |
| Png.SignatureIsChecked | scripts/gen-ios-splash.py:57 | anything without the eight bytes of the signature is refused |
| Png.OthersAreRefused | scripts/gen-ios-splash.py:69-70 | data that does not decompress and other colour types are refused |
| Png.DropAlphaInverts | scripts/gen-ios-splash.py:97-101 | dropping alpha leaves the colours |
| Png.WritePngRgb | scripts/gen-ios-splash.py:105-118 | the bytes written, and the numbers that do not fit |
| Png.WriteThenRead | scripts/gen-ios-splash.py:54-118 | reading a written file gives (w, h, px) if and only if (h − 1)·3w ≤ len(px) ≤ h·3w, and what happens otherwise |
| LogShipping.RedactIp | server/src/log_shipping.rs:174-195 | the loop computes the redaction of the line |
| LogShipping.FieldIsTruncated | server/src/log_shipping.rs:176-193 | the value of a field `"ip":"…"` is truncated and the text around it stays |
| LogShipping.NoFieldNoChange | server/src/log_shipping.rs:174-195 | a line without the field is unchanged |
| LogShipping.TruncateDotted | server/src/log_shipping.rs:206-216 | a dotted quad of valid octets loses exactly its last octet |
| LogShipping.TruncateColons | server/src/log_shipping.rs:217-223 | behind three hex groups and a colon nothing survives |
| LogShipping.OctetExactlyWhen | server/src/log_shipping.rs:206-213 | an octet is what spells a number up to 255, from a table of digits, with an optional plus sign |
| LogShipping.HexGroupExactlyWhen | server/src/log_shipping.rs:217-222 | a hex group is what spells a number up to 65535 with digits of either case |
| LogShipping.TruncateQuad | server/src/log_shipping.rs:206-216 | the quad n1.n2.n3.n4 becomes n1.n2.n3.0, or `redacted` if and only if a number is above 255 |
| LogShipping.TruncateGroups | server/src/log_shipping.rs:217-223 | three hex numbers are kept with `::` behind them, or `redacted` stands there if and only if one has more than 16 bits |
| LogShipping.TruncateSafe | server/src/log_shipping.rs:202-225 | every result is anonymised, holds no quote and is stable |
| LogShipping.ShowParse | server/src/log_shipping.rs:178-193 | splitting a line into text and addresses loses nothing |
| LogShipping.ParseRedacted | server/src/log_shipping.rs:178-193 | all text outside the addresses is unchanged and no field appears or disappears at a splice |
| LogShipping.NothingIdentifyingLeaves | server/src/log_shipping.rs:161-173 | every terminated address field of the result, at any position, is anonymised |
| LogShipping.RedactIsIdempotent | server/src/log_shipping.rs:174-195 | redacting twice changes nothing more |
| LogShipping.RevealsOnlyTruncated | server/src/log_shipping.rs:161-173 | two lines become equal if and only if they agree on the text and the truncated addresses |
| GlossaryCsv.SplitCsvLine | server/src/glossary.rs:160-186 | the character loop computes the fields of a line |
| GlossaryCsv.ImportCsv | server/src/glossary.rs:123-156 | the line loop with header, blank lines and field-count error |
| GlossaryCsv.FieldsQuoted | server/src/glossary.rs:167-174 | a quoted field is read back, doubled quotes and commas included |
| GlossaryCsv.FieldsCells | server/src/glossary.rs:158-186 | a printed row is read back, each cell quoted or bare |
| GlossaryCsv.FieldsPadded | server/src/glossary.rs:175-177 | white space in front of an opening quote does not count |
| GlossaryCsv.HeaderExactlyWhen | server/src/glossary.rs:131-138 | a header row is one whose first field spells `source_lang` in either case |
| GlossaryCsv.ImportFailsExactlyWhen | server/src/glossary.rs:123-156 | an import fails with line n, counted from 1, if and only if that is the first line that is neither blank, nor a leading header, nor four fields |
| GlossaryCsv.LinesOfFile | server/src/glossary.rs:126 | the lines of a file are found under either line ending |
| GlossaryCsv.PrintableExactlyWhen | server/src/glossary.rs:118-122 | trimmed entries can be printed as a file if and only if no field holds a newline |
| GlossaryCsv.ReadableExactlyWhen | server/src/glossary.rs:123-156 | trimmed entries without a header row are what some text reads as if and only if no field holds a newline |
| GlossaryCsv.ImportInvertsPrinting | server/src/glossary.rs:118-156 | printing in any style and reading returns the entries, but for a leading header row |
| Glossary.NormalizeEntries | server/src/glossary.rs:68-116 | cleaning, the first defect in order, dedupe and the cap |
| Glossary.DefectExactlyWhen | server/src/glossary.rs:72-92 | a row is in order if and only if its codes differ and have 1 to 10 bytes and its terms 1 to 200 characters; otherwise it has exactly one first complaint |
| Glossary.RefusedExactlyWhen | server/src/glossary.rs:70-92 | a payload is refused for a row and a complaint if and only if that is the first complaint of the first row not in order |
| Glossary.RefusalIsAboutRow | server/src/glossary.rs:70-114 | a refusal names a row that is there, or all rows are in order and there are too many keys |
| Glossary.AcceptedRows | server/src/glossary.rs:68-116 | what is stored is exactly the trimmed rows, with lower-cased codes, that are last with their languages and term |
| Glossary.DedupeBackwards | server/src/glossary.rs:98-110 | the backward scan keeps the last row of each key in order |
| Glossary.KeptAreDistinct | server/src/glossary.rs:64-67 | no two kept rows share a key |
| Glossary.KeptIsOverwrite | server/src/glossary.rs:64-67 | the kept rows hold what overwriting a map top to bottom holds |
| Glossary.CapCountsKeys | server/src/glossary.rs:112-114 | the cap counts distinct keys |
| Glossary.NormalizeIsIdempotent | server/src/glossary.rs:68-116 | an accepted result is accepted again unchanged |
| Glossary.GlossaryImport | server/src/api.rs:1965-1994 | the merged and normalised entries, with every refusal |
| Glossary.ImportOverrides | server/src/api.rs:1979-1994 | imported rows win for their keys, every other row is kept, imported rows come last |
| Glossary.SoundIsNotHeader | server/src/glossary.rs:131-138 | no acceptable row is taken for a header |
| Glossary.ReimportIsIdentity | server/src/api.rs:1965-1994 | importing any file that holds the entries of a stored glossary changes nothing |
| Glossary.ExportableExactlyWhen | server/src/glossary.rs:118-186 | a text that reads as a stored glossary exists if and only if no field holds a newline, and quoting every field is one |
| Glossary.TermsAreUnambiguous | server/src/glossary.rs:51-61 | in whatever order the entries are loaded, a prompt holds each source term once, with the translation the table has, at most 50 of one direction |
| Docx.ExtractText | server/src/files.rs:514-556 | the scanning loop computes the text |
| Docx.ExtractPastTag | server/src/files.rs:532-541 | other tags, `<w:tbl>` and `<w:tab/>` included, add nothing |
| Docx.ExtractInvertsShow | server/src/files.rs:514-556 | a rendered document gives its run texts, those that cannot be decoded as they stand, and one newline per closed paragraph |
| Docx.CuttingOnlyShortens | server/src/files.rs:500-512 | wherever the document is cut off, the text is a prefix of the whole text |
| RateLimit.RateLimiter.Allow | server/src/rate_limit.rs:31-49 | the map and the answer after one call |
| RateLimit.EvictionInvisibleExactlyWhen | server/src/rate_limit.rs:33-48 | pruning is invisible on all runs if and only if all windows are equal and no limit is 0 |
| RateLimit.FewKeysAreRemembered | server/src/rate_limit.rs:33-36 | a run over at most 10 000 keys answers as a limiter that never forgets, whatever windows and limits are mixed |
| RateLimit.ForgetsExactlyWhen | server/src/rate_limit.rs:33-36 | a call forgets another key if and only if there are more than 10 000 entries and its window, as the caller measures it, has elapsed |
| RateLimit.IntervalBound | server/src/rate_limit.rs:5-12 | the admissions in any closed interval of a key whose window nobody undercuts, whatever else shares the limiter |
| RateLimit.WindowBound | server/src/rate_limit.rs:5-12 | at most 2·max − 1 of them within one window length |
| RateLimit.WindowBoundIsReached | server/src/rate_limit.rs:38-48 | a run that reaches this bound |
| RateLimit.IntervalBoundExactlyWhen | server/src/rate_limit.rs:33-48 | the bound holds on every run over a set of windows if and only if none is shorter than the key's own |
| RateLimit.SharedBound | server/src/rate_limit.rs:33-48 | with s the shortest window in use, at most max − 1 + max·(1 + ⌊D/(s+1)⌋) admissions in an interval of length D |
| RateLimit.SharedBoundIsReached | server/src/rate_limit.rs:33-48 | 2·max − 1 admissions at one instant |
| RateLimit.RefusalIsDeserved | server/src/rate_limit.rs:46-48 | a refused call has seen its own max admitted within its own window, whatever windows and limits share the limiter |
| Friends.Friendships.SendRequest | server/src/friends.rs:192-240 | row and reply of a request |
| Friends.Friendships.AcceptRequest | server/src/friends.rs:243-267 | only the other party accepts, and only a pending row |
| Friends.Friendships.RemoveFriend | server/src/friends.rs:271-285 | the row of the pair is gone |
| Friends.AlwaysCanonical | server/migrations/029_friends.sql:8-18 | over any run there is at most one row per unordered pair, low id first, asked for by one of the two |
| Friends.HistoryExplainsRow | server/src/friends.rs:192-285 | the history of a pair decides its row |
| Friends.FriendshipNeedsTwoConsents | server/src/friends.rs:145-148 | two users are friends if and only if one asked and the other agreed since the last removal |
| Friends.ListsAgree | server/src/friends.rs:93-143 | friend lists are symmetric, incoming mirrors outgoing, nobody stands in two lists |
| Friends.FriendsListIsConsent | server/src/friends.rs:92-108 | the friend list shows exactly the users with mutual consent |
| Friends.RequestsAreOpenAsks | server/src/friends.rs:110-143 | what is listed as received or sent is what has been asked and neither agreed to nor removed |
| Friends.RequestAnswers | server/src/friends.rs:192-240 | the reply to a request says, case by case, what the history of the two users is |
| Friends.AcceptAnswers | server/src/friends.rs:243-267 | accepting succeeds if and only if the other user has an open request |
| Friends.LateWriteIsAtomicExactlyWhen | server/src/friends.rs:196-236 | when the separate read and write amount to one atomic request |
| Friends.LateWriteCanBypassConsent | server/src/friends.rs:213-222 | a history and a late write that make a friendship one side does not want |
| Friends.LateWriteKeepsConsentExactlyWhen | server/src/friends.rs:196-236 | after any history a late write keeps to two consents if and only if it does not turn its own caller's request into a friendship |
| Friends.TogetherIsAtomic | server/src/friends.rs:196-236 | read and write one after the other are the atomic request |
| Friends.ConsentBrokenExactlyWhen | server/src/friends.rs:196-236 | a step of an interleaving breaks the rule of two consents if and only if it is such a write |
| Friends.InterleavedConsent | server/src/friends.rs:145-285 | over every interleaving without such a write, two users are friends if and only if one asked and the other agreed since the last removal |
| Friends.BypassIsReachable | server/src/friends.rs:213-222 | an interleaving that ends in such a write |
| AudioCapture.AudioCapture.Start | client/src/scripts/audio-capture.ts:29-51 | fields and frames after a start, for every answer of the browser |
| AudioCapture.AudioCapture.Stop | client/src/scripts/audio-capture.ts:53-72 | the handler is detached and the stop frame sent at once |
| AudioCapture.AudioCapture.Restart | client/src/scripts/audio-capture.ts:82-85 | stop, then start |
| AudioCapture.AudioCapture.SetMuted | client/src/scripts/audio-capture.ts:88-91 | mute stops, unmute starts |
| AudioCapture.AudioCapture.DataAvailable | client/src/scripts/audio-capture.ts:44-46 | a chunk is sent if its handler is still attached, it is not empty and the socket is open |
| AudioCapture.CaptureIsBracketed | client/src/scripts/audio-capture.ts:29-95 | on every guarded run the frames are a prefix of (start chunk* stop)*, each session's chunks from its own recorder, and the session is open exactly while capture is active |
| AudioCapture.OpenSocketSuffices | client/src/scripts/audio-capture.ts:29-95 | with an open socket and recorders that start, every run is guarded |
| AudioCapture.OffenceExactlyWhenGarbled | client/src/scripts/audio-capture.ts:48-50 | a step breaks a guard if and only if a harmless continuation can then garble the wire |
| AudioCapture.ChunkIsHeardExactlyWhen | client/src/scripts/audio-capture.ts:44-46 | a chunk is sent if and only if it is not empty, comes from the recorder of the active capture, and the socket is open |
| AudioCapture.EndIsHeard | client/src/scripts/audio-capture.ts:53-72 | stop and mute end the capture and send the stop frame of an active one on an open socket |
| AudioCapture.StartAnswers | client/src/scripts/audio-capture.ts:29-51 | when start and unmute begin a capture, and what they send |
| AudioCapture.RestartIsHeard | client/src/scripts/audio-capture.ts:82-85 | a restart of an active capture sends stop and start and listens to a new recorder only |
| AudioCapture.SilentUntilStarted | client/src/scripts/audio-capture.ts:29-95 | from a capture that is not active no run sends a chunk until a recorder is started |
| AudioCapture.MutedIsSilent | client/src/scripts/audio-capture.ts:53-91 | over every run, after stop or mute the stop frame is out at once and no chunk follows until a later call starts a recorder |
| AudioCapture.CaptureSendsAll | client/src/scripts/audio-capture.ts:44-46 | an active capture on an open socket sends each non-empty chunk of its recorder, in order, and nothing else |
| AudioCapture.SessionIsHeard | client/src/scripts/audio-capture.ts:29-72 | a session from its start to its end puts start, all its chunks and stop on the wire |
| AudioCapture.ClosedSaysNothing | client/src/scripts/audio-capture.ts:93-95 | nothing is sent on a closed socket |
| PcmCapture.PcmCaptureProcessor.Process | client/public/pcm-capture-worklet.js:11-36 | quantise, queue, and post a merged chunk |
| PcmCapture.QuantiseFits | client/public/pcm-capture-worklet.js:16-19 | storing in 16 bits never wraps |
| PcmCapture.QuantiseError | client/public/pcm-capture-worklet.js:16-19 | the error is below one step, toward zero; silence and the extremes are exact |
| PcmCapture.QuantisedSample | client/public/pcm-capture-worklet.js:16-19 | between -1 and 1 the number stored is within one step of the sample times 32767 or 32768, toward zero; beyond, it is an extreme |
| PcmCapture.QuantiseMonotone | client/public/pcm-capture-worklet.js:16-19 | quantisation is monotone |
| PcmCapture.CaptureLosesNothing | client/public/pcm-capture-worklet.js:21-33 | posted chunks and pending samples are the quantised input in order |
| PcmCapture.PendingIsShort | client/public/pcm-capture-worklet.js:22-33 | the count is the pending length and below the target between calls |
| PcmCapture.ChunkLengths | client/public/pcm-capture-worklet.js:9-30 | chunks are between target and target + block − 1 long |
| Rnnoise.RnnoiseProcessor.Instantiated | client/public/rnnoise-worklet.js:79-99 | a fresh model state, buffers kept |
| Rnnoise.RnnoiseProcessor.Failed | client/public/rnnoise-worklet.js:49-55 | pass-through from then on, buffers kept |
| Rnnoise.RnnoiseProcessor.DrainFrames | client/public/rnnoise-worklet.js:111-128 | every whole frame goes through the model in order |
| Rnnoise.RnnoiseProcessor.Process | client/public/rnnoise-worklet.js:130-159 | pass-through, silence and denoised output of one quantum |
| Rnnoise.StreamingIsBatch | client/public/rnnoise-worklet.js:110-158 | output so far followed by what waits is the batch denoising of the input |
| Rnnoise.BatchSample | client/public/rnnoise-worklet.js:111-124 | the model is fed frames of 480 samples times 32768, each with the state the earlier ones left, and its answer is divided by 32768 |
| Rnnoise.EmittedSample | client/public/rnnoise-worklet.js:110-158 | every sample ever emitted is that answer at the same place of the input |
| Rnnoise.HeldBack | client/public/rnnoise-worklet.js:147-157 | samples held back are those of the silent quanta |
| Rnnoise.SilentExactly | client/public/rnnoise-worklet.js:150-157 | the exact number of silent quanta after k quanta |
| Rnnoise.SilenceIsBounded | client/public/rnnoise-worklet.js:154-157 | at most ⌊478/n⌋ + 1 quanta are ever silent |
| Rnnoise.SilentAt128 | client/public/rnnoise-worklet.js:155 | at 128 samples exactly quanta 1, 2, 3 and 7 are silent |
| PcmPlayback.PcmPlaybackProcessor.OnMessage | client/public/pcm-playback-worklet.js:59-79 | frame and flush messages |
| PcmPlayback.PcmPlaybackProcessor.FillSilence | client/public/pcm-playback-worklet.js:89-95 | the decaying fill |
| PcmPlayback.PcmPlaybackProcessor.Process | client/public/pcm-playback-worklet.js:97-141 | one render quantum, filling or draining |
| PcmPlayback.SilenceDecays | client/public/pcm-playback-worklet.js:88-95 | the fill is the last sample times a power of the decay, zero from the floor on |
| PcmPlayback.TakeKeepsSyncExactlyWhen | client/public/pcm-playback-worklet.js:124-137 | taking a sample keeps the depth right if and only if the frame is not empty |
| PcmPlayback.QuantumInSyncExactlyWhen | client/public/pcm-playback-worklet.js:123-139 | a quantum keeps the depth right if and only if it reaches no empty frame |
| PcmPlayback.AlwaysInSyncExactlyWhen | client/public/pcm-playback-worklet.js:59-141 | the depth is right at every moment of a run if and only if no quantum reaches an empty frame |
| PcmPlayback.StaysInSyncExactlyWhen | client/public/pcm-playback-worklet.js:59-141 | every continuation with non-empty frames keeps the depth right if and only if no empty frame is queued |
| PcmPlayback.EmptyFrameLosesCount | client/public/pcm-playback-worklet.js:124-137 | a run that plays a value that is no number and miscounts |
| PcmPlayback.NoneEmptyIsSmooth | client/public/pcm-playback-worklet.js:71-77 | runs that receive no empty frame never reach one |
| PcmPlayback.PlaysInOrder | client/public/pcm-playback-worklet.js:123-139 | the sample loop plays the first queued samples and stops exactly when there are too few |
| PcmPlayback.PlaybackLosesNothing | client/public/pcm-playback-worklet.js:59-141 | over any run that reaches no empty frame, played samples followed by unplayed ones are those received since the last flush, and the depth is their count |
| PcmPlayback.EdgesAlternate | client/public/pcm-playback-worklet.js:81-86 | posted edges alternate from `true`, and samples play only under a `true` edge |
| PcmPlayback.FalseEdgeMeansEndOfSpeech | client/public/pcm-playback-worklet.js:112-116 | a quantum posts `false` only with nothing queued and a tail timeout of quiet behind it |
| PcmPlayback.PlaybackFollowsPlan | client/public/pcm-playback-worklet.js:59-141 | over every run, samples and edges are those of a plan that counts samples only: a cushion of `prebuffer` or the tail timeout to start, as many samples as there are, silence otherwise |
| PcmPlayback.StartsExactlyWhen | client/public/pcm-playback-worklet.js:107-118 | while playing has stopped, a quantum plays something if and only if a cushion is waiting, or anything is and the tail timeout has passed |
| PcmPlayback.FillContinues | client/public/pcm-playback-worklet.js:89-95 | what a quantum does not play is filled with the decay of the last sample put out |
| PcmPlayback.PlaybackFinishes | client/public/pcm-playback-worklet.js:103-121 | without messages all is played within ⌈TAIL/q⌉ + ⌈Q/q⌉ quanta and `false` is posted within two more |

## Left out

- Profile columns of an account (e-mail, name, avatar, locale, acquisition source) and the unique index on e-mail: they do not touch the ledger.
- `DECIMAL(10, 6)` overflow, statement timeouts and lost commits: a transaction cut off anywhere before its commit is modelled, one whose commit is not reported is not.
- Deleting a user, creating a usage session and the organisation ledger of later migrations.
- Ledger.SessionCostIsSpent: does not cover refunds (negative usage) of half a millionth, for which it is false; `SessionCostExactlyWhen` says when it holds.
- zlib, CRC-32, XML entity decoding, the RNNoise wasm and Unicode lower-casing: parameters, with an inverse pair, an escape pair, a frame function and an idempotent function assumed where a statement needs it.
- Floating-point rounding of samples and NaN samples from the microphone: samples are reals, so a quantised sample is exact up to truncation.
- PcmPlayback.PlaybackLosesNothing: leaves out runs that reach an empty frame, for which it is false (`AlwaysInSyncExactlyWhen`).
- Times of the rate limiter that go backwards: `Instant` is monotone.
- Rate limiter under concurrent calls: `DashMap` guards one key at a time, and pruning runs shard by shard.
- E-mail lookup, rate limit, notifications and display order of the friend handlers.
- Ledger callers, HTTP handlers, authentication, external services, the extension session loop and the AI job endpoints.
- Glossary storage and its cache, and the order the database sorts entries in (the prompt theorem covers every order); the name of a glossary.
- Opening a Word archive and the size cap's effect inside a multi-byte character; `Docx.CuttingOnlyShortens` covers every cut between characters.
- Drawing of the splash screens (`build_master`, `sips`).
