# go-salt-events: a verified model of the event pipeline

The console reads Salt's event bus from a socket, cuts the byte stream into frames, decodes tags,
and hands each event to a hub. The hub feeds three bounded parts under one lock: rate rings that
count events per second and per minute, an index of jobs with a pin and tiered eviction, and an
event cache that sheds payloads before it drops events. A filter of fnmatch globs decides what a
render tick shows. This project states what those parts promise over whole runs and proves it.

## How it is laid out

| file | what it models |
|---|---|
| `Glob.dfy`, `GlobSyntax.dfy` | the single-backtrack glob matcher, its declarative meaning and its work bound; what each element of a pattern says |
| `Query.dfy` | splitting, compiling and evaluating queries |
| `Rings.dfy`, `RingHistory.dfy`, `RingClaims.dfy` | the two modular rings, the unbounded history they refine, and what a gap flag means |
| `Reader.dfy`, `ReaderTrace.dfy` | the connect, read, report and back-off loops, and what holds of every trace |
| `Outage.dfy` | reader, rings and renderer together on one clock |
| `Frame.dfy`, `Feed.dfy` | the wire format, and what a connection's bytes become |
| `Job.dfy` | one job and its incremental counters |
| `IndexSpec.dfy`, `IndexLaws.dfy`, `JobHistory.dfy`, `JobIndex.dfy`, `Evicted.dfy`, `EvictedRun.dfy` | the job index, its accounting and eviction policy, what it knows of each job, and the memory of evictions |
| `Events.dfy`, `Cache.dfy`, `Scan.dfy` | events, the event cache, and its bounded scan |
| `TopN.dfy` | the bounded key counters |
| `HubLog.dfy`, `Hub.dfy`, `HubShares.dfy`, `HubLaws.dfy` | the hub as a composition of the parts |
| `HubOutage.dfy` | the timed protocol seen through the hub |
| `SaltTag.dfy`, `TagShapes.dfy` | tag decoding and normalisation, and what each shape of tag reads as |
| `Sparkline.dfy` | the max-preserving resampler |

Objects whose methods update fields are classes here, with the loops of the code and a contract that
ties each new state to a function of the old one. The laws are lemmas about those functions.

Time is a number of nanoseconds since the Unix epoch and never negative; a time that was never set is
absent. The clock, the outcomes of dials, sleeps and reads, and cancellation are inputs. The message
library is an unknown partial function from bytes to a body, and a subject of a glob is a sequence of
runes.

## Where the code and its comments part

* `internal/stats/rings.go:203-205` rolls a ring forward in bulk on a jump of exactly one ring length.
  The bucket after the old head is still visible then and loses a gap flag that rolling one by one
  would have set. `RingHistory.BulkLosesExactlyOneFlag` says exactly when one roll does so,
  `RingHistory.CodeAgreesWithIdeal` follows it through whole runs, `RingHistory.PollsShowTheSame` says
  exactly when it makes a window depend on how often it was read, and `RingHistory.AnExactJump` gives
  an instance.
* `internal/stats/jobs.go:460-463` does not refresh a job that is evicted again, so one of the last
  evictions can be forgotten. `Evicted.RecentStaysRemembered` says exactly when one eviction does so and
  `Evicted.RecentAlwaysRemembered` when a whole log never does. `Evicted.ARepeatIsForgotten` shows it at
  every capacity, and `EvictedRun.ARecentEvictionIsUnseen` in a run of the index.
* `internal/saltipc/frame.go:96-104` splits at the first delimiter, so a tag that ends in a newline does
  not come back. `Frames.SplitInvertsJoin` says exactly which tags do.
* `internal/saltipc/frame.go:74-76` gives the end of the stream for a body of which no byte arrived, and
  a recoverable failure for one cut short later. `Frames.TailIsOneErrorAtMost` covers both.

## Model

| member | source | states |
|---|---|---|
| Glob.Fnmatch | internal/filter/glob.go:42-74 | the scan that remembers one star answers true exactly when some division of the subject gives every token a run it may take; its turns and scanning work are those the bounds below speak of |
| Glob.GreedyIsComplete | internal/filter/glob.go:36-41 | remembering only the last star loses no match and invents none |
| Glob.MatchFromIsMatches | internal/filter/glob.go:42-74 | matching token by token is the same as dividing the subject at once |
| Glob.ScanTurns | internal/filter/glob.go:36-41 | no pair of pattern and subject position is visited twice, so there are at most (pattern + 1) times subject turns |
| Glob.ScanWork | internal/filter/glob.go:36-41 | all class scanning together is at most pattern times subject |
| Glob.TraceAdvances | internal/filter/glob.go:46-66 | every turn visits a pair not visited before, which is why the loop ends |
| Glob.RunIsRigid | internal/filter/glob.go:53-61 | between two stars a match leaves no choice but where it begins |
| Glob.Backtrack | internal/filter/glob.go:58-61 | when the last star fails to match from here, letting it absorb one more rune loses nothing |
| Glob.NewStar | internal/filter/glob.go:53-56 | on meeting a new star the earlier ones need never be reconsidered |
| Glob.AllStarsTrailing | internal/filter/glob.go:68-73 | the pattern is used up after its trailing stars exactly when the tokens left are all stars |
| Glob.MatchOne | internal/filter/glob.go:79-94 | a single element matches exactly the runes its token accepts, and moves to the next token |
| Glob.MatchClass | internal/filter/glob.go:98-115 | a bracket matches by membership and negation, and an unterminated one as a literal |
| Glob.ClassHas | internal/filter/glob.go:119-139 | membership in a bracket body: single runes and ranges, with a dash literal at an edge |
| Glob.SomeItemCovers | internal/filter/glob.go:119-139 | a body has a rune exactly when one of its members covers it |
| Glob.ClassEnd | internal/filter/glob.go:147-167 | finds the closing bracket, or that there is none, in a scan no longer than the bracket |
| Glob.FindCloseIsLeast | internal/filter/glob.go:158-166 | the closing bracket is the first one from where the body may end |
| GlobSyntax.RangeHolds | internal/filter/glob.go:119-131 | `[lo-hi]` holds exactly the runes from `lo` to `hi` |
| GlobSyntax.RangeFirst | internal/filter/glob.go:123-131 | a range at the start of a body holds its runes, and what follows is held besides |
| GlobSyntax.SingleFirst | internal/filter/glob.go:133-135 | any other first rune holds itself, and what follows is held besides |
| GlobSyntax.DashAtTheEnd | internal/filter/glob.go:121-122 | a dash at the end of a body is itself |
| GlobSyntax.MembersHold | internal/filter/glob.go:119-139 | a body without a dash holds exactly its own runes |
| GlobSyntax.ClassToken | internal/filter/glob.go:143-167 | a bracket around a body is one token that holds that body, which may begin with a bracket |
| GlobSyntax.NegatedToken | internal/filter/glob.go:108-114 | with an exclamation mark it is the negation of that body |
| GlobSyntax.UnterminatedToken | internal/filter/glob.go:98-104 | a bracket that never closes is a literal, and the rest is read as if it stood alone |
| GlobSyntax.StarToken | internal/filter/glob.go:84-87 | a star is a token of its own |
| GlobSyntax.AnyToken | internal/filter/glob.go:87-88 | so is a question mark |
| GlobSyntax.LiteralToken | internal/filter/glob.go:91-92 | any other rune stands for itself |
| GlobSyntax.MatchesCompose | internal/filter/glob.go:42-74 | a pattern of two parts matches exactly the subjects made of a match of each |
| GlobSyntax.WildcardsMatch | internal/filter/glob.go:42-74 | a star matches anything and a question mark exactly one rune |
| GlobSyntax.BracketMatches | internal/filter/glob.go:96-115 | a bracket matches one rune, held or when negated not held |
| GlobSyntax.RangePattern | internal/filter/glob.go:42-139 | `[lo-hi]` and `[!lo-hi]` as typed match exactly one rune, in the range or out of it |
| Glob.ValidateGlob | internal/filter/filter.go:225-240 | accepts exactly the patterns no token of which is an unterminated bracket, so the literal fallback cannot be reached |
| Queries.Parse | internal/filter/filter.go:126-148 | a text is accepted exactly when it has at most 64 words and each is good, and then every word's term is kept in order; otherwise the fault reported is that of the first bad word |
| Queries.Fields | internal/filter/filter.go:127 | the loop gives exactly the longest runs of the text that hold no space |
| Queries.OneWord | internal/filter/filter.go:127 | a text without spaces is one word, and the empty text none |
| Queries.SpaceDivides | internal/filter/filter.go:127 | a space anywhere divides a text into the words before it and the words after |
| Queries.TrimKeepsWords | internal/filter/filter.go:134 | trimming a text changes none of its words |
| Queries.TrimIs | internal/filter/filter.go:134 | trimming takes away spaces only, from both ends, and all of them |
| Queries.ShownTextReparses | internal/filter/filter.go:246-248 | the text a query shows compiles to that very query and to no other |
| Queries.ParseTerm | internal/filter/filter.go:151-172 | a word is accepted exactly when it names a known field with an acceptable value, or is an acceptable tag glob; otherwise what is wrong with it |
| Queries.GoodPrefixedWords | internal/filter/filter.go:166-198 | ok: takes true and false, kind: the eight kinds, and the other fields any value that is not empty and no bad glob |
| Queries.UnknownFieldsAreRefused | internal/filter/filter.go:163-165 | any other prefix is refused |
| Queries.BadGlobs | internal/filter/filter.go:200-219 | a glob is bad exactly when it has a metacharacter and is longer than 512 runes or leaves a bracket open |
| Queries.CompileGlob | internal/filter/filter.go:201-219 | a pattern is kept exactly for values with a metacharacter, and refused when too long or unterminated |
| Queries.ParsedIsCompiled | internal/filter/filter.go:117-124 | whatever the parser accepts may be matched |
| Queries.Match | internal/filter/filter.go:251-259 | an event is selected exactly when every term fits it |
| Queries.MatchTerm | internal/filter/filter.go:267-289 | a term fits by the declarative meaning of its glob over its field, by kind, or by outcome |
| Queries.GlobMatch | internal/filter/filter.go:294-300 | with or without the literal fast path, the answer is the meaning of the value read as a glob |
| Queries.LiteralIsGlob | internal/filter/filter.go:291-297 | a value without metacharacters read as a glob matches itself and nothing else |
| Queries.PayloadIsNotRead | internal/filter/filter.go:261-266 | events that differ in payload, shedding and trimming only are selected alike |
| Queries.OutcomeTermsSplit | internal/filter/filter.go:302-323 | adding ok:true and adding ok:false to any query divide what it selects among events that have returned, and leave out the rest |
| Queries.FieldWordsSelect | internal/filter/filter.go:267-279 | minion:, jid:, fun: and ns: with a plain text select the events whose field is that text |
| Queries.BareWordSelects | internal/filter/filter.go:267-271 | a plain word selects the events with that tag |
| Queries.KindWordSelects | internal/filter/filter.go:280 | kind: selects exactly the events of the kind it names |
| Queries.OutcomeWordsSelect | internal/filter/filter.go:281-323 | ok:true selects the returns with code zero that succeeded, ok:false all other returns |
| RingHistory.HistoryIsSane | internal/stats/rings.go:109-154 | after every run the heads have seen every call and nothing is flagged past them |
| RingHistory.GapMeansEmpty | internal/stats/rings.go:114-123 | a gap is never claimed of a bucket in which an event was counted |
| RingHistory.CountIsArrivals | internal/stats/rings.go:109-130 | the count of a bucket is the number of events that arrived while it lasted |
| RingHistory.OnlyNextOpens | internal/stats/rings.go:28-41 | a report is valid for less than a bucket, so at most the bucket after the head opens as a gap |
| RingHistory.PollsDoNotMatter | internal/stats/rings.go:250-255 | on one clock, rolled one bucket at a time, reading in between changes nothing |
| RingHistory.PollsShowTheSame | internal/stats/rings.go:195-227 | on one clock, a read shows the same epoch, counts and flags however often the windows were read before, except exactly when one of the two runs has lost the oldest flag and the other has not |
| RingHistory.WithoutAnExactJumpPollsDoNotShow | internal/stats/rings.go:195-227 | so when neither run jumps exactly one ring length over a bucket that would open as a gap, every visible bucket is the same |
| RingHistory.LostNeedsAnExactJump | internal/stats/rings.go:203-205 | a flag is lost only in a run with such a jump |
| RingHistory.CodeAgreesWithIdeal | internal/stats/rings.go:195-227 | after any run rolling in bulk shows what rolling one by one shows, except that the oldest flag is missing exactly when the last call that moved the head jumped so and no call since has counted in that bucket or named it |
| RingHistory.BulkLosesExactlyOneFlag | internal/stats/rings.go:203-205 | one roll differs exactly on a jump of one ring length when the bucket after the old head would open as a gap |
| RingHistory.AnExactJump | internal/stats/rings.go:203-205 | at any second there is such a jump, and a read after it shows otherwise than it would have with the reads before left out |
| RingClaims.EveryGapIsJustified | internal/stats/rings.go:140-177 | after any run each flagged bucket lies in a reported window, or begins within the validity of a report with no event in between |
| RingClaims.FlagsAreJustified | internal/stats/rings.go:140-234 | rolled forward one by one, a bucket is flagged exactly when it is quiet and some report justifies it |
| RingClaims.VisibleFlagsAreJustified | internal/stats/rings.go:140-234 | and so it is in the code for every bucket shown, less the oldest when its flag was lost |
| RingClaims.NamedStaysKnown | internal/stats/rings.go:164-177 | a bucket a report has named is busy or flagged ever after |
| RingClaims.GapBeginsInTime | internal/stats/rings.go:232-234 | no flagged bucket begins later than the validity of some report |
| RingClaims.QuietAfterTheLastReport | internal/stats/rings.go:38-41 | a bucket that begins after the validity of every report is no gap, and the validity is less than a bucket |
| RingClaims.ReportCovers | internal/stats/rings.go:140-154 | after a report every visible bucket since the loss is busy or flagged |
| RingClaims.PollKeepsCovered | internal/stats/rings.go:232-234 | reading while the report is valid, at any phase, keeps it so |
| RingClaims.OpenGapHasReport | internal/stats/rings.go:140-147 | an open gap ends where some report ended, with no event since |
| RingClaims.TrackHeadIsHead | internal/stats/rings.go:195-227 | the newest bucket is the last that any call has reached |
| Rings.Rings.Add | internal/stats/rings.go:109-130 | both rings still show, bucket for bucket, the history with one more event |
| Rings.Rings.MarkGap | internal/stats/rings.go:140-154 | both rings still show the history with one more report |
| Rings.Rings.MarkGapRing | internal/stats/rings.go:164-177 | flags exactly the visible quiet buckets of the window, in no more turns than the ring is long |
| Rings.Rings.RollRing | internal/stats/rings.go:199-211 | one ring rolled forward shows the rolled history, in no more turns than the ring is long |
| Rings.Rings.Advance | internal/stats/rings.go:195-227 | both rings, with fields and history in step |
| Rings.Rings.SyncToNow | internal/stats/rings.go:252-255 | a read of the clock is a roll forward and nothing else |
| Rings.Rings.Seconds | internal/stats/rings.go:237-241 | 120 cells, oldest first, ending with the second the clock has come to, each counting exactly the events that arrived during its second, with the flag of the history |
| Rings.Rings.Minutes | internal/stats/rings.go:244-248 | 60 cells in the same way for minutes |
| Rings.Rings.Window | internal/stats/rings.go:258-271 | reading the ring off modulo its length gives the newest buckets in order |
| Rings.WindowCountsArrivals | internal/stats/rings.go:258-271 | the window of any history counts exactly the arrivals of each bucket |
| Reader.Run | internal/saltipc/reader.go:154-217 | the nested loops make exactly the calls of the step machine on all its answers, and stop when and only when it does, with its error |
| Reader.WaitToRetry | internal/saltipc/reader.go:291-303 | the wait loop is the waiting phase of the machine, report for report and slice for slice |
| Reader.Consume | internal/saltipc/reader.go:322-359 | the read loop is the reading phase of the machine, up to the end of the stream |
| Reader.StopsExactlyThen | internal/saltipc/reader.go:154-217 | the reader stops at once, with the error due, on the wrong socket at any dial, on cancellation while it dials or waits, and on a first dial that fails; and on nothing else |
| Reader.StoppedStays | internal/saltipc/reader.go:154-217 | once stopped it does nothing more |
| Reader.ConnectedOnceDialed | internal/saltipc/reader.go:154-217 | a dial counts as the first until the socket has once been held |
| ReaderTrace.EveryTraceIsLegal | internal/saltipc/reader.go:154-217 | on any answers: frames only while attached, no report before the first connection, one start per outage, a reconnect closes the window before anything else, sleeps in slices within the backoff, and the dial after k failures only after exactly the k-th backoff |
| ReaderTrace.LegalAt | internal/saltipc/reader.go:154-217 | each of those at each call of the trace |
| ReaderTrace.OneStartPerOutage | internal/saltipc/reader.go:158-216 | all reports of one outage, to the one that closes it, name the same start |
| ReaderTrace.NextBackoff | internal/saltipc/reader.go:72-75 | doubling and capping the last wait is 250 ms times a power of two, at most 5 s |
| ReaderTrace.OnlyTwoFailuresAreFatal | internal/saltipc/reader.go:154-217 | an error is returned only for the wrong socket or a first dial that failed |
| ReaderTrace.ReportsNameTheLoss | internal/saltipc/reader.go:158-216 | every report names the window from the end of the stream that was lost to the clock reading it was made at |
| ReaderTrace.TracesAreTimed | internal/saltipc/reader.go:291-303 | on a clock that never goes back no call is stamped before an earlier one, and no window ends before it starts |
| Outage.OutageNeverReadsAsQuiet | internal/stats/rings.go:11-41 | however waits, dials and looks interleave, from the first report of an outage until the reader reconnects no second or minute shown since the loss is an honest-looking zero |
| Outage.PromptIsTimely | internal/stats/rings.go:18-41 | slices of 250 ms woken at most 250 ms late, and dials of at most 500 ms, keep every report valid until the next |
| Outage.PastOutageStaysShown | internal/saltipc/reader.go:154-217 | once the reader has reconnected, whatever follows, no bucket shown from the loss to the reconnection is a zero |
| Outage.PlayIsCovered | internal/saltipc/reader.go:77-96 | the invariant of every timely run behind it |
| Outage.ReportedUntilReconnected | internal/saltipc/reader.go:291-303 | a failed dial starts the reporting, which goes on with the same start until a dial succeeds or the reader gives up |
| Outage.QuietReadsAsQuiet | internal/stats/rings.go:38-41 | once reports stop, quiet buckets beginning after the last validity show as zeros and not as gaps |
| Outage.NoReportsWhileConnected | internal/saltipc/reader.go:322-359 | in any timely run, no report ends later than the last time the reader was known to be connected, while it stays so |
| Outage.ReconnectedReadsAsQuiet | internal/stats/rings.go:38-41 | so a reconnected but quiet master shows zeros in every bucket that begins after the validity |
| Frames.FrameReader.Next | internal/saltipc/frame.go:59-79 | one frame read off the bytes left, what it decodes to or why not, and exactly how many bytes that used |
| Frames.FrameReader.Consume | internal/saltipc/reader.go:338-354 | everything but the end of the stream and an implausible length is handed on, in order |
| Frames.FramesComeBack | internal/saltipc/frame.go:53-58 | frames of legal length written one after another come out one by one, each decoded as if alone, and then what follows them |
| Frames.FrameIsHandedOn | internal/saltipc/frame.go:87-105 | a frame whose body is a clean tag, the delimiter and a payload is handed on as that tag and payload; one that is unreadable or has no delimiter as a failure, and the stream goes on |
| Frames.StreamIsFrames | internal/saltipc/frame.go:34-40 | every finite stream is frames of legal length and a tail |
| Frames.TailIsOneErrorAtMost | internal/saltipc/frame.go:59-76 | a tail gives nothing, except one failure for a body cut short |
| Frames.SplitInvertsJoin | internal/saltipc/frame.go:93-104 | the split gives back tag and payload exactly when the tag has no delimiter and does not end in a newline |
| Frames.JoinInvertsSplit | internal/saltipc/frame.go:93-104 | whatever splits is a clean tag, the delimiter and the payload |
| Frames.PrefixIsRead | internal/saltipc/frame.go:68-71 | the length written big-endian is the length read |
| Frames.PrefixOfRead | internal/saltipc/frame.go:68-71 | and every four bytes are the prefix of the length they read as |
| Frames.FirstByteWeighsMost | internal/saltipc/frame.go:68 | of the four bytes the first weighs most |
| Feeds.ConnectionIsReadInFull | internal/saltipc/reader.go:338-354 | a connection of legal frames that ends anywhere gives one event or decode error each, one more for a body cut short, and only then the loss of the socket |
| Feeds.ConnectedMeansReading | cmd/salt-events/hub.go:408-416 | the last attachment reported is true exactly while the reader holds the publish socket |
| Jobs.Job.AddExpected | internal/model/job.go:78-90 | the target joins the set and both counters still equal what recounting the sets gives |
| Jobs.Job.AddReturn | internal/model/job.go:95-119 | the return replaces the minion's earlier one and both counters still equal what recounting gives |
| Jobs.Job.Missing | internal/model/job.go:147-163 | no answer unless the targets are known; else each missing minion once, every one before every later one in order, as many as the counter says |
| Jobs.Job.Complete | internal/model/job.go:208-210 | the counter alone decides whether every known target has returned |
| Jobs.Job.ExpectedCount | internal/model/job.go:134-140 | no number unless the targets are known; then the missing, as the counter has them, and the targets that have answered add up to it |
| Jobs.TargetsAddUp | internal/model/job.go:134-163 | the targets are those missing and those that have answered |
| Jobs.Job.Row | internal/model/job.go:271-286 | the row's numbers are the cardinalities of the sets, and its completeness that of the job |
| Jobs.RowIsTrue | internal/model/job.go:271-286 | a row made from lengths and counters alone says what the sets say |
| Jobs.CountTargetIsRight | internal/model/job.go:78-90 | counting a target keeps both counters equal to a recount |
| Jobs.CountReturnIsRight | internal/model/job.go:95-119 | counting a return keeps both counters equal to a recount |
| Jobs.CounterDecides | internal/model/job.go:205-210 | the counter says complete exactly when every known target has answered |
| Jobs.Job.Clone | internal/model/job.go:189-203 | a fresh job of equal value whose counters are right |
| Jobs.OrderedIsSorted | internal/model/job.go:160 | the names sorted are the same names, in order |
| Jobs.OrderIs | internal/model/job.go:160 | one name is no later than another when it begins it or has the lesser rune where they first differ |
| Jobs.TargetCounts | internal/model/job.go:78-90 | a target adds one to the missing exactly when it is new and has not answered |
| Jobs.ReturnCountsFailed | internal/model/job.go:95-119 | a return takes the place of an earlier failure in the count |
| Jobs.ReturnCountsMissing | internal/model/job.go:103-110 | only a targeted minion's first return closes it out |
| Jobs.NoneMissing | internal/model/job.go:208-210 | none missing means every target has answered, and back |
| Jobs.TargetsApart | internal/model/job.go:78-119 | any run is the returns in order and the targets as a set |
| Jobs.InterleavingDoesNotMatter | internal/model/job.go:78-119 | runs with the same targets and the same returns in order end alike however they interleave |
| IndexSpec.BytesUpdate | internal/stats/jobs.go:253-261 | charging one job anew moves the total by the difference |
| IndexSpec.BytesWithout | internal/stats/jobs.go:355-368 | the total without a job is less by its charge |
| IndexSpec.TouchIsSound | internal/stats/jobs.go:236-249 | making a place keeps the accounting exact |
| IndexLaws.Run | internal/stats/jobs.go:149-296 | after any run of events, pins and descriptions: no JID twice, bytes are exactly the sum of current weights, creations are tracked plus evicted jobs, at most max(maxJobs, 1) jobs, bytes within a positive ceiling unless one job remains, high water at most one more |
| IndexLaws.HighWaterRises | internal/stats/jobs.go:236-249 | the high water rises exactly when a job is tracked beyond it, and to just that many, and never falls |
| IndexLaws.DropIsSound | internal/stats/jobs.go:355-368 | the clamp at zero is never needed |
| IndexLaws.EvictIsBounded | internal/stats/jobs.go:277-296 | eviction always gets under the bounds or down to one job |
| IndexLaws.ObserveKeepsBounds | internal/stats/jobs.go:149-261 | one event keeps the accounting exact and the bounds met |
| IndexLaws.VictimIsFirst | internal/stats/jobs.go:298-352 | the victim is unpinned and goes before every other unpinned job by tier and then by age |
| IndexLaws.EvictionOrder | internal/stats/jobs.go:298-352 | over a whole call: the pinned job stays, and each job dropped goes before each unpinned job kept, by tier and then by age |
| IndexLaws.EvictionPolicy | internal/stats/jobs.go:298-352 | a job in progress is evicted only when every unpinned job that stays is in progress too, one that can never complete only when none that stays is complete, and of its like the older first |
| IndexLaws.PinnedStays | internal/stats/jobs.go:298-375 | a job that is pinned and tracked stays so through any run that does not move the pin |
| IndexLaws.EvictionIsLogged | internal/stats/jobs.go:355-368 | a job leaves the index exactly when its eviction is recorded |
| IndexLaws.NoNeedlessEviction | internal/stats/jobs.go:277-296 | with the last job dropped still there a bound would be exceeded |
| JobHistory.JobIsItsEvents | internal/stats/jobs.go:149-232 | over any run, a job tracked and never evicted has exactly its minions' last returns, exactly the targets its publications listed, known exactly when there was a list, and the first start, latest return and function its events give |
| JobHistory.RunTeaches | internal/stats/jobs.go:149-232 | it is what its own events taught it, one after another, whatever happens to other jobs |
| JobHistory.EventsAreKept | internal/stats/jobs.go:149-249 | a job with an event is tracked or was evicted |
| JobHistory.TaughtAnswers | internal/stats/jobs.go:210-232 | the answers are exactly the minions that returned, each with its last return |
| JobHistory.TaughtTargets | internal/stats/jobs.go:162-203 | the targets are the union of all lists, known exactly when there was one, and trimmed exactly when there was none but a publication said so |
| JobHistory.TaughtStart | internal/stats/jobs.go:178-182 | the start is that of the first publication |
| JobHistory.TaughtLatest | internal/model/job.go:116-118 | the last return is the latest arrival of any |
| JobHistory.TaughtFun | internal/stats/jobs.go:169-176 | the function is the last a publication named, and before any did the first a return named |
| JobHistory.ChargeIsCounted | internal/stats/jobs.go:270-274 | a job is charged 64 bytes for each known target and each minion that answered |
| IndexLaws.EvictedIsTruthful | internal/stats/jobs.go:378-388 | evicted is answered only for a job that was evicted and is not tracked; without repeats, for all of the last the memory holds |
| IndexLaws.RelabelIsSound | cmd/salt-events/hub.go:202-224 | describing a job disturbs no accounting |
| IndexLaws.RelabelFillsIn | cmd/salt-events/hub.go:202-224 | each name that was not known is filled in, and nothing else of any job is touched |
| JobIndexes.JobIndex.Observe | internal/stats/jobs.go:149-158 | map, order, bytes and memory of evictions move together to the specified index |
| JobIndexes.JobIndex.ObserveNew | internal/stats/jobs.go:162-203 | a new job's targets and start, or its trimmed state, are recorded and then room is made |
| JobIndexes.JobIndex.ObserveRet | internal/stats/jobs.go:210-232 | a return is recorded, tracking an unknown job, and then room is made |
| JobIndexes.JobIndex.Settle | internal/stats/jobs.go:253-261 | the job is charged its current weight and the index evicted down |
| JobIndexes.JobIndex.Evict | internal/stats/jobs.go:277-286 | the loop drops exactly the specified victims |
| JobIndexes.JobIndex.OldestEvictable | internal/stats/jobs.go:324-352 | one pass, judging completeness by the jobs' counters, finds the first unpinned job of the lowest tier there is |
| JobIndexes.JobIndex.Publish | internal/stats/jobs.go:169-200 | a publication adds what it teaches, takes nothing away, and keeps the job's counters right |
| JobIndexes.JobIndex.Answer | internal/stats/jobs.go:215-231 | a return replaces the minion's earlier one and keeps the job's counters right |
| JobIndexes.JobIndex.DropAt | internal/stats/jobs.go:355-368 | the job leaves map and order, its charge the total, and its JID enters the memory |
| JobIndexes.JobIndex.SetPin | internal/stats/jobs.go:370-375 | only the pin changes |
| JobIndexes.JobIndex.JobOf | internal/stats/jobs.go:378-388 | the job tracked, or whether it was evicted or never seen |
| JobIndexes.JobIndex.List | internal/stats/jobs.go:391-407 | the newest jobs, newest first |
| JobIndexes.JobIndex.Readout | internal/stats/jobs.go:410-416 | every job ever tracked is tracked still or counted as evicted, and the high water covers those tracked |
| JobIndexes.JobIndex.Describe | cmd/salt-events/hub.go:202-224 | only names not known yet are filled in, and nothing else changes |
| JobIndexes.DropRepresents | internal/stats/jobs.go:355-368 | taking a JID out of the order and the map keeps them in bijection |
| Evicted.EvictedSet.Add | internal/stats/jobs.go:460-474 | the circular list, read from its oldest, is the bounded FIFO after one more eviction |
| Evicted.EvictedSet.Has | internal/stats/jobs.go:477-481 | the set answers as the FIFO's contents |
| Evicted.CapacityIs | internal/stats/jobs.go:423-429 | the memory holds eight times the jobs, and never fewer than sixty-four |
| Evicted.OverwriteHolds | internal/stats/jobs.go:460-474 | overwriting the oldest slot and moving on drops the oldest and appends |
| Evicted.MemoryIsSound | internal/stats/jobs.go:432-446 | after any log: at most the capacity, nothing twice, only what was evicted |
| Evicted.LastAreRemembered | internal/stats/jobs.go:432-446 | when nothing was evicted twice the memory is exactly the last evictions |
| Evicted.RecentStaysRemembered | internal/stats/jobs.go:460-474 | one more eviction keeps all recent ones remembered exactly when it does not force out one that was evicted again since |
| Evicted.RecentAlwaysRemembered | internal/stats/jobs.go:432-481 | over a whole log all recent evictions are remembered at every point exactly when no eviction forces out one evicted again |
| Evicted.ARepeatIsForgotten | internal/stats/jobs.go:460-463 | at every capacity the last eviction but one can be forgotten |
| EvictedRun.ARecentEvictionIsUnseen | internal/stats/jobs.go:378-388 | a run of published jobs with well-formed JIDs after which the index answers unseen for its last eviction but one |
| EvictedRun.TagIsANewJob | internal/salttag/salttag.go:165-195 | the tags of those publications decode to a new job with that JID |
| Caches.Cache.Add | internal/cache/cache.go:93-141 | from where shedding stood the least prefix is shed that meets the budget, and only if shedding all fails is the least prefix dropped; retained events are a suffix of all added, changed by shedding a prefix; sizes and counters exact; the budget met or nothing left; at most two turns per event ever added |
| Caches.Cache.ShedPayloads | internal/cache/cache.go:111-128 | every cursor position passed over was still over budget, and it stops under budget or with nothing left to shed |
| Caches.Cache.DropEvents | internal/cache/cache.go:130-141 | every shorter drop was still over budget, and nothing is dropped before everything is shed |
| Caches.GreedyIsUnique | internal/cache/cache.go:100-110 | the policy leaves no choice of how much to shed or drop |
| Caches.BudgetIsMet | internal/cache/cache.go:100-110 | after it the budget is met or nothing is left |
| Caches.SizeAfterStrip | internal/model/event.go:86-91 | shedding frees exactly the payload's bytes |
| Caches.AllAreKept | internal/cache/cache.go:111-128 | every event retained is one that was added, in its place, unchanged but for a payload that is gone and marked shed exactly when there was one and shedding has passed it; the master's mark stays |
| Caches.SizesAppend | internal/cache/cache.go:93-98 | one more event adds its own size to the total and no more |
| Caches.PayloadsAre | internal/cache/cache.go:115-125 | payloads shed are counted one by one |
| Events.SizeIs | internal/model/event.go:86-91 | an event costs its tag, its payload and 256 bytes |
| Caches.DropHolds | internal/cache/cache.go:132-140 | dropping the oldest keeps the books exact |
| Caches.QueriesIgnoreShedding | internal/cache/cache.go:106-110 | a query chooses the same positions of what is retained as of the events as they arrived |
| Caches.Cache.Snapshot | internal/cache/cache.go:160-215 | the newest `limit` matches among the last min(8 limit, n) events, oldest first, in a scan that stops there or at the event that filled the limit; nothing for a limit that is not positive |
| Caches.RetainedAreFew | internal/cache/cache.go:93-141 | a 64-bit budget of bytes holds fewer than 2^55 events |
| Caches.Cache.Readout | internal/cache/cache.go:231-239 | the bytes are the sum of the sizes retained, every event ever added is retained or counted as dropped, and the payloads shed are those that came before the cursor |
| Caches.Cache.All | internal/cache/cache.go:221-226 | a fresh copy of what is retained |
| Caches.Compact | cmd/salt-events/hub.go:562-572 | filtering in the array itself gives the pure filter of what it held |
| Scans.ScanBoundIsExact | internal/cache/cache.go:193-198 | the wrap-checked product is min(8 limit, n) exactly when it did not wrap to between the limit and n |
| Scans.ScanBoundIsMin | internal/cache/cache.go:193-198 | so it is for every limit when n is at most 2^60 |
| Scans.SnapshotIsNewest | internal/cache/cache.go:160-183 | the view is the newest `limit` matches among the last events in reach |
| Scans.WithoutANoteNothingIsMissing | internal/ui/statusbar.go:302-309 | when no note says how far the filter looked, the view is the newest `limit` of all matches |
| Scans.ReverseInPlace | internal/cache/cache.go:209-212 | swapping from both ends reverses |
| Scans.KeptSplit | internal/cache/cache.go:202-207 | filtering is filtering the parts |
| Scans.KeptAreMarked | internal/cache/cache.go:202-207 | what is kept are the events chosen, each once and in order |
| HubLog.Fold | cmd/salt-events/hub.go:125-192 | after any list of calls on the hub the index is accounted for exactly and within its bounds |
| HubShares.PlainFields | cmd/salt-events/hub.go:417-430 | errors are the failures counted, and connected is what the reader said last |
| HubShares.PinIsWhereItWasPut | cmd/salt-events/hub.go:438-449 | the pin is where the last call that moved it put it |
| HubShares.EventsReachEveryPart | cmd/salt-events/hub.go:143-168 | the cache gets every event in order, and the counters every category, and every minion and function there is |
| HubShares.IndexIsARun | cmd/salt-events/hub.go:180-224 | the index is a run of its own operations, so every law of runs holds on the hub |
| HubShares.HubJobIsItsEvents | cmd/salt-events/hub.go:180-192 | on the hub too a job never evicted has exactly the returns and targets of its events |
| HubShares.FailureMeansTheSame | internal/filter/filter.go:311-323 | the filter and the job counters mean the same by a failed return |
| HubLaws.CacheSizeChangesNoStatistic | cmd/salt-events/hub.go:143-168 | two hubs told the same with the same job ceiling agree on rings, index, key counters, connection and errors whatever their caches can hold, and until one drops an event every query chooses the same positions of both |
| HubLaws.LookingChangesNothing | cmd/salt-events/hub.go:456-482 | render ticks change no statistic, only how far the rings have rolled |
| HubLaws.WindowsCountArrivals | cmd/salt-events/hub.go:464-470 | the windows of a snapshot count exactly the events that arrived during each bucket |
| HubOutage.HubHearsTheSession | cmd/salt-events/hub.go:396-430 | however answers and render ticks interleave, the hub's rings hear exactly what the reader reports and the ticks read |
| HubOutage.OutageIsRendered | cmd/salt-events/hub.go:456-484 | while the reader reports an outage, a tick that comes in time shows no second and no minute since the loss as a zero |
| Hubs.Hub.Event | cmd/salt-events/hub.go:125-168 | every part takes in its share of the event: rings, key counters, job index and cache |
| Hubs.Hub.WithCeiling | cmd/salt-events/hub.go:102-118 | a hub told nothing, for any memory of the cache and any ceiling of the job index |
| Hubs.NewHub | cmd/salt-events/hub.go:102-118 | a hub told nothing, whose job index may use a tenth of the memory its cache has |
| Counters.Counter.Add | internal/stats/topn.go:38-54 | after it every tracked key has its exact count over all keys ever counted, the others are counted together, and the bound is kept |
| Counters.TalliesAreExact | internal/stats/topn.go:36-58 | so it is for any keys: nothing is lost by folding, and a key goes untracked only once the bound is reached |
| Counters.CountsAreCounts | internal/stats/topn.go:36-58 | occurrences, and keys that are not tracked, are counted one by one |
| Hubs.Hub.ObserveJob | cmd/salt-events/hub.go:180-192 | only new jobs and returns reach the index, and names are written only after the job is recorded |
| Hubs.Hub.FactsFor | cmd/salt-events/hub.go:253-275 | only a new job's payload is read; targets come exactly when every item of its list is a text, and then all of them in order |
| HubLog.TargetsAreWhole | cmd/salt-events/hub.go:253-313 | a target list is read exactly when a new job's payload decodes to a table whose minions are all texts, and then it is every one of them in order |
| HubLog.TargetsAreNeverMadeUp | cmd/salt-events/hub.go:225-313 | after any calls, a job whose targets are known had them listed in full by a new job's event, and no minion is expected that no such list named |
| Hubs.Hub.ExpectedFrom | cmd/salt-events/hub.go:284-313 | the targets are every item's text, or not known at all; the trimmed marker is a third answer |
| Hubs.Hub.LabelOf | cmd/salt-events/hub.go:360-394 | a label is the text, or the texts of a list joined by commas, cut to its bound |
| HubLog.ClampedIsLongest | cmd/salt-events/hub.go:387-394 | a cut label is the longest beginning of the text that fits 256 bytes in whole runes |
| HubLog.LabelsAreTexts | cmd/salt-events/hub.go:360-383 | a short text is its own label, and texts of a list are joined by a comma |
| HubLog.LabelsHaveTheirKeys | cmd/salt-events/hub.go:265-275 | target, targeting type and user are read each from its own key |
| Hubs.Hub.Gap | cmd/salt-events/hub.go:402-407 | a reported window reaches the rings and leaves the connection state alone |
| Hubs.Hub.Attached | cmd/salt-events/hub.go:417-422 | the connection state is what the reader last said |
| Hubs.Hub.PinJob | cmd/salt-events/hub.go:438-449 | the pin is a level: a JID sets it and no JID clears it |
| Hubs.Hub.Snapshot | cmd/salt-events/hub.go:456-484 | the view holds the newest matches among the last min(8 limit, n) events, the exact windows at the times read, true rows of the newest 200 jobs, the cache and index readouts, and the connection and error state; nothing but the rings moves |
| Hubs.Hub.LookupJob | cmd/salt-events/hub.go:524-534 | the tracked job of that JID by value, or that there is none and why |
| Hubs.Hub.AllEvents | cmd/salt-events/hub.go:555-573 | exactly the retained events the query chooses, in order |
| SaltTags.Parse | internal/salttag/salttag.go:88-104 | what the in-place parse leaves is the declarative description of the tag's segments; a job's new, ret or prog comes only with a well-formed JID, and any JID reported was a segment |
| SaltTags.TakeMinion | internal/salttag/salttag.go:201-211 | the minion is recorded and it and all that trails it is starred |
| SaltTags.CheckJid | internal/salttag/salttag.go:250-262 | twenty digits, or those, an underscore and more digits |
| TagShapes.JidIs | internal/salttag/salttag.go:250-262 | a JID is twenty of the ten digits, alone or followed by an underscore and one or more digits, and nothing else is |
| SaltTags.SplitGivesSegments | internal/salttag/salttag.go:64-74 | joining what the capped split gives restores the tag, and only the last segment at the cap may hold a slash |
| SaltTags.JoinSplits | internal/salttag/salttag.go:64-74 | splitting what such segments join to gives them back |
| SaltTags.CategoryIsIdempotent | internal/salttag/salttag.go:18-24 | the category of a category is itself, for every string |
| SaltTags.CategorySplits | internal/salttag/salttag.go:88-104 | a category splits into the starred segments of its tag |
| SaltTags.CategoriesSeparate | internal/salttag/salttag.go:18-24 | two tags share a category exactly when their starred segments agree |
| SaltTags.UnrecognisedIsItself | internal/salttag/salttag.go:64-80 | a tag is its own category exactly when nothing in it is replaced by something else |
| SaltTags.NamesDoNotCount | internal/salttag/salttag.go:18-24 | job tags that differ only in JID, minion and what trails it share a category |
| SaltTags.JobKindsHaveJids | internal/salttag/salttag.go:165-195 | new, ret and prog exactly for job-shaped tags with that verb, and then with a well-formed JID that is reported |
| SaltTags.JidsAreWellFormed | internal/salttag/salttag.go:250-262 | a JID reported is well formed and was a segment of the tag |
| SaltTags.EmptyCategory | internal/salttag/salttag.go:143-154 | only a bare JID and the empty tag leave no category |
| TagShapes.NewJobTag | internal/salttag/salttag.go:164-186 | salt/{job,run,wheel}/<jid>/new reads as a new job of that JID, with the JID starred |
| TagShapes.ReturnTags | internal/salttag/salttag.go:186-211 | with ret or prog, a minion and perhaps a number, it reads as a return or progress of that minion, both starred |
| TagShapes.MinionTags | internal/salttag/salttag.go:213-230 | salt/{minion,syndic}/<id>/<verb> reads as that minion, and as a start for that verb |
| TagShapes.AuthTag | internal/salttag/salttag.go:119-120 | salt/auth is an authentication |
| TagShapes.KeyTag | internal/salttag/salttag.go:121-122 | salt/key is a key event |
| TagShapes.PresenceTag | internal/salttag/salttag.go:123-124 | salt/presence/... is a presence event |
| TagShapes.RefreshTags | internal/salttag/salttag.go:156-160 | minion/refresh/<id> is custom, with that minion starred |
| TagShapes.SingleTags | internal/salttag/salttag.go:143-154 | a bare JID is custom with that JID and no category, any other single segment is its own category |
| Sparklines.Resample | internal/ui/components/sparkline.go:144-171 | each cell stands for its group of buckets, or for no data when there are none |
| Sparklines.Merge | internal/ui/components/sparkline.go:174-190 | a cell is its group's tallest live bucket, and a gap exactly when the whole group is |
| Sparklines.GroupInRange | internal/ui/components/sparkline.go:156-166 | every group is non-empty and within the series, and reaches the next |
| Sparklines.GroupsCover | internal/ui/components/sparkline.go:156-166 | every bucket is in some group |
| Sparklines.GroupsPartition | internal/ui/components/sparkline.go:156-166 | the groups are a partition exactly when there are no more cells than buckets |
| Sparklines.GroupsAreEven | internal/ui/components/sparkline.go:156-166 | with no more cells than buckets group sizes differ by at most one, and with more every group is one bucket |
| Sparklines.PeakSurvives | internal/ui/components/sparkline.go:136-143 | the tallest live bucket is the tallest live cell, at any width |
| Sparklines.LiveBucketsShow | internal/ui/components/sparkline.go:136-143 | a live bucket always shows as a live cell at least as tall |
| Sparklines.Autoscale | internal/ui/components/sparkline.go:100-114 | the scale is the fixed maximum, or the tallest live cell |

## Left out

- The list of a job's returns for the drill-down, which would repeat the missing minions' proof.
- JobIndexes.JobIndex.Observe: the index holds jobs as values with their counters, so that a caller holding a job and the index sharing it is not captured; the order of jobs is a sequence rather than a linked list.
- Hubs.Hub.Snapshot: the ranking of the counters and the floating-point summaries are not in the view.
- Hubs.Hub.LabelOf: texts are runes, so bytes that are no UTF-8 at all, which a cut also removes, are not captured.
- Scans.ReverseInPlace: the slice it reverses is a sequence variable, not an array.
- SaltTags.Parse: the segments are characters rather than bytes, and the record filled through a pointer is passed and returned.
- Outage.OutageNeverReadsAsQuiet: a dial slower than 500 ms is outside the promise, as it is in the code.
- Frames.FrameReader.Next: connection errors other than the end of the stream are not distinguished; the end of the bytes stands for them, and the header buffer is a local value.
- Queries.Parse: the text of its errors.
- Decoding of messages, the extraction of indexed fields, sockets, symlink checks and diagnosis are not part of this model.
- The mutex: each method of the hub is one step, so interleavings of goroutines are orders of steps.
- Counts are unbounded numbers where the code has 64-bit counters, except for the scan bound and the cache's budget.
- Resampling index products are unbounded; the code's factors are the width of a terminal and the length of a window.
- Times before the Unix epoch, which the rings could not index.
- UTF-8 decoding of glob subjects; the matcher runs on runes.
- Ranking the counters' keys, table layout, panes, themes and key maps, which would add only easy members.
- Export, configuration, capture and wiring.
