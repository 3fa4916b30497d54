# Verified model of the dating backend's stateful protocols

Dafny models, with proofs, of the parts of the backend whose promises span several functions or whole runs:
activity sign-up with its waitlist, the ordered-funnel query generator, analytics ingestion with its dedupe ledger
and retention, property scrubbing, clubs and their group chats, the wallet, idempotency records, refresh tokens and
the rate limiter. `dafny verify dfyconfig.toml` checks everything.

Code that updates rows in place is a class with those rows as fields. Each such class is proved, method by method, to
be a step of a plain machine over different data (a queue instead of timestamps, a list of amounts instead of a
balance, a chain of tokens instead of revoked flags), and what the source promises is then proved about that machine
over every run. Each request is one atomic step that commits or leaves the state unchanged. Clocks, generated
identifiers and the results of checks made elsewhere (banned, blocked, limited) are parameters.

| file | contents |
|---|---|
| `SignUpQueue.dfy`, `SignUpTable.dfy` | the FIFO desk and its run properties; the participant table that refines it |
| `Funnel.dfy` | the generated query as a relational term with an evaluator, and its declarative meaning |
| `Calendar.dfy` | month arithmetic, day counts, partition bounds and names |
| `EventBook.dfy`, `EventStore.dfy` | ingestion, ledger, retention and erasure as a machine; the partitioned tables that refine it |
| `EventTrail.dfy` | verdicts and raw rows after any run, traced back to the submissions |
| `Upkeep.dfy` | schedules of the daily table upkeep and of the batches that need a table |
| `Scrub.dfy`, `ScrubReading.dfy` | the three substitutions and the property filter; the substitutions read declaratively |
| `Clubs.dfy` | the roster machine; club rows, cached count and group chat that follow it |
| `Wallet.dfy`, `Idempotency.dfy`, `Sessions.dfy`, `RateLimit.dfy` | the smaller protocols |

## What turned out differently from the documentation or from expectation

- The limiter's docstring says "sliding window" (app/shared/rate_limit.py:20). It is a fixed window: the exact bound
  for any interval of one window is 2 * limit - 1 (`RateLimit.WindowBound`, reached by `RateLimit.StraddleReachesBound`),
  and the sliding-window reading holds only for limit 1 (`RateLimit.SlidingWindowIff`).
- Partition bounds are written as dates and read by the database in its session zone, but expiry compares with UTC.
  Dropping then deleting equals the plain filter exactly when that zone is not west of UTC (`EventStore.TwoStageIsFilterIff`).
  Elsewhere some rows go early; the run theorems about ingestion and retention hold all the same, because the machine's
  retention step may lose any further rows.
- A property key may end in a newline: the `$` of app/modules/analytics/taxonomy.py:21 matches before one, and no
  blacklisted word ends in one, so "phone" followed by a newline is stored. `Scrub.StoredKeysAreCleanIff` says exactly
  when the blacklist works, `Scrub.PhoneIsDisguised` and `Scrub.DisguisedKeyIsStored` give the input.
- Numbers are stored as supplied (app/modules/analytics/service.py:75-76), so docs/ANALYTICS_EVENTS.md:238, which has
  nine or more digits replaced, holds for text only: 13912345678 sent as an integer is stored
  (`Scrub.PhoneNumberIsStored`). `Scrub.StoredValuesAreCleanIff` says exactly when all stored values are clean.
- A seat count above capacity is legal; it arises exactly when the host lowers the capacity below the seats taken
  (`SignUpQueue.OverfullOnlyByLowering`).
- `hide`, by the administrator or by a moderator taking a reported club down (app/modules/admin/moderation.py:280), does
  not check for a dissolved club, so hide followed by unhide makes it live again (`Clubs.DissolvedClubComesBack`); the
  club properties are stated so that they survive this.
- A hidden club without a creator can still be joined, because "no viewer" equals "no creator"
  (app/modules/clubs/service.py:108; `Clubs.HiddenAdmitsNobodyIff`, `Clubs.HiddenOfficialClubIsJoined`).
- An expired idempotency record still refuses other users, because ownership is checked before expiry. It does so until
  the record fails, or its own user or an anonymous caller begins again (`Idempotency.ExpiredStillRefusesOthers`,
  `Idempotency.RecordLastsIff`).
- `funnel_sql`'s docstring ("first matching event is at/after their previous step") can be read two ways. The query
  looks for the first matching event at or after the previous step; a matching event before that does not rule the
  actor out. The model follows the query.
- `correct_time`'s docstring says the raw time is clamped to the allowed range; the code rejects times that are too old
  and moves times that are too far ahead to the current time.
- docs/ANALYTICS_EVENTS.md:238 says the reply counts altered values; the code counts dropped keys only.
- The wallet's optimistic-lock comment has no version comparison behind it; transactions are modelled as serial.

## Model

| member | source | states |
|---|---|---|
| SignUpQueue.ReachableIsInv | app/modules/activity/service.py:154-452 | In every reachable desk the host is seated, nobody is both seated and waiting, a desk under or refused review has no queue, and no seat is idle while someone waits |
| SignUpQueue.RunKeepsInv | app/modules/activity/service.py:268-452 | The same from any desk that satisfies it, over any request sequence |
| SignUpQueue.JoinNeverJumpsTheQueue | app/modules/activity/service.py:268-299 | In every reachable state a direct join takes a seat only when nobody waits, and a waiting user's direct join is refused |
| SignUpQueue.NoOvertaking | app/modules/activity/service.py:344-376 | While a waiter does not give up, nobody who was behind, or joined the queue later, is seated first, over any run |
| SignUpQueue.PositionNeverGrows | app/modules/activity/service.py:256-266 | A waiter who does not give up is seated or waits no further back, over any run |
| SignUpQueue.QuitMovesQueueByOne | app/modules/activity/service.py:378-399 | A seated member's quit seats the first waiter and lowers every other position by one exactly when seats equalled capacity; otherwise the queue stays |
| SignUpQueue.PromoteFillsSeats | app/modules/activity/service.py:344-376 | Promotion seats exactly min(waiters, free seats) from the front, keeps the rest in order, ends within capacity and leaves no seat idle |
| SignUpQueue.RisingStepFits | app/modules/activity/service.py:282-299 | Any step that adds a seat ends within capacity |
| SignUpQueue.SeatsNeverAbovePeakCapacity | app/modules/activity/service.py:154-193 | From creation on, the seats taken lie between one and the largest capacity the activity ever had |
| SignUpQueue.OverfullOnlyByLowering | app/modules/activity/service.py:688-712 | A desk within capacity becomes overfull exactly by its host lowering the capacity below the seats taken |
| SignUpQueue.OneDoorIsOpen | app/modules/activity/service.py:268-444 | In every reachable published desk, a newcomer's direct join seats exactly that user if and only if a seat is free; otherwise the waitlist takes the user at the back or keeps the place |
| SignUpQueue.RefusalsChangeNothing | app/modules/activity/service.py:268-433 | Limited users, unpublished desks, the host and seated users get their answers and change nothing |
| SignUpQueue.QuitEffect | app/modules/activity/service.py:378-399 | A quit frees one seat, which the first waiter gets exactly when seats equalled capacity, or takes one waiter off the queue with everybody else in place, or changes nothing |
| SignUpQueue.LeaveEffect | app/modules/activity/service.py:446-452 | Leaving takes exactly that user off the queue, whatever the status |
| SignUpQueue.UpdateEffect | app/modules/activity/service.py:688-716 | Only the host edits, and a capacity sent while published seats exactly as many waiters as fit, from the front |
| SignUpQueue.ReviewEffect | app/modules/admin/activity.py:47-59 | Approval publishes and refusal rejects a pending desk; any other review changes nothing |
| SignUpQueue.CancelledIsFrozen | app/modules/activity/service.py:718-741 | After cancelling, no run seats, removes or readmits anybody; only waiters can still take themselves off |
| SignUpQueue.RejectionShutsTheDoor | app/modules/admin/activity.py:47-59 | After a refusal no later run lets anyone but the host in |
| SignUpQueue.ApprovalOpensTheDoor | app/modules/admin/activity.py:47-59 | After approval the first newcomer is seated |
| SignUpTable.QueueIsDetermined | app/modules/activity/service.py:353-363 | The waitlisted rows and their timestamps determine one queue |
| SignUpTable.WaitersUpTo | app/modules/activity/service.py:256-266 | The rows counted by the position query for the i-th waiter are exactly i + 1 |
| SignUpTable.Activity.PromoteWaitlist | app/modules/activity/service.py:344-376 | The row-by-row loop terminates, is the batch promotion of the queue machine, and returns the promoted users in queue order |
| SignUpTable.Activity.Join | app/modules/activity/service.py:268-326 | The table step is the queue machine's join; the cached count stays the number of joined rows |
| SignUpTable.Activity.Quit | app/modules/activity/service.py:378-399 | The table step is the queue machine's quit, which has no floor: the floor of one never matters |
| SignUpTable.Activity.JoinWaitlist | app/modules/activity/service.py:422-444 | The table step appends to the queue, or keeps the place of a user already waiting, and reports the rank |
| SignUpTable.Activity.WaitlistPosition | app/modules/activity/service.py:256-266 | The reported position is the exact 1-based rank; the lower clamp never matters |
| SignUpTable.Activity.LeaveWaitlist | app/modules/activity/service.py:446-452 | The table step thins the queue by one user |
| SignUpTable.Activity.Update | app/modules/activity/service.py:688-716 | A capacity edit is the queue machine's update, with promotion only while published and only when the field is sent |
| SignUpTable.Activity.Cancel | app/modules/activity/service.py:718-741 | Cancelling keeps rows and queue as they are |
| SignUpTable.Activity.Review | app/modules/admin/activity.py:47-59 | Review moves only out of pending |
| SignUpTable.Activity.Create | app/modules/activity/service.py:154-193 | A new activity is the opening desk with the host seated |
| Funnel.FunnelSql | app/modules/analytics/aggregate.py:44-67 | The loop produces one CTE per step, each joined to the one before, with every parameter bound to its step |
| Funnel.FunnelMeaning | app/modules/analytics/aggregate.py:44-67 | An actor is in table i exactly when a non-decreasing chain of matching events for steps 0..i exists, and the stored time is the least possible end of such a chain |
| Funnel.FunnelCounts | app/modules/analytics/aggregate.py:66-67 | Each count of the query is the number of actors that reach the step |
| Funnel.FirstStepActors | app/modules/analytics/aggregate.py:32-67 | The first step counts the users of matching signed-in events and the devices of matching signed-out ones, each once |
| Funnel.CountsAreMonotone | app/modules/analytics/aggregate.py:54-63 | Adding rows never lowers a count |
| Funnel.OrderDoesNotMatter | app/modules/analytics/aggregate.py:54-63 | The tables depend only on the set of rows |
| Funnel.FunnelNarrows | app/modules/analytics/aggregate.py:54-67 | The actors of a later step are among those of an earlier one |
| Funnel.PlatformRewrite | app/modules/analytics/aggregate.py:291-294 | The query rewritten for a platform, over the whole log, equals the original query over that platform's rows |
| Funnel.VisibleRows | app/modules/analytics/aggregate.py:291-294 | A request sees exactly its platform's rows, or all rows |
| Funnel.LiveFunnel | app/modules/analytics/aggregate.py:287-309 | Reported users are the declarative counts over the visible rows; each rate exists exactly for a positive divisor, lies in 0..1 and multiplies back |
| Calendar.AddMonthIsAction | app/modules/analytics/partitions.py:11-13 | Adding months is an invertible action of the integers |
| Calendar.NextMonthStart | app/modules/analytics/partitions.py:20-23 | The next month starts exactly when this one's days are over, across year ends and leap days |
| Calendar.PartitionsTile | app/modules/analytics/partitions.py:16-34 | Every day of the ensured span lies in exactly one ensured partition |
| Calendar.CoverageIsFiftyNineDays | app/modules/analytics/partitions.py:16-34 | With three months, a run on any date covers the next n days exactly when n is at most 59 |
| Calendar.NameRoundTrip | app/modules/analytics/partitions.py:24-87 | A generated partition name parses back to its month |
| EventBook.TimingByAge | app/modules/analytics/service.py:84-108 | The outcome depends on the age alone: too old is rejected, too far ahead becomes the current time, and anything between is now minus the age |
| EventBook.SkewDoesNotMatter | app/modules/analytics/service.py:84-108 | A device clock off by any amount gives the result of a perfect one |
| EventBook.RawIdsStayUnique | app/modules/analytics/service.py:154-274 | Over any run of ingestion, retention in any session zone and erasure every raw row has its ledger entry and raw event ids are unique |
| EventBook.NeverTwiceIffKeptLongEnough | app/modules/analytics/service.py:84-163 | No run with advancing device clocks accepts an id twice, exactly when rows are kept at least as long as an event may be old |
| EventBook.AdvancingClockIsSteady | app/modules/analytics/service.py:84-108 | A device clock that advances with real time, and no event sent before it happened, meets the hypothesis of the line above |
| EventBook.DefaultsKeepLongEnough | app/shared/config.py:84-88 | The configured 180 and 7 days meet it |
| EventBook.AcceptedIff | app/modules/analytics/service.py:134-163 | In every run, an event is accepted exactly when it passes its own checks, its measured age allows it and a retention run has since dropped the ledger entry of every earlier acceptance of its id |
| EventTrail.VerdictIs | app/modules/analytics/service.py:134-163 | The verdict on every submission of every run: refused with its reason, duplicated, or accepted with the time its age says |
| EventTrail.RowsAreTrails | app/modules/analytics/service.py:134-274 | After any run the raw rows are exactly those of the accepted submissions that no later step expired, lost or erased, with the submission's id, sender and receipt time, the time its age says, and the address hash unless it was masked |
| EventTrail.ErasureKeeps | app/modules/analytics/service.py:262-274 | Erasure keeps exactly the rows whose user and device are both not named, and the ledger |
| EventTrail.RejectedAreRefusals | app/modules/analytics/service.py:134-153 | The reply lists exactly the refused events in order with their reasons, whatever is stored |
| EventBook.AnonymisedIffBandSuffices | app/modules/analytics/partitions.py:51-58 | On every schedule with runs at most a given gap apart, each run leaves no address hash older than the limit, exactly when the gap is at most 14 days or rows are dropped before they can pass the band |
| EventBook.BatchExtendsRun | app/modules/analytics/service.py:134-163 | Ingesting a batch is the run extended by its events one by one |
| EventStore.TwoStageIsFilterIff | app/modules/analytics/partitions.py:66-98 | Dropping expired partitions, then deleting boundary rows, is the plain filter on receipt time exactly when the session zone is not west of UTC |
| EventStore.Store.EnsureFuturePartitions | app/modules/analytics/partitions.py:16-34 | Creates only missing tables, touches no row, reports distinct names, and leaves a table for every instant of the span |
| EventStore.Store.Ingest | app/modules/analytics/service.py:115-249 | A batch is judged event by event as in the machine, or stores nothing; it fails for want of a partition exactly when no table holds the present time and it would accept an event; accepted, duplicated and rejected add up to the events supplied |
| EventStore.Store.DropExpiredPartitions | app/modules/analytics/partitions.py:66-98 | Drops exactly the partitions that ended before the cutoff and expires the ledger |
| EventStore.Store.EnforceRetention | app/modules/analytics/partitions.py:37-63 | The partition drop, row deletion and anonymisation together are the machine's retention step, losing besides exactly the young rows of partitions dropped too early |
| EventStore.Store.Maintain | workers/tasks.py:67-76 | The daily job creates three months ahead, then retains |
| Upkeep.AlwaysRoomIff | workers/tasks.py:67-76 | On every schedule of upkeep and batches, from any tables, every batch finds a table for its time, exactly when upkeep runs are at most 59 days apart and rows are kept at least as long as the session zone is behind UTC |
| Upkeep.MonthTablesAreDisjoint | app/modules/analytics/partitions.py:16-34 | Tables of different months never hold the same instant |
| Upkeep.MaintainedHasRoom | app/modules/analytics/partitions.py:16-91 | Upkeep leaves a table for every instant from now to the end of the third month and drops none that the present or future needs |
| EventStore.Store.DeleteMyData | app/modules/analytics/service.py:262-274 | Removes exactly the rows of the user or the device and reports how many; the ledger stays |
| Scrub.EmailEndIsLongest | app/modules/analytics/taxonomy.py:232 | The deterministic matcher misses no address of the pattern and takes the longest one |
| Scrub.ScrubbedIsClean | app/modules/analytics/taxonomy.py:241-245 | A scrubbed value cut to any length holds no address and no run of nine digits, and a second scrub changes nothing |
| Scrub.ScrubChangesIff | app/modules/analytics/taxonomy.py:241-245 | Scrubbing alters a value exactly when it holds an address or a run of nine digits |
| ScrubReading.MatchEndIs | app/modules/analytics/taxonomy.py:231-233 | The matcher finds exactly the matches of the three patterns, described by their characters |
| ScrubReading.SubIsSubstitution | app/modules/analytics/taxonomy.py:241-245 | A pass gives exactly the value with every match, left to right, replaced by the marker and everything else kept |
| ScrubReading.ScrubIsThreeSubstitutions | app/modules/analytics/taxonomy.py:241-245 | Scrubbing is exactly the phone, address and number substitutions in this order with these markers |
| ScrubReading.IsolatedPhoneIsMarked | app/modules/analytics/taxonomy.py:231-245 | A phone number standing by itself in clean text becomes "[phone]" and the text stays |
| Scrub.SanitizeProps | app/modules/analytics/service.py:64-81 | Keeps exactly the first 24 acceptable properties, text scrubbed and cut to 120, other scalars as supplied; the number kept is exact and kept plus dropped equals supplied |
| Scrub.StoredValuesAreCleanIff | app/modules/analytics/service.py:64-81 | However non-text scalars are written out, the stored values hold no address and no run of nine digits exactly when no acceptable non-text scalar whose written form has one comes before 24 acceptable properties |
| Scrub.NumberIsStored | app/modules/analytics/service.py:75-76 | A number supplied alone under an accepted key is stored as it is |
| Scrub.PhoneNumberIsStored | app/modules/analytics/taxonomy.py:219-245 | A phone number as an integer is such a value under the actual blacklist |
| Scrub.SafeKeyIff | app/modules/analytics/taxonomy.py:21-238 | A key passes exactly when it has the strict shape and is not blacklisted, or has it up to a final newline, blacklisted or not |
| Scrub.PlainKeyIff | app/modules/analytics/taxonomy.py:219-238 | A key without a final newline passes exactly when it has the strict shape, is not a listed word and ends in no listed suffix |
| Scrub.StoredKeysAreCleanIff | app/modules/analytics/service.py:64-81 | The stored keys, a final newline aside, are free of blacklisted names exactly when no scalar under a blacklisted word and newline comes before 24 acceptable properties |
| Scrub.PlainKeysAreClean | app/modules/analytics/service.py:64-81 | If no supplied key ends in a newline, every stored key has the strict shape and is not blacklisted |
| Scrub.DisguisedKeyIsStored | app/modules/analytics/service.py:72-76 | A scalar under a blacklisted word and newline is stored |
| Scrub.PhoneIsDisguised | app/modules/analytics/taxonomy.py:223-238 | "phone" and a newline is such a key for the actual blacklist |
| Clubs.RunKeepsFounded | app/modules/clubs/service.py:155-446 | Over any run the creator of a never-dissolved club is its active owner, and a club that was ever dissolved has no active owner or administrator |
| Clubs.CreatorStaysOwner | app/modules/clubs/service.py:195-219 | The same from the creation of a user's club |
| Clubs.KickedForever | app/modules/clubs/service.py:275-396 | A kicked user is never active again, through dissolution and revival |
| Clubs.KickEffect | app/modules/clubs/service.py:380-396 | A kick succeeds exactly for an active owner or administrator who sees the club and an active target who is no owner; it marks the target alone |
| Clubs.KickIsForever | app/modules/clubs/service.py:275-396 | After such a kick and any further run the target is not active and every join is refused |
| Clubs.LeaveEffect | app/modules/clubs/service.py:299-310 | Leaving marks exactly that member as gone; the creating owner cannot leave |
| Clubs.LeaverComesBack | app/modules/clubs/service.py:275-310 | Whoever left a live club can join it again as a plain member |
| Clubs.JoinEffect | app/modules/clubs/service.py:275-297 | Joining makes exactly that user an active plain member, exactly when the club is open to the user; otherwise the error is exact and nothing changes |
| Clubs.DissolveEffect | app/modules/clubs/service.py:326-355 | Dissolving leaves nobody active and keeps kicked members kicked; who may dissolve is exact |
| Clubs.ChatEffect | app/modules/clubs/service.py:398-407 | Opening the chat is for active members who see the club and changes no row |
| Clubs.DissolvedUntilHidden | app/modules/clubs/service.py:429-441 | A dissolved club stays dissolved throughout a run exactly when the run contains no hide, and then gains no member |
| Clubs.DissolvedClubComesBack | app/modules/clubs/service.py:433-438 | Hide, unhide and join bring a dissolved club back with an active member |
| Clubs.HiddenAdmitsNobodyIff | app/modules/clubs/service.py:104-110 | A hidden club gains no member over any run without unhide exactly when it has a creator |
| Clubs.HiddenOfficialClubIsJoined | app/modules/clubs/service.py:275-297 | Anyone can join an official club that has been hidden |
| Clubs.Club.Create | app/modules/clubs/service.py:195-219 | A user's club starts with the creator as only member, in the chat, with an exact count |
| Clubs.Club.Seed | app/modules/clubs/seed.py:39-47 | A seeded official club starts with nobody in club or chat and a count that is all surplus |
| Clubs.Club.Join | app/modules/clubs/service.py:275-297 | The rows step is the roster's join; chat members stay the active members and the count keeps its surplus |
| Clubs.Club.Leave | app/modules/clubs/service.py:299-324 | The same for leaving; the floor of zero never matters |
| Clubs.Club.Kick | app/modules/clubs/service.py:380-396 | The same for kicking |
| Clubs.Club.OpenChat | app/modules/clubs/service.py:398-407 | Opening the chat adds nobody who is not an active member |
| Clubs.Club.DissolveNow | app/modules/clubs/service.py:333-355 | Everyone leaves club and chat, the chat closes and the count is zero |
| Clubs.Club.Dissolve | app/modules/clubs/service.py:326-331 | Only the creator of an unofficial club dissolves it |
| Clubs.Club.AdminSetStatus | app/modules/clubs/service.py:429-446 | The administrator's step is the roster's; count, chat and roster stay together through it |
| Wallet.ReachableIsSound | app/modules/commerce/wallet.py:24-159 | Over any run every prefix of the ledger sums to at least zero and the welcome gift is at most one entry, the first |
| Wallet.GiftIsDecidedAtOpening | app/modules/commerce/wallet.py:24-42 | Once an account is open no later step adds or removes the welcome gift |
| Wallet.ChargeEffect | app/modules/commerce/wallet.py:75-100 | A charge takes exactly its amount and succeeds exactly for a positive, covered amount, the opening gift included |
| Wallet.CreditEffect | app/modules/commerce/wallet.py:102-125 | A credit adds exactly its amount; an account it opens gets no gift |
| Wallet.RunConserves | app/modules/commerce/wallet.py:24-159 | Over any run the balance moves by exactly the gift, credits and charges that went through |
| Wallet.UserWallet.CreditEntry | app/modules/commerce/wallet.py:127-159 | Balance, version and running totals stay the summary of the ledger |
| Wallet.UserWallet.EntriesShowRunningTotals | app/modules/commerce/wallet.py:139-156 | Each entry shows the sum of the ledger up to itself, and it is never negative |
| Wallet.UserWallet.Charge | app/modules/commerce/wallet.py:75-100 | A charge appends its amount or changes nothing; the inner overdraft guard is never the one that refuses |
| Wallet.UserWallet.Credit | app/modules/commerce/wallet.py:102-125 | A credit of a positive amount always succeeds |
| Wallet.UserWallet.Reconcile | app/modules/commerce/wallet.py:161-172 | Reconciliation always reports agreement |
| Idempotency.StartsAreSpaced | app/shared/idempotency.py:72-102 | Two starts of the guarded action are at least one lifetime apart unless the first one's record fails in between |
| Idempotency.RetriesAreReplayed | app/shared/idempotency.py:72-107 | After its last completion and before expiry every begin is answered from the record: the stored reply for the same request and user, else a conflict |
| Idempotency.RecordLastsIff | app/shared/idempotency.py:35-111 | Over any run, the slot holds a start's record exactly until it fails, or its user or an anonymous caller begins at or after expiry |
| Idempotency.StartsIff | app/shared/idempotency.py:63-102 | In every run a begin starts the action exactly when every earlier start's record is gone or gives way to it; on an unused slot it always starts |
| Idempotency.RetryWhilePending | app/shared/idempotency.py:72-87 | While the action runs, the same request of the same user is told so |
| Idempotency.ExpiredStillRefusesOthers | app/shared/idempotency.py:51-60 | Until then every begin of another user is refused, however late |
| Idempotency.Store.Begin | app/shared/idempotency.py:63-102 | The table step is the slot's begin; the fall-through never meets a live row |
| Idempotency.Store.Lookup | app/shared/idempotency.py:35-61 | Ownership is checked first; an expired record of the same user is deleted |
| Idempotency.Store.Complete | app/shared/idempotency.py:104-107 | Stores the reply under the same record and touches no other key; a record that is gone is reported and left gone |
| Idempotency.Store.Fail | app/shared/idempotency.py:109-111 | Frees the slot of that record only |
| Sessions.RunKeepsWf | app/modules/auth/service.py:234-287 | The tokens issued from one login always form one chain without repetition |
| Sessions.OneUnrevokedPerLogin | app/modules/auth/service.py:243-287 | In every reachable table at most one of the tokens descending from a login is unrevoked, and it was never exchanged for another |
| Sessions.RowsTrackRun | app/modules/auth/service.py:192-287 | Over every run the rows' revoked flags are those of the chains: unrevoked is the tip of a live chain |
| Sessions.RedeemedAtMostOnce | app/modules/auth/service.py:243-254 | A redeemed token is never redeemed again |
| Sessions.TokenWorksUntil | app/modules/auth/service.py:234-287 | Over any run a token issued at login is redeemed until expiry and answered "expired" after it, unless it was redeemed in time, logged out, or its own user forced out |
| Sessions.UnrevokedIff | app/modules/auth/service.py:234-269 | Over any run a stored token becomes revoked exactly by those steps, and keeps its user and expiry |
| Sessions.RefreshEffect | app/modules/auth/service.py:234-287 | A redemption changes the table only when it succeeds, and hands the token on within the same user |
| Sessions.ForcedLogoutIsFinal | app/modules/admin/users.py:376-385 | After a forced logout none of the user's earlier tokens is ever redeemed |
| Sessions.TokenTable.Login | app/modules/auth/service.py:192-287 | Issuing tokens at login starts a new chain |
| Sessions.TokenTable.Redeem | app/modules/auth/service.py:234-254 | The table step redeems exactly the tip of a live, unexpired chain and extends it |
| Sessions.TokenTable.Logout | app/modules/auth/service.py:256-269 | Revokes the presented token; a chain ends only when its tip is presented |
| Sessions.TokenTable.ForceLogout | app/modules/admin/users.py:376-385 | Ends every chain of the user |
| RateLimit.Limiter.Enforce | app/shared/rate_limit.py:30-40 | Increment and expiry as one step on the key, no other key touched; admission exactly up to the limit |
| RateLimit.LifetimeAdmitsLimit | app/shared/rate_limit.py:30-40 | A key lifetime admits exactly its first `limit` hits |
| RateLimit.WindowBound | app/shared/rate_limit.py:30-40 | No interval of one window admits more than 2 * limit - 1 hits, for every schedule |
| RateLimit.StraddleReachesBound | app/shared/rate_limit.py:30-40 | That bound is reached for every limit and every window longer than one tick |
| RateLimit.SlidingWindowIff | app/shared/rate_limit.py:20-40 | The documented sliding window holds exactly for limit one |

## Left out

- Routers, request schemas, response serialisers, pagination, logging and middleware: they add no property of their own.
- Row locks, `skip_locked` and interleavings of transactions: every request is one step.
- SignUpTable.Activity.JoinWaitlist: takes a clock that advances strictly between queue entries; two rows with equal timestamps have no defined order in the source either.
- SignUpTable.Activity.Create: the account checks before any row exists, and the title, media and fee fields, are not modelled.
- Participant roles, join notes, likes, favourites, comments, journeys and the activity group chat.
- Funnel.LiveFunnel: does not model the rounding of rates to four digits.
- Funnel.FunnelSql: an empty step list, which the catalogue never contains, yields a query without tables here and malformed SQL in the source.
- `day_bounds`, the other daily aggregates, device retention and percentiles: separate queries with no shared state.
- EventStore.Store.Ingest: the name, object and size checks of a single event are one parameter, and the device registry, `skew_ms` and the per-event columns are not modelled.
- EventStore.Store.EnforceRetention: the application's and the database's clock readings within one run are the same instant, and the device registry's own expiry and the two row counts reported are not modelled.
- Upkeep.AlwaysRoomIff: takes the application's date in the database session's zone; tables not named after a month may exist but are assumed not to stand in the way of creation.
- Scrub.SanitizeProps: the byte limit on the encoded properties is part of the single-event checks above; key lower-casing is modelled for ASCII, the only keys that reach it.
- Clubs: name, topic, tag and quota validation, weekly activity, listings and guilds; chat roles; and the messaging endpoints that add or remove members of a chat directly, which do not go through the club service and can separate chat from club.
- Clubs.Club.Create: the idempotent retry with a client-chosen id is not modelled.
- Wallet: frozen amounts, titles, database integer ranges, and callers that catch a refused charge inside one transaction.
- Idempotency.Store.Complete: the reported staleness stands for the database layer's stale-row error; completing twice with equal replies, which issues no update, is not told apart.
- Idempotency.Store.Fail: the database layer's warning about a row that is already gone is not modelled.
- Sessions: SMS codes, passwords, devices, account status and token signing; a token that decodes is one the server issued.
- RateLimit: a crash between increment and expiry, which would leave a key without expiry.
- JWT, password hashing, payment, SMS, map, push and IM vendors; migrations and seed scripts.
