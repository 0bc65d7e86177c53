# Verified model of a messenger server

A Dafny model of the stateful parts of a Go messenger server (PostgreSQL for chats and
messages, Redis for rate limits and event relay, WebSocket clients), with proofs of what the
design promises over every input, every run and every interleaving of its statements.
`dafny verify dfyconfig.toml` checks everything.

## How the code is modelled

**The send limiter.** `SlidingWindow` is the specification: one log, one attempt against it,
whole runs. `MessageRateLimiting` is the in-memory limiter as it is written: a map of Go
slices, compacted in place over the array being read, where append reuses or replaces the
backing array; its contract says in numbers which calls it admits. `RedisRateLimiting` is the
Lua script over a sorted set with a key lifetime, proved to give the same answers as the
in-memory limiter on the truncated clock.

**The tables.** `Tables` holds the tables as maps and the ten changes other transactions can
see (`Change`, `Apply`); `IsRun` is any sequence of them. `UnreadLedger`, `Reactions`,
`MessageRuns`, `Memberships` and `HistoryPages` prove what holds over all runs.

**Interleaved statements.** `MessageTransactions` runs any number of `SetReaction`, `Delete`
and `Edit` calls one statement at a time under row locks; `ChatCalls` runs any number of
get-or-create and membership calls one statement at a time. In both, the committed tables are
shown to pass through a run of changes, so the theorems about runs apply to them.
`MessageProgress` and `ChatProgress` say what becomes of the calls: how many statements each
has left, the only reasons for which one fails, and that they never wait in a circle.

**Delivery.** `FanOut` interleaves registrations, fan-outs (snapshot, one queue attempt per
client, eviction), socket writers and shutdowns. `Relaying` adds `SendToUsers` calls,
publication, a broker that may lose packets for any replica, and the relays of all replicas;
`RelayOrder` proves the order and the completeness of relaying over it, `Departures` why
clients leave, `RelayProgress` that sends and relays can always go on, and `Overtaking` says
exactly at which hubs the order of consecutive sends can be lost.

**Objects.** `Hubs` (clients, hub, relay), `Notifications`, `Repositories`, `Identifiers` and
the two limiter classes carry the update-in-place code, each method proved against the
functions above for a call that runs alone.

Reading conventions: ids of users and chats are numbers, namely the 128-bit values of the UUIDs
(`Identifiers` justifies this); times are integers; message ids grow in commit order, with
gaps; the database's generated ids, its clock and random Redis members are parameters.
`direct_chats` rows have two different users in normalized order because the code puts them
so; the table itself only checks that they differ.

## Model

| member | source | states |
|---|---|---|
| SlidingWindow.LimiterIsOptimal | internal/service/message_rate_limiter.go:39-58 | for nondecreasing times the limiter's own decisions obey "fewer than 10 earlier picks in the window", and no other selection obeying it has more picks on any prefix |
| SlidingWindow.AdmittedIffRoom | internal/service/message_rate_limiter.go:43-57 | a request is admitted exactly when fewer than 10 earlier admissions lie strictly after now minus the window |
| SlidingWindow.BurstBound | internal/service/message_rate_limiter.go:43-57 | a half-open interval of k windows never holds more than 10k admissions |
| SlidingWindow.TenthLaterIsOneWindowAway | internal/service/message_rate_limiter.go:43-57 | an admission and the tenth after it are at least a full window apart |
| SlidingWindow.StoreIsRecentHistory | internal/service/message_rate_limiter.go:44-56 | after any run the stored log is exactly the admission history after the last cutoff, in order |
| SlidingWindow.NextDecision | internal/service/message_rate_limiter.go:43-57 | the next decision, told from the admission history instead of the stored log: admitted exactly if fewer than 10 earlier admissions lie strictly after the cutoff |
| SlidingWindow.DecisionsFiner | internal/service/message_rate_limiter.go:43-57 | counting time in a finer unit changes no decision of a run, if the window is counted in it too |
| SlidingWindow.UsersAreIndependent | internal/service/message_rate_limiter.go:45-56 | a user's log depends on that user's own requests only |
| SlidingWindow.StoredIsOwnHistory | internal/service/message_rate_limiter.go:39-58 | in a run of many users a user's stored log is that user's admissions after that user's last cutoff |
| MessageRateLimiting.MessageRateLimiter.Allow | internal/service/message_rate_limiter.go:39-58 | on slices sharing backing arrays, over the whole history of the object: while the clock does not go back, a call at `now` is admitted if and only if fewer than 10 of this user's earlier admissions lie strictly after now - 5,000,000,000 ns; every other user's log and history stay as they are |
| MessageRateLimiting.KeepRecent | internal/service/message_rate_limiter.go:45-50 | the in-place compaction keeps exactly the attempts after the cutoff, in order |
| MessageRateLimiting.Append | internal/service/message_rate_limiter.go:48-55 | append adds one element, in the same array while there is capacity and in a fresh one otherwise |
| RedisRateLimiting.RedisServer.Check | internal/service/redis_rate_limiter.go:29-38 | one script run in numbers: with Redis milliseconds, admitted exactly if fewer than 10 entries lie after now - 5000; what is older goes, an admitted call adds one entry at now and moves the deadline to now + 5000; other keys do not change |
| RedisRateLimiting.RunSimulates | internal/service/redis_rate_limiter.go:29-38 | over any run of calls and expiry checks the sorted set and the in-memory log hold equally many entries after every later cutoff |
| RedisRateLimiting.ExpirySimulates | internal/service/redis_rate_limiter.go:36-36 | dropping the key at or after its deadline discards no entry that still counts |
| RedisRateLimiting.ExpiryReclaims | internal/service/redis_rate_limiter.go:36-36 | whenever Redis looks at the key it drops it if 5000 ms have passed since the last admission, and keeps it otherwise |
| RedisRateLimiting.DecidesAsInMemory | internal/service/redis_rate_limiter.go:29-38 | every call, from whichever replica, is decided as one in-memory limiter fed all calls on the truncated clock would decide it |
| RedisRateLimiting.RunRefines | internal/service/redis_rate_limiter.go:29-38 | over every run of calls and expiry checks the script's answers are exactly the decisions of the in-memory rule on the truncated call times |
| RedisRateLimiting.ScriptBurstBound | internal/service/redis_rate_limiter.go:29-38 | in any run of the script a half-open interval of k times 5000 ms of Redis time has at most 10k admitted calls, all replicas together |
| RedisRateLimiting.ScriptAdmitsExactly | internal/service/redis_rate_limiter.go:29-38 | after any run of calls and expiry checks, a call is admitted if and only if fewer than 10 earlier admitted calls lie strictly within the last 5000 ms |
| RedisRateLimiting.LimitersAgree | internal/service/redis_rate_limiter.go:29-38 | the script's answers over any run are those of the in-memory limiter, with its own window, on the same Redis times at 1,000,000 ns to the millisecond |
| RedisRateLimiting.ScriptIsOptimal | internal/service/redis_rate_limiter.go:29-38 | the script's answers obey the limit, and no answers that do have more admissions on any prefix of the calls |
| RedisRateLimiting.SpacingInMicros | internal/service/redis_rate_limiter.go:29-38 | in any run of the script with key expiry, an admitted call and the tenth admitted after it are at least 4,999,001 microseconds apart |
| RedisRateLimiting.SpacingIsTight | internal/service/redis_rate_limiter.go:29-38 | a run of the script, in which the key expires before the last call, attains that bound |
| Tables.RunIsWellFormed | internal/repository/message_repository.go:162-179 | every state of a run keeps: reply targets are earlier messages of the same chat, tombstones are empty and have no reactions, live row counts are at most the version and of its parity, cursors name messages of the chat, mute is the version's parity |
| UnreadLedger.LedgerEqualsQuery | internal/repository/chats_repository.go:317-340 | over every run the unread count query equals a ledger: 0 on join, +1 per message of someone else, -1 on deleting an unread one, minus the unread messages a mark passes, unchanged by all else |
| UnreadLedger.CountMoves | internal/repository/chats_repository.go:317-327 | how each change moves the count of someone who stays: one up for somebody else's message in the chat and never for one's own, one down for deleting somebody else's message past the cursor, down to what lies after it for a mark of one's own, and not otherwise |
| UnreadLedger.NewMember | internal/repository/chats_repository.go:305-307 | joining or rejoining starts with nothing unread |
| Memberships.CursorIsLargestMark | internal/repository/chats_repository.go:333-340 | within a membership the cursor is the maximum of its start and the set of marks made |
| Memberships.MarksCommute | internal/repository/chats_repository.go:333-340 | two marks of one membership give the same tables in either order |
| Memberships.MarkReadReachesRequest | internal/repository/chats_repository.go:238-272 | if the message exists when the call starts, then whatever runs between its three statements the call reports no membership or a position at least the requested id |
| Memberships.MarkReadMeans | internal/repository/chats_repository.go:238-272 | for three moments: `advanced`, which makes chat_handler.go:122 notify the others, holds if and only if the first statement changed the tables, and then it moved this cursor to the requested message; no membership means none at the second moment; a position not advanced is the cursor read there |
| Memberships.NewcomersStartFresh | internal/repository/chats_repository.go:222-236 | whoever enters a chat by any change starts unmuted at mute version 0 with the newest message read |
| Memberships.LateMessageFallsShort | internal/repository/chats_repository.go:238-272 | a concrete case without that premise: one Create between the statements, and the call returns a position below the id it was asked for |
| Memberships.SafeExactlyWhen | internal/repository/chats_repository.go:238-272 | for every well-formed state, chat, user and id: no run of changes between the statements makes the call return a position below the id, if and only if the message is in the chat at the start or the id is below the next one to be given out (below the one after that, if the chat has no messages) |
| Memberships.OvertakingFallsShort | internal/repository/chats_repository.go:238-272 | otherwise joining, reading an earlier message and one Create of the id is a run that makes it fall short |
| Memberships.MuteVersionDecides | internal/repository/chat_mute_repository.go:18-34 | within a membership the mute version counts the changes of the setting, and muted means it is odd |
| MessageRuns.VersionCountsChanges | internal/repository/reaction_repository.go:35-39 | the version of a message is the number of committed effective changes of its reactions, deletion included |
| MessageRuns.EqualVersionsEqualReactions | internal/repository/reaction_repository.go:35-44 | equal versions of a message at two moments mean equal reaction rows |
| MessageRuns.SameVersionSameReport | internal/repository/reaction_repository.go:40-49 | two reports of one message with the same version are the same report, and later moments never have smaller versions |
| MessageRuns.ReceiverConverges | README.md:991-991 | a receiver keeping the largest version ends with the server's state, under any reordering and duplication, once a report of the last version has arrived |
| MessageRuns.TombstoneIsFrozen | internal/repository/message_repository.go:61-93 | a deleted message never changes again: empty content, same ids, sender, target and edit time, no reactions |
| MessageRuns.NothingAfterDelete | internal/repository/message_repository.go:61-93 | after a successful Delete no Edit, Delete or SetReaction of the message takes effect |
| MessageRuns.OnlyDeleteDeletes | internal/repository/message_repository.go:72-93 | a live message that is later not live was deleted by a Delete in between |
| MessageRuns.ThreadRoot | migrations/20261007000200_add_message_replies.sql:2-7 | following reply targets ends, at an earlier message of the same chat that replies to nothing |
| MessageRuns.ThreadsAreStable | migrations/20261007000200_add_message_replies.sql:2-7 | the root of every message's thread never changes |
| MessageRuns.PreviewFollowsTarget | internal/repository/message_repository.go:162-168 | after any edits and deletions a reply's preview is present and shows the target's latest text and times, empty once deleted |
| Reactions.GroupIsLossless | internal/repository/reaction_repository.go:52-56 | summaries and their user lists are strictly sorted, counts are list lengths and sum to the row count, and flattening gives back exactly the rows |
| Reactions.GroupIsTheOnlyOne | internal/repository/reaction_repository.go:52-56 | no other ordered list of summaries flattens to the same rows |
| Reactions.RankIsAlphabetical | internal/service/reaction_service.go:12-29 | the order of the summaries is that of the reaction names as strings |
| HistoryPages.WalkReturnsFirstSnapshot | internal/service/message_service.go:92-121 | following the cursor through consistent fetches, each with its own moment of access check and of query, returns the newest ids of the first query, as many as the pages hold, and finishes exactly when that is all |
| HistoryPages.FinishedWalkIsComplete | internal/repository/message_repository.go:180-186 | whatever changes run between pages, the ids strictly descend, a finished walk has exactly the messages that existed at the first page, and it finishes after enough pages |
| HistoryPages.BelowIsStable | internal/repository/message_repository.go:180-186 | later changes neither add nor remove a chat's messages below an id that has been given out |
| HistoryPages.NewestIsPage | internal/repository/message_repository.go:180-186 | the computed page is strictly descending, from the set, as long as the limit or the set allows, and leaves out nothing above its last id |
| HistoryPages.PageIsUnique | internal/repository/message_repository.go:180-186 | that description has one solution |
| HistoryPages.PageLength | internal/service/message_service.go:92-121 | a page has the smallest of the limit, 100 and what there is below the cursor, and a next cursor exactly if that leaves something |
| MessageTransactions.InterleavingIsARun | internal/repository/reaction_repository.go:13-50 | in every statement-level interleaving of SetReaction, Delete and Edit the committed tables pass through a run of changes: no reaction row on a deleted message, versions count commits, row counts at most the version and of its parity |
| MessageTransactions.ResultsAgreeOnVersion | internal/repository/reaction_repository.go:40-49 | two committed SetReaction or Delete results for a message with equal versions are equal |
| MessageTransactions.DeletedAtMostOnce | internal/service/message_service.go:165-174 | of any racing Deletes of a message at most one succeeds |
| MessageTransactions.EditsPrecedeDelete | internal/service/message_service.go:151-163 | every successful Edit of a message commits before its successful Delete |
| MessageTransactions.RefusedMeansDeletedBetween | internal/service/message_service.go:176-194 | a call whose author check passed and whose UPDATE then found no row was overtaken by a Delete between the two |
| MessageProgress.StatementCounts | internal/service/message_service.go:151-194 | a statement of its own brings a call on and, if it ends it without a commit, it is because the caller has no access, the message is not live, or the caller is not its author; otherwise only an abort ends it |
| MessageProgress.NothingElseFails | internal/service/message_service.go:176-194 | a call that could change something right now goes on or commits |
| MessageProgress.EveryCallEnds | internal/repository/reaction_repository.go:13-50 | after at most seven statements of its own a call is over, whatever runs between them |
| MessageProgress.WhoWaits | internal/repository/reaction_repository.go:13-22 | a call that cannot go on waits for the holder of its message's row lock, which can |
| MessageProgress.NoDeadlock | internal/repository/reaction_repository.go:13-22 | as long as any call is open, some open call can take its next statement |
| MessageProgress.CommittedReaction | internal/repository/reaction_repository.go:23-49 | in every interleaving a committed SetReaction has left its row there or not, as wanted, every other row of the message as it was, and returned the report of exactly those rows |
| MessageProgress.CommittedRemoval | internal/repository/message_repository.go:72-93 | in every interleaving a committed Delete blanked a live message of its caller's, gave it the next version, dropped all its reactions, touched nothing else, and reported that version with no reactions |
| MessageProgress.CommittedRewrite | internal/repository/message_repository.go:61-70 | in every interleaving a committed Edit changed the text and edit time of a live message of its caller's and touched nothing else |
| MessageProgress.LastReactionDecides | internal/repository/reaction_repository.go:23-39 | over any run a reaction row is present exactly if the last SetReaction for it on the live message added it and no Delete came since |
| ChatCalls.CallersAgree | internal/repository/chats_repository.go:62-116 | in every interleaving all successful callers for the same two users, in either order, return the one committed chat of the pair |
| ChatCalls.NeverNotFound | internal/repository/chats_repository.go:92-103 | in every interleaving, rereading the winner of a race, or the caller's own membership in the chat found, never comes back empty |
| ChatProgress.StatementCounts | internal/repository/chats_repository.go:62-116 | a get-or-create call becomes aborted by an Abort step of its own and by nothing else, each statement of its own brings it on, and no other step touches it |
| ChatProgress.EveryCallerIsServed | internal/repository/chats_repository.go:62-116 | a caller that is not aborted has, after at most six statements of its own and whatever runs between them, returned the pair's committed chat and is a member of it |
| ChatProgress.RereadsWinner | internal/repository/chats_repository.go:62-76 | a caller's first look finds the chat exactly if the pair has one; rereading after a lost race always finds it |
| ChatProgress.LoserGetsWinnersChat | internal/repository/chats_repository.go:90-103 | from a lost race exactly two statements, and from having found the chat exactly one, leave the caller with the winner's chat and its own membership |
| ChatProgress.WhoWaits | internal/repository/chats_repository.go:77-98 | a caller that cannot go on waits for an open transaction that has claimed the same pair, which can |
| ChatProgress.NoDeadlock | internal/repository/chats_repository.go:77-98 | as long as any call is open, some open call can take its next statement |
| ChatProgress.RefusedForAReason | internal/service/chat_service.go:195-240 | a membership call is refused only when its actor is not the group's admin or would remove itself, or by an abort |
| ChatProgress.EntitledGoesThrough | internal/service/chat_service.go:195-240 | the statements of an entitled caller pass both checks and then make its change: the one membership row, and no other |
| ChatCalls.DirectoryIsAlwaysOk | internal/service/chat_service.go:195-240 | in every reachable state a pair has at most one row, a direct chat has its row and exactly its two users, and a group has exactly one admin, its creator, with the rights check and the change as separate steps |
| ChatCalls.StepIsOneChange | internal/repository/chats_repository.go:62-116 | each step commits nothing or exactly one change |
| ChatCalls.ExecutionIsARun | internal/repository/chats_repository.go:62-116 | every interleaving of these calls is a run of changes from the empty database |
| FanOut.NoSilentLoss | internal/realtime/hub.go:61-71 | after a fan-out is over, every client of its user that registered before it and still is registered has the event queued |
| FanOut.CopiesInOrder | internal/realtime/client.go:57-64 | a client gets the copies of two fan-outs, one over before the other began, in that order |
| FanOut.NextKeepsInv | internal/realtime/hub.go:61-71 | every step keeps: queues hold at most 20, copies go once and only to snapshot clients, each snapshot client is pending, queued, being evicted or gone |
| FanOut.AttemptDecides | internal/realtime/client.go:57-64 | a client with fewer than 20 unwritten items gets the copy and stays; one with 20 gets nothing and is to be evicted; no other client or fan-out changes |
| FanOut.AnswerDecides | internal/realtime/client.go:57-64 | a connection's own reply is queued behind what is there unless that is 20 items; nothing else changes |
| FanOut.WriteDecides | internal/realtime/client.go:66-77 | a writer takes one item off its own queue and changes nothing else |
| FanOut.Registration | internal/realtime/hub.go:23-41 | a client enters only by registering, with an empty queue, and leaves only by its own disconnection, its hub's shutdown, or an eviction decided on it |
| Relaying.AtMostOneCopy | internal/realtime/redis_relay.go:54-74 | across replicas and interleavings with losses and evictions a send puts at most one copy in any queue, and only in queues of users it lists |
| Relaying.PublishedAtMostOnce | internal/realtime/hub.go:83-91 | in every execution every send, whether or not anyone has a copy yet, is published at most once |
| Relaying.ExactlyOneLocalCopy | internal/realtime/hub.go:73-92 | a client of a listed user registered throughout a send at the sending hub is queued exactly one copy |
| Relaying.MissedMeansEvicted | internal/realtime/hub.go:61-71 | at every hub a client that missed a finished fan-out to its user is no longer registered, and no queue exceeds 20 |
| Departures.EvictingMeansFull | internal/realtime/hub.go:61-71 | in every execution a fan-out that means to evict a client found 20 unwritten items in its queue when it tried it |
| Departures.LeavesOnlyFor | internal/realtime/hub.go:33-71 | in every execution a registered client leaves only by its own disconnection, a shutdown, or an eviction by a fan-out that found it full |
| Relaying.DeliveredInOrder | internal/realtime/redis_relay.go:54-74 | of two fan-outs, local or relayed, of which one was over before the other started, every client has the first one's copy first |
| RelayOrder.PublicationOrderKept | internal/realtime/redis_relay.go:54-74 | at a hub neither of two sends comes from, every client holding copies of both has the one published first first |
| RelayOrder.SendsArriveInOrder | internal/realtime/hub.go:73-92 | if one send has returned before another begins, at the same hub or not, clients have its copy first, at every hub but the one where the later send begins when the earlier came from elsewhere |
| RelayOrder.RemoteDelivery | internal/realtime/redis_relay.go:54-74 | a packet handed to a remote hub, not lost there and no longer waiting or being relayed has given exactly one copy to each client of a listed user registered there since before the hand-off |
| RelayOrder.Whereabouts | internal/realtime/redis_relay.go:54-74 | a packet handed to a hub and not lost there is still waiting or being relayed, or its relay has finished |
| RelayOrder.PublishedReachesChannel | internal/realtime/redis_relay.go:41-52 | every accepted publication puts exactly one packet last in the channel: that send, its hub, each listed user once |
| RelayOrder.HandedOff | internal/realtime/redis_relay.go:41-59 | what was published is still in the channel or was handed off in a step in between |
| RelayOrder.PublishedIsDelivered | internal/realtime/redis_relay.go:41-74 | from end to end: an accepted event that the broker hands to a hub and that is not lost there has given, when the hub is through with it, exactly one copy to each client of a listed user registered there since the publication |
| RelayProgress.SendCanMove | internal/realtime/hub.go:73-92 | a send that has not returned can always go on, and once its loop is done it can publish |
| RelayProgress.RelayCanMove | internal/realtime/redis_relay.go:54-74 | a busy relay can always go on and an idle one takes the first packet that waits |
| RelayOrder.ExecutionKeepsOrder | internal/realtime/redis_relay.go:54-74 | in every reachable state each hub's pending packets are in publication order, and its relayed fan-outs of different sends do not overlap and started in that order |
| Overtaking.InOrderExactlyWhen | internal/realtime/hub.go:73-92 | for hubs a, b and h: clients of h always get a send of a before any send of b begun after it returned, if and only if h is a or h is not b |
| Overtaking.OvertakenAtOrigin | internal/realtime/redis_relay.go:61-71 | for any two hubs an execution in which the later hub's own send is queued at it before the relayed earlier one |
| Relaying.ExecutionKeepsInv | internal/realtime/redis_relay.go:14-74 | the whole invariant holds in every reachable state: a packet is in one place at each hub, carries the distinct users of a returned send, and is never relayed at its origin |
| Distinct.FirstsKeepAll | internal/realtime/hub.go:74-82 | the seen loop keeps every id outside the initial set exactly once |
| Hubs.Connection.Send | internal/realtime/client.go:57-64 | a queue of 20 refuses, otherwise the event is appended |
| Hubs.Connection.WriteLoop | internal/realtime/client.go:66-77 | with events arriving between its iterations: what was queued and accepted is written in order, followed by at most one event lost to a failed write and by what is left; it ends only on cancellation or such a failure |
| Hubs.Hub.Register | internal/realtime/hub.go:23-31 | adds the client under its user and changes no other entry |
| Hubs.Hub.Unregister | internal/realtime/hub.go:33-41 | removes the client, drops an entry left empty, changes nothing else |
| Hubs.Hub.SendLocal | internal/realtime/hub.go:61-71 | each client of the user gets the event if it had room and is evicted and closed otherwise; nobody else is touched |
| Hubs.Hub.SendToUsers | internal/realtime/hub.go:73-92 | one copy, or with 20 items in the queue eviction and closing, for each client of a listed user however often listed, nothing for others; one publication of the distinct users if a publisher is set |
| Hubs.Hub.Shutdown | internal/realtime/hub.go:94-99 | no client remains registered and every one that was is closed |
| Hubs.FirstsCount | internal/realtime/hub.go:73-92 | what is published lists each user of the call once |
| Hubs.RedisRelay.Publish | internal/realtime/redis_relay.go:41-52 | puts one event of this origin on the channel or reports failure |
| Hubs.RedisRelay.Receive | internal/realtime/redis_relay.go:61-71 | ignores own and empty events, otherwise fans out locally only: a client is offered as many copies as its user is listed, and evicted and closed exactly if they do not fit |
| Notifications.MessageNotifier.NotifyChat | internal/controller/restapi/message_notifier.go:32-44 | every member's clients get the event, the sender's included, or are evicted if full; no other client leaves; one event listing the distinct members is published |
| Notifications.MessageNotifier.NotifyReadUpdated | internal/controller/restapi/message_notifier.go:46-61 | the other members' clients get the event or are evicted if full, the reader's are left alone, here and in what is published |
| Notifications.MessageNotifier.AcknowledgeAndBroadcast | internal/controller/restapi/web_socket.go:77-80 | the sending connection is offered the acknowledgement first and then, like every member's connection, the event; evictions and the publication are those of the broadcast |
| Identifiers.NormalizeChatIDs | internal/service/chat_service.go:243-256 | accepts exactly the hyphenated hexadecimal form, lowers the ids in place up to the first rejected one and leaves the rest |
| Identifiers.NormalizedIdsCompareAsValues | internal/repository/chats_repository.go:290-295 | lowered ids are equal, and ordered as strings, exactly as their 128-bit values are |
| Identifiers.LoweredIsAccepted | internal/service/chat_service.go:243-256 | normalization is idempotent and keeps the value |
| Repositories.ChatRepository.CreateGroup | internal/repository/chats_repository.go:22-60 | succeeds exactly when the members are known, distinct and not the creator; then exactly the chat row and one fresh membership for the creator as admin and each other user, otherwise no trace |
| Repositories.ChatRepository.InsertMembers | internal/repository/chats_repository.go:43-47 | the loop adds one ordinary member per listed user and fails on a repetition or an unknown user |
| Repositories.ChatRepository.GetOrCreateDirect | internal/repository/chats_repository.go:62-116 | returns the pair's chat with the caller a member; creates it exactly when there was none: one chat row, one pair row with the smaller id first, two fresh memberships |
| Repositories.ChatRepository.AddMember | internal/repository/chats_repository.go:222-236 | only this membership changes: a new one starts with the role asked for, unmuted, everything read; the duplicate error exactly for an existing member, or rejection |
| Repositories.ChatRepository.RemoveMember | internal/repository/chats_repository.go:274-288 | the membership is gone and nothing else changed, or member not found exactly if there was none |
| Repositories.ChatRepository.MarkRead | internal/repository/chats_repository.go:238-272 | only this cursor can move; advanced exactly if it did, to the requested message; otherwise the cursor as it was, at or beyond the request, or the error that says what is missing |
| Repositories.ChatRepository.SetMute | internal/repository/chat_mute_repository.go:12-39 | afterwards the row has the requested setting and a version one higher exactly if that changed it; nothing else changes; returns both with whether it changed |
| Repositories.MessageRepository.Create | internal/repository/message_repository.go:20-37 | creates exactly if there is no reply target or it is a live message of the chat: one row with a fresh id and no reactions, nothing else; returns it with a preview of the target as it stands |
| Repositories.MessageRepository.Edit | internal/repository/message_repository.go:61-70 | exactly on a live message of this sender the text and edit time of that row change, and it is the row returned; nothing else changes, reactions and preview included |
| Repositories.MessageRepository.Delete | internal/repository/message_repository.go:72-93 | exactly on a live message of this sender the row keeps all but its text, deletion time and version, its reactions go, and it is the row returned, with no reactions; nothing else changes |
| Repositories.MessageRepository.SetReaction | internal/repository/reaction_repository.go:13-50 | the row named is there exactly if it was to be added, every other row and every other message is as before, the version goes up by one exactly if a row changed, and the report is of the rows now there |
| Repositories.MessageRepository.ListBefore | internal/repository/message_repository.go:95-128 | ids strictly descend, are of the chat and below the cursor, are as many as the limit or all there are, with none left out above the last; each row is as the tables have it |
| Repositories.MessageRepository.History | internal/service/message_service.go:92-121 | an invalid limit or cursor or a missing membership is reported, each exactly then; otherwise rows as ListBefore returns them, of the size min(limit, 100), and the last id as next cursor exactly if older messages exist |
| Repositories.ChatService.CreateGroupChat | internal/service/chat_service.go:106-137 | after dropping repetitions and the creator, only an unknown user or a clash of the generated id can fail the call; the group has exactly the listed users and the creator |

## Left out

- HTTP routing, JSON, JWT, password hashing, configuration, Docker, metrics counters (slow clients, failed publications) and health checks: no state that the properties speak of.
- Title, content and username checks and message search: single conditions, or pattern matching owned by the database.
- Mapping of repository errors to service and HTTP errors: a table.
- Timeouts, cancelled contexts and lost database connections, except that an open transaction may abort at any statement in `ChatCalls` and `MessageTransactions`.
- `created_at`, `joined_at` and the ordering of the chat list by creation time.
- Accounts: the set of known users is fixed within a call; deleting an account and its cascades is not modelled. The interleaved machines let every user exist.
- MessageRepository.Edit: read as one atomic row, so nothing is claimed about the reaction version an Edit returns under concurrent reactions; version claims rest on SetReaction and Delete only.
- SetMute as a transaction of several steps: its row lock lasts from its first to its last statement, so it is one change.
- A member removed between its access check and its edit, deletion or reaction: the code does not make these atomic, the interleaved machines have the check as a statement of its own, and such a call goes through.
- Fairness: the progress results say how many statements a call has left and that one can be taken, not when the scheduler or the database takes it.
- Malformed, empty or foreign packets on the Redis channel in `Relaying`; `Hubs.RedisRelay.Receive` handles empty and repeated ones for a call that runs alone.
- Closing of the relay and what a closed socket does next: a closed client is a flag on the connection object, its handler's unregistering is a step of `FanOut`; a closed relay is a hub whose sends return unpublished.
- Hubs.Hub.SendLocal: runs without interference; registrations, writers and other sends in the middle of it are the subject of `FanOut` and `Relaying`.
- MessageRateLimiting.MessageRateLimiter.Allow: the mutex makes it one step; times are exact integers of nanoseconds, without the monotonic clock reading.
- Redis errors (a limiter that cannot be reached) and eviction of keys before their lifetime ends.
