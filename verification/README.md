# A verified model of RFMP

RFMP is a gossip protocol for messages over a lossy broadcast radio. Every node keeps an insert-only message
table, floods new messages, broadcasts a vector clock of what it holds without gaps, and answers the clocks of
others by pushing what they lack. Long messages travel as fragments. Frames go to the modem as AX.25 UI frames in
KISS framing.

This project models that code in Dafny and proves what it keeps, layer by layer. The layers are connected: every
handler of the daemon class, and every turn of its transmission and cleanup loops, is proved to act on the node's
state as one of the step functions of module Node, and those are the steps of the network model.

| files | what they hold |
|---|---|
| Wrappers, Messages | result types; messages, fragments, vectors, frames, the abstract codec |
| VectorClock | the contiguous prefix and the advertised clock of a table |
| Fragmentation, Fragmenter, Reassembly | cutting, the collectors (as classes), any stream of fragments |
| Node | one node's handlers as step functions |
| Gossip, Agreement | N nodes and the air, the invariant of every run, what it means for tables, queues and frames in flight |
| Sync, Convergence, Flooding | one clock exchange; the measure and when all tables become equal; how often a message is rebroadcast |
| Tables, TransmissionQueue, Storage | counters; the retrying queue; the database as a class |
| Daemon | the daemon as a class over the database and the fragmenter |
| Text, Frames, Parser, Rows | queue rows, message rows and protobuf values; that every frame of a run survives them |
| Bits, Kiss, Ax25, Direwolf, Broker | the framing stack, the modem client, the simulator's splitter and partitions |
| Stack | the layers put together, from a frame of a run to the receiver's handler and back |

## How to read the network model

`Gossip.Net` is a map of node states, the set of all frames ever put on the air, and the history of posts. A frame
may be delivered to any node any number of times, in any order, after any delay, or never: loss, duplication,
reordering and delay are all runs of the model. The other steps are a post, a clock broadcast, a transmission, the
end of a queue row, the expiry of any seen keys, the expiry of any collectors, and a restart (which drops the seen
cache and the collectors and keeps the database). `Reachable` means reached from empty nodes by any sequence of these.

Premises, written into `CanPost` and the types:

- callsigns are unique and fixed, every origin is honest, and frames are delivered whole or not at all;
- a newly posted id is new network-wide (the SHA-256 ids are injective over posts); an id the sender already holds
  is not excluded, it is the error path of a post;
- the serializer reads back what it wrote for posted messages; its bytes are otherwise arbitrary;
- one fragmentation threshold in the whole network;
- seen-cache keys of messages, fragments and callsigns are distinct;
- database statements succeed and are durable; time is in whole seconds.

A row in the air or in a queue is a set element, so the network model does not count how often a frame is queued.
`Flooding` counts the handler's acceptances and rebroadcasts in a run instead.

## Where the code differs from its documentation or from what one would expect

The model follows the code. Each point is a theorem:

- A stored message can be processed again, against section 13.1 of docs/rfmp-rfc.txt: one that travels as a MSG frame
  exactly when its id is absent from the seen cache (`Flooding.AcceptedAgainIff`), one that travels as fragments exactly
  at an unseen fragment that fills its collector while its id is absent (`Flooding.AcceptedByFragmentIff`). Both happen
  (`Flooding.AcceptedAgainAfterExpiry`, `Flooding.FragmentsAcceptedAgain`). In every run a node accepts an id at most
  once more than it forgets it (`Flooding.AcceptancesAreBounded`), and the table is never affected.
- A fragment is marked seen before its collector takes it, and seen keys outlive collectors. So a message can become
  undeliverable to a node for a while. `Sync.FragmentsArriveIff` gives the exact condition for delivery in any run,
  `Sync.BlocksIff` the exact step that brings it about, `Sync.ExpiryBlocks` a two-step run that does, and
  `Sync.UnblocksIff` the exact step that ends it.
- A full collector whose data does not decode is kept until it expires, not discarded as section 8.2 of
  docs/rfmp-rfc.txt says: `Fragmentation.CollectorGoesIff` says when a collector goes, `Fragmentation.UndecodableIsKept`
  shows one that stays, `Reassembly.FullCollectorsAreStuck` that all full ones left behind are of this kind, and
  `Reassembly.StuckUntilExpiry` that nothing but expiry moves them.
- A post needing more than 255 fragments is accepted and queued but no other node can ever receive it. Convergence is
  possible exactly when every post fits (`Convergence.ConvergesIffEveryPostFits`); otherwise each clock can be brought
  exactly up to the origin's first such post (`Convergence.LimitIsAttained`).
- A stale clock can be answered with less than the current one would be: exactly when the answering node holds a row of
  an origin that neither the clock nor its own clock lists (`Sync.StaleClockOverSendsIff`), as happens with a row above
  a gap at number 1 (`Sync.RowAboveGapIsOutOfSight`).
- The KISS decoder pairs delimiters and consumes both. Noise with an odd number of FENDs makes it drop the next
  transmission, whatever it carries, and back-to-back transmissions never bring it back
  (`Direwolf.SurvivesIffEven`, `Direwolf.PhaseErrorLosesAll`), against section 12.3 of docs/rfmp-rfc.txt.
- A partition in the simulator does not stop relayed frames when some client is in neither group
  (`Brokers.CrossesIffBridge`).

## Model

| member | source | states |
|---|---|---|
| Gossip.StepKeepsInv | internal/daemon/daemon.go:103-250 | any single step (post, delivery of any frame in the air, clock broadcast, transmission, expiry, restart) keeps the global invariant: tables hold only posted rows, an origin holds all its posts numbered without a gap, seen ids are stored, collectors hold only true pieces, every queued or flying frame is genuine; no table loses a row |
| Gossip.ExecKeepsInv | internal/daemon/daemon.go:103-250 | the same over every run, under loss, duplication, reordering, delay, restart and cleanup |
| Gossip.ReachableInv | internal/storage/database.go:131-153 | every state reachable from empty nodes satisfies the invariant, restarts included |
| Gossip.ReceiveOk | internal/daemon/daemon.go:86-250 | receiving any frame that can be in the air leaves the node good, loses no row and queues only genuine frames |
| Gossip.NextSeqIsFresh | internal/storage/database.go:190-198 | MAX(seq)+1 over the sender's own table is one past the network-wide prefix of its posts and is taken by no post anywhere |
| Gossip.PostFailsIff | internal/storage/database.go:190-214 | the plain INSERT of a post fails exactly when the sender already stores that id; the unique (from_node, seq) index never gets in the way |
| Gossip.NoConflict | internal/storage/database.go:66 | for a posted message the unique (from_node, seq) index never rejects an insert into any node's table |
| Agreement.RowsComeFromOrigin | internal/daemon/daemon.go:103-174 | in every reachable state each row of each table is, unchanged, a row of its origin's own table |
| Agreement.NodesAgree | internal/daemon/daemon.go:103-174 | two rows anywhere are equal if and only if they share the id or share (from_node, seq): no two nodes ever disagree |
| Agreement.OwnMessagesAreNumbered | internal/storage/database.go:190-214 | in every reachable state an origin's own table holds its numbers 1..k exactly, and the next post gets k+1 |
| Agreement.FramesAreGenuine | internal/daemon/daemon.go:192-250 | every frame in a queue or in the air, however old, is an origin's row, a fragment of one, or a clock that its sender has reached |
| Agreement.SeenIsStored | internal/daemon/daemon.go:103-109 | a message id in a seen cache is the id of a stored row, so a dropped duplicate loses nothing |
| Sync.StaleClockOverSendsIff | internal/daemon/daemon.go:201-222 | every newer clock of the sender would be answered with no more than the given old one, if and only if the answering table holds no numbered row of an origin other than the sender that neither the old clock nor the table's own clock lists: a condition on the old clock and the table alone |
| Sync.RowAboveGapIsOutOfSight | internal/storage/database.go:333-335 | the exception arises: a row numbered 2 or more held without number 1 is left out of the answer to an empty clock and is in the answer to the clock that lists its origin at 1 |
| Sync.FragmentsArriveIff | internal/daemon/daemon.go:176-190 | in any run of the network, interleaved in any way, that delivers every frame of a message that fits and in which the receiver neither restarts nor expires its collector or its seen fragments of it, the message is stored at the end if and only if it was not blocked at the start |
| Sync.BlocksIff | internal/protocol/fragmentation.go:145-157 | a step blocks an open message at a node if and only if it expires that node's collector for it while the message is not stored and one of its fragments is still in the seen cache |
| Sync.ExpiryBlocks | internal/daemon/daemon.go:176-190 | the failing case as a run: one fragment of several reaches a node that knew none of them, its collector expires, and the message is blocked |
| Sync.MessageArrives | internal/daemon/daemon.go:103-190 | in any run that delivers every frame of an open message that fits, whatever any node does in between, the message is stored at the end; only a restart and the expiry of its own collector at the receiver are excluded |
| Sync.RunKeepsBlocked | internal/daemon/daemon.go:176-182 | a blocked message stays blocked in any run, collector expiry included, in which the node does not restart and forgets no fragment of it |
| Sync.UnblocksIff | internal/storage/database.go:493-497 | a step opens a blocked message if and only if it restarts the node, or expires seen keys there so that no seen fragment is left outside the collector |
| Sync.ReceiveEffect | internal/daemon/daemon.go:176-190 | receiving a good frame never blocks any message; a MSG frame unblocks its own message and nothing else changes which are blocked |
| Sync.SyncRound | internal/daemon/daemon.go:192-250 | a node answers a clock, even a stale one; in any later run, interleaved in any way, that gets the answer's messages of one origin up to number k to the asker, the asker's clock for that origin ends at k or more and never below its earlier value; nothing is asked of other origins or later numbers |
| Sync.RunKeepsUnblocked | internal/daemon/daemon.go:367-370 | no run without collector expiry ever blocks a message anywhere |
| Convergence.EqualClocksIffEqualTables | internal/storage/database.go:304-338 | in any good state all clocks are equal if and only if all tables are equal |
| Convergence.ConvergedIffNoGap | internal/storage/database.go:304-338 | all tables equal the history exactly when every node's clock for every origin reaches that origin's last post |
| Convergence.CoveredIsNotPushed | internal/daemon/daemon.go:213-222 | what is pushed for a clock is above the number it lists for that origin (above 0 if none) and never of the asker |
| Convergence.SilenceIffUpToDate | internal/daemon/daemon.go:192-250 | every node answers a node's current clock with nothing if and only if that node has every post of every origin |
| Convergence.ConvergedIsQuiet | internal/daemon/daemon.go:192-250 | once all tables are equal, no node's current clock makes any node queue anything |
| Convergence.RunNeverRaisesDeficit | internal/daemon/daemon.go:192-250 | over any run without posts the sum over nodes and origins of the missing tail never rises and stays non-negative |
| Convergence.ZeroDeficitIffConverged | internal/daemon/daemon.go:192-250 | that measure is zero exactly when all tables are equal |
| Convergence.ServedRunReaches | internal/daemon/daemon.go:192-250 | in every run, posts, restarts and expiry included, in which an origin handles some clock of a node and its first k messages reach that node within some window after it, the node's clock for it ends at k or more; only within that window must the node keep its collectors |
| Convergence.ServedRunDeliversAll | internal/daemon/daemon.go:192-250 | every run that serves all pairs, each within a window of its own, brings every message posted before it to every node, with posts, restarts and expiry anywhere outside the windows |
| Convergence.ServedRunConverges | internal/daemon/daemon.go:192-250 | every such run without posts ends with all tables equal, whatever restarts and expires outside the pairs' own windows |
| Convergence.ServedRunIsAtLimit | internal/daemon/daemon.go:192-250 | every run without posts that serves each pair, within a window of its own, up to the origin's first misfit takes every clock exactly there |
| Convergence.LosslessExchange | internal/daemon/daemon.go:192-250 | from any good state there is a run, clock out and answer back, after which the asker has of every origin all that the answerer has before the first message the asker can not get (a misfit or a blocked one), and of the answerer itself all posts before the first such one |
| Convergence.ExchangeLowersDeficit | internal/daemon/daemon.go:192-250 | while some node can still gain the next message of some origin, an exchange with that origin strictly lowers the measure, whatever else is blocked or does not fit |
| Convergence.PositiveDeficitFalls | internal/daemon/daemon.go:192-250 | while nothing is blocked, every post fits and the measure is positive, some exchange strictly lowers it |
| Convergence.ObtainableIsBound | internal/daemon/daemon.go:176-190 | no run without posts in which a node neither restarts nor forgets a fragment takes its clock past the first message it could not get at the start |
| Convergence.ProgressIff | internal/daemon/daemon.go:192-250 | some run without posts, restarts and forgotten fragments lowers the measure if and only if some node can still gain a message of some origin |
| Convergence.ExchangeAll | internal/daemon/daemon.go:192-250 | from any good state one exchange for each listed pair brings every listed node level with what it could get of that origin, in whatever order |
| Convergence.CanConverge | internal/daemon/daemon.go:192-250 | from any good state in which every post fits, a run without posts makes all tables equal |
| Convergence.ClockWithinLimit | internal/protocol/fragmentation.go:114-117 | no clock for another origin ever passes the number of that origin's posts before its first misfit |
| Convergence.CanReachLimit | internal/daemon/daemon.go:192-250 | from any good state some run without posts takes every clock to that limit at once |
| Convergence.LimitIsAttained | internal/daemon/daemon.go:192-250 | from a reachable state, no run without posts takes a clock for another origin past the limit, and one run takes all clocks there |
| Convergence.MisfitStaysHome | internal/protocol/fragmentation.go:114-117 | a post needing more than 255 fragments is in its origin's table and in no other, ever |
| Convergence.ConvergesIffEveryPostFits | internal/daemon/daemon.go:192-250 | from a reachable state some continuation without posts makes all tables equal if and only if every post fits into 255 fragments or there is at most one node |
| Flooding.ReceiveQueues | internal/daemon/daemon.go:103-174 | a received MSG or FRAG queues exactly the frames of a newly accepted message of another node, and marks exactly that id seen |
| Flooding.AcceptancesAreBounded | internal/storage/database.go:289-302 | in every run a node accepts an id at most as often as it forgets it, plus one if it had not seen it at the start, and rebroadcasts at most as often |
| Flooding.AcceptedOncePerEpoch | internal/storage/database.go:289-302 | while a node keeps an id in its seen cache it accepts that id at most once, not at all if already seen |
| Flooding.AcceptedAgainIff | internal/daemon/daemon.go:103-147 | a stored message delivered as a MSG frame is accepted again if and only if its id is absent from the seen cache; then its frames are queued unless it is one's own, and the table stays |
| Flooding.AcceptedByFragmentIff | internal/daemon/daemon.go:176-190 | a delivered fragment makes its message accepted, stored or not, if and only if the fragment's key and the message's key are absent from the seen cache and the fragment fills the collector |
| Flooding.FragmentsAcceptedIff | internal/daemon/daemon.go:176-190 | in any run that delivers all fragments of a message and in which the node keeps its collector and its keys, the message is accepted exactly once if it was unseen with no seen fragment missing from the collector, and otherwise not at all |
| Flooding.FragmentsAcceptedAgain | internal/storage/database.go:138-146 | it happens: a stored message that travelled as fragments is accepted again when its keys expire or the node restarts and all its fragments come again |
| Flooding.FragmentOfStoredKeepsTable | internal/storage/database.go:167-188 | a fragment of a stored message never changes the table |
| Flooding.OriginNeverRebroadcasts | internal/daemon/daemon.go:145-147 | in every run, expiry and restart included, the origin of a message never rebroadcasts it |
| Flooding.FloodIsBounded | internal/daemon/daemon.go:103-174 | while no node forgets the id, one post is rebroadcast at most once by each node other than its origin, however often its frames arrive |
| Flooding.AcceptedAgainAfterExpiry | internal/daemon/daemon.go:133-141 | it happens: the id of a stored message expires, its MSG frame comes again, and it is accepted and queued again; the table does not change |
| Reassembly.OutputsAtCompletion | internal/protocol/fragmentation.go:114-143 | in any stream of fragments of messages with distinct ids, a fragment outputs its message, equal to the original, exactly when it fills the set of indexes received since that message last came out |
| Reassembly.OutputDependsOnOwnId | internal/protocol/fragmentation.go:114-143 | for every stream, hostile or conflicting fragments included, and every codec, what a fragment outputs depends only on the earlier fragments with its own id |
| Reassembly.CountingIsSound | internal/protocol/fragmentation.go:31-61 | after every stream of parsed fragments, every collector's count equals its total if and only if no index is missing, and missing plus received is the total |
| Reassembly.CollectorsAreInRange | internal/protocol/parser.go:131-135 | after every such stream every collector has a positive total and only indexes below it |
| Reassembly.FullCollectorsAreStuck | internal/protocol/fragmentation.go:131-140 | after every such stream the full collectors are exactly those whose joined data is empty or does not decode |
| Reassembly.StuckUntilExpiry | internal/protocol/fragmentation.go:131-157 | whatever parsed fragments arrive and whatever other collectors expire, such a collector stays as it is until it expires itself |
| Reassembly.ArrivedComesOut | internal/protocol/fragmentation.go:114-143 | a message of which every fragment occurs in the stream has come out |
| Reassembly.CollectedIsOpen | internal/protocol/fragmentation.go:31-51 | after any stream each collector holds exactly the open indexes of its message, with the original data |
| Fragmentation.ChunksJoin | internal/protocol/fragmentation.go:88-112 | the pieces concatenate to the encoding |
| Fragmentation.ChunkSizes | internal/protocol/fragmentation.go:94-110 | every piece but the last has the full size, the last is non-empty and no longer |
| Fragmentation.ChunksCount | internal/protocol/fragmentation.go:94-95 | the number of pieces is the ceiling of length over size |
| Fragmentation.FitsIff | internal/protocol/fragmentation.go:88-117 | at most 255 fragments if and only if the encoding has at most threshold bytes, or at most 255 times threshold - 15 (255 when the threshold is 16 or less) |
| Fragmentation.WholeIff | internal/protocol/fragmentation.go:88-92 | a message travels whole if and only if its encoding fits the threshold or is empty |
| Fragmentation.FragmentIs | internal/protocol/fragmentation.go:94-110 | every fragment carries the id, its place and the total, and some data that leaves 15 bytes of the threshold free; all but the last use up the rest; a threshold of 15 or less gives single bytes |
| Fragmentation.CompleteIffNoneMissing | internal/protocol/fragmentation.go:45-61 | with all indexes in range, the count equals the total if and only if no index is missing, and missing plus received is the total |
| Fragmentation.CollectorGoesIff | internal/protocol/fragmentation.go:114-143 | a fragment's collector is deleted, and what its joined data decodes to is output, if and only if it is full and that data is non-empty and decodes; otherwise it stays with the offered fragment and nothing is output |
| Fragmentation.NewIff | internal/protocol/fragmentation.go:31-43 | a fragment is new exactly when its total is at most 255 and agrees with its collector's, if there is one, and its index is open |
| Fragmentation.StuckTakesNothing | internal/protocol/fragmentation.go:31-43 | a full collector that does not decode ignores every further parsed fragment of its id |
| Fragmentation.UndecodableIsKept | internal/protocol/fragmentation.go:131-140 | a failing input: a one-fragment message whose data is empty or does not decode leaves such a collector |
| Fragmenters.FragmentCollector.AddFragment | internal/protocol/fragmentation.go:31-43 | a fragment is taken exactly when id and total agree and the index is open; otherwise nothing changes |
| Fragmenters.FragmentCollector.GetMissingIndexes | internal/protocol/fragmentation.go:53-61 | the absent indexes below the total, ascending, each once; with those received they make up the total |
| Fragmenters.FragmentCollector.Reassemble | internal/protocol/fragmentation.go:63-72 | the pieces joined in index order, only once the count is reached |
| Fragmenters.Fragmenter.FragmentMessage | internal/protocol/fragmentation.go:88-112 | the loop yields exactly the fragments of the recursive cut, whose sizes and order are those of Fragmentation.FragmentIs |
| Fragmenters.Fragmenter.AddFragment | internal/protocol/fragmentation.go:114-143 | the collectors and the reported message are those of the step function; new exactly for a total of at most 255 that agrees with its collector's and an open index; an undecodable full collector is kept; a new collector is dated now and no other date changes |
| Fragmenters.Fragmenter.CleanupExpired | internal/protocol/fragmentation.go:145-157 | exactly the collectors started more than 300 s ago go |
| VectorClock.PrefixUnique | internal/storage/database.go:324-336 | the prefix is the only n such that 1..n are present and n+1 is not |
| VectorClock.ClockMeans | internal/storage/database.go:304-338 | the clock lists an origin exactly when its row number 1 is stored; the number listed and all below it are stored and the next one is not |
| VectorClock.ClockMonotone | internal/storage/database.go:304-338 | a table that only gains rows never lowers its clock |
| Storage.Database.SaveMessage | internal/storage/database.go:167-188 | new exactly when neither the id nor the (from_node, seq) is stored; then the row is added, otherwise nothing changes, and the counters still equal a recount |
| Storage.Database.SaveMessageWithSeq | internal/storage/database.go:190-214 | fails exactly on a stored id, leaving every table as it was; otherwise adds one row, the draft's id, time, channel, reply, body and author under this origin, numbered 1 or one above a number the origin has and above all of them |
| Storage.Database.SelectNextSeq | internal/storage/database.go:194-198 | the loop computes the maximum of the origin's numbers, 0 if none, plus one |
| Storage.Database.GetVectorClock | internal/storage/database.go:304-338 | for any table, gaps and all, exactly one entry per origin with a non-empty prefix: the largest n with 1..n stored |
| Storage.ContiguousPrefix | internal/storage/database.go:324-336 | the loop over ascending numbers ends at the prefix of their set |
| Storage.Database.GetMessagesAfterSeq | internal/storage/database.go:340-359 | all stored rows of the origin numbered strictly above the given number, no others, in strictly ascending order of their numbers |
| Storage.Database.MarkSeenIfNew | internal/storage/database.go:289-302 | new exactly when absent; an existing row is untouched |
| Storage.Database.CleanupSeenCache | internal/storage/database.go:493-497 | exactly the keys older than the given age go, the others are unchanged |
| Storage.Database.CreateChannel | internal/storage/database.go:594-599 | adds an unused channel with zero counters, leaves an existing one alone, keeps the agreement with the message table |
| Storage.Database.DeleteChannel | internal/storage/database.go:601-620 | refuses a channel some message uses, then an unknown one, each with its error; otherwise removes exactly its row |
| Storage.Database.UpdateNodeSync | internal/storage/database.go:588-590 | a sync bumps the sync count only, keeping every message count right |
| Storage.Database.QueueTransmission | internal/storage/database.go:361-370 | one pending row under a fresh id, created now and scheduled after the delay, or now for a negative one |
| Storage.Database.GetNextTransmission | internal/storage/database.go:372-396 | none exactly when no pending row is due; otherwise a due row scheduled no later than any other pending one, which alone becomes transmitting |
| Storage.Database.MarkTransmissionFailed | internal/storage/database.go:403-414 | one more attempt; once they reach the maximum the row has failed, until then it is pending and scheduled 60 s from now |
| Storage.Database.CleanupTransmissionQueue | internal/storage/database.go:416-428 | exactly the rows sent and over an hour old, or failed and over a day old, go; rows transmitting for over a minute become pending, all others stay as they are |
| Tables.CountersAlwaysAgree | internal/storage/database.go:499-521 | after any sequence of saves, ignored saves, syncs, channel creations and deletions every message_count and unique_nodes equals the count over the message table, every used channel and node has a row, and no message row is lost |
| Tables.RemoveChannelAgrees | internal/storage/database.go:601-620 | deletion is refused exactly for a channel in use or an unknown one; otherwise it removes exactly that row and keeps all counters right |
| Tables.SyncsAreCounted | internal/storage/database.go:588-590 | a node's sync count rises by the number of clocks received from it, over any sequence of changes |
| Tables.ClockNeverDecreases | internal/storage/database.go:304-338 | the clock of a table never decreases over any such sequence |
| TransmissionQueue.EveryRunIsAccounted | internal/storage/database.go:361-428 | in every run of enqueues, picks, outcomes, cleanups and crashes: at most 3 attempts, failed exactly at 3, and picks = attempts + (1 if sent) + (1 if held) + crashes while held |
| TransmissionQueue.NoRowIsLost | internal/storage/database.go:416-428 | in every run a queued row is still there unless it was sent or failed in the meantime |
| TransmissionQueue.FrameNeverChanges | internal/storage/database.go:361-428 | in every run the frame of a row is the one it was queued with |
| TransmissionQueue.NoPickAfterFinish | internal/storage/database.go:372-428 | once sent or failed, a row is never picked again in any run, and does not change while it is kept |
| TransmissionQueue.UnfinishedRowSurvives | internal/storage/database.go:398-428 | one step: a pending or transmitting row stays with its frame; only a success of the worker holding it sends it, and only that worker's third failure fails it |
| TransmissionQueue.FinishedRowStays | internal/storage/database.go:416-428 | one step: a sent or failed row is not picked and changes only by being discarded, exactly by a cleanup that finds it old |
| TransmissionQueue.CrashedRowRecovers | internal/storage/database.go:421-423 | a row held at a crash is due again after a cleanup that finds it stale |
| TransmissionQueue.FailureWaits | internal/storage/database.go:403-414 | after a failed attempt the row is due at a time if and only if it was its first or second attempt and at least a minute has passed; the third ends it |
| TransmissionQueue.CleanupIs | internal/storage/database.go:416-428 | the three statements in turn keep exactly the rows that are neither sent for over an hour nor failed for over a day, each unchanged but for stale transmitting ones |
| Daemons.Daemon.constructor | internal/storage/database.go:138-146 | starting on an existing database drops the seen cache and keeps messages and unsent frames |
| Daemons.Daemon.HandleMSG | internal/daemon/daemon.go:103-174 | the new state is the step function's; exactly the frames of a newly taken message of another node are appended to the queue, in order, as fresh rows by the given delays; an unseen id is marked with the current time, every other seen row stays; the client is notified exactly when the id was not seen, even if the row was already stored |
| Daemons.Daemon.HandleFRAG | internal/daemon/daemon.go:176-190 | the new state is the step function's: marked seen, with the current time, before the collector decides, and a completed message handled and marked as a MSG; exactly its frames are appended to the queue; a new collector is dated now |
| Daemons.Daemon.HandleSVEC | internal/daemon/daemon.go:192-250 | pushes each once, and per origin by ascending number, exactly the stored rows of origins other than the asker that are numbered strictly above the number advertised for their origin, or above 0 where the asker lists none and this node's clock does; exactly their frames are queued; the asker is marked seen now; no table row changes but the sync count |
| Daemons.NodesToCheck | internal/daemon/daemon.go:201-211 | the merged map has the remote's entries and our other origins at 0 |
| Daemons.Daemon.HandleReceivedFrame | internal/daemon/daemon.go:86-101 | dispatch by frame type with the effects of the handlers; a fragment the parser refuses changes nothing; a seen row stays or is renewed now |
| Daemons.Daemon.BroadcastSVEC | internal/daemon/daemon.go:338-356 | appends one fresh row with the current clock and changes nothing else |
| Daemons.Daemon.SendMessage | internal/daemon/daemon.go:381-457 | fails exactly on a stored id, with nothing changed; otherwise the row stored and returned has the draft's id, time, channel, reply, body and author, this node as sender and its next number; exactly its frames are appended in order as fresh rows, and the id is marked seen now |
| Daemons.Daemon.QueueMessage | internal/daemon/daemon.go:149-170 | appends one row for the message, or one per fragment in order, created now and scheduled by its own delay, and nothing else |
| Daemons.Daemon.TransmitNext | internal/daemon/daemon.go:252-312 | one turn of the loop picks an earliest due row and ends it by the outcome of the send; the frame was one waiting to be sent, and the node's state changes by the end of that frame at most |
| Daemons.RowChangeUnsent | internal/storage/database.go:398-414 | changing the status of one row changes the frames still to be sent by that row's frame at most, and not at all while the row is unfinished |
| Daemons.Daemon.Cleanup | internal/daemon/daemon.go:358-373 | a seen key marked at t survives exactly while now <= t + 3600, its row unchanged, and a collector exactly while now <= its start + 300; the node's state changes by nothing else, and no frame to be sent is lost |
| Daemons.CleanupKeepsUnsent | internal/storage/database.go:416-428 | the queue cleanup leaves the set of frames still to be sent as it was |
| Frames.MsgRowUndoIff | internal/protocol/frames.go:40-104 | each field stands in the MSG queue row under its own name, and the row reads back as its message if and only if the channel is valid and the number, if any, is at least 1 |
| Frames.FragRowUndoIff | internal/protocol/frames.go:128-160 | each field stands under its own name, and the FRAG queue row reads back if and only if 0 <= index < total |
| Frames.SvecRowUndoIff | internal/protocol/frames.go:173-213 | an SVEC queue row reads back, for every order of its entries, if and only if the sender is non-empty and no key has a comma; colons in keys are allowed |
| Frames.SvecToDict | internal/protocol/frames.go:173-183 | the loop writes the entries of the sorted keys, and the row reads back if and only if the sender is non-empty and no key has a comma |
| Frames.SortedKeys | internal/protocol/frames.go:215-222 | every key of the vector exactly once, strictly ascending |
| Frames.SortedListingIsUnique | internal/protocol/frames.go:215-222 | two ascending listings of the same keys are equal, so the row is determined by the vector |
| Frames.SvecFromDict | internal/protocol/frames.go:185-213 | the loop over the entries equals the recursive reader, errors included |
| Frames.IsValidChannel | internal/protocol/frames.go:106-116 | true exactly when every character is below 128 and none of the 26 capital letters |
| Frames.StoredMessageReadsBack | internal/daemon/daemon.go:520-549 | a row written by handleMSG has each field in its own column and becomes the same message when it is pushed again |
| Text.HexDecodeIff | internal/protocol/message.go:28-36 | exactly texts of an even number of hex digits, small or capital, are read as bytes |
| Text.AtoiSigns | internal/protocol/frames.go:94-146 | a plus sign changes nothing, a minus sign negates, a sign alone or a value outside the 64-bit range is refused |
| Parser.MsgWireIff | internal/protocol/parser.go:67-113 | each field travels under its own name, and the message survives its protobuf value if and only if its time fits 32 bits and its number, if any, is between 1 and 2^32-1 |
| Parser.FragWireIff | internal/protocol/parser.go:115-143 | each field travels under its own name, and the fragment survives if and only if 1 <= total <= 255 and 0 <= index < total |
| Parser.SvecWireIff | internal/protocol/parser.go:145-165 | a vector survives if and only if all its numbers fit 32 bits |
| Parser.SvecVectorToPb | internal/protocol/parser.go:145-149 | the copying loop converts every entry and adds none |
| Rows.QueuedFramesReadBack | internal/daemon/daemon.go:273-291 | in every reachable state with valid channels and comma-free callsigns, every queued frame is read back from its row as itself, so the loop never sees a row that does not parse |
| Rows.SentFramesArriveAsSent | internal/protocol/parser.go:11-48 | every frame in the air comes off the wire as it went on, if and only if it is not a fragment of a post that does not fit |
| Kiss.NibblesOfCommand | internal/network/kiss.go:39 | port and command come back out of the command byte if and only if both fit four bits |
| Kiss.NibblesAre | internal/network/kiss.go:72-78 | the port is the command byte divided by 16, the command the remainder |
| Kiss.KnownCommands | internal/network/kiss.go:23-30 | exactly the commands 0 to 6 and 15 are valid |
| Kiss.EncodeFrame | internal/network/kiss.go:38-60 | the loop equals the recursive escaping between two FENDs |
| Kiss.DecodeKissFrame | internal/network/kiss.go:62-119 | the loop equals the recursive unescaping, with every error case |
| Kiss.EscapeIff | internal/network/kiss.go:38-100 | delimiter-free data unescapes to a content if and only if it is the escaping of that content |
| Kiss.EscapesAre | internal/network/kiss.go:38-60 | 0xC0 travels as 0xDB 0xDC, 0xDB as 0xDB 0xDD and any other byte as itself |
| Kiss.FrameRoundTripIff | internal/network/kiss.go:38-119 | a frame decodes to itself if and only if its port is 0..15 and its command valid |
| Kiss.DataFrameIff | internal/network/kiss.go:143-185 | a content counts as a data frame if and only if it unescapes and its first byte is a multiple of 16; the data is all behind that byte |
| Kiss.KissProtocol.DecodeFrames | internal/network/kiss.go:143-185 | from any buffered state, the frames and the new state are those of a reader that goes byte by byte without a buffer |
| Kiss.ContentsArePairs | internal/network/kiss.go:143-185 | what is read from a stream is exactly what lies between its 1st and 2nd, 3rd and 4th, ... FEND, and a frame is left open exactly when their number is odd |
| Kiss.PhaseIsParity | internal/network/kiss.go:143-185 | from any phase, each FEND of a stream turns the phase over and nothing else does |
| Kiss.ChunkingInvariant | internal/network/kiss.go:143-185 | the frames do not depend on how the stream is cut into chunks |
| Ax25.AddressTextIff | internal/network/ax25.go:14-46 | the text of an address parses back to it if and only if it has at most six characters, no dash, no lower case and an SSID of 0..15 |
| Ax25.NewAddressIff | internal/network/ax25.go:14-23 | an address is made exactly for at most six characters and an SSID of 0..15, and is the upper-cased callsign with that SSID; a long callsign is refused first |
| Ax25.ParseIs | internal/network/ax25.go:25-46 | the text before the first dash is the callsign, upper-cased, the text after it the SSID, 0 without a dash; a number that does not parse, one outside 0..15 and a callsign over six characters are refused, in this order |
| Ax25.UpperLetters | internal/network/ax25.go:45 | each of the 26 letters has its own capital, and digits and punctuation stay |
| Ax25.ParseSettles | internal/network/ax25.go:25-46 | parsing, writing and parsing again changes nothing |
| Ax25.EncodeAddress | internal/network/ax25.go:48-66 | the seven octets: six padded, shifted characters and the SSID octet with the extension bit |
| Ax25.AddressOctets | internal/network/ax25.go:48-66 | in numbers: each of the six characters, padded with spaces, doubled; then 96 plus twice the SSID, plus 1 in the last address |
| Ax25.DecodeAddress | internal/network/ax25.go:68-87 | the loop equals the recursive reader; any other length is refused |
| Ax25.OnAirIff | internal/network/ax25.go:48-87 | a receiver reads the address that was sent if and only if it has at most six seven-bit characters without spaces and a four-bit SSID |
| Ax25.AddressBack | internal/network/ax25.go:48-87 | any address reads back as its first six characters, seven bits each, without spaces, and its SSID modulo 16; the extension bit marks the last address and no other |
| Ax25.EncodeFrame | internal/network/ax25.go:98-116 | the loop lays out destination, source, digipeaters, control, PID and payload |
| Ax25.FrameLayout | internal/network/ax25.go:98-116 | destination in octets 0-6, source in 7-13 (last exactly without digipeaters), then digipeaters, control, PID and payload |
| Ax25.DecodeFrame | internal/network/ax25.go:118-173 | the index loop equals the recursive reader, with every error case |
| Ax25.ReadsIff | internal/network/ax25.go:118-163 | octets are a frame if and only if there are at least 16 and a control and a PID octet behind the address field |
| Ax25.DigipeatersEndAtExtension | internal/network/ax25.go:133-149 | on any octets the digipeaters are consecutive groups of seven, only the last has the extension bit set, and reading stops there or when fewer than seven octets are left |
| Ax25.FrameBack | internal/network/ax25.go:98-173 | any frame with any number of digipeaters reads back with the same control, PID and payload, and every address as it appears on the air |
| Ax25.FrameBackIff | internal/network/ax25.go:98-173 | a frame reads back as itself if and only if all its addresses are canonical |
| Direwolf.DirewolfClient.SendFrame | internal/network/direwolf.go:135-158 | writes the whole transmission, which is the frame of Direwolf.TransmissionReads, and succeeds, or nothing, or the part the connection takes before it fails, each with its error |
| Direwolf.TransmissionReads | internal/network/ax25.go:175-191 | what a station sends for any payload reads back as a data frame of port 0 holding a UI frame to RFMP-0 from the station as it appears on the air, no digipeaters, control 0x03, PID 0xF0 and that payload |
| Direwolf.PayloadIff | internal/network/direwolf.go:125-131 | a payload is delivered if and only if the data is a UI frame with control 0x03 and PID 0xF0, and it is that frame's own |
| Direwolf.DirewolfClient.Receive | internal/network/direwolf.go:125-131 | the callback gets, in order, the payloads that pass the filter among the frames completed by the chunk |
| Direwolf.DirewolfClient.Connect | internal/network/direwolf.go:69-85 | a new connection starts with a fresh decoder |
| Direwolf.DirewolfClient.Close | internal/network/direwolf.go:87-95 | afterwards not connected, with nothing written or delivered by it |
| Direwolf.CanSendIff | internal/network/ax25.go:175-191 | a station can send any payload if and only if its callsign has at most six characters and no dash and its SSID is 0..15, or its callsign carries both with a dash and no SSID is set beside it |
| Direwolf.FeedStep | internal/network/direwolf.go:125-131 | what a stream's chunks deliver is what the receive loop delivers for the first chunk, followed by the rest from the state it leaves |
| Direwolf.EndToEnd | internal/network/direwolf.go:125-158 | any payloads from any stations, with FEND-free noise anywhere between them and the stream cut into chunks in any way, are delivered exactly, in order |
| Direwolf.SurvivesIffEven | internal/network/kiss.go:143-185 | every payload survives the bytes in front of it since a fresh start if and only if these hold an even number of FENDs |
| Direwolf.BurstInPlace | internal/network/kiss.go:143-185 | for any transmission in any stream of transmissions under any noise, read from any phase: its payload is delivered in place if and only if the FENDs of all the noise ahead of it are even in number (odd when the reader began inside a frame); otherwise it only ends the frame left open |
| Direwolf.AfterNoise | internal/network/kiss.go:143-185 | after any noise a transmission either adds its payload or only ends the frame the noise left open |
| Direwolf.PhaseErrorLosesAll | internal/network/kiss.go:143-185 | from inside a frame, back-to-back transmissions are all lost, however many come |
| Stack.FramesCrossTheStack | internal/daemon/daemon.go:86-101 | frames in the air of a reachable network, marshalled, sent by any stations behind FEND-free noise and cut into any chunks, come out of the receiver and its parser as exactly these frames, in order |
| Brokers.SplitKissFrames | cmd/rf-sim/broker.go:267-301 | the frames are those a byte-by-byte reader finds, delimiters included; the leftover, which unlike the decoder's may start with noise, stands for the same reading state |
| Brokers.ClientReader.Read | cmd/rf-sim/broker.go:148-170 | across chunks the read loop passes on the same frames as that reader |
| Brokers.SplitterRefinesDecoder | cmd/rf-sim/broker.go:267-301 | on every stream, decoding and filtering the splitter's frames gives the list of the node's decoder, whatever chunks each of them saw |
| Brokers.RelayIsTransparent | cmd/rf-sim/broker.go:164-169 | frames of any clients written whole, one after the other, reach a node as exactly those frames, in any chunks, and leave it between frames |
| Brokers.Broker.Partition | cmd/rf-sim/broker.go:86-97 | the loops build exactly the two groups |
| Brokers.Broker.Heal | cmd/rf-sim/broker.go:99-104 | afterwards every delivery between any two clients is allowed |
| Brokers.Broker.CanDeliver | cmd/rf-sim/broker.go:249-265 | refused exactly between the two groups, in either direction |
| Brokers.CrossesIffBridge | cmd/rf-sim/broker.go:249-265 | with relaying, a frame from one group reaches a client of the other if and only if some client is in neither group |

## Left out

- Frames.SortedKeys: the library sort is modelled as insertion into an ordered list; only its result is stated.
- Storage.Database.SelectSeqs: rows are ordered by number only, not by node first; the grouping that follows does not depend on it.
- Ax25.AddressTextIff: upper-casing is modelled for ASCII letters; other characters are left as they are.
- Daemons.Daemon.TransmitNext: the row's text is represented by the frame it stands for; that every queued row parses back to that frame is Rows.QueuedFramesReadBack.
- Daemons.Daemon.SendMessage: the reply id and the id itself arrive as six bytes; deriving the id from sender, time and text (SHA-256) is not modelled.
- Convergence.ServedRunConverges: that radio timing brings about a run that serves every pair is not modelled.
- The protobuf byte encoding and its generated code: the codec is a parameter, and values are modelled up to the protobuf messages.
- JSON and timestamp formatting: the format and its parser are parameters, assumed inverse on the times in use.
- Random delays and the timing rules: every delay is an arbitrary parameter.
- TCP connections, reconnecting, mutexes, contexts and sleeps: steps are atomic, and their order is arbitrary.
- SQL text, pragmas, migrations and database errors: tables are maps with the source's primary keys and unique index.
- The columns transmitted_at, rebroadcast_count, last_seen, first_message and their like, the users table, and the persisted fragments table, which nothing reads back.
- Random loss, bit corruption, fading and the baud rate of the simulator: loss is covered by frames never delivered, corruption is outside the honest-origin premise.
- The HTTP and WebSocket API, configuration, the web and display interfaces, hardware scripts and packaging.
- Networks with different fragmentation thresholds: the invariant is stated for one threshold.
