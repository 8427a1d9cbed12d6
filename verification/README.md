# The stateful cores of the AN.ON first mix, in Dafny

The first mix of an AN.ON cascade keeps state on which anonymity and billing rest. This project models that state and
proves what the code promises about it, over all runs. Verify it with `dafny verify dfyconfig.toml`.

| modules | what they model |
|---|---|
| `ChannelTable`, `ChannelTableRuns`, `TimeoutQueueRuns`, `FirstMixChannelList` | The channel table: connections with their channels, a hash of out-channel ids, an enumeration with a live cursor, and a timeout queue, all threaded through the same records by hand-written prev/next links. `FirstMixChannelList` is the linked structure, method by method; `ChannelTable` is the table it represents; `ChannelTableRuns` and `TimeoutQueueRuns` prove properties of all runs. |
| `ReplayWindow`, `ReplayDatabase` | The replay database: three rotating chained hash tables over a sliding time window. No message is accepted twice, and how long a message is remembered is exact. |
| `SettlementTickets` | The wait numbers that order concurrent settlement transactions, as a state machine over thread program counters: whose turn it is, what the turns write, and that nobody waits for ever. |
| `CostConfirmations`, `SettlementCommit` | The table of cost confirmations while answers of the payment instance race with new confirmations, and the commit of settlement results to stored credit and login table. |
| `AccountingSession`, `AccountingInfo`, `PacketVerdicts`, `ClientMessages` | The byte credit of a prepaid session through packets, confirmations, settlement reports, login and logout. `PacketVerdicts` says what each packet is answered with, `ClientMessages` what the client's own messages and its logout do. |
| `PrepaidAccount`, `ConfirmedAccounts`, `CreditBound`, `SettlementOutcome` | One account over successive sessions: session, login entry, row of confirmations, stored credit and status move together while settlement answers and writes of other sessions arrive. When the credit survives a logout, whose row a confirmation changes, the bound on the credit over all runs, and what each settlement answer does to credit, row, status and next packet. |
| `ConditionVariable`, `SignalRuns` | The condition variable made of two mutexes, a counter and a semaphore: how many threads signals and broadcasts wake up. |
| `RetentionFormat`, `RetentionLogFile` | The encrypted data retention log, its reader, and the uniqueness of its nonces. |
| `ControlFraming`, `ControlChannel`, `ControlSenders` | Control channels: framing, fragments, encryption counters in step, reassembly in a fixed buffer, and several threads that send over one dispatcher. |
| `RoundRobin` | The ring of cache proxies. |
| `MajorityVote`, `VoteOrder` | The two-thirds vote of the info services, and when a vote is counted for the text it names. |
| `MachineTypes`, `PaymentTypes`, `Sealing` | Integer widths with their wrap-around; flags, login entries and confirmations; authenticated encryption as an ideal function. |

Classes hold the fields the program updates in place; each method's contract gives its whole new state as a function
of the old one, and lemmas about that function give the properties. Methods that the program runs under one lock are
atomic steps. In `SettlementTickets`, `ConditionVariable`, `ControlSenders` and the state machine of
`CostConfirmations` every lock boundary or database statement is a step of its own, and all interleavings are
possible. Time, random numbers, the success of database and file writes, and the answers of the payment instance and
the info services are parameters.

Where the code differs from its own comments, or a promise holds only under a condition, the model follows the code:

- The replay database accepts a message at most once if its timestamp was below the end of the next interval when it was
  accepted, and (unless the 32-bit clock ends first) only then. The maintenance thread keeps this so; `insert` does not
  test it (`OnceIff`, with a run from an empty database in `ReplayFromFresh`). How many switches of the clock it takes
  until a prefix is accepted again depends on both timestamps (`SecondIsAcceptedIff`).
- The flag `AUTH_TIMEOUT_STARTED` is set when a session begins and never cleared, so the shortcut "check only every
  hundredth packet" is never taken, and the credit is bounded by one packet instead of a hundred
  (`EveryDataPacketIsChecked`, `CreditIsBounded`).
- An answer "outdated confirmation" overwrites a newer confirmation and marks the overwriting one settled
  (`OutdatedAnswerLosesNewer`; `StillWaitingIff` gives the exact condition).
- A confirmation is counted and written in two database statements. The write reports success and leaves no row exactly
  if the row was there when it was counted, and a deleting answer took it away since, with no returned confirmation to
  put it back (`SuccessWithoutRowIff`, with a run from the start in `NextConfirmationIsLost`).
- A confirmation is stored under the account it names, and its bytes are counted for the session that received it;
  nothing compares that account with the session's, and a session turned away because the login is occupied can store
  one too (`OccupiedSessionStores`). The account's row holds the session's confirmed bytes after a stored confirmation
  exactly if it names the account or the row held those bytes before (`StoredTracksIff`; for writes of other sessions
  `ForeignTracksIff`). Otherwise the row is missing or falls behind, and the next login may find the stored credit above
  it (`OtherAccountGetsRow`, `OwnRowFallsBehind`). Row and credit survive under the missing guard
  (`RowTracksSession`, `NeverLowerThanPrepaid`, `CreditSurvives`); the bound on the credit does not need it
  (`CreditIsBoundedInRuns`).
- A settlement reports to the login entry that an account was settled once, but the flags that the end of a login takes
  over do not contain this one, and it shares its bit with that of a session being closed. So the branches for an
  account that was settled are never taken (`SettledOnceNeverArrives`), and the end of a login takes all credit of an
  account that is reported empty, whatever the payment instance confirmed (`EmptyLoginLosesCredit`).
- A login reads the stored credit but does not delete it, although the comment on `__getPrepaidAmount` says so. A logout
  whose write fails therefore brings back the credit of the logout before (`CreditSurvives`).
- The end of a login adds the account's status code to the session's flags as it is. No code sets the flag it stands for
  (`StatusCodesAreNoFlags`).
- The loop that copies unsettled confirmations stops at the first unreadable row instead of skipping it
  (`CopyIsCompleteIff`).
- The expiry stamp of the timeout queue is a signed 32-bit field; sorting by expiry holds exactly while the stamps fit
  (`PushKeepsSortedIff`).
- A broadcast gives every waiter a token. While nobody signals again, there is a token for each of them that still
  waits exactly if no thread that began to wait later has taken one (`BroadcastHoldsIff`); such a thread can
  (`LaterWaiterTakesToken`).
- A vote is matched by a prefix comparison. Each vote is counted for exactly the text it names, in whatever order the
  answers arrive, exactly if no text is a proper prefix of another, nor, for the same text, one proposer's name of
  another's (`FaithfulInEveryOrderIff`). For one given order the exact condition is weaker (`AlwaysFaithfulIff`,
  `FaithfulIff`).
- Control messages are sealed under one lock and queued under another. They are queued in the order of sealing exactly
  if no thread queues an encrypted message while an older one still waits (`InStepIffNoneOvertakes`); two threads can
  get out of step (`SecondSenderOvertakes`).
- The reassembly buffer suffices for whatever follows a first fragment exactly if that fragment holds no more bytes than
  it announces (`BufferSufficesIff`); otherwise the unsigned count of missing bytes wraps round.

## Model

| member | source | states |
|---|---|---|
| FirstMixChannelList.ChannelList.Add | CAFirstMixChannelList.cpp:118-220 | a connection is entered at the head exactly if its key is in range and its slot is free; all links stay well-formed |
| FirstMixChannelList.ChannelList.AddChannel | CAFirstMixChannelList.cpp:234-309 | a channel gets an unused out-id of at least 256 and goes to the head of its connection's list and of its bucket, unless the connection has its maximum |
| FirstMixChannelList.ChannelList.FreeOutId | CAFirstMixChannelList.cpp:254-262 | the loop over random ids ends with one that is neither reserved nor in use |
| FirstMixChannelList.ChannelList.RemoveChannel | CAFirstMixChannelList.cpp:983-1077 | exactly the newest channel with the in-id leaves both lists, in every head, middle and tail case |
| FirstMixChannelList.ChannelList.Remove | CAFirstMixChannelList.cpp:643-773 | the connection leaves list, cursor and timeout queue, and all its channels leave the buckets |
| FirstMixChannelList.ChannelList.GetIn | CAFirstMixChannelList.cpp:336-357 | finds the newest live channel with the in-id, and nothing if there is none |
| FirstMixChannelList.ChannelList.GetOut | CAFirstMixChannelList.hpp:310-339 | the inverse index: finds the one open channel with the out-id, and nothing exactly if the id is free |
| FirstMixChannelList.ChannelList.GetFirst | CAFirstMixChannelList.cpp:1084-1093 | starts the enumeration at the newest connection |
| FirstMixChannelList.ChannelList.GetNext | CAFirstMixChannelList.cpp:1100-1108 | returns the next pending connection, null exactly if none is pending |
| FirstMixChannelList.ChannelList.PushTimeoutEntry | CAFirstMixChannelList.cpp:512-558 | the entry gets a fresh stamp and goes to the foot, out of its old place first |
| FirstMixChannelList.ChannelList.PopTimeoutEntry | CAFirstMixChannelList.cpp:454-479 | takes the head exactly if it is timed out or forced |
| FirstMixChannelList.ChannelList.RemoveFromTimeoutList | CAFirstMixChannelList.cpp:564-634 | unlinks any entry although the head's prev link may be stale, and leaves other entries' places alone |
| FirstMixChannelList.ChannelList.IndexesAgree | CAFirstMixChannelList.cpp:263-306 | channels in the connections' lists are exactly those in the buckets, each in the bucket of its own id and in the list of its own connection |
| FirstMixChannelList.ChannelList.OutIdsDiffer | CAFirstMixChannelList.cpp:254-262 | out-ids of reachable channels are pairwise distinct |
| FirstMixChannelList.ChannelList.AbsHasInv | CAFirstMixChannelList.cpp:118-309 | the table that a well-formed linked structure represents has the invariant that all runs keep; in particular the cursor's chain is a tail of the list |
| FirstMixChannelList.ChannelList.SomeOutIdIsFree | CAFirstMixChannelList.cpp:254-262 | so there is always an out-id for the search to find |
| ChannelTableRuns.StepKeepsInv | CAFirstMixChannelList.cpp:234-309 | every operation keeps order, cursor, stacks, out-ids and queue in order |
| ChannelTableRuns.RunKeepsInv | CAFirstMixChannelList.cpp:983-1077 | so does every run of operations |
| ChannelTableRuns.ReachableInv | CAFirstMixChannelList.cpp:118-309 | every table that is reached from the empty one is in order |
| ChannelTableRuns.FreeOutIdExists | CAFirstMixChannelList.cpp:254-262 | in every state that meets the invariant of all runs some out-id of at least 256 is free, so that the search for one can always end |
| ChannelTableRuns.OutIdNamesOneChannel | CAFirstMixChannelList.hpp:310-339 | an out-id names one channel of one connection |
| ChannelTableRuns.RemoveChannelUndoesAddChannel | CAFirstMixChannelList.cpp:983-1077 | a new channel hides older ones with its in-id, and removing that in-id restores the table |
| ChannelTableRuns.RemoveChannelDropsNewest | CAFirstMixChannelList.cpp:983-1077 | removal closes exactly the newest channel with the in-id and keeps all others |
| ChannelTableRuns.ConnectionHolds500 | CAFirstMixChannelList.cpp:241-309 | a connection takes channels until it has 500, each in front of the others, and refuses every further one |
| ChannelTableRuns.RemoveForgets | CAFirstMixChannelList.cpp:643-773 | a removed connection is in no list any more, its out-ids are free and its key can be added again; all others keep their channels and stamps |
| ChannelTableRuns.RemoveKeepsPlaces | CAFirstMixChannelList.cpp:643-773 | in list, enumeration and timeout queue exactly the removed connection is missing |
| ChannelTableRuns.RemoveUndoesAdd | CAFirstMixChannelList.cpp:643-773 | a new connection is the first of the list and empty, and removing it restores the table |
| ChannelTableRuns.EnumerationSurvives | CAFirstMixChannelList.cpp:1084-1108 | an enumeration interleaved with any operations yields, in list order, each connection present at its start that is not removed before its turn, and nothing else |
| ChannelTableRuns.EnumerationIsComplete | CAFirstMixChannelList.cpp:1084-1108 | from the start: what `getFirst` and the calls of `getNext` return, followed by what is still to be returned, is the list of connections at the call of `getFirst` without those removed before their turn |
| ChannelTableRuns.NextsReturnAll | CAFirstMixChannelList.cpp:1100-1108 | as many calls of `getNext` as there are pending connections return each once, in order, and then nothing |
| ChannelTableRuns.PendingNoDup | CAFirstMixChannelList.cpp:667-693 | no connection is pending twice |
| ChannelTableRuns.RunKeepsSorted | CAFirstMixChannelList.cpp:512-558 | with a nondecreasing clock the timeout queue stays sorted by expiry |
| ChannelTableRuns.PopFindsExpired | CAFirstMixChannelList.cpp:454-479 | in a sorted queue an unforced pop finds an entry exactly if some entry is expired, and that one expires first |
| ChannelTableRuns.PushKeepsSortedIff | CAFirstMixChannelList.cpp:530-552 | up to the end of the unsigned range, queueing keeps the order exactly if the stamp fits the signed field |
| TimeoutQueueRuns.PopTakesTheHead | CAFirstMixChannelList.cpp:454-479 | a successful pop's entry followed by the new queue is the old queue; a pop succeeds exactly if it is forced or the head is expired, and changes nothing else |
| TimeoutQueueRuns.EntriesLeaveOnce | CAFirstMixChannelList.cpp:454-634 | over every run, what the pops return followed by what is left is the queue at the start followed by what was pushed, without the entries removed or pushed again before their turn |
| TimeoutQueueRuns.NotPoppedTwice | CAFirstMixChannelList.cpp:454-479 | no slot is returned twice without a push in between |
| TimeoutQueueRuns.ForcedPopsDrain | CAFirstMixChannelList.cpp:454-479 | forced pops return the whole queue in its order, and then nothing |
| TimeoutQueueRuns.PushedExpires | CAFirstMixChannelList.cpp:512-558 | a pushed entry is the last one and expired exactly from 300 s after the push on |
| ReplayWindow.HashKeyIsNumber | CADatabase.cpp:130-137 | the shifted sum is the big-endian number of bytes 2 to 9, without loss |
| ReplayWindow.IdIsPrefix | CADatabase.cpp:130-142 | bucket and 64-bit key encode the ten-byte prefix injectively |
| ReplayWindow.InsertAcceptsIff | CADatabase.cpp:93-218 | success exactly if the timestamp is in the window and the prefix is in none of the consulted sets; a rejected insert may add but never removes |
| ReplayWindow.RejectedInsertCanAdd | CADatabase.cpp:140-180 | a rejected insert can leave the key in a set searched earlier |
| ReplayWindow.NeverTwice | CADatabase.cpp:93-274 | after acceptance, in every run of inserts and clock switches, the same prefix is rejected for the same timestamp for ever, and for the same or a neighbouring interval while the interval is in the window |
| ReplayWindow.MaintainedClockSuffices | CADatabase.cpp:241-260 | the maintenance loop's bound on the clock gives the range that `NeverTwice` needs |
| ReplayWindow.OnceIff | CADatabase.cpp:99-128 | an accepted message can be accepted again exactly if its timestamp was past the end of the next interval and, if less than one interval past it, the 32-bit clock does not end before the third switch |
| ReplayWindow.ReplayFromFresh | CADatabase.cpp:99-128 | a run from an empty database in which a late clock lets one message in twice |
| ReplayWindow.NothingAcceptedNearZero | CADatabase.cpp:100-105 | before 30 s past the epoch the unsigned bound wraps and rejects everything |
| ReplayWindow.UnseenIsAcceptedIff | CADatabase.cpp:93-218 | over every run from an empty database, a message whose prefix did not come before is accepted exactly if its timestamp is at most 30 s before the last switch and at most 5 s ahead |
| ReplayWindow.SecondIsAcceptedIff | CADatabase.cpp:93-274 | an accepted prefix is accepted again exactly after enough switches of the clock: how many depends on where the two timestamps lie in the window |
| ReplayDatabase.DatabaseInfo.SearchAndAdd | CADatabase.cpp:142-163 | search and insertion in one chain: new exactly if absent; chains stay free of duplicates and the size field equals the cardinality (32 bits) |
| ReplayDatabase.DatabaseInfo.ClearDB | CADatabase.cpp:64-82 | every chain of the 256 x 256 table is emptied |
| ReplayDatabase.Database.Insert | CADatabase.cpp:93-218 | the chained tables do what the set-level insert does, branch by branch |
| ReplayDatabase.Database.NextClock | CADatabase.cpp:262-274 | the three tables rotate, the oldest cleared |
| SettlementTickets.StepKeepsInv | CAAccountingInstance.cpp:2894-2978 | every step of every thread keeps the queue of numbers and the logs |
| SettlementTickets.RunKeepsInv | CAAccountingInstance.cpp:2894-2978 | so does every interleaving |
| SettlementTickets.NumbersAreExact | CAAccountingInstance.cpp:2899-2922 | outstanding numbers are exactly nextSettleNr .. settleWaitNr - 1, each held by one thread, across 64-bit wrap and resets |
| SettlementTickets.OneServed | CAAccountingInstance.cpp:2913-2967 | at most one thread is between grant and increment, and it holds nextSettleNr |
| SettlementTickets.CommitsInOrder | CAAccountingInstance.cpp:2933-2957 | database and login table are written in the order of the numbers, the database first; a turn without a connection writes nothing to the database |
| SettlementTickets.ResetIsAlone | CAAccountingInstance.cpp:2899-2905 | the test for a reset holds exactly if no thread holds a number |
| SettlementTickets.ArrivalIsServedIff | CAAccountingInstance.cpp:2899-2921 | a thread has its turn at once exactly if nobody else holds a number |
| SettlementTickets.WakeUpServesOldest | CAAccountingInstance.cpp:2913-2918 | a thread that wakes up has its turn exactly if no number is older than its own |
| SettlementTickets.TurnsWriteIff | CAAccountingInstance.cpp:2933-2935 | over every run from the start, the n-th turn writes the n-th batch exactly if it has a connection |
| SettlementTickets.EverybodyCanBeServed | CAAccountingInstance.cpp:2894-2978 | no deadlock: from every reachable state some continuation serves everybody who holds a number |
| CostConfirmations.CopyTuples | CAAccountingDBInterface.cpp:507-528 | the copying loop delivers the rows before the first unreadable one |
| CostConfirmations.CopyIsCompleteIff | CAAccountingDBInterface.cpp:512-527 | it delivers all readable rows exactly if no readable row follows an unreadable one |
| CostConfirmations.AccountDatabase.StoreCostConfirmation | CAAccountingDBInterface.cpp:352-449 | insert or update; the row becomes unsettled |
| CostConfirmations.AccountDatabase.MarkAsSettled | CAAccountingDBInterface.cpp:552-582 | settles the row of the account only if its bytes are equal |
| CostConfirmations.AccountDatabase.DeleteCC | CAAccountingDBInterface.cpp:596-643 | the account's row goes, no other |
| CostConfirmations.AccountDatabase.HandleSettleResult | CAAccountingInstance.cpp:3024-3195 | each answer's effect on the rows, on the stored account status and on the entry for the login table |
| CostConfirmations.SuccessWithoutRowIff | CAAccountingDBInterface.cpp:352-449 | over every run from the start: a write that works reports success and leaves no row exactly if a deleting answer fell between count and write and no returned confirmation put the row back |
| CostConfirmations.NextConfirmationIsLost | CAAccountingDBInterface.cpp:352-449 | such a run, for any numbers of bytes |
| CostConfirmations.StepsRefineHandled | CAAccountingInstance.cpp:3093-3121 | the statements of an answer, one after the other, do what the method does |
| CostConfirmations.SettledMeansAcknowledged | CAAccountingInstance.cpp:3053-3182 | over every interleaving of the single database statements a settled row holds bytes that the payment instance accepted, took as empty, or sent back |
| CostConfirmations.SettledMeansAcknowledgedFromStart | CAAccountingDBInterface.cpp:471-582 | in particular for every run from an empty table |
| CostConfirmations.StillWaitingIff | CAAccountingInstance.cpp:3038-3182 | exactly when an unsettled confirmation is still unsettled and selectable after an answer |
| CostConfirmations.NewestStaysSelectable | CAAccountingInstance.cpp:3168-3182 | a confirmation stored during settlement keeps its bytes and stays selectable until its own bytes are acknowledged, unless it is replaced or destroyed by another answer |
| CostConfirmations.SelectedUnlessFull | CAAccountingDBInterface.cpp:473-507 | a waiting row is in the next batch unless the batch is full of others |
| CostConfirmations.WaitingRowCanBeSettled | CAAccountingInstance.cpp:2774-2891 | in every state without a returned confirmation, a waiting row can be fetched and settled next, and then exactly it is marked |
| CostConfirmations.OutdatedAnswerLosesNewer | CAAccountingInstance.cpp:3093-3121 | a run from the start in which the returned confirmation overwrites a newer one and is marked settled |
| SettlementCommit.CommitToDatabase | CAAccountingInstance.cpp:3198-3261 | the list is applied entry by entry to every account's stored credit and status; nothing without a connection |
| SettlementCommit.StatusFollowsAnswer | CAAccountingInstance.cpp:3229-3257 | a settlement leaves an account with the status of its answer |
| SettlementCommit.CreditIsCharged | CAAccountingInstance.cpp:3203-3227 | a stored credit, positive or not, is charged with the sum of the differences, not below zero, and forfeited by any invalid or unknown answer, in any order |
| SettlementCommit.LoginTable.CommitSettlement | CAAccountingInstance.cpp:3264-3285 | the loop over the list merges each entry into its login |
| SettlementCommit.CommitReportsAll | CAAccountingInstance.cpp:3266-3284 | afterwards confirmed bytes are the maximum reported, exactly the reported flags are added, and nobody is logged in or out |
| AccountingSession.CreditIsBounded | CAAccountingInstance.cpp:383-631 | in every reachable state the credit lies above minus one interval and one packet and not above one interval, and the 32-bit cast is exact |
| AccountingSession.EveryDataPacketIsChecked | CAAccountingInstance.cpp:396-403 | after any events of a session the shortcut for unchecked data packets is not taken, as long as settlement takes back only its own flags |
| AccountingSession.StepKeepsInv | CAAccountingInstance.cpp:335-654 | every event of a session keeps the bound and the login order |
| AccountingSession.RunKeepsInv | CAAccountingInstance.cpp:335-654 | so does every run |
| AccountingSession.CastIsExact | CAAccountingInstance.cpp:661-678 | within the bound the prepaid bytes are the exact difference |
| AccountingSession.PacketKeepsInv | CAAccountingInstance.cpp:335-654 | counting, settlement flags and limit checks keep the bound |
| AccountingSession.ConfirmationKeepsInv | CAAccountingInstance.cpp:2362-2504 | no confirmation lifts the credit above one interval |
| AccountingSession.ResponseKeepsInv | CAAccountingInstance.cpp:1756-2172 | nor does a login |
| AccountingSession.EndOfLoginKeepsInv | CAAccountingInstance.cpp:1359-1438 | nor the end of a login, with an empty account or without a login entry |
| AccountingSession.ConfirmingTheRequestRefills | CAAccountingInstance.cpp:799-840 | a client that confirms what was asked has one interval less the packets since then, and is neither suspected nor under the hard limit |
| AccountingSession.PositiveCreditIsServed | CAAccountingInstance.cpp:577-653 | a packet that leaves a positive credit is forwarded and does not end the session |
| AccountingSession.LimitsDecide | CAAccountingInstance.cpp:577-653 | the session ends exactly at a debt of one interval or 30 s without credit after the hard limit; else a confirmation is requested exactly at or below a limit, for one interval above the transferred bytes |
| AccountingSession.StoredCreditIsTrusted | CAAccountingInstance.cpp:2604-2623 | a stored credit is at most one interval |
| AccountingSession.ConfirmedIsStored | CAAccountingInstance.cpp:2362-2504 | the confirmed bytes change exactly when the database takes a confirmation, and to its bytes |
| AccountingSession.CreditSurvivesLogout | CAAccountingInstance.cpp:2603-2637 | logout and login restore the confirmed bytes that the row holds and max(0, credit), or 0 above the interval; the branch "transferred lower than prepaid" is not reached |
| AccountingSession.LoadingAdds | CAAccountingInstance.cpp:1951-2068 | a login adds exactly the stored credit to what was counted before it, if the last confirmation covers it |
| AccountingSession.StaysCoveredUnless | CAAccountingInstance.cpp:431-498 | without an outdated answer the confirmed bytes always cover the credit |
| AccountingSession.OutdatedFixKeepsCoveredIff | CAAccountingInstance.cpp:455-464 | the fix after an outdated answer keeps the credit, and keeps it covered exactly if the returned bytes are at least the credit |
| PacketVerdicts.VerdictsApartFromCredit | CAAccountingInstance.cpp:335-412 | for every session and packet: when it is counted, when it closes the connection, when it goes unchecked, and when a second login ends the session |
| PacketVerdicts.VerdictIs | CAAccountingInstance.cpp:414-653 | for any login entry: an empty account is served exactly while it has credit; any other session is ended exactly if the entry reports an error or the limits refuse; and which report leaves the entry |
| PacketVerdicts.PacketLeaves | CAAccountingInstance.cpp:577-653 | what a packet leaves of the hard limit's time and of the request for a confirmation |
| PacketVerdicts.GraceIsThirtySeconds | CAAccountingInstance.cpp:580-631 | over runs of packets: a client without credit is served for 30 s since it reached the hard limit and while its debt is below one interval, and exactly so long |
| PacketVerdicts.NewSessionGrace | CAAccountingInstance.cpp:2520-2535 | a new session's 30 s begin when it connects, and before its login is finished no packet of others is counted for it |
| ClientMessages.ConfirmationIs | CAAccountingInstance.cpp:2217-2504 | which confirmations are ignored, which mark a cheat, and what any other one leaves in every field of the session; the hard limit is lifted exactly if as much is confirmed as was asked for |
| ClientMessages.SecondConfirmationIsIgnored | CAAccountingInstance.cpp:2217-2504 | one request, one confirmation: until the next request a second one does nothing |
| ClientMessages.CertificateIs | CAAccountingInstance.cpp:1526-1710 | exactly the first readable certificate counts, and no certificate authenticates |
| ClientMessages.ResponseIs | CAAccountingInstance.cpp:1756-1855 | the first response uses the challenge up; the session is authenticated exactly by a good one, marked exactly by a bad signature or an occupied login; the same again does nothing |
| ClientMessages.AcceptedLoginFlags | CAAccountingInstance.cpp:1951-2110 | the account's status becomes a flag, and the first settlement is missing exactly if the row is not settled |
| ClientMessages.AcceptedLoginIs | CAAccountingInstance.cpp:1951-2172 | the counters continue from row and stored credit, and the login asks for one interval above the transferred bytes |
| ClientMessages.LoginRequestRefills | CAAccountingInstance.cpp:2112-2172 | whoever confirms what the login asks for has exactly one interval to its credit |
| ClientMessages.EndOfLoginIs | CAAccountingInstance.cpp:1359-1438 | every flag after the end of a login, and when an empty account loses all of its credit or what was not confirmed |
| ClientMessages.LoginLastsIff | CAAccountingInstance.cpp:1222-1296 | over every run, a session is in its login until it is answered or ended, and has failed exactly if it was answered so |
| ClientMessages.NoServiceBeforeLogin | CAAccountingInstance.cpp:361-366 | over every run, before its login was answered or ended a new session gets no packet through |
| ClientMessages.ClosedSessionStays | CAAccountingInstance.cpp:353-359 | once a session is being closed, no run of packets and messages changes it, and every packet closes the connection |
| ClientMessages.LogoutIs | CAAccountingInstance.cpp:2559-2637 | exactly the owner of the login entry takes it away and leaves its credit, for an empty account what was confirmed above the transferred bytes, and nothing above one interval |
| ClientMessages.DroppedCreditIsNotStored | CAAccountingInstance.cpp:712-735 | a session whose credit was set to zero leaves none |
| ClientMessages.EndOfLoginReadsStatus | CAAccountingInstance.cpp:1362-1381 | the end of a login gives the session the bits of the status code exactly if the status is known |
| ClientMessages.EmptyLoginStoresNothing | CAAccountingInstance.cpp:1430-1437 | after the end of the login of an account that is reported empty, a logout stores no credit |
| ClientMessages.StatusReachesSession | CAAccountingInstance.cpp:2062-2100 | a session learns the account's status exactly by an accepted response, which also gives it a new login entry |
| ClientMessages.LoginIsAnswered | CAAccountingInstance.cpp:1222-1296 | the answer to a login ends it, and marks it as failed exactly if it is an error |
| ClientMessages.PacketTakesReport | CAAccountingInstance.cpp:414-653 | in the account's tables a counted packet changes nothing but the login entry, which loses its report |
| ClientMessages.UncertifiedNeverLogsIn | CAAccountingInstance.cpp:1526-1855 | over every run of an account nobody is authenticated without a good certificate, unless a status code is read as flags |
| PaymentTypes.StatusCodesAreNoFlags | CAAccountingInstance.cpp:1373-1373 | which flags the status codes set when they are added to the flags: never the one they stand for |
| PrepaidAccount.ConfirmedAtOnce | CAAccountingInstance.cpp:2362-2504 | counting and writing without interruption stores the confirmation, under the account it names, as one step would |
| PrepaidAccount.PlainStep | CAAccountingInstance.cpp:1756-2172 | every input of session, login, settlement and its commit keeps tables, login entry and session in agreement, but for empty and attached outdated answers, confirmations of the session that name another account, and those of other sessions that name this one |
| PrepaidAccount.PlainRunKeepsInv | CAAccountingInstance.cpp:335-654 | so does every run without these |
| PrepaidAccount.RowTracksSession | CAAccountingInstance.cpp:2362-2504 | over every such run, with accepted, rejected, failed and interrupted writes, the account's row is absent or holds exactly the bytes the session counts as confirmed; if no answer deleted it, no row means none |
| PrepaidAccount.LoginRestores | CAAccountingInstance.cpp:1951-2068 | a login after any such run takes the confirmed bytes from the row and the stored credit exactly if it is positive and the row covers it |
| PrepaidAccount.NeverLowerThanPrepaid | CAAccountingInstance.cpp:2045-2060 | over such runs, if no write at a logout fails, the login of an account with a row never takes the branch "transferred bytes lower than prepaid amount" |
| PrepaidAccount.CreditSurvives | CAAccountingInstance.cpp:2559-2650 | such a run, a logout, another one until the next login, and that login restore confirmed bytes and credit from nothing but the tables; the credit is lost exactly if a forfeiting result was committed in between or the row is gone |
| ConfirmedAccounts.StoredTracksIff | CAAccountingInstance.cpp:2405-2443 | a stored confirmation leaves the account's row equal to the confirmed bytes exactly if it names the account or the row held those bytes before |
| ConfirmedAccounts.ForeignTracksIff | CAAccountingDBInterface.cpp:352-449 | the exact condition for a write of another session |
| ConfirmedAccounts.OtherAccountGetsRow | CAAccountingInstance.cpp:2427-2443 | a run from empty tables, for any other account: the session confirms bytes, the other account gets the row |
| ConfirmedAccounts.OwnRowFallsBehind | CAAccountingInstance.cpp:2427-2443 | a run from any row, for any other account: after the logout the stored credit is the difference and the row is the old one; the next login takes the branch "transferred bytes lower than prepaid amount" exactly if the difference is above the row |
| ConfirmedAccounts.OccupiedSessionStores | CAAccountingInstance.cpp:1832-1855 | a session turned away as occupied can store a confirmation of any number of bytes up to the interval |
| CreditBound.EventsAreTrusted | CAAccountingInstance.cpp:383-431 | over all runs of an account a packet counted before the login finds no login entry, and the other assumptions on the surroundings hold |
| CreditBound.SystemStepKeepsInv | CAAccountingInstance.cpp:335-654 | every input, with all settlement answers and confirmations and writes for any account, keeps the bound and the order of tables and login entry |
| CreditBound.CreditIsBoundedInRuns | CAAccountingInstance.cpp:383-631 | over every such run the credit of the session lies within its bounds and its 32-bit value is exact, and a stored credit is at most one interval |
| SettlementOutcome.CreditAfterAnswer | CAAccountingInstance.cpp:3198-3227 | for every answer and commit: the stored credit is lost exactly after an unknown account, an internal error and an unknown error, and charged exactly with what an empty account's bytes are short |
| SettlementOutcome.RowAfterAnswer | CAAccountingInstance.cpp:3024-3195 | for every answer, what is left of the account's row |
| SettlementOutcome.StatusAfterAnswer | CAAccountingInstance.cpp:3229-3257 | for every answer, the status of this account and of every other, with statements that work or not |
| SettlementOutcome.EntryAfterAnswer | CAAccountingInstance.cpp:3024-3285 | for every answer, what arrives in the login entry, and exactly which flags are to be taken back |
| SettlementOutcome.NextPacketAfterAnswer | CAAccountingInstance.cpp:414-653 | for every answer, the session's next packet: ended with an error exactly after the three answers that lose the credit and for a blocked account, and otherwise served as the credit and the limits say |
| SettlementOutcome.SettledOnceNeverArrives | CAAccountingInstance.cpp:1359-1438 | over every run of a session that is not being closed, the flag of an account that was settled once is not set |
| SettlementOutcome.EmptyLoginLosesCredit | CAAccountingInstance.cpp:1413-1437 | so the end of a login takes all credit of an account that is reported empty and not blocked |
| AccountingInfo.AccInfo.HandleJapPacket | CAAccountingInstance.cpp:335-654 | the method over the session record and login entry does the step, with its verdict, and keeps the bound on the credit |
| AccountingInfo.AccInfo.GetPrepaidBytes | CAAccountingInstance.cpp:661-678 | of a record that the handlers left in order, the 32-bit result is exactly confirmed minus transferred bytes |
| AccountingInfo.AccInfo.ReadLoginEntry | CAAccountingInstance.cpp:414-536 | the flags left by settlement, one branch each |
| AccountingInfo.AccInfo.CheckCredit | CAAccountingInstance.cpp:538-653 | empty account, hard limit and soft limit |
| AccountingInfo.AccInfo.SendCCRequest | CAAccountingInstance.cpp:799-840 | the request asks for one interval above the transferred bytes |
| AccountingInfo.AccInfo.HandleCostConfirmation | CAAccountingInstance.cpp:2217-2504 | the confirmation's effect on record and database, under the account it names, with the rejecting branches, within the bound |
| AccountingInfo.AccInfo.HandleChallengeResponse | CAAccountingInstance.cpp:1756-2172 | the login's effect on counters and flags, within the bound |
| AccountingInfo.AccInfo.HandleAccountCertificate | CAAccountingInstance.cpp:1526-1710 | the first readable certificate counts; a badly signed one marks a cheat |
| AccountingInfo.AccInfo.FinishLoginProcess | CAAccountingInstance.cpp:1359-1438 | the end of the login, with the two ways an empty account loses its credit and the case of a missing entry |
| AccountingInfo.AccInfo.CleanupTableEntry | CAAccountingInstance.cpp:2559-2663 | the credit is stored exactly for an authenticated owner of the login entry, and the entry goes unless another login waits for it |
| ConditionVariable.StepKeepsBalanced | CAConditionVariable.hpp:71-195 | every step keeps waiters without a token equal to counter plus tokens |
| ConditionVariable.StepKeepsExclusive | CAConditionVariable.hpp:71-195 | both locks have at most one holder |
| ConditionVariable.RunKeepsInv | CAConditionVariable.hpp:71-195 | so does every interleaving |
| ConditionVariable.WaitersAreAccounted | CAConditionVariable.hpp:78-84 | outside internally locked sections, waiters before `down` equal sleepers plus semaphore count; the counter never wraps |
| ConditionVariable.SignalReachesWaiters | CAConditionVariable.hpp:159-174 | a signal finds every thread that released the lock counted and leaves a token if one waits |
| ConditionVariable.BroadcastReachesAll | CAConditionVariable.hpp:180-195 | right after a broadcast the tokens equal the waiters |
| ConditionVariable.TokensAfter | CAConditionVariable.hpp:71-85 | without further signals, the surplus of tokens over the waiters of a given moment shrinks by exactly the tokens that others take |
| ConditionVariable.BroadcastHoldsIff | CAConditionVariable.hpp:180-195 | until the next signal there is a token for each waiter of the broadcast that still waits exactly if no later waiter has taken one |
| ConditionVariable.LaterWaiterTakesToken | CAConditionVariable.hpp:71-85 | a run of two threads from the start in which a later waiter takes the token of an earlier one |
| SignalRuns.SignalGivesOne | CAConditionVariable.hpp:159-174 | over every interleaving, a signal gives exactly one token from its entry to its end if somebody is counted, and none otherwise |
| SignalRuns.SignalsGiveAtMostOneEach | CAConditionVariable.hpp:159-174 | over every run from the start, plain signals give at most as many tokens as there are of them |
| SignalRuns.TokensAreGiven | CAConditionVariable.hpp:71-195 | every token that is there was given by a signal or broadcast and not yet taken |
| SignalRuns.LockFollowsActions | CAConditionVariable.hpp:71-195 | over every run a thread holds the lock exactly as its own locking, unlocking and waiting say; signals leave it as it is |
| SignalRuns.SignalWakesWaiter | CAConditionVariable.hpp:71-174 | whenever both locks are free, a signal of another thread lets any one waiter go on, and nothing else changes |
| RetentionFormat.NoncesDistinctIff | CADataRetentionLogFile.cpp:88-156 | all nonces under the file's key are distinct exactly for at most 2^32 blocks (section 8 of NIST SP 800-38D) |
| RetentionFormat.ReadBack | CADataRetentionLogFile.cpp:129-197 | opening the blocks in order gives back exactly the logged entries, and the footer holds their number |
| RetentionLogFile.LogFile.constructor | CADataRetentionLogFile.cpp:112-123 | the tag over the header is sealed with its own nonce |
| RetentionLogFile.LogFile.Log | CADataRetentionLogFile.cpp:176-197 | the entry is appended, to a closed log in memory only; a full block is sealed with the next nonce, and the write reports success exactly if all of it was taken |
| RetentionLogFile.LogFile.FlushLogEntries | CADataRetentionLogFile.cpp:129-144 | the remainder is sealed like a block |
| RetentionLogFile.LogFile.CloseLog | CADataRetentionLogFile.cpp:146-174 | after all writes worked the file is the encoding of everything logged, and its nonces are those of its blocks |
| RetentionLogFile.WrappedCount | CADataRetentionLogFile.cpp:151-151 | the footer's 32-bit count equals the number of entries modulo 2^32 |
| ControlFraming.ChunksAreExact | CAControlChannelDispatcher.cpp:141-155 | fragments concatenate to the message and all but the last are full |
| ControlFraming.FrameIsNumber | CAAbstractControlChannel.hpp:84-107 | the length field is the announced length in network byte order |
| ControlFraming.ReceiveFrame | CASyncControlChannel.hpp:59-100 | the fragments of one message, arriving at an idle channel, deliver it once and leave the channel idle |
| ControlFraming.ChannelsAreApart | CAControlChannelDispatcher.cpp:68-87 | over any fragments, a channel for which there is none keeps what it has, and fragments for unknown channels do nothing |
| ControlFraming.MessagesArrive | CAAbstractControlChannel.hpp:84-107 | any messages over any channels, plain or encrypted, queued in the order of sealing, are delivered exactly and in order |
| ControlFraming.BuffersSuffice | CASyncControlChannel.hpp:59-100 | no copy leaves a channel's buffer, over all fragments of all channels, if no first fragment holds more than it announces |
| ControlFraming.BufferSufficesIff | CASyncControlChannel.hpp:75-87 | and that condition is exact, because the unsigned count of missing bytes wraps round |
| ControlFraming.InStepIffNoncesMatch | CAControlChannelDispatcher.cpp:89-126 | for fewer than 2^32 messages each is opened with the nonce it was sealed with exactly if they were queued in the order of sealing |
| ControlSenders.InStepIffNoneOvertakes | CAControlChannelDispatcher.cpp:89-158 | over every interleaving of senders, messages are queued in the order of sealing exactly if none is queued while an older encrypted one waits |
| ControlSenders.NoncesMatchIffNoneOvertakes | CAControlChannelDispatcher.cpp:89-126 | before the counter wraps, exactly then each message is opened with the nonce it was sealed with |
| ControlSenders.MessagesOfThreadsArrive | CAAbstractControlChannel.hpp:84-107 | then the receiver delivers exactly what the threads sent, in the order of queueing |
| ControlSenders.OneSenderIsInStep | CAControlChannelDispatcher.cpp:89-158 | one thread alone never overtakes |
| ControlSenders.SecondSenderOvertakes | CAControlChannelDispatcher.cpp:93-135 | a run of two threads on any encrypted channel that is out of step |
| Sealing.CounterNonceEqualIff | CAControlChannelDispatcher.cpp:94-95 | counters give the same nonce exactly if they agree modulo 2^32 |
| Sealing.CounterNonceIsNumber | CAControlChannelDispatcher.cpp:94-95 | the nonce is the counter's low 32 bits in network byte order behind eight zero bytes |
| ControlChannel.PacketsCarryFragments | CAControlChannelDispatcher.cpp:139-155 | the first `flags` bytes of the packets are the fragments, and the rest holds no bytes of older messages |
| ControlChannel.QueuedIsWire | CAControlChannelDispatcher.cpp:128-158 | what a message queues is its part of the wire |
| ControlChannel.Dispatcher.SendMessages | CAControlChannelDispatcher.cpp:128-158 | the loop over the reused packet buffer queues the packets of the message |
| ControlChannel.Dispatcher.SendXmlMessage | CAAbstractControlChannel.hpp:84-107 | length, body and tag are framed; a message over 65535 bytes is refused and changes nothing |
| ControlChannel.Dispatcher.EncryptMessage | CAControlChannelDispatcher.cpp:89-106 | seals with the next nonce; copies without a key |
| ControlChannel.Dispatcher.DecryptMessage | CAControlChannelDispatcher.cpp:108-126 | opens with the next nonce; copies without a key |
| ControlChannel.SyncControlChannel.ProccessMessage | CASyncControlChannel.hpp:59-100 | reassembly in the buffer, decryption and delivery when complete |
| RoundRobin.GetsGoRound | CACacheLoadBalancing.hpp:84-95 | calls return the addresses behind the cursor in turn |
| RoundRobin.FullTurn | CACacheLoadBalancing.hpp:84-95 | as many calls as addresses return each once and restore the cursor |
| RoundRobin.GetsContinue | CACacheLoadBalancing.hpp:84-95 | later calls continue where earlier ones stopped |
| RoundRobin.FirstTurnIsReversed | CACacheLoadBalancing.cpp:36-58 | a new address comes next, before all others: the first turn returns the addresses in the reverse of their order of adding |
| RoundRobin.LoadBalancer.Add | CACacheLoadBalancing.cpp:36-58 | a node is spliced in behind the cursor; one ring of the counted size remains |
| RoundRobin.LoadBalancer.Get | CACacheLoadBalancing.hpp:84-95 | moves the cursor and returns the address there |
| RoundRobin.LoadBalancer.Clean | CACacheLoadBalancing.hpp:56-76 | terminates having freed each node of the ring once |
| MajorityVote.WalkKeeps | CADynamicCascadeConfigurator.cpp:506-564 | a vote raises the sum of all counts by at most one; counts equal the numbers of proposers, none twice |
| MajorityVote.CollectKeeps | CADynamicCascadeConfigurator.cpp:114-138 | so do all votes of the query loop |
| MajorityVote.LastWinnerIs | CADynamicCascadeConfigurator.cpp:180-210 | the scan returns the last proposal at or above the quota |
| MajorityVote.OneWinner | CADynamicCascadeConfigurator.cpp:180-210 | with n answers at most one proposal reaches floor(2n / 3) + 1, and the scan returns it |
| MajorityVote.FaithfulInEveryOrderIff | CADynamicCascadeConfigurator.cpp:506-564 | in whatever order the answers arrive, each vote is counted for exactly its own text, exactly if no text, and for the same text no proposer's name, is a proper prefix of another |
| MajorityVote.LongerFirstSpoils | CADynamicCascadeConfigurator.cpp:519-562 | a vote that comes after one it is a prefix of is not counted for its own text |
| MajorityVote.ShortIsNeverStored | CADynamicCascadeConfigurator.cpp:519-562 | once only longer texts are stored, a text that is a prefix of one of them never gets a proposal |
| MajorityVote.PrefixVotesAreOrdered | CADynamicCascadeConfigurator.cpp:519-562 | for any two votes of which one text is a prefix of the other, the result of both orders |
| MajorityVote.CountIsSupport | CADynamicCascadeConfigurator.cpp:506-564 | if each vote is counted for its own text, a proposal's count is the number of distinct services that named exactly its text |
| MajorityVote.WinnerIsNamed | CADynamicCascadeConfigurator.cpp:180-210 | and a text wins exactly if at least floor(2n / 3) + 1 distinct services named it |
| VoteOrder.AlwaysFaithfulIff | CADynamicCascadeConfigurator.cpp:506-564 | for answers in a given order, each proposer is counted for exactly the texts it named after every single answer exactly if each vote meets a condition on the answers before it |
| VoteOrder.FaithfulIff | CADynamicCascadeConfigurator.cpp:114-138 | if each proposer votes once, the same condition is exact for the result |
| MajorityVote.Configurator.AddProposal | CADynamicCascadeConfigurator.cpp:506-565 | the nested loops over proposals and proposers count the vote |
| MajorityVote.Configurator.GetMajorityVote | CADynamicCascadeConfigurator.cpp:180-210 | the loop that keeps the last match |
| MajorityVote.Configurator.Configure | CADynamicCascadeConfigurator.cpp:100-146 | every service is asked once, failures are skipped, then the vote is taken |

## Left out

- FirstMixChannelList.ChannelList.AddChannel: the random source is a given sequence that contains a free id; one exists (`SomeOutIdIsFree`), but that the source ever delivers it is not claimed.
- FirstMixChannelList.ChannelList.FreeOutId: the same assumption on the random source.
- FirstMixChannelList.ChannelList.GetFirst: the source reads the head again after it released the lock; the model returns the head of the locked section.
- SettlementTickets.StepKeepsInv: a thread in `wait` may wake up at any time; since one arbitrary waiter is signalled, that the right thread does wake up is not claimed, only that it can (`EverybodyCanBeServed`).
- CostConfirmations.NewestStaysSelectable: every stored confirmation is taken to be readable again when it is fetched.
- AccountingSession.CreditIsBounded: assumes that a data packet counted before the login does not find an empty or outdated account's entry (proved over the runs of an account in `CreditBound`), that payment-instance values used for an empty account are at most one interval above the transferred bytes, and that all stored byte counts are below 2^63, as the database column demands.
- CreditBound.CreditIsBoundedInRuns: the assumption on the values that the payment instance sends for an empty account stays, and a login does not end before it was accepted while the account's status is that of an empty one. One connection of the account at a time is modelled in full; others appear by their writes.
- AccountingSession.EndOfLoginKeepsInv: a missing login entry of an account that is empty and not blocked makes the source dereference a null pointer; the model ends the login as if the account were not empty.
- PrepaidAccount.PlainRunKeepsInv: a message of the session is handled before the connection is cleaned up; the source's cleanup does not take the session's lock. The reads at a login work, and the confirmation in the row matches the cascade.
- PrepaidAccount.CreditSurvives: empty and attached outdated answers, which replace the confirmed bytes by other numbers, are excluded, and so are confirmations under the wrong account, by the exact condition of `StoredTracksIff` and `ForeignTracksIff`. Account number zero, which the source does not clean up, is excluded.
- PacketVerdicts.GraceIsThirtySeconds: for packets that find a login entry without reports; all other packets are covered one by one by `VerdictIs` and `PacketLeaves`.
- ClientMessages.EndOfLoginIs: the message that tells the client of the end of its login is not modelled.
- SettlementOutcome.NextPacketAfterAnswer: for one answer whose commit is complete before the packet; the counts of bytes that the payment instance sends back for an empty account are at most one interval above the transferred bytes, as everywhere.
- AccountingInfo.AccInfo.HandleChallengeResponse: the kickout of an earlier login of the same account, and sending the request, are not modelled.
- ConditionVariable.SignalReachesWaiters: the variant on POSIX condition variables is not modelled, nor the wait with a timeout, which waits without one.
- RetentionLogFile.LogFile.constructor: the header's fields and the encryption of the file key with the public key are a given byte string.
- ControlChannel.SyncControlChannel.ProccessMessage: a copy past the end of the buffer is excluded, by the exact condition of `BuffersSuffice`.
- ControlFraming.MessagesArrive: encryption is an ideal function whose inverse recovers the plain text under the same nonce; the receiver does not look at the tag check's result, and neither does the model.
- RoundRobin.LoadBalancer.Get: the source reads the address after it released the lock; the model reads it inside.
- MajorityVote.OneWinner: for fewer than 2^31 services; with more, the doubled number wraps round in 32 bits.
- MajorityVote.Configurator.AddProposal: texts that end inside the compared length are taken not to match.
- Sockets, XML, SQL text, logging, certificates and the login's key exchange are foreign or plumbing.
- The methods for the other mix types, delay buckets, statistics, and the older settlement transaction are dead, duplicate or easy.
- The pool of database connections is left out: it makes no promise of order.
