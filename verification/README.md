# Nex2Chat, verified in Dafny

Nex2Chat is a decentralised social network written in Go. This project models its distributed
protocols and proves what they promise:

- **Chord ring** (`IdRing`, `ChordRing`, `ChordLookup`, `ChordHops`, `ChordJoin`, `ChordExact`,
  `ChordRuns`, `ChordFaults`, `ChordReplay`, `ChordPeer`, `ByteKeys`). Identifiers are the numbers below N = 2^M with
  M = 8 * KEY_LEN, for any key length of at least one byte. A network is a map from address to peer
  state (identifier, finger entries, predecessor), a remote call is a call on the peer at that address,
  and a call to an address nobody answers at fails. `Routes` is all that lookups need: true
  successors, and entries that are unset or members. `Ring` is the invariant of every state between events:
  `Routes`, true predecessors, and fingers not too close. `Complete` says no finger is unset,
  `Exact` that finger i is the first member at or after id + 2^i. The classes in `ChordPeer` do the work
  in place, method by method, and are tied to the value-level functions through `View`, the states of
  all peers. `ByteKeys` shows that the byte arrays the peers exchange behave as those numbers.
- **Rumor gossip and anti-entropy** (`GossipLog`, `GossipExchange`, `GossipPeer`, `GossipNet`, `GossipRuns`).
  The callbacks of a peer, and all peers over a network that loses, duplicates and reorders packets.
- **Budgeted search** (`SearchBudget`), **content-addressed files** (`FileStore`, `FilePeer`), **keys of
  private posts** (`PostKeys`, `PostAuthor`), **posts kept on the ring** (`Posts`, `PostPeer`) and
  **who can read them** (`PostReading`).

Check everything with `dafny verify dfyconfig.toml`.

## What the proofs say about the code

Most of what the design promises holds as it stands. Where it does not, the model keeps the code as it
is, gives the input, and proves the exact condition.

- *Unset fingers are not skipped.* They read as identifier 0 with an empty address, and a lookup may pick
  one and fail. With exact tables no join ever meets this (`JoinExact`), nor in a ring of merely complete
  tables if the newcomer's successor is bridged (`BridgedJoinSucceeds`). Otherwise a join fails exactly
  when the tables right after linking in hold a trap (`JoinFailsExactly`): for some i a member lies in
  [n + 2^i, n + 2^(i+1)], so that entry i+1 is looked up, 0 lies before n + 2^(i+1), and the lookup asks the
  newcomer. It does happen: 0 joins the network of N-2, and then N-1 cannot join through N-2
  (`StaleFingerStopsJoin`).
- *A join does not make all fingers exact.* A member sitting exactly at n - 2^i, i >= 1, keeps its old
  finger i: the update starts at the last member strictly before that point. `ExactAfterJoin` says that
  this is the only obstacle.
- *Small search budgets are not cut.* With a budget not above the number of neighbours, every neighbour
  gets a request with budget 1, so the origin sends out max(budget, neighbours) although the comment
  there speaks of budget-many random neighbours.
- *Replies to data requests are stored under the key the reply names*, unchecked, and only the key asked
  for is checked afterwards. A store is content-addressed again exactly if the last reply for every key
  fits it or is empty, or was for the key asked and awaited (`FetchIsSound`). Downloads are authentic exactly
  if peers that answer properly never slip in a wrong value for another chunk (`DownloadIsAuthentic`); a
  right metafile with a wrong chunk beside it makes a download succeed with that chunk
  (`WrongChunkIsServed`). A reply that comes after the request has given up is never checked
  (`LateReplyIsNotChecked`).
- *A late copy of a request to store a post brings an old version back.* Likes and comments store new
  versions under the same identifier, requests are resent after a timeout, and the holder keeps whatever
  comes last (`LateCopyReverts`). Everyone gets the version stored last exactly unless the last copy to
  arrive carried another one (`EveryoneGetsTheLatest`).
- *Late link messages can break the ring.* Once another peer has joined in between, a late SetPredecessor or
  SetSuccessor reaches a former neighbour and is taken at its word (`LateSetPredecessor`,
  `LateSetSuccessor`). Late updates are harmless while tables are exact (`LateUpdate`).
- *Keys reach followers only through a shared key store.* No message carries a key, so followers read
  private posts only if author and follower use the same store, which the model assumes where it says so
  (`Reads`). The application gives each node a store of its own (gui/gui.go:188-197); then a follower sees
  only the mark (`SeparateStoresHide`). In general a reader sees a post as written exactly if its store holds
  the post's key sealed to it (`ShownExactly`).
- *A post that cannot be decrypted* is shown with a mark before its encrypted content if it came from
  another member, but with the mark alone if it lay on the reader's own shelf (`BlockedReadsNothing`).
- *A public post loses its key number* only if the member that stores it is its holder (`Posts.PutThenGet`).

## Model

| member | source | states |
|---|---|---|
| IdRing.Gap | peer/impl/safe_fingertable.go:17-30 | finger i starts 2^i away: one step for the successor, at least two for every other finger, at most half the circle |
| IdRing.Forward | peer/impl/safe_fingertable.go:17-30 | the point so reached is that far clockwise, wrap-around included |
| IdRing.Back | peer/impl/chord_utils.go:256-258 | the point so reached is that far counter-clockwise, wrap-around included |
| IdRing.IntervalsAreCyclic | peer/impl/utils.go:262-289 | the three interval tests are comparisons of clockwise distances, equal endpoints meaning the whole circle |
| ChordRing.FirstIsUnique | peer/impl/chord_utils.go:18-42 | at most one member is the first at or after an identifier |
| ChordLookup.ClosestIndex | peer/impl/chord_utils.go:86-108 | the scan settles on the highest finger strictly before the target and above it none qualifies |
| ChordLookup.ClosestItself | peer/impl/chord_utils.go:86-108 | where no finger lies strictly before the target the answer is the peer itself |
| ChordLookup.ClosestProgress | peer/impl/chord_utils.go:59-78 | with true successors and entries that are unset or members, a hop lands strictly nearer to the target on a member, or on an unset finger |
| ChordLookup.FindPredecessorCorrect | peer/impl/chord_utils.go:45-83 | a lookup that ends gives the last member strictly before the identifier, needing only true successors and entries that are unset or members, whatever the predecessors and however close the fingers |
| ChordLookup.FindPredecessorEnds | peer/impl/chord_utils.go:45-83 | the loop stops only where the identifier lies in (node, successor] |
| ChordLookup.FindSuccessorCorrect | peer/impl/chord_utils.go:18-42 | needing no more, a lookup that answers gives what a linear scan for the first member at or after the identifier gives |
| ChordLookup.CompleteLookupsAnswer | peer/impl/chord_utils.go:45-83 | if besides no finger is unset every lookup from every member ends and answers |
| ChordHops.HopCovers | peer/impl/chord_utils.go:86-108 | with exact fingers, if 2^i fits in the remaining way a hop covers at least 2^i of it and does not overshoot |
| ChordHops.HopsWithin | peer/impl/chord_utils.go:59-78 | a remaining way below 2^e is walked in at most e hops |
| ChordHops.HopBound | peer/impl/chord_utils.go:45-83 | with exact fingers a lookup answers after at most M hops from any member to any identifier |
| ChordHops.PredecessorPointsBack | peer/impl/chord_utils.go:196-214 | the successor of a member's predecessor is that member |
| ChordHops.SuccessorPointsBack | peer/impl/chord_utils.go:196-214 | the predecessor of a member's successor is that member |
| ChordHops.JoiningLookup | peer/impl/chord_utils.go:196-242 | while a newcomer is half joined, lookups started anywhere else answer and never consult its table, provided its predecessor has a finger past it |
| ChordHops.NewcomerIsAvoided | peer/impl/chord_utils.go:196-242 | that proviso is exact: without it some lookup does consult the newcomer |
| ChordJoin.SetFingerKeepsRing | peer/impl/chord_utils.go:278-311 | writing a member not too close into any entry keeps the ring |
| ChordJoin.UpdateFinger | peer/impl/chord_utils.go:278-344 | the recursion through predecessors ends, keeps the ring and touches members only |
| ChordJoin.UpdateKeepsRing | peer/impl/chord_utils.go:278-311 | each step is harmless, never touches entry 0, and moves strictly closer to the newcomer, counter-clockwise |
| ChordJoin.Placement | peer/impl/chord_utils.go:185-205 | the successor found for n + 1 and the predecessor it names enclose n with no member between |
| ChordJoin.SameEntriesSameLookup | peer/impl/chord_utils.go:59-78 | lookups depend on nothing but members' entries and identifiers |
| ChordJoin.HalfLinkedIsNoRing | peer/impl/chord_utils.go:207-214 | between the two remote writes of linking in, the members are no ring, with or without the newcomer |
| ChordJoin.HalfLinkedLookups | peer/impl/chord_utils.go:207-214 | there every lookup from an old member still goes the way it went before and gives the first old member |
| ChordJoin.LinkInLinks | peer/impl/chord_utils.go:185-214 | linking in writes exactly four pointers |
| ChordJoin.LinkInKeepsRing | peer/impl/chord_utils.go:185-214 | after them the ring with the newcomer is a ring again |
| ChordJoin.FillTable | peer/impl/chord_utils.go:217-242 | filling keeps the ring wherever it stops |
| ChordJoin.UpdateOthers | peer/impl/chord_utils.go:248-275 | updating the others keeps the ring wherever it stops |
| ChordJoin.UpdateStart | peer/impl/chord_utils.go:256-268 | each update starts at a member more than 2^i before the newcomer, or at the newcomer itself |
| ChordJoin.CreateIsExact | peer/impl/chord_utils.go:150-166 | the first peer's ring of one has exact tables |
| ChordJoin.Init | peer/impl/chord_utils.go:180-245 | initialising leaves a ring, with the newcomer if it succeeded, even when a lookup fails half-way |
| ChordJoin.Join | peer/impl/chord_utils.go:130-177 | so does a whole join |
| ChordExact.ShortcutIsLookup | peer/impl/chord_utils.go:217-231 | copying the entry below gives what a lookup would, wrap-around and entries naming the peer itself included |
| ChordExact.ExactIsBridged | peer/impl/chord_utils.go:196-205 | with exact tables the newcomer's predecessor can step over it: finger 1 is its successor |
| ChordExact.LinkedIsJoining | peer/impl/chord_utils.go:196-214 | right after linking in, lookups pass the newcomer by and its first entry is exact |
| ChordExact.NextEntryIsFirst | peer/impl/chord_utils.go:217-242 | copied or looked up, the next entry is found and is the first member at or after its start |
| ChordExact.FillTableExact | peer/impl/chord_utils.go:217-242 | filling succeeds, makes every entry of the newcomer exact and changes no other peer |
| ChordExact.WantingIsContiguous | peer/impl/chord_utils.go:278-311 | the members whose finger i should become the newcomer are consecutive |
| ChordExact.UpdateRun | peer/impl/chord_utils.go:278-344 | one update call gives finger i to exactly the members of that run from where it starts, and changes nothing else |
| ChordExact.WantingAreReached | peer/impl/chord_utils.go:256-268 | the run lies behind the member the update starts at |
| ChordExact.UpdateOthersExact | peer/impl/chord_utils.go:248-275 | all updates succeed and leave every entry either the newcomer, where it should be, or untouched |
| ChordExact.UpdatedEntry | peer/impl/chord_utils.go:256-268 | an old member's entry is then exact if and only if the member does not sit exactly 2^i before the newcomer |
| ChordExact.JoinExact | peer/impl/chord_utils.go:130-177 | a join into a ring with exact tables succeeds and leaves every finger of every member exact, except exactly finger i >= 1 of a member at n - 2^i, which keeps its value |
| ChordExact.ExactAfterJoin | peer/impl/chord_utils.go:256-268 | exactness survives a join if and only if no member sits at such a point |
| ChordRuns.Apply | peer/impl/chord_utils.go:130-177 | creating and joining keep the invariant, failed joins included, and change no identifier |
| ChordRuns.Run | peer/impl/chord_utils.go:130-177 | so does every sequence of them |
| ChordRuns.EveryRunKeepsTheRing | peer/impl/message_callbacks.go:397-411 | after any sequence of joins successors go to the next member, predecessors are their inverse, set fingers are members at least 2^i away or the peer itself, and lookups that answer are right |
| ChordRuns.OneCycle | peer/impl/message_callbacks.go:397-411 | successor pointers form one cycle through all members |
| ChordRuns.ClearRunsStayExact | peer/impl/chord_utils.go:130-177 | while no joiner lands 2^i, i >= 1, after a member, tables stay exact and every lookup answers within M hops |
| ChordRuns.SuccessfulRunsAnswer | peer/impl/chord_utils.go:130-177 | while no join has failed, no finger is unset and every lookup from every member answers, correctly |
| ChordFaults.BridgedJoinSucceeds | peer/impl/chord_utils.go:196-242 | stale but complete tables do: a join succeeds and leaves complete tables if its successor is bridged |
| ChordFaults.LookupFailsExactly | peer/impl/chord_utils.go:86-108 | while the newcomer's table is part unset, a lookup fails if and only if it asks the newcomer for an identifier past 0 |
| ChordFaults.JoinFailsExactly | peer/impl/chord_utils.go:180-245 | in a ring of complete tables a join fails if and only if the tables right after linking in hold a trap |
| ChordFaults.SuccessfulJoinIsComplete | peer/impl/chord_utils.go:130-177 | a join into a ring of complete tables that succeeds leaves complete tables |
| ChordFaults.LookedUpExactly | peer/impl/chord_utils.go:217-231 | the next entry is looked up rather than copied if and only if a member lies between the two starts, ends included |
| ChordFaults.SameWayToNewcomer | peer/impl/chord_utils.go:59-78 | what the newcomer has filled in so far makes no difference to which lookups ask it |
| ChordFaults.FillFailsExactly | peer/impl/chord_utils.go:217-242 | filling from any entry on succeeds, with complete tables, if and only if no later entry is a trap |
| ChordFaults.StaleFingerStopsJoin | peer/impl/chord_utils.go:217-242 | three peers for which it does, through an ordinary sequence of joins |
| ChordFaults.UpdateOthersSucceeds | peer/impl/chord_utils.go:248-275 | with no finger unset, updating the others never fails and leaves none unset |
| ChordReplay.StaysSettled | peer/impl/chord_utils.go:278-311 | what an update call has done where it arrived stays done through all later calls |
| ChordReplay.CallsAreTheUpdate | peer/impl/chord_utils.go:278-344 | an update is the calls it makes from peer to peer |
| ChordReplay.LoopCalls | peer/impl/chord_utils.go:248-275 | the calls of the update loop lead to the tables the loop leaves |
| ChordReplay.ReplayedUpdatesChangeNothing | peer/impl/chord_utils.go:536-559 | at every point of the update loop and after it, a call that has arrived before changes no table when it arrives again, recursion included |
| ChordReplay.ReplayedLinksChangeNothing | peer/impl/message_callbacks.go:397-411 | repeating the newcomer's SetPredecessor and SetSuccessor at those who are its neighbours changes nothing |
| ChordReplay.LateSetPredecessor | peer/impl/message_callbacks.go:397-411 | a late SetPredecessor, at whichever member, keeps the ring if and only if its sender is the predecessor there still |
| ChordReplay.LateSetSuccessor | peer/impl/message_callbacks.go:397-411 | likewise a late SetSuccessor and the successor |
| ChordReplay.LateUpdate | peer/impl/chord_utils.go:278-344 | while tables are exact, a late update changes nothing, whatever joins came between |
| ChordPeer.SafeFingerTable.constructor | peer/impl/safe_fingertable.go:17-30 | entry i starts 2^i after the owner modulo 2^M, and no node is set |
| ChordPeer.SafeFingerTable.FingerTableGet | peer/impl/safe_fingertable.go:32-40 | the entry, or an error outside the table |
| ChordPeer.SafeFingerTable.FingerTableSetNode | peer/impl/safe_fingertable.go:53-62 | replaces one node and nothing else, or fails and changes nothing |
| ChordPeer.SafeFingerTable.FingerTableAssignMinusOne | peer/impl/safe_fingertable.go:64-74 | copies the node of the entry before, or fails and changes nothing |
| ChordPeer.Peer.constructor | peer/impl/impl.go:52-104 | a new peer has not joined and has no node in its table |
| ChordPeer.Peer.ClosestPrecedingFinger | peer/impl/chord_utils.go:86-108 | the in-place scan finds the closest preceding finger |
| ChordPeer.Peer.RpcClosestPrecedingFinger | peer/impl/chord_utils.go:347-372 | the remote peer's answer, or an error when nobody is there |
| ChordPeer.Peer.RpcSuccessor | peer/impl/chord_utils.go:374-393 | the remote peer's successor, or an error when nobody is there |
| ChordPeer.Peer.FindPredecessor | peer/impl/chord_utils.go:45-83 | the loop over remote peers ends and computes the lookup; within, the tables consulted are exactly those the hop bound counts |
| ChordPeer.Peer.FindSuccessor | peer/impl/chord_utils.go:18-42 | likewise for the successor |
| ChordPeer.Peer.SetPredecessor | peer/impl/message_callbacks.go:401-404 | changes one predecessor and nothing else in the network |
| ChordPeer.Peer.SetEntry | peer/impl/message_callbacks.go:405-411 | changes one finger entry and nothing else in the network |
| ChordPeer.Peer.UpdateFingerTable | peer/impl/chord_utils.go:278-311 | the mutual recursion across peers ends and does what the update says to the whole network |
| ChordPeer.Peer.RpcUpdateFingerTable | peer/impl/chord_utils.go:318-344 | the same from the calling side, which stops at the newcomer itself |
| ChordPeer.Peer.LinkBefore | peer/impl/chord_utils.go:185-214 | puts the peer between its successor and that one's predecessor |
| ChordPeer.Peer.FillEntry | peer/impl/chord_utils.go:217-242 | sets the next entry by copy or lookup, or fails and changes nothing |
| ChordPeer.Peer.FillRest | peer/impl/chord_utils.go:217-242 | the loop ends where filling ends, successful or not |
| ChordPeer.Peer.InitFingerTable | peer/impl/chord_utils.go:180-245 | initialises the table and links the peer in, as specified |
| ChordPeer.Peer.UpdateOthers | peer/impl/chord_utils.go:248-275 | the loop over all finger indices updates the network as specified |
| ChordPeer.Peer.CreateNetwork | peer/impl/chord_utils.go:150-166 | the peer points to itself everywhere |
| ChordPeer.Peer.Join | peer/impl/chord_utils.go:130-177 | joins through an existing member or creates a network; becomes joined on success, and a failure leaves that as it was |
| ByteKeys.BigIntToBytes | utils/utils.go:17-27 | the padded big-endian bytes, or an error when there are too many |
| ByteKeys.ConversionRoundTrips | utils/utils.go:13-27 | conversion succeeds exactly below 2^M in magnitude, and bytes and numbers convert into each other without loss |
| ByteKeys.CompareIsNumeric | peer/impl/utils.go:262-289 | lexicographic order of byte arrays of equal length is numeric order |
| ByteKeys.ByteIntervalsAreCyclic | peer/impl/utils.go:262-289 | the interval tests on byte arrays equal their cyclic-distance definitions |
| ByteKeys.AddAndSubtractUndo | peer/impl/utils.go:291-321 | adding and subtracting never fail and undo each other for every integer |
| ByteKeys.AddAndSubtractTurn | peer/impl/utils.go:291-321 | on the circle they are a turn forward and a turn back |
| ByteKeys.DecodeChordIDFromStr | utils/utils.go:33-42 | the leading bytes of the text, an error exactly for what is no hexadecimal text, or a slice past the decoded bytes exactly for shorter texts |
| ByteKeys.UnhexDetermines | utils/utils.go:29-42 | a text decodes to bytes if and only if, letter case aside, it is their encoding |
| ByteKeys.HexDigits | utils/utils.go:29-31 | the lower-case hexadecimal digits |
| ByteKeys.HexSpelled | utils/utils.go:29-31 | the text has two digits for each byte, high half first |
| ByteKeys.TextRoundTrips | utils/utils.go:29-42 | decoding undoes encoding |
| GossipLog.LengthIsLastSeqno | peer/impl/peer_utils.go:550-565 | in a table in order, the last sequence number is the length of the log |
| GossipLog.ReceiveKeepsForm | peer/impl/message_callbacks.go:38-48 | whatever rumors come, logs stay numbered 1, 2, 3, ... |
| GossipLog.ReceiveConcat | peer/impl/message_callbacks.go:38-48 | cutting a message in two makes no difference |
| GossipLog.LogsGrowByAccepted | peer/impl/peer_utils.go:567-574 | a log grows by exactly the accepted rumors of its origin |
| GossipLog.UnequalMeansAheadOrBehind | peer/impl/peer_utils.go:285-329 | statuses are equal if and only if neither side has anything to send |
| GossipExchange.JoinIsJoin | peer/impl/peer_utils.go:428-451 | two tables of common history have a pointwise longest one |
| GossipExchange.NextIsHeldOrExpected | peer/impl/peer_utils.go:444-451 | because the list is sorted, the receiver never meets a gap in it |
| GossipExchange.MissingListGivesJoin | peer/impl/message_callbacks.go:38-48 | whoever sent the status, or knows more by now, ends with the longest logs of both after receiving the missing list |
| GossipExchange.MissingListIsAccepted | peer/impl/message_callbacks.go:38-48 | a receiver still at its status accepts the whole list |
| GossipExchange.NotAheadIsWithin | peer/impl/peer_utils.go:299-329 | a peer has no rumors to send if and only if its logs are prefixes of the other's |
| GossipExchange.ExchangeComputesJoin | peer/impl/message_callbacks.go:96-124 | one status exchange leaves both peers with the pointwise longest logs in either order of delivery, and unequal statuses are always answered |
| GossipRuns.RunGrows | peer/impl/peer_utils.go:567-574 | in every run no peer forgets a rumor |
| GossipRuns.RunKeepsStatuses | peer/impl/peer_utils.go:396-407 | a status on its way never claims more than its sender holds |
| GossipRuns.DeliveredAnswerGivesJoin | peer/impl/message_callbacks.go:96-124 | in every run, when the rumors answering a status arrive the receiver holds for every origin the longer of its log and the answering peer's |
| GossipRuns.ExchangeInRun | peer/impl/message_callbacks.go:81-149 | a whole exchange within a run, among any other steps, leaves both peers for good with all that one had told of and the other had |
| GossipPeer.SortBySequence | peer/impl/peer_utils.go:444-451 | the same rumors in sequence order |
| GossipPeer.RouteAfter | peer/impl/message_callbacks.go:50-52 | exactly the origins among the accepted rumors that are neither neighbours nor oneself are reached through the relay afterwards, everyone else as before |
| GossipPeer.NeighbourRoutesStay | peer/impl/message_callbacks.go:50-56 | gossip never replaces a direct route or the one to oneself |
| GossipPeer.GossipPeer.CreateRumor | peer/impl/peer_utils.go:576-587 | stamps the next number and appends to one's own log |
| GossipPeer.GossipPeer.RumorsMessageCallback | peer/impl/message_callbacks.go:27-79 | the table, the rumors handed on, the acknowledgement and the forwarding; of the routes it replaces or adds exactly those to accepted origins, by the relay, but keeps its own and every direct one |
| GossipPeer.GossipPeer.StatusMessagesEqual | peer/impl/peer_utils.go:285-297 | comparing sizes and one direction decides equality |
| GossipPeer.GossipPeer.CheckStatusMessages | peer/impl/peer_utils.go:299-329 | both flags are right in spite of the early exit |
| GossipPeer.GossipPeer.GetMissingRumors | peer/impl/peer_utils.go:428-451 | exactly the rumors the status lacks, each once, sorted |
| GossipPeer.GossipPeer.StatusMessageCallback | peer/impl/message_callbacks.go:81-127 | nothing for the sender exactly on equal statuses, and then by chance one's own status for one of the other peers it has a direct route to, if there is one; otherwise rumors if ahead, one's own status if behind, at least one of them |
| GossipNet.StepKeepsInv | peer/impl/message_callbacks.go:27-149 | every step of any peer keeps the invariant of the whole network |
| GossipNet.RunKeepsInv | peer/impl/message_callbacks.go:27-149 | hence every run does, with packets lost, repeated and reordered |
| GossipNet.LogsArePrefixes | peer/impl/peer_utils.go:396-407 | in every reachable state a peer's log for an origin is a prefix of the origin's own, entry k numbered k+1, and last number and length agree |
| GossipNet.TablesAreCompatible | peer/impl/peer_utils.go:285-329 | any two peers can at any time complete an exchange |
| GossipNet.HandedOnceForwardsBounded | peer/impl/message_callbacks.go:57-76 | each rumor is handed over at most once and in order, and a peer's forwards are fewer than what it accepted, so bounded by the rumors created |
| SearchBudget.DistributeBudget | peer/impl/utils.go:169-181 | shares sum to the budget, differ by at most one and do not increase; the first min(budget, neighbours) are the positive ones |
| SearchBudget.AddressedSum | peer/impl/peer_utils.go:901-917 | leaving out neighbours without a share loses no budget, and every request sent has some |
| SearchBudget.AddressedInTurn | peer/impl/peer_utils.go:901-917 | when the positive shares come first, request i goes to neighbour i with share i, as many as there are positive shares |
| SearchBudget.SearchPeer.SendSearchRequests | peer/impl/peer_utils.go:729-773 | the origin asks every neighbour once, in turn, with max(budget, number of neighbours) in even shares, the larger first |
| SearchBudget.SearchPeer.SearchRequestCallback | peer/impl/message_callbacks.go:214-252 | a request is served once; the budget less one goes on to the first neighbours in turn, one request each, in even shares, the larger first, to as many as it lasts for, and nothing when none is left |
| SearchBudget.ArriveKeepsInv | peer/impl/message_callbacks.go:224-238 | served nodes plus budget in flight never grow, and spending a unit never wraps |
| SearchBudget.BudgetIsConserved | peer/impl/peer_utils.go:901-917 | in every run no more nodes serve a request than the budget its origin sent out |
| SearchBudget.ServedAtMost | peer/impl/peer_utils.go:740-770 | nodes served plus budget in flight never exceed what the origin shared out |
| FileStore.SplitJoin | peer/impl/impl.go:353-414 | splitting a metafile undoes joining it |
| FileStore.StoreAllKeeps | peer/impl/utils.go:156-167 | storing chunks puts each under its hash, keeps the store content-addressed and leaves everything else in it as it was |
| FileStore.ChunksAreReads | peer/impl/impl.go:353-379 | whatever the reader does, the chunks are the bytes of its reads up to an empty one or the first error, and the upload gives up exactly if that error is not the end of the file |
| FileStore.ChunksAreTheData | peer/impl/impl.go:353-390 | reads of any positive sizes give chunks that make up the data |
| FileStore.DataComesBack | peer/impl/impl.go:353-414 | downloading what was uploaded gives the data back, also from any later store that lost none of it |
| FileStore.UploadKeepsEarlier | peer/impl/impl.go:353-390 | an upload loses nothing uploaded before and changes nothing but the keys of its chunks and metafile |
| FileStore.LastReplyStays | peer/impl/message_callbacks.go:196-212 | of the replies for a key the store keeps the last, and of other keys what it had |
| FileStore.FetchSucceedsExactly | peer/impl/peer_utils.go:691-713 | all outcomes of a fetch: what is at hand comes as it is; anything else comes if and only if the awaited reply came and the last reply for the key is a fitting, non-empty value, which the store then keeps |
| FileStore.FetchAllAppend | peer/impl/impl.go:392-414 | chunks are fetched one after the other and appended, and after a missing one nothing more is asked for |
| FileStore.FetchIsSound | peer/impl/peer_utils.go:691-713 | a fetch succeeds only with a value that hashes to the key; the store comes out content-addressed if and only if, whatever came and whether or not the awaited reply did, the last reply for each key is empty, fits it, or was for the key asked and awaited |
| FileStore.LateReplyIsNotChecked | peer/impl/message_callbacks.go:196-212 | a reply after the request gave up is stored and later returned unchecked |
| FileStore.AuthenticUnlessSlippedIn | peer/impl/impl.go:392-414 | a download that succeeds is the uploaded file if peers never slip in another chunk |
| FileStore.ProvidedFileComes | peer/impl/impl.go:392-414 | from peers that answer properly for the metafile and every chunk and slip nothing in, the download gives the file, whatever is already local |
| FileStore.UploadedElsewhereComes | peer/impl/message_callbacks.go:165-212 | what one peer uploaded, any other peer downloads from it, once answered |
| FileStore.DownloadIsAuthentic | peer/impl/impl.go:392-414 | that condition is exact: downloads are authentic from every content-addressed store if and only if peers that answer properly never slip in a wrong value under another chunk's hash |
| FileStore.WrongChunkIsServed | peer/impl/message_callbacks.go:196-212 | the right metafile and a wrong chunk beside it: the download succeeds with the wrong chunk |
| FilePeer.FilePeer.StoreSlice | peer/impl/utils.go:156-167 | stores a copy under its hash |
| FilePeer.FilePeer.ReadChunks | peer/impl/impl.go:362-379 | the read loop stores the chunks the reader delivers and reports a read error |
| FilePeer.FilePeer.Upload | peer/impl/impl.go:353-390 | the store and metahash after an upload, in every case of reader and chunk size |
| FilePeer.FilePeer.DataReplyMessageCallback | peer/impl/message_callbacks.go:196-212 | any reply is stored under the key it names |
| FilePeer.FilePeer.GetMetaHashValue | peer/impl/peer_utils.go:691-713 | local value, checked remote value, or failure that drops what failed the check: the fetch whose outcomes FetchSucceedsExactly gives |
| FilePeer.FilePeer.Download | peer/impl/impl.go:392-414 | the loop over the metafile fetches all chunks in order or fails: the download that ProvidedFileComes says succeeds |
| PostKeys.StepKeepsInv | peer/impl/peer_utils.go:1181-1232 | every step keeps stored keys right, extends the key list only at its end, unblocks nobody and removes no name from the store, where the author's own events write nothing but its decoding keys |
| PostKeys.BlockedNeverFollow | peer/impl/message_callbacks.go:276-291 | in every run, who has been blocked follows at no later time |
| PostKeys.BlockedExactly | peer/impl/impl.go:914-929 | in every run the blocked peers are those blocked at some time |
| PostKeys.AcceptedFollows | peer/impl/message_callbacks.go:276-291 | in every run, a peer accepted while not blocked follows with the identifier it sent, until it is removed or blocked or accepted with another one |
| PostKeys.FollowsExactly | peer/impl/message_callbacks.go:276-291 | and nobody else does |
| PostKeys.KeysExactly | peer/impl/peer_utils.go:1216-1232 | in every run, when posts are encrypted, every removal and every block appends its new key, and nothing else does |
| PostKeys.KeyIDsStaySelect | peer/impl/peer_utils.go:1234-1262 | a key number once used selects the key of that post for ever, in the author's list and in the store |
| PostKeys.NewKeysGoToFollowers | peer/impl/peer_utils.go:1181-1214 | a key is stored only for identifiers under which someone followed since it was made |
| PostKeys.NoNewKeyForBlocked | peer/impl/impl.go:898-929 | with honest distinct identifiers no key made by a block or after it is ever written for the blocked peer |
| PostKeys.FollowersReadEverything | peer/impl/peer_utils.go:1181-1214 | in the author's key store, a peer accepted while not blocked, after publishing its key there, finds all the author's keys sealed to it, until it is removed or blocked or accepted with another identifier |
| PostAuthor.PostAuthor.SetupNodeKeys | peer/impl/peer_utils.go:1289-1302 | publishes the node's key and makes the first post key: the start of a run, if the store holds no decoding keys of this node yet |
| PostAuthor.PostAuthor.UpdateNodePostKeys | peer/impl/peer_utils.go:1181-1214 | the nested loops seal every key for every follower whose public key is there, and write nothing else |
| PostAuthor.PostAuthor.GenerateNewPostKey | peer/impl/peer_utils.go:1216-1232 | appends a key and shares it, if posts are encrypted |
| PostAuthor.PostAuthor.FollowRequestMessageCallback | peer/impl/message_callbacks.go:268-295 | whoever is accepted and not blocked is a follower with the identifier sent, and gets the keys; otherwise nothing changes; blocked peers get no answer |
| PostAuthor.PostAuthor.RemoveFollower | peer/impl/impl.go:898-912 | the follower goes and, when posts are encrypted, a new key comes and is shared with the others |
| PostAuthor.PostAuthor.StopFollowing | peer/impl/impl.go:888-896 | no longer follows the peer, followed before or not |
| PostAuthor.PostAuthor.Block | peer/impl/impl.go:914-929 | blocked, not followed, no follower, and a new key shared with the others |
| PostAuthor.PostAuthor.GetDecryptionKey | peer/impl/peer_utils.go:1241-1262 | the author's own key by number, or what the author sealed for this node |
| Posts.HolderIsShared | peer/impl/impl.go:506-513 | every member finds the same holder for a post, the first member at or after its identifier, if the identifier is hexadecimal text of enough bytes |
| Posts.PutThenGet | peer/impl/impl.go:471-683 | storing succeeds exactly for content under an identifier of enough bytes; every member then gets it, and gets for other identifiers what it got before |
| Posts.StoredAsWritten | peer/impl/impl.go:471-683 | what every member gets is the post as written, but that a public one its storer holds itself has key number 0 |
| Posts.CatalogsAfterPut | peer/impl/peer_utils.go:947-995 | storing adds the identifier to two catalogs, the storer's and the holder's, under the author if private and under 0 if public, and touches nothing else anywhere but the holder's posts |
| Posts.CopyAtHolder | peer/impl/peer_utils.go:1317-1351 | a copy of a request adds the post to the shelf and catalog of a holder other than its sender and changes nothing else |
| Posts.EveryoneGetsTheLast | peer/impl/peer_utils.go:1317-1351 | through any requests by any members, copies of them included, the ring behaves like one map that keeps what was delivered last |
| Posts.EveryoneGetsTheLatest | peer/impl/chord_utils.go:536-559 | under at-least-once delivery every member gets the version stored last if and only if the last delivery for the identifier was not a copy of another version |
| Posts.LateCopyReverts | peer/impl/chord_utils.go:536-559 | stored away from home, replaced, and delivered once more: everyone gets the old version |
| Posts.PutKeepsOrder | peer/impl/peer_utils.go:947-995 | posts lie only at their holders, catalogs list them and lose nothing |
| Posts.RunKeepsOrder | peer/impl/peer_utils.go:1317-1351 | so in every run, copies included |
| Posts.HandledOnce | peer/impl/peer_utils.go:1317-1351 | handling a post request twice is handling it once |
| Posts.ReplayChangesNothing | peer/impl/peer_utils.go:1317-1351 | handled again after any other requests, a post request changes something if and only if the last of them for that identifier named another version |
| PostPeer.PostPeer.HandlePostRequest | peer/impl/peer_utils.go:1317-1351 | keeps the post and lists it |
| PostPeer.PostPeer.FindHolder | peer/impl/impl.go:500-513 | the Chord lookup of the decoded identifier, or nothing when it has too few bytes or is no hexadecimal text |
| PostPeer.PostPeer.EncryptPost | peer/impl/impl.go:483-497 | the latest key and its number go with the content |
| PostPeer.PostPeer.StorePrivatePost | peer/impl/impl.go:471-558 | what all members keep afterwards, or nothing changed and why |
| PostPeer.PostPeer.StorePublicPost | peer/impl/impl.go:560-631 | likewise for a public post |
| PostPeer.PostPeer.PostRequestMessageCallback | peer/impl/message_callbacks.go:509-553 | the post on the shelf, if there |
| PostPeer.PostPeer.DecryptPostContent | peer/impl/peer_utils.go:1266-1286 | the content in clear, or an error; what has no key number, or no encryption here, as it is |
| PostPeer.PostPeer.GetPost | peer/impl/impl.go:633-683 | what the holder keeps, as this reader is shown it; a post in clear exactly as kept |
| PostReading.AuthorReadsOwn | peer/impl/peer_utils.go:1241-1286 | an author reads all its posts at any later time |
| PostReading.ShownExactly | peer/impl/peer_utils.go:1241-1286 | another's encrypted post is shown as written if and only if the reader's own store holds a key sealed to it under the post's number that decrypts it, posts that look like the mark aside |
| PostReading.ClearIsShown | peer/impl/peer_utils.go:1266-1286 | a post without a key number is shown unchanged to every reader, at home or not; without encryption every post is, and is sent so |
| PostReading.ClearReachesAll | peer/impl/impl.go:560-683 | a post in clear, stored by any member, is what every member is shown, through whatever is delivered under other identifiers |
| PostReading.FollowerReads | peer/impl/peer_utils.go:1241-1286 | assuming that author and follower share one key store, a peer accepted while not blocked reads every post of the author, also earlier ones, as written, until it is removed or blocked or accepted with another identifier |
| PostReading.SeparateStoresHide | peer/impl/peer_utils.go:1181-1286 | a follower with a key store of its own never sees more than the mark and the encrypted bytes |
| PostReading.BlockedReadsNothing | peer/impl/impl.go:914-929 | even sharing the key store, a peer blocked before a post was written never sees its content in clear |
| PostReading.SentIsWhatArrives | peer/impl/impl.go:471-683 | a private post reaches every member as it was sent off if and only if the last delivery under its identifier afterwards, if any, carries the same |

## Left out

- Sockets, transports, JSON, the registry's goroutines, HTTP, CLI and GUI: plumbing. A packet is a value, and delivery is a step that may happen never, once or often.
- Timeouts and retries of requests: a remote call answers, or fails when nobody is at the address. The retry loop at peer/impl/chord_utils.go:538-559 does not count attempts whose send failed, so the model assumes routes exist rather than claiming that it ends.
- Concurrent joins: joins follow one another, as do the callbacks of one peer.
- RSA, AES and SHA-256: sealing and opening are inverse for the right key, content encryption is a pair of functions with dec(k, enc(k, x)) = x, hashing is an injective function whose text has no newline. Key names in the store are values, not formatted strings.
- Handlers of embedded messages are assumed to succeed. The random choice of neighbours is not modelled: the destinations of a step are arbitrary.
- GossipPeer.SortBySequence: an insertion sort stands for the library's sort; the order among rumors of different origins with equal numbers is left open by its contract.
- Stale replies and requests of other searches: SearchBudget follows one request identifier; local name matching and the expanding ring of SearchFirst are not modelled.
- ByteKeys.DecodeChordIDFromStr: what the code does after slicing past the decoded bytes depends on the capacity of a buffer; the model names the case and stops there.
- Posts.HolderIsShared: takes an identifier of too few bytes as one that leads nowhere, for the same reason.
- Posts.PutThenGet: likewise, storing under such an identifier fails.
- Posts.EveryoneGetsTheLast: likewise, such a request leaves nothing.
- PostPeer.PostPeer.FindHolder: likewise, such an identifier has no holder.
- PostAuthor.PostAuthor.GetDecryptionKey: requires a valid key number on the node's own posts, because the code indexes its key list with it and panics otherwise.
- PostPeer.PostPeer.GetPost: requires the same of the node's own posts on the shelves, for the same reason.
- PostPeer.PostPeer.StorePrivatePost: requires a first post key when posts are encrypted, because the code uses the latest key without looking whether there is one.
- ChordPeer.Peer.Join: requires a peer with an unused identifier and a table nobody wrote to; joining twice, or with the identifier of a member, is not modelled.
- PostKeys.Start: runs start without decoding keys of the node in the store; a restart on an old persistent store, where the numbering starts over beside the old keys, is not modelled.
- ChordFaults.BridgedJoinSucceeds: sufficient only; JoinFailsExactly has the exact condition.
- Like and Comment with encryption: they encrypt with the caller's key under the author's name, so the result cannot be decrypted as the author's.
- Moving posts when a peer joins after posts exist: the application does not support it, so the ring is fixed in Posts.
- Flagging by friends, reputation, proof of storage, catalogs fetched from followed peers, ring drawing and stores as files: no further protocol property.
