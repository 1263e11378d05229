# Verified models of the networking core

Dafny models of the parts of the node where state is kept in several places at once, or several goroutines work
on it, together with proofs of what these parts are relied on for.

- **BlossomSub mesh router.** For a multi-bit bitmask the router keeps one *composite* mesh, split into `same` and
  `broker` peers, and derives from the composites a mesh per slice and a reverse index. `RouterSpec` states what
  each operation does to these tables and proves the invariant over all runs; the class in `Router` performs the
  operations and is proved to take exactly those steps. `Selection`, `CompositeHeartbeat` and `MeshHeartbeat` are
  the heartbeat's work on one mesh, `PeerChoice` is the choice of peers, `Bitmasks` the slicing of bitmasks, and
  `RpcSplit` the merging and splitting of outgoing RPCs. `Subscriptions` is the bookkeeping of subscriptions and relays
  that makes the router join and leave slices and composites.
- **Kademlia lookup.** `Lookup` is the run loop with its workers and bounded channel as a state machine,
  `LookupQuery` the query object whose methods perform the run loop's turns, `FollowUp` the follow-up queries, and
  `OptimisticProvide` the wait for ADD_PROVIDER RPCs with its shared counter, channel and leases.
- **Multiaddrs.** `Varint`, `Multiaddr` and `MultiaddrText` are the binary and text codecs, `MultiaddrOps` is
  encapsulation, `MultiaddrOrder` comparing and deduplicating, and `DnsResolve` the resolution of DNS components.
- **Score, gossip and event bookkeeping.** `EventLog`, `Deliveries`, `GossipPromises`, `PeerIps` and `IHaveGate`.
- **Message cache.** `MessageCache`, with its recycled slot buffers.

`Basics` and `Peers` hold what the parts share.

Objects whose methods update fields are classes; concurrent protocols are state machines whose steps interleave
freely, with theorems about every state of every run. `dafny verify dfyconfig.toml` checks the whole project.

What the models take from outside are parameters: scores, subscriptions, the clock, connection directions and the
application's filters (`Env`), DNS answers, the size of an RPC, the distance to a lookup's target, and the value
transcoders of a multiaddr protocol. Scores are fixed during one operation. Shuffles and map iteration are
arbitrary permutations and choices. Peer ids, message ids and payloads are opaque values.

Parameters satisfy 0 < Dlo <= D <= Dhi, Dout <= D and DsameLo <= Dsame; alpha is at least 1, the return threshold of
an optimistic provide at least 1, and the history of the message cache at least 1. Opportunistic grafting is tried
every so many ticks, at least 1, for at least 1 peer.

The code and its own comments disagree in these places, and the models follow the code:

- `getPeers` is described as an intersection over all slices, but skips leading slices on which nobody is eligible
  (`PeerChoice.CandidatesAreIntersectionIff` is the exact condition).
- The mesh selection is described as keeping the best-scoring peers, which it does exactly if Dscore + Dout <= D
  (`Selection.TopScoresKeptIff`, `Selection.TopScoresNeedRoom`).
- RPC merging does not carry IDONTWANTs and can reorder IWANT ids (`RpcSplit.DontWantsSurviveIff`,
  `RpcSplit.DontWantsLost`, `RpcSplit.IdsInOrderIff`, `RpcSplit.OutOfOrder`). The node's only call merges into nothing,
  and then the ids keep their order.
- A composite is described as joined when all its slices have been subscribed to. Subscribing never joins one, because
  the new subscription is not recorded yet when the composites are tried; a relay does (`Subscriptions.JoinedIff`,
  `Subscriptions.SubscribingJoinsNothing`, `Subscriptions.SubscribedNotJoined`).
- Waiting for RPCs that were never issued does not end (`OptimisticProvide.StuckWithoutRpcs`).
- The message cache's window assumes that a held message is not put again: the second put does not prolong it, but
  advertises it anew (`MessageCache.PutAgain`, `MessageCache.PutAgainLastsIff`; `MessageCache.HeldIff` for any puts).
- A peer is said not to be counted twice for a message it was the first to deliver, but a copy it sends after the
  delivery is rewarded as a duplicate (`Deliveries.DelivererRewardedIff` is the exact condition).
- A record says that its message is known to be valid, or known to be invalid. A copy that is unsigned or claims to be
  our own is penalised all the same for a message that others are rewarded for, and nothing else is
  (`Deliveries.PenalisedBesidesIff`, `Deliveries.RewardedAndPenalised`).
- A protocol's VCode is described as the varint of its code, and registering it checks only that it is not empty.
  What is built for the protocol can be read back exactly if the description is true and the code a varint code
  (`Multiaddr.NewProtocolReadsBackIff`, `Multiaddr.MiscodedIsAccepted`).

## Model

| member | source | states |
|---|---|---|
| `Bitmasks.SliceBitmask` | go-libp2p-blossomsub/pubsub.go:1696-1725 | the nested loops with their one-bit fast path compute exactly the slices of any mask of any length |
| `Bitmasks.OneBitByte` | go-libp2p-blossomsub/pubsub.go:1706-1712 | the fast path for a byte holding one bit agrees with scanning its eight bits |
| `Bitmasks.SlicesAreTheSetBits` | go-libp2p-blossomsub/pubsub.go:1696-1725 | the slices of a non-zero mask are the one-bit masks of its set bits, in most-significant-first order, as many as its popcount |
| `Bitmasks.SlicesDistinct` | go-libp2p-blossomsub/pubsub.go:1696-1725 | slices are pairwise distinct |
| `Bitmasks.SlicesOrToMask` | go-libp2p-blossomsub/pubsub.go:1696-1725 | slices have the mask's length and OR back to it |
| `Bitmasks.SliceOfSlice` | go-libp2p-blossomsub/pubsub.go:1696-1725 | slicing a slice gives just itself |
| `Peers.Shuffle` | go-libp2p-blossomsub/blossomsub.go:2907-2919 | a shuffle permutes the tail of a list and leaves the rest alone |
| `Selection.Rotate` | go-libp2p-blossomsub/blossomsub.go:2052-2059 | rotate puts the ith entry first, shifts the ones before it, and permutes the list |
| `Selection.EnforceOutbound` | go-libp2p-blossomsub/blossomsub.go:2041-2083 | counting, bubbling up inside and bubbling up from outside the selection leave in front exactly the list Kept, and permute |
| `Selection.KeptMeetsQuota` | go-libp2p-blossomsub/blossomsub.go:2049-2083 | the kept front has at least min(Dout, available) outbound peers, for every order of the list |
| `Selection.KeptKeepsTop` | go-libp2p-blossomsub/blossomsub.go:2027-2083 | a peer among the first Dscore stays in the front when Dscore + Dout fit into D |
| `Selection.SelectKept` | go-libp2p-blossomsub/blossomsub.go:2027-2089 | over Dhi: shuffle, sort, shuffle the tail, enforce the quota; exactly D peers stay, the rest are pruned, the outbound quota holds, and the Dscore best stay if Dscore + Dout <= D |
| `Selection.TopScoresKeptIff` | go-libp2p-blossomsub/blossomsub.go:2027-2089 | for all valid parameters: every oversized mesh without negative scores, in whatever order of the tail, keeps some choice of its Dscore best peers if and only if Dscore + Dout <= D |
| `Selection.TopScoresNeedRoom` | go-libp2p-blossomsub/blossomsub.go:2027-2089 | for all other valid parameters, a mesh over Dhi without negative scores, listed by falling score, of which the quota prunes a peer that every choice of the Dscore best holds |
| `PeerChoice.GetPeers` | go-libp2p-blossomsub/blossomsub.go:2839-2881 | returns up to `count` distinct candidates of the narrowing loop over the slices, all of them if there are fewer |
| `PeerChoice.CandidatesSubscribe` | go-libp2p-blossomsub/blossomsub.go:2844-2872 | every candidate passes the filter, speaks the protocol and announced at least one slice |
| `PeerChoice.CandidatesAreIntersectionIff` | go-libp2p-blossomsub/blossomsub.go:2844-2872 | for all inputs: the candidates are the peers eligible on all slices, exactly unless every slice is announced, leading slices without eligible peers are skipped and some peer is eligible on all later ones |
| `PeerChoice.LeadingSliceSkipped` | go-libp2p-blossomsub/blossomsub.go:2856-2857 | a mask and subscriptions for which a peer of only the second slice is a candidate |
| `PeerChoice.WithBackoff` | go-libp2p-blossomsub/blossomsub.go:1195-1205 | the expiry of this entry becomes the later of the recorded and the new one, and no other entry changes |
| `PeerChoice.ExtendedTwice` | go-libp2p-blossomsub/blossomsub.go:1187-1205 | extensions to the same expiry add up: their order and repetition do not matter |
| `RouterSpec.RunKeepsInv` | go-libp2p-blossomsub/blossomsub.go:1464-1697 | in every state of every run: each managed mesh is the union of same and broker over the composites containing its slice, same and broker are disjoint, the reverse index is exact, non-empty and duplicate-free, and no direct peer is in any mesh, fanout or composite |
| `RouterSpec.StepKeepsInv` | go-libp2p-blossomsub/blossomsub.go:1379-1697 | each of the nine kinds of step keeps that invariant |
| `RouterSpec.JoinCompositeKeepsInv` | go-libp2p-blossomsub/blossomsub.go:1504-1638 | joining a composite keeps the invariant |
| `RouterSpec.LeaveCompositeKeepsInv` | go-libp2p-blossomsub/blossomsub.go:1642-1697 | leaving a composite keeps the invariant although it drops meshes of sibling slices |
| `RouterSpec.GraftKeepsInv` | go-libp2p-blossomsub/blossomsub.go:1053-1084 | an accepted GRAFT on a managed slice, which may promote, add or refuse in several composites, keeps the invariant |
| `RouterSpec.PruneKeepsInv` | go-libp2p-blossomsub/blossomsub.go:1127-1139 | a PRUNE on a managed slice keeps the invariant without a rebuild, because demotion leaves the members alone |
| `RouterSpec.RemovePeerKeepsInv` | go-libp2p-blossomsub/blossomsub.go:709-745 | removing a peer everywhere keeps the invariant |
| `RouterSpec.HeartbeatKeepsInv` | go-libp2p-blossomsub/blossomsub.go:2223-2542 | a heartbeat that rebuilds only if a composite changed keeps the invariant |
| `RouterSpec.IndexedIsExact` | go-libp2p-blossomsub/blossomsub.go:1593-1598 | registering a composite under each of its slices keeps the reverse index exact |
| `RouterSpec.UnindexedIsExact` | go-libp2p-blossomsub/blossomsub.go:1672-1687 | unregistering removes exactly this composite and no empty lists stay |
| `RouterSpec.JoinLeaveRestores` | go-libp2p-blossomsub/blossomsub.go:1593-1697 | joining a new composite and leaving it again restores composites and index |
| `RouterSpec.JoinLeaveRestoresMeshIff` | go-libp2p-blossomsub/blossomsub.go:1690-1697 | the meshes are restored too exactly when no unmanaged slice of the composite had a mesh |
| `Router.BlossomSubRouter.constructor` | go-libp2p-blossomsub/blossomsub.go:271-294 | a new router has empty tables |
| `Router.BlossomSubRouter.AddBackoff` | go-libp2p-blossomsub/blossomsub.go:1187-1205 | the expiry of exactly the given peers' entries becomes the later of the recorded and the new one |
| `Router.BlossomSubRouter.RebuildSliceMeshes` | go-libp2p-blossomsub/blossomsub.go:1464-1487 | clearing and refilling gives exactly the unions over the composites and leaves other meshes alone |
| `Router.BlossomSubRouter.Join` | go-libp2p-blossomsub/blossomsub.go:1379-1435 | a joined mask gets the fanout peers that still qualify, topped up to D from the candidates: no direct peers, negative scores or peers with a backoff; its fanout goes |
| `Router.BlossomSubRouter.PickForJoin` | go-libp2p-blossomsub/blossomsub.go:1388-1427 | keeps every fanout peer that still qualifies and adds candidates only, as many as D asks for and there are |
| `Router.BlossomSubRouter.Leave` | go-libp2p-blossomsub/blossomsub.go:1437-1457 | the mesh goes and the backoffs of exactly its peers are extended; masks managed by a composite are excluded, which is proved of both callers |
| `Router.BlossomSubRouter.PickComposite` | go-libp2p-blossomsub/blossomsub.go:1515-1579 | as many candidates for the whole mask as D allows; other announcers only when all of those are taken, up to D in all or until nobody is left |
| `Router.BlossomSubRouter.JoinComposite` | go-libp2p-blossomsub/blossomsub.go:1504-1638 | performs the join step with members picked as stated, and keeps the invariant; the backoffs of exactly the peers dropped from the old slice meshes are extended |
| `Router.BlossomSubRouter.LeaveComposite` | go-libp2p-blossomsub/blossomsub.go:1642-1697 | performs the leave step; the backoffs of exactly the members are extended, on exactly the slices they announced |
| `Router.BlossomSubRouter.HandleOneGraft` | go-libp2p-blossomsub/blossomsub.go:987-1098 | the tables become exactly what the GRAFT rules say for the recorded backoff; it is refused exactly if it passes the filter, names a mesh, is not from a member, and the sender is not a member of the mesh, or of each composite managing it, afterwards; an admissible one once for every composite that does not let the sender in; the backoff table changes exactly by extending a refused sender that is not direct |
| `Router.BlossomSubRouter.HandleGraft` | go-libp2p-blossomsub/blossomsub.go:980-1110 | a message's GRAFTs take effect one after the other on the tables, the backoffs and the list of PRUNEs, which names a mask once for every refusal |
| `Router.GraftsDoneLaws` | go-libp2p-blossomsub/blossomsub.go:980-1110 | however many GRAFTs: the invariant holds, no backoff gets shorter, a direct peer changes nothing, and a refused sender backs off on each refused mask for a whole prune backoff |
| `Router.BlossomSubRouter.HandleOnePrune` | go-libp2p-blossomsub/blossomsub.go:1115-1152 | the tables become exactly what the PRUNE rules say, and the sender's backoff, alone, is extended by what it asks for or else by the prune backoff |
| `Router.BlossomSubRouter.HandlePrune` | go-libp2p-blossomsub/blossomsub.go:1112-1165 | a message's PRUNEs take effect one after the other on the tables and the backoffs |
| `Router.PrunesDoneLaws` | go-libp2p-blossomsub/blossomsub.go:1112-1165 | however many PRUNEs: the invariant holds, no backoff gets shorter, and on every mask with a mesh the sender backs off as long as each of them asks |
| `Router.BlossomSubRouter.RemovePeer` | go-libp2p-blossomsub/blossomsub.go:709-745 | the peer is gone from every composite, mesh and fanout and nothing else changed, though the rebuild happens in between |
| `Router.BlossomSubRouter.PublishPeers` | go-libp2p-blossomsub/blossomsub.go:1331-1348 | a publish goes to the mesh or the fanout; an empty fanout is refilled with candidates above the threshold, exactly min(D, candidates) of them |
| `Router.BlossomSubRouter.HeartbeatComposites` | go-libp2p-blossomsub/blossomsub.go:2223-2542 | every composite is maintained once, one after the other, with the effect stated for each step, starting from the backoffs the last one left; managed meshes are rebuilt exactly if one changed; others are untouched |
| `Router.CompositeRunsOnce` | go-libp2p-blossomsub/blossomsub.go:2223-2542 | there are as many such runs as composites |
| `Router.CompositeRunsBackOff` | go-libp2p-blossomsub/blossomsub.go:2223-2542 | afterwards everyone pruned from any composite backs off on every slice it announced, for a whole prune backoff |
| `Router.BlossomSubRouter.HeartbeatMeshes` | go-libp2p-blossomsub/blossomsub.go:1976-2163 | every unmanaged mesh is maintained once, with the effect stated for each step, starting from the backoffs the last one left; managed ones are untouched |
| `Router.MeshRunsOnce` | go-libp2p-blossomsub/blossomsub.go:1976-2163 | there are as many such runs as unmanaged meshes |
| `Router.MeshRunsBackOff` | go-libp2p-blossomsub/blossomsub.go:1976-2163 | afterwards everyone pruned from any of these meshes backs off on its mask for a whole prune backoff |
| `Router.BlossomSubRouter.HeartbeatFanout` | go-libp2p-blossomsub/blossomsub.go:2165-2199 | exactly the fanouts published to within the time-to-live stay, each with the peers that last, topped up to D from the candidates |
| `Router.BlossomSubRouter.RefreshFanout` | go-libp2p-blossomsub/blossomsub.go:2174-2193 | peers that left or score too low go, and candidates come in, exactly as many as D asks for and there are |
| `Router.BlossomSubRouter.ClearBackoff` | go-libp2p-blossomsub/blossomsub.go:2570-2589 | on every 15th tick the two loops drop exactly the entries cleared, on any other nothing |
| `Router.ClearedIff` | go-libp2p-blossomsub/blossomsub.go:2570-2589 | an entry stays, unchanged, if and only if it has not been expired for more than two heartbeat intervals; a mask stays if and only if it has such an entry |
| `Router.BlossomSubRouter.Heartbeat` | go-libp2p-blossomsub/blossomsub.go:1937-2199 | a whole heartbeat counts a tick, clears the backoffs if it is a 15th, and then maintains every composite once and every other mesh once as stated, opportunistically exactly if the tick says so; no mesh peer has a negative score; no backoff that stays gets shorter, and none that is running or expired for at most two intervals goes; exactly the fanouts published to in time stay, refreshed |
| `Subscriptions.PubSub.RegisterMask` | go-libp2p-blossomsub/pubsub.go:1475-1497 | a multi-bit mask is listed under each of its slices, once more each time |
| `Subscriptions.PubSub.HandleAddSubscription` | go-libp2p-blossomsub/pubsub.go:924-946 | the first subscription of a slice joins it and tries its masks before it is recorded |
| `Subscriptions.PubSub.HandleRemoveSubscription` | go-libp2p-blossomsub/pubsub.go:896-918 | with the last one, all composites of the slice are left, masks without active slices are struck off, and the slice itself is left, which the router allows then |
| `Subscriptions.PubSub.HandleAddRelay` | go-libp2p-blossomsub/pubsub.go:952-981 | the first relay of a slice is recorded, joins it and tries its masks |
| `Subscriptions.PubSub.HandleRemoveRelay` | go-libp2p-blossomsub/pubsub.go:988-1006 | the same end as for the last subscription |
| `Subscriptions.PubSub.TryJoinComposite` | go-libp2p-blossomsub/pubsub.go:1012-1035 | the nested loops make the router join exactly the listed masks all of whose slices are active |
| `Subscriptions.PubSub.TryLeaveComposite` | go-libp2p-blossomsub/pubsub.go:1042-1095 | the loops leave every mask listed and strike it off all its lists if no other slice is active |
| `Subscriptions.NoneLeft` | go-libp2p-blossomsub/pubsub.go:1042-1080 | after the last subscription or relay of a slice went, no composite has that slice: the guarantee that leaving a slice relies on |
| `Subscriptions.LeavingCopies` | go-libp2p-blossomsub/pubsub.go:1042-1095 | although it may be listed several times, a mask is struck off all its lists when its last active slice goes, and only then |
| `Subscriptions.RunIsFine` | go-libp2p-blossomsub/pubsub.go:896-1095 | in every run: every mask is listed equally often under each of its slices and nowhere else, and every composite is listed and has all its slices active |
| `Subscriptions.JoinedIff` | go-libp2p-blossomsub/pubsub.go:896-1095 | in every run: a composite is there if and only if a slice's first relay completed it while it was listed, and none of its slices was left since |
| `Subscriptions.SubscribingJoinsNothing` | go-libp2p-blossomsub/pubsub.go:924-946 | in every such state: a subscription never makes the router join a composite |
| `Subscriptions.SubscribedNotJoined` | go-libp2p-blossomsub/pubsub.go:1477-1479 | every multi-bit mask, registered and with all its slices subscribed to, is not joined |
| `Subscriptions.RelayedIsJoined` | go-libp2p-blossomsub/pubsub.go:952-963 | with relays in their place it is |
| `CompositeHeartbeat.DropNegative` | go-libp2p-blossomsub/blossomsub.go:2272-2284 | exactly the members with negative score are pruned |
| `CompositeHeartbeat.Reclassify` | go-libp2p-blossomsub/blossomsub.go:2286-2315 | afterwards same are the members subscribed to all slices and broker those subscribed to some but not all; the others are gone |
| `CompositeHeartbeat.GraftMore` | go-libp2p-blossomsub/blossomsub.go:2317-2389 | below Dlo the total becomes min(D, total + pool), and brokers are taken only after all candidates for the whole mask |
| `CompositeHeartbeat.PruneExcess` | go-libp2p-blossomsub/blossomsub.go:2391-2426 | above Dhi exactly max(D, outbound) members stay: all outbound ones, no same peer pruned while a broker that is not outbound stays, lowest scores first |
| `CompositeHeartbeat.WorstBroker` | go-libp2p-blossomsub/blossomsub.go:2461-2474 | the broker chosen to be displaced is not outbound and has the lowest score among those |
| `CompositeHeartbeat.SeekSame` | go-libp2p-blossomsub/blossomsub.go:2428-2476 | as many candidates as Dsame asks for are tried; exactly those with all slices become same peers; no same or outbound member is lost and everyone else who goes is pruned; the composite ends larger than both D and what it was only if no broker can be displaced |
| `CompositeHeartbeat.KeepOutbound` | go-libp2p-blossomsub/blossomsub.go:2478-2524 | outbound candidates are grafted, as many as are missing and there are, and nobody else |
| `CompositeHeartbeat.SuppliedMeetsQuota` | go-libp2p-blossomsub/blossomsub.go:2478-2524 | with at least Dlo members before, exactly min(Dout, had + available) are outbound afterwards, or as many as had been if that was more |
| `CompositeHeartbeat.Settle` | go-libp2p-blossomsub/blossomsub.go:2272-2315 | steps 1 and 2 keep exactly the members with a score that is not negative and a slice, classified anew |
| `CompositeHeartbeat.Balance` | go-libp2p-blossomsub/blossomsub.go:2317-2524 | steps 3 to 6 happen in this order, each with the effect stated for it |
| `CompositeHeartbeat.Maintain` | go-libp2p-blossomsub/blossomsub.go:2235-2537 | all six steps in order: exactly classified, no negative scores, no direct peers, nobody pruned in it is back, the backoffs of exactly the pruned peers are extended on the slices they announced, and an unset flag means nothing changed |
| `CompositeHeartbeat.CutTotal` | go-libp2p-blossomsub/blossomsub.go:2391-2426 | pruning down to D while every outbound peer stays leaves max(D, outbound) members |
| `CompositeHeartbeat.PruneOneBars` | go-libp2p-blossomsub/blossomsub.go:2261-2270 | a peer pruned in a heartbeat cannot be grafted back in it: it backs off on a slice it announced |
| `MeshHeartbeat.DropNegativePeers` | go-libp2p-blossomsub/blossomsub.go:2000-2007 | exactly the members with negative score are pruned, and exactly their backoffs are extended |
| `MeshHeartbeat.CutMesh` | go-libp2p-blossomsub/blossomsub.go:2024-2089 | a mesh above Dhi keeps exactly D peers, the outbound quota and the best scores; the rest are pruned, and exactly their backoffs are extended |
| `MeshHeartbeat.GrowMesh` | go-libp2p-blossomsub/blossomsub.go:2009-2024 | below Dlo, candidates get grafted, exactly as many as D asks for and there are |
| `MeshHeartbeat.Improve` | go-libp2p-blossomsub/blossomsub.go:2122-2150 | if the median is below the threshold, candidates scoring above it get grafted, exactly as many as asked for and available |
| `MeshHeartbeat.KeepOutboundPeers` | go-libp2p-blossomsub/blossomsub.go:2091-2120 | outbound candidates get grafted, exactly as many as are missing and available |
| `MeshHeartbeat.SuppliedToMeetsQuota` | go-libp2p-blossomsub/blossomsub.go:2091-2120 | with at least Dlo members before, exactly min(Dout, had + available) are outbound afterwards, or as many as had been if that was more |
| `MeshHeartbeat.MedianScore` | go-libp2p-blossomsub/blossomsub.go:2128-2134 | the score of a member with more than half of the mesh at or below it and at least half at or above it |
| `MeshHeartbeat.MaintainMesh` | go-libp2p-blossomsub/blossomsub.go:1976-2151 | all five steps in order, each with the effect stated for it: no direct peer, negative score or freshly pruned peer is in the mesh, exactly the pruned peers' backoffs are extended, and the size is bounded |
| `RpcSplit.AppendOrMerge` | go-libp2p-blossomsub/blossomsub.go:1785-1909 | the loops compute the merge defined as a run of single appends, each into the last RPC if it fits, else into a new one |
| `RpcSplit.MergedCarries` | go-libp2p-blossomsub/blossomsub.go:1785-1909 | all publishes, subscriptions, grafts, prunes, IWANT ids and (bitmask, id) IHAVE pairs are conserved in order, for every size function and limit |
| `RpcSplit.IdsInOrderIff` | go-libp2p-blossomsub/blossomsub.go:1868-1876 | for every size function: IWANT ids keep their order in every merge under every limit exactly when the RPC merged into has no ids beyond its first IWANT entry |
| `RpcSplit.OutOfOrder` | go-libp2p-blossomsub/blossomsub.go:1868-1876 | otherwise, for every size function, some merge under some limit puts an id before one already there |
| `RpcSplit.WantedIdsKept` | go-libp2p-blossomsub/blossomsub.go:1853-1877 | even then every IWANT id occurs as often as it was put in |
| `RpcSplit.MergedFits` | go-libp2p-blossomsub/blossomsub.go:1785-1909 | every RPC of the result fits the limit, or holds at most one item, or was given and is unchanged |
| `RpcSplit.DontWantsSurviveIff` | go-libp2p-blossomsub/blossomsub.go:1790-1793 | IDONTWANTs survive exactly on the fast path or when there are none |
| `RpcSplit.DontWantsLost` | go-libp2p-blossomsub/blossomsub.go:1743-1760 | an RPC that is split because it is not below the limit loses every IDONTWANT it carries, for every limit and size function |
| `Lookup.RunIsSafe` | go-libp2p-kad-dht/query.go:274-375 | in every state of every run: no panic, the waiting peers are exactly those with a running query or an undelivered report, at most alpha, and no peer is queried twice |
| `Lookup.BudgetPositive` | go-libp2p-kad-dht/query.go:297-303 | whenever an update is taken it is accepted and the budget for new queries is at least 1, never the 0 that would query everyone |
| `Lookup.ReportTaken` | go-libp2p-kad-dht/query.go:477-526 | the report of a waiting peer never panics and moves exactly that peer |
| `Lookup.NeverStuckWaiting` | go-libp2p-kad-dht/query.go:287-296 | whenever the run loop waits, there is an update to take or a query running |
| `Lookup.SendsNeverBlock` | go-libp2p-kad-dht/query.go:417-475 | a worker can always put its report on the channel, also after termination |
| `Lookup.NoDeadlock` | go-libp2p-kad-dht/query.go:274-318 | until it has finished, a report can be sent or an update taken, whatever the stop function says |
| `Lookup.RunsAreShort` | go-libp2p-kad-dht/query.go:274-318 | over a finite set of peers at most one update per peer and the seed update are processed, and every run ends within 2n + 2 steps |
| `Lookup.StepKeepsInv` | go-libp2p-kad-dht/query.go:274-347 | every interleaved step keeps the books balanced |
| `LookupQuery.Query.UpdateState` | go-libp2p-kad-dht/query.go:477-526 | the three loops compute the update, or report the panic the source raises |
| `LookupQuery.Query.GetClosest` | go-libp2p-kad-dht/qpeerset/qpeerset.go:127-145 | the n closest peers in the given states, nearest first |
| `LookupQuery.Query.IsLookupTermination` | go-libp2p-kad-dht/query.go:377-387 | true exactly if the beta closest peers not known to be unreachable have all answered |
| `LookupQuery.Query.PickHeard` | go-libp2p-kad-dht/query.go:361-372 | the closest heard peers, `budget` of them, or all if the budget is not positive |
| `LookupQuery.Query.IsReadyToTerminate` | go-libp2p-kad-dht/query.go:350-375 | ready exactly on stop, starvation or completion; else the peers to query next |
| `LookupQuery.Query.Take` | go-libp2p-kad-dht/query.go:285-318 | one turn of the run loop is a delivery step of the state machine |
| `LookupQuery.Query.ConstructResult` | go-libp2p-kad-dht/query.go:221-263 | the K closest reachable peers next to their own states, the K closest of all, and whether the lookup came to its own end |
| `FollowUp.Collect` | go-libp2p-kad-dht/query.go:97-102 | collects the peers of the result still heard or waiting |
| `FollowUp.ToQueryAre` | go-libp2p-kad-dht/query.go:97-102 | a peer is followed up exactly if its state says it was not queried |
| `FollowUp.ReturnIsClean` | go-libp2p-kad-dht/query.go:114-153 | on return no follow-up call is running; if completed, every peer of the result was queried or its follow-up has finished |
| `FollowUp.CompletedOnlyIfLookupWas` | go-libp2p-kad-dht/query.go:106-141 | the result is never completed if the lookup was not |
| `FollowUp.NoDeadlock` | go-libp2p-kad-dht/query.go:114-153 | until the caller is back it can go on or a call is running that can send its completion |
| `FollowUp.RunsAreShort` | go-libp2p-kad-dht/query.go:114-153 | the caller takes at most one step per call and two more |
| `OptimisticProvide.RunKeepsInv` | go-libp2p-kad-dht/lookup_optim.go:238-313 | in every interleaving the receives done and still to come add up to the RPCs issued |
| `OptimisticProvide.ClosedOnceAtTheEnd` | go-libp2p-kad-dht/lookup_optim.go:294-313 | the channel is closed at most once, and only when every completion has been received and counted |
| `OptimisticProvide.ClosedIsNotUsed` | go-libp2p-kad-dht/lookup_optim.go:238-313 | nobody can send on, receive from or close a closed channel |
| `OptimisticProvide.ReceivesAreBounded` | go-libp2p-kad-dht/lookup_optim.go:259-300 | never more completions are received than RPCs issued, the pool is never overfull, and the caller returns only after its threshold |
| `OptimisticProvide.QuietMeansDone` | go-libp2p-kad-dht/lookup_optim.go:259-313 | a run comes to rest only with all completions received, all leases released, the caller back, and the channel closed exactly if consumers or the second loop were needed |
| `OptimisticProvide.StepsAreBounded` | go-libp2p-kad-dht/lookup_optim.go:259-313 | however other provides interleave, this one takes at most 7n + 1 steps |
| `OptimisticProvide.StuckWithoutRpcs` | go-libp2p-kad-dht/lookup_optim.go:259-273 | with no RPC issued, and only then, the caller waits for ever |
| `Varint.DecodedIsEncoding` | go-multiaddr/varint.go:18-28 | what is read is the shortest encoding of the number read |
| `Varint.CodeRoundTrip` | go-multiaddr/varint.go:11-28 | whatever follows, codes of at most 31 bits read back from their encoding and larger ones are refused |
| `Varint.CodeToVarint` | go-multiaddr/varint.go:11-16 | encodes exactly the codes of at most 31 bits, so that they read back |
| `Multiaddr.NewProtocolReadsBackIff` | go-multiaddr/protocol.go:56-80 | registering checks neither that a code is a varint code nor that VCode is its encoding: every readable component of an accepted protocol is read back from its bytes, whatever follows, if and only if the code is positive, fits 31 bits and VCode encodes it |
| `Multiaddr.MiscodedIsAccepted` | go-multiaddr/protocol.go:56-80 | a protocol that is accepted and whose only component is valid and cannot be read |
| `Multiaddr.OthersReadAsBefore` | go-multiaddr/protocol.go:56-80 | whatever protocol is accepted, the components of the others are read as before |
| `Multiaddr.RegistryStaysValidIff` | go-multiaddr/protocol.go:56-80 | with an accepted protocol the registry stays one that all round trips are proved for if and only if the same condition holds |
| `Multiaddr.ValidatedLayout` | go-multiaddr/component.go:286-342 | a valid component is its code, its length if it has one, and its value, which is acceptable |
| `Multiaddr.ComponentRoundTrip` | go-multiaddr/codec.go:70-131 | a validated component is read back from its bytes, whatever follows, exactly if a value that is called for is there |
| `Multiaddr.DecodeThenEncode` | go-multiaddr/codec.go:133-157 | a decoded address re-encodes to the bytes it was read from |
| `Multiaddr.EncodeThenDecodeIff` | go-multiaddr/codec.go:133-157 | an address of valid components decodes back exactly if it is not empty, every value is there, and only the last component is a path |
| `Multiaddr.ReadMultiaddr` | go-multiaddr/codec.go:133-157 | the reading loop computes the decoding, with its errors |
| `Multiaddr.Write` | go-multiaddr/multiaddr.go:88-100 | the bytes of the components one after the other |
| `Multiaddr.NewComponent` | go-multiaddr/component.go:246-281 | for any protocol, registered or not: filling the buffer at growing offsets gives a component holding the value, valid for the registered protocol of that code or else the given one, if and only if the two agree on code and length prefix and the value is acceptable |
| `MultiaddrText.StringToBytes` | go-multiaddr/codec.go:11-68 | the parsing loop computes the parse, with its errors, for every registry that protocols can be added to |
| `MultiaddrText.AddingKeepsNames` | go-multiaddr/protocol.go:56-80 | whatever protocol is accepted, names keep leading to protocols, and those with values have transcoders |
| `MultiaddrText.Print` | go-multiaddr/multiaddr.go:103-110 | prints the components one after the other |
| `MultiaddrText.PiecesFacts` | go-multiaddr/component.go:209-226 | a printable component prints as its pieces, each after one slash, all free of slashes and the last not empty, although a path brings its own slash |
| `MultiaddrText.SplitJoin` | go-multiaddr/codec.go:16-46 | splitting undoes joining of pieces without slashes |
| `MultiaddrText.TextRoundTrip` | go-multiaddr/codec.go:11-68 | printing an address of valid, printable components and parsing the text gives it back |
| `MultiaddrText.DecodedSurvivesText` | go-multiaddr/multiaddr.go:29-64 | with transcoders that read back what they print, every decodable address survives printing and parsing |
| `MultiaddrOps.Equal` | go-multiaddr/multiaddr.go:66-76 | equal exactly if all components have the same bytes |
| `MultiaddrOps.BytesDetermine` | go-multiaddr/component.go:112-117 | valid components with equal bytes are the same component |
| `MultiaddrOps.Encapsulate` | go-multiaddr/util.go:15-36 | both addresses one after the other |
| `MultiaddrOps.Decapsulate` | go-multiaddr/multiaddr.go:199-234 | what is before the last occurrence, or everything |
| `MultiaddrOps.DecapsulateEncapsulate` | go-multiaddr/multiaddr.go:194-234 | decapsulating what was encapsulated gives the address back, for all addresses |
| `MultiaddrOps.SplitAt` | go-multiaddr/util.go:86-110 | splits before the first accepted component |
| `MultiaddrOrder.Compare` | go-multiaddr/multiaddr.go:78-85 | the comparing loop computes the lexicographic order of the components, a prefix first |
| `MultiaddrOrder.CompareIsOrder` | go-multiaddr/multiaddr.go:78-85 | comparing is antisymmetric, transitive and total |
| `MultiaddrOrder.CompareAgreesWithEqual` | go-multiaddr/multiaddr.go:66-85 | it calls exactly those multiaddrs equal that Equal does |
| `MultiaddrOrder.Unique` | go-multiaddr/multiaddr.go:273-292 | in place: the front becomes strictly ascending, holds only given addresses and one equal to each of them, and the rest is cleared |
| `DnsResolve.Resolve` | go-multiaddr-dns/resolve.go:113-278 | no address resolves to none and one without DNS component, be it empty, to itself; else exactly the answers for the first one |
| `DnsResolve.TakeTxt` | go-multiaddr-dns/resolve.go:202-245 | a TXT record contributes exactly if it parses and ends with, and is longer than, what follows the dnsaddr |
| `DnsResolve.DnsaddrResults` | go-multiaddr-dns/resolve.go:181-278 | every dnsaddr result is the part before it followed by one whole TXT address ending with the part after it, at most 100 of them |
| `DnsResolve.GetResolver` | go-multiaddr-dns/resolve.go:84-109 | the custom resolver of the most specific parent domain that has one, else the default |
| `EventLog.EventHandler.constructor` | go-libp2p-blossomsub/bitmask.go:91-136 | a new handler has every current peer logged as joined |
| `EventLog.EventHandler.AddToEventLog` | go-libp2p-blossomsub/bitmask.go:467-479 | a new event is logged and signalled, the opposite of a logged one cancels it |
| `EventLog.EventHandler.TryNext` | go-libp2p-blossomsub/bitmask.go:495-510 | pulls a logged event and leaves a signal if there are more |
| `EventLog.ReplayIsTrue` | go-libp2p-blossomsub/bitmask.go:91-519 | in every run, replaying the emitted events and then the log gives exactly the bitmask's peers |
| `EventLog.EmittedAlternate` | go-libp2p-blossomsub/bitmask.go:460-519 | the events emitted for a peer alternate, starting with a join |
| `EventLog.NobodyIsForgotten` | go-libp2p-blossomsub/bitmask.go:495-519 | whenever events are pending and a consumer is blocked, a signal is there or another consumer will leave one |
| `Deliveries.RunKeepsInv` | go-libp2p-blossomsub/score.go:713-896 | in every run the queued ids are distinct and are the records' keys, the queue is in order of expiry, and peers are tracked while the status is unknown or valid |
| `Deliveries.NeverPanics` | go-libp2p-blossomsub/score.go:813-846 | no run writes to a released peer map |
| `Deliveries.CollectedExactly` | go-libp2p-blossomsub/score.go:882-896 | garbage collection removes exactly the expired records |
| `Deliveries.DecidedForGood` | go-libp2p-blossomsub/score.go:713-811 | a record's status leaves unknown at most once |
| `Deliveries.MessageDeliveries.GetRecord` | go-libp2p-blossomsub/score.go:859-880 | finds or creates the record and links its entry at the end of the queue |
| `Deliveries.MessageDeliveries.Gc` | go-libp2p-blossomsub/score.go:882-896 | unlinks entries from the head while they have expired |
| `Deliveries.MessageDeliveries.DeliverMessage` | go-libp2p-blossomsub/score.go:713-738 | an undecided record becomes valid; exactly the other peers that sent it are rewarded |
| `Deliveries.MessageDeliveries.RejectMessage` | go-libp2p-blossomsub/score.go:740-811 | the status and the penalised peers follow the reason and whether the record was decided; untracked reasons leave no trace |
| `Deliveries.MessageDeliveries.DuplicateMessage` | go-libp2p-blossomsub/score.go:813-846 | another sender is noted while the message is undecided or valid; a new sender is rewarded if it is valid and penalised if it is invalid |
| `Deliveries.RewardedOnce` | go-libp2p-blossomsub/score.go:713-846 | in every run, as long as a record is kept, no peer is rewarded twice for duplicates of its message |
| `Deliveries.PenalisedBesidesIff` | go-libp2p-blossomsub/score.go:713-846 | in every run, if somebody is rewarded for a message, then as long as the record is kept, before or after, a peer is penalised for it if and only if it sends a copy that is unsigned or claims to be our own |
| `Deliveries.RewardedAndPenalised` | go-libp2p-blossomsub/score.go:740-756 | the shortest such run: a delivery, a copy from another peer, and an unsigned copy |
| `Deliveries.DelivererRewardedIff` | go-libp2p-blossomsub/score.go:713-846 | in every run, as long as the record is kept, the peer that delivers a message first is rewarded for a duplicate as well exactly if it had not sent another copy before the delivery and sends one after it |
| `Deliveries.DelivererRewardedAgain` | go-libp2p-blossomsub/score.go:730-834 | the shortest such run: a delivery and another copy from the same peer |
| `MessageCache.Append` | go-libp2p-blossomsub/mcache.go:60-60 | append writes in place while there is room and else moves to a larger buffer |
| `MessageCache.Cache.constructor` | go-libp2p-blossomsub/mcache.go:22-38 | an empty cache |
| `MessageCache.Cache.Put` | go-libp2p-blossomsub/mcache.go:56-62 | lists the message in the newest slot under each of its slices; no two slots share a buffer |
| `MessageCache.Cache.Shift` | go-libp2p-blossomsub/mcache.go:97-107 | forgets the oldest slot's messages and recycles its buffer; no two slots share a buffer |
| `MessageCache.Cache.GetForPeer` | go-libp2p-blossomsub/mcache.go:69-83 | hands out a held message and counts the requests of the peer |
| `MessageCache.Cache.GetGossipIDs` | go-libp2p-blossomsub/mcache.go:85-95 | the ids listed under a mask in the newest slots |
| `MessageCache.DisciplineKeepsInv` | go-libp2p-blossomsub/mcache.go:56-107 | as long as no message is put while it is held, every listed id is held and is listed in one slot only |
| `MessageCache.AgesWithShifts` | go-libp2p-blossomsub/mcache.go:56-107 | a message not put again ages by one with every shift and by nothing else |
| `MessageCache.RetrievableAndAdvertised` | go-libp2p-blossomsub/mcache.go:56-107 | after k shifts a message can be retrieved exactly if k < history and is advertised exactly under its slices and if k < gossip |
| `MessageCache.AdvertisedStaysRetrievable` | go-libp2p-blossomsub/mcache.go:11-21 | whatever is advertised, was put once and is not put again can still be retrieved after history - gossip more shifts |
| `MessageCache.PutAgain` | go-libp2p-blossomsub/mcache.go:56-107 | put again when it is `age` shifts old, a message is held after k more shifts, among whatever operations, exactly if k < history - age, and advertised exactly if k < gossip: in between it is advertised and cannot be retrieved |
| `MessageCache.PutAgainLastsIff` | go-libp2p-blossomsub/mcache.go:56-107 | the second put gives the message the whole history exactly if no shift came between the two |
| `MessageCache.ListedByPuts` | go-libp2p-blossomsub/mcache.go:56-107 | for any operations: a slot lists an id under a mask exactly if it was put with that slice as many shifts ago as the slot is old |
| `MessageCache.HeldIff` | go-libp2p-blossomsub/mcache.go:56-107 | for any operations with any number of puts of the message: it is held if and only if it was put and none of its listings has dropped out of the history since its last put; what is held is what was put last |
| `MessageCache.AdvertisedPutsIff` | go-libp2p-blossomsub/mcache.go:56-107 | for any operations: a message is advertised under a mask if and only if one of its puts within the gossip slots had that slice |
| `GossipPromises.GossipTracer.AddPromise` | go-libp2p-blossomsub/gossip_tracer.go:48-76 | one requested message is promised, an earlier promise stands; both indexes agree and hold no empty sets |
| `GossipPromises.GossipTracer.GetBrokenPromises` | go-libp2p-blossomsub/gossip_tracer.go:80-116 | takes out exactly the promises whose time is over and counts them by peer |
| `GossipPromises.GossipTracer.FulfillPromise` | go-libp2p-blossomsub/gossip_tracer.go:120-144 | all promises of the message end, no others |
| `GossipPromises.GossipTracer.ThrottlePeer` | go-libp2p-blossomsub/gossip_tracer.go:185-204 | all promises of the peer end, no others |
| `PeerIps.PeerScore.SetIPs` | go-libp2p-blossomsub/score.go:1047-1085 | the peer is listed under exactly its new addresses; other peers are untouched |
| `PeerIps.PeerScore.RemoveIPs` | go-libp2p-blossomsub/score.go:1088-1100 | the peer is taken off exactly the given addresses |
| `PeerIps.PeerScore.AddPeer` | go-libp2p-blossomsub/score.go:600-614 | the index stays exact with the peer's current addresses |
| `PeerIps.PeerScore.RemovePeer` | go-libp2p-blossomsub/score.go:616-651 | a positive score is dropped at once with its addresses, any other is kept until it expires |
| `PeerIps.PeerScore.Purge` | go-libp2p-blossomsub/score.go:511-525 | exactly the disconnected peers whose retention is over are forgotten |
| `PeerIps.PeerScore.RefreshIPs` | go-libp2p-blossomsub/score.go:572-590 | exactly the connected peers get their current addresses |
| `IHaveGate.Gate.HandleIHave` | go-libp2p-blossomsub/blossomsub.go:858-928 | no peer is asked for more than MaxIHaveLength between heartbeats; only unseen ids offered under joined masks are asked for, exactly as many as the limits allow, all of them if they allow it; a request is never empty, and exactly one of its ids is promised, every other promise standing as it was |
| `IHaveGate.Gate.Collect` | go-libp2p-blossomsub/blossomsub.go:876-903 | exactly the unseen ids among the first MaxIHaveLength of each wanted IHAVE |

## Left out

- Contents of the GRAFT, PRUNE and peer-exchange messages sent, tracing, tagging and gossip emission.
- Announcing and advertising of subscriptions, and routers that know no composites.
- Score arithmetic, behaviour penalties, the reward for a first delivery, the peer gater and the rewards' sizes: only who is rewarded for duplicates and who is penalised is modelled.
- IDONTWANT handling, the IWANT penalties and direct connections of a heartbeat, and the choice among the per-slice recipients of a publish.
- RPCs, records and composites are values: `AppendOrMerge` updates the last RPC of a list through its pointer, and the model does not capture that a caller may hold the same pointer.
- Contents of RPC items and of messages: merging looks at them only through equality and the size function.
- Router.BlossomSubRouter.Leave: only for masks no composite manages, as `Subscriptions` proves of its callers.
- Query contexts, dialing, routing-table updates and peer-time tracking of a lookup; only their outcome (answered or unreachable) is a step.
- Peers that a worker hears of lie in a finite universe, which the bound on updates needs; the other lookup properties do not depend on its size.
- The network-size thresholds that decide when an optimistic provide stops its lookup.
- go-varint is modelled after the unsigned-varint specification of multiformats (at most nine bytes, shortest form); its code is not part of this model.
- The individual transcoders of multiaddr protocols (IP addresses, peer ids, onion services) and JSON forms.
- The filters over lists of multiaddrs, and the order in which the library's sort leaves equal ones.
- Escaped dots in domain names when choosing a resolver.
- Closing and cancelling of bitmask event handlers.
- Consensus, cryptographic and storage packages.
