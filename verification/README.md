# p2p_vn in Dafny

A model of p2p_vn, a peer-to-peer virtual Ethernet. Every node keeps a link-state routing table, recomputes
all-pairs paths from it, and forwards frames to directly connected peers. The project models the
routing table and everything that hangs on it, and proves what holds for all inputs, all runs and all
interleavings.

`dafny verify dfyconfig.toml` checks the whole project.

## What the modules are about

| file | subject |
|---|---|
| `FloydWarshall.dfy`, `ShortestPaths.dfy` | the in-place path computation, its 32-bit arithmetic, and when it is exact |
| `Routes.dfy`, `Lookup.dfy` | forwarding: hop chains, unicast, multicast, a network of nodes with one graph |
| `Table.dfy`, `Merge.dfy`, `Cache.dfy`, `RoutingState.dfy` | the host table as a value, its operations, its invariant |
| `Routing.dfy` | `routing_t` as a class whose methods update fields and matrices in place |
| `Exchange.dfy` | two nodes: the list that one sends and the other merges |
| `Runs.dfy`, `Provenance.dfy`, `Witnesses.dfy` | whole runs of the table, where its contents come from, and runs that reach its faults |
| `Peers.dfy`, `PeerRuns.dfy`, `PeerFutures.dfy` | peer threads and readers in every interleaving, over the real table |
| `Locks.dfy` | lock order and absence of deadlock |
| `Pcon.dfy`, `ProbeTimer.dfy`, `Clock.dfy` | the reconnect limiter, the probe timer, `struct timeval` |
| `Framing.dfy`, `Wire.dfy` | packets on a byte stream, byte order |
| `SortedList.dfy`, `DynArray.dfy`, `PeerGroup.dfy`, `Base.dfy` | sorted keyed arrays, binary search, the growing array, the peer group |

How the code is read:

- An Ethernet address is a number; `Wire.MemcmpIsNumeric` shows that comparing addresses with `memcmp` is
  comparing these numbers. Pointers between hosts are addresses, which the table invariant makes equivalent.
  `HT_DIRECT` carries the identity of the peer whose address record the table points into.
- `qsort` is any sorted permutation: a packet's order is a parameter of `UpdateEdges`, and for the keyed
  arrays `SortedList.QsortIsInsert` shows that only one outcome is possible.
- The abstract state keeps the graph from which `path` and `next` were computed; the class invariant
  `Valid` says that the two arrays hold exactly that graph's results.
- In a run, an update is a packet whose merge leaves a sound table; by `MergeKeepsTableIff` these are exactly
  the packets that repeat no destination of a source they are used for.
- The clock, what `send` accepts, and which thread moves next are parameters.

## Where the code does not do what it seems to promise

Each point has a statement in the table below.

- A path is only ever improved, never created, because a sum never compares below 0. The matrices hold
  shortest paths if and only if links are transitive and links of round-trip time 1 are transitive
  (`ExactIffTransitive`, with `ChainIsNotExact` and `OnesAreNotExact`).
- `next` holds an intermediate host, and the packet is sent to it directly. The route is a shortest path,
  as `notes.txt` asks, if and only if no hop of it has been improved (`RouteShortestIffUnimproved`,
  `DetourIsTaken`), and all routes are if and only if no recorded intermediate is one that the node reaches
  at a lower cost than by its link to it (`AllRoutesShortestIff`).
- A multicast is relayed by the first hop towards a host only if the source reaches that hop directly
  (`FirstHopRelaysIff`, `DetourIsNotRelayed`).
- A multicast that starts on a node is forwarded to nobody (`OwnMulticastFindsNobody`); a unicast packet
  for the local host is answered with the local host, which is not a peer (`UnicastToLocalFindsLocal`).
- A multicast lookup for a source in the table that has no link in use to the local host returns 0 without
  the lock, and its caller then unlocks again (`DroppedIff`). The lock counts its holders if and only if no
  lookup so far met that guard (`LockCountsHoldersIff`). One that does is enough to free a peer that is
  still held (`DropLetsFreedPeerBeHeld`), and after it this can always still happen (`SafeFromHereIff`).
- Trimming steps over the host that shifts into a freed position (`TrimSparesNeighbours`) and reads the old
  columns by new positions; `TrimRemovesIff` says exactly which hosts go. Where only normal hosts stand in
  columns that call for it, all hosts that are due go if and only if at most one is due (`AllDueGoneIff`,
  with the table of `DueHostStays`).
- Trimming reads the pointer it frees only after the shift (`RemoveThenRead`). A call frees only hosts that it removes if and
  only if no position before the last is due for trimming (`FreesOnlyRemovedIff`), and a run of two peers, of
  which the lower one leaves, reaches the other case (`WrongHostIsFreed`). The table model goes on as if the
  right host were freed.
- The export loop uses a link's number as a matrix column. All links in use are exported if and only if for
  each of them that entry is nonzero (`AllExportedIff`), which a row of three hosts fails
  (`RowWithholdsLink`).
- The list of edges that a node sends is never reset, so it is every export so far (`ListIsHistory`). One
  export repeats no pair (`ExportNoRepeats`); the list stays without repeats if and only if an export shares
  no pair with it (`RefreshRepeatsIff`), so measuring a peer twice is enough for a repeat
  (`MeasuringTwiceRepeatsPair`).
- The receiver's table stays sound if and only if the sender has not exported a link of a taken source twice
  (`SentListKeepsTableIff`), which the list of two measurements has (`TwiceSpoilsTable`): the repeated links
  stay (`StrictIffNoRepeats`), and trimming the target removes only one of them (`RepeatedPairDangles`). The
  receiver also gets every link that the sender has withdrawn (`HistoryIsCopied`, `WithdrawnLinkIsListed`,
  `WithdrawnLinkIsCopied`). Its copy of a source is the sender's present record if and only if the list has
  each present link once and nothing else of that source (`SentCopyIsExactIff`).
- Packets are sorted by timestamps that have not been byte-swapped (`StampsMisorder`). A source is passed
  over although the packet has a newer edge for it if and only if the edge with the largest unswapped stamp
  is not newer than its mark (`NewsIsLostIff`, with the packet of `NewsIsLost`).
- A link graph arrives if and only if it has at most 1820 edges (`GraphArrivesIffFits`), so once the list is
  longer no list arrives any more (`TooLongForGood`). A packet that is
  too long is cut, and only a probe whose size is not 2 shifts the stream (`CutRoundTrip`).

## Model

| member | source | states |
|---|---|---|
| `FloydWarshall.CombineWrapping` | routing.c:215-225 | the wrapping 32-bit arithmetic computes a saturating sum, and 1 for two legs of 1; no wrapped value escapes |
| `FloydWarshall.PatternKept` | routing.c:203-243 | in every round an entry is 0 exactly when there was no link, and the diagonal stays 1 |
| `FloydWarshall.NeverRaised` | routing.c:236-239 | later rounds never raise an entry |
| `FloydWarshall.TwoLegsBound` | routing.c:203-243 | in every graph, a linked pair ends with at most the combination of any two links in a row |
| `FloydWarshall.PivotFixed` | routing.c:203-243 | round k leaves row k and column k alone, so working in place equals working on a copy |
| `FloydWarshall.ViaIsIntermediate` | routing.c:236-239 | a recorded intermediate is neither end, both legs are links, the combined legs do not exceed the entry, and it is strictly nearer to the target in the order (path, recorded index) |
| `FloydWarshall.DiagonalDirect` | routing.c:162-239 | a host never records an intermediate for itself |
| `FloydWarshall.OnesStayDirect` | routing.c:207-239 | a link of time 1 is never improved and never gets an intermediate |
| `FloydWarshall.Relax` | routing.c:207-242 | one inner step advances exactly one cell by one round |
| `FloydWarshall.Improve` | routing.c:200-244 | the in-place triple loop ends with the path and next values of the round-by-round definition in every cell |
| `ShortestPaths.EntryBoundsWalks` | routing.c:203-243 | with transitive links, after k rounds an entry is at most the unbounded cost of every walk whose inner hosts are below k |
| `ShortestPaths.EntryIsWalk` | routing.c:203-243 | with transitive links of 1, every nonzero entry is the cost of a real walk |
| `ShortestPaths.ExactIffTransitive` | routing.c:155-244 | all entries are exact least costs over all walks, 0 meaning none, if and only if links and links of 1 are both transitive |
| `ShortestPaths.ChainIsNotExact` | routing.c:236-239 | three hosts in a row: the far end is reachable, the matrix says 0 |
| `ShortestPaths.OnesAreNotExact` | routing.c:216-219 | two links of 1 in a row are reported as 1 |
| `Routes.HopsDistinct` | routing.c:912-921 | following `next` towards a target never repeats a host and never meets either end |
| `Routes.UnicastArrives` | routing.c:974-1007 | forwarding by `next` delivers along links, without a repeated host, in fewer than n hops, whenever the path is nonzero |
| `Routes.IntermediateOnShortestPath` | routing.c:236-239 | with exact matrices the recorded intermediate splits a shortest path |
| `Routes.RouteShortestIffUnimproved` | notes.txt:7-15 | the delivered route costs the shortest path if and only if none of its hops has been improved |
| `Routes.AllRoutesShortestIff` | notes.txt:7-15 | every delivered route is a shortest path if and only if every recorded intermediate is reached at the cost of the direct link |
| `Routes.DetourIsTaken` | routing.c:990-997 | a full mesh of four hosts with exact matrices in which the packet takes a dearer route |
| `Routes.SelectedAreLinked` | routing.c:932-954 | whoever a multicast is passed on to is another host, linked from this one |
| `Routes.SelectsIffOnChain` | routing.c:879-954 | a node passes a multicast on to a host exactly when it lies on the host's chain and is itself reached along that chain |
| `Routes.FirstHopRelaysIff` | routing.c:879-954 | the first hop towards a host relays to it if and only if the source reaches that hop directly |
| `Routes.DetourIsNotRelayed` | routing.c:932-954 | a full mesh in which the first hop towards a host does not relay to it |
| `Routes.SourceSelectsNobody` | routing.c:932-954 | the source of a multicast selects nobody |
| `SortedList.BSearch` | stdparam.h:6-27 | the search returns a matching position, or none exactly when no element matches, for any comparison that is consistent along the array |
| `SortedList.InsertStrict` | routing.c:495-504 | inserting keeps keys strictly sorted exactly when the key is new |
| `SortedList.QsortIsInsert` | routing.c:498-501 | appending a new key and sorting has one possible outcome |
| `SortedList.RemoveKeys` | darray.h:73-78 | removal keeps order and takes away exactly one key |
| `DynArray.DArray.Append` | darray.h:41-71 | the contents grow by the new element, the buffer by 2 mem + 8 when full |
| `DynArray.DArray.Remove` | darray.h:73-78 | the contents lose exactly one position, and the slot then holds the successor, or the removed element if it was last |
| `DynArray.DArray.RemoveThenRead` | routing.c:331-332 | what is read through the pointer after removal is the removed element if and only if it was the last one; otherwise it is still in the array |
| `Wire.MemcmpIsNumeric` | routing.c:31-34 | comparing addresses byte by byte is comparing numbers, equality included |
| `Wire.BigEndianHead` | util.h:14-16 | the first byte of an address is its most significant one |
| `Wire.Swap64Involution` | util.h:45-46 | `ntohll` undoes `htonll` |
| `Wire.Swap64Reverses` | util.h:45-46 | `htonll` reverses the eight bytes of its argument |
| `Wire.PackIsNetworkOrder` | routing.c:267-276 | the time and the stamp of a packed record stand in memory as their big-endian bytes |
| `Wire.PackRoundTrip` | routing.c:267-276 | a record packed for export is read back with the same round-trip time and timestamp |
| `Wire.StampsMisorder` | routing.c:681-696 | of two records of a source, the one stamped 1 sorts before the one stamped 256 |
| `Wire.CompareEdgesIsOrder` | routing.c:681-696 | the packet order is that of one number in which sources ascend and unswapped stamps descend, with ties exactly for equal source and stamp |
| `Table.FindHost` | routing.c:70-79 | finds the one host at an address, or none exactly when there is none |
| `Table.FindLink` | routing.c:81-92 | finds a link to an address in any sorted list, repeated targets included, or none exactly when there is none |
| `Merge.TakenUnique` | routing.c:737-768 | one set of sources settles every source by the rule of the loop: not local, and newer than its mark by its first edge, or new |
| `Merge.NewSource` | routing.c:741-767 | where a new source begins, the test of the loop on the partly merged table decides exactly that rule on the original table |
| `Merge.MergeEdges` | routing.c:711-787 | the loop with its carried source and skip flag refines the declarative merge: taken sources have exactly their edges, newest mark included, all others are untouched or new and bare |
| `Merge.MarkAfterMerge` | routing.c:485-487 | after a merge a mark is the mark before or the stamp of an edge of that source; for a taken source no edge is newer; for any other it is unchanged |
| `Merge.StalePacketChangesNothing` | routing.c:759-766 | a packet whose sources are all stale or local changes no host, link or mark |
| `Merge.PassedOverIff` | routing.c:741-766 | in whatever order the packet was sorted, a known source is passed over if and only if its edge with the largest unswapped stamp is not newer than its mark |
| `Merge.NewsIsLostIff` | routing.c:681-766 | a known source is passed over although the packet has a newer edge for it if and only if there is such an edge and one with the largest unswapped stamp is not newer than the mark |
| `Merge.NewsIsLost` | routing.c:681-696 | a sound table with a host marked 100, which a sorted packet with stamps 1 and 256 for it does not change |
| `Merge.MergeTwiceIsMergeOnce` | routing.c:711-787 | merging a packet again, in any order that sorting may give it, changes nothing |
| `Merge.StrictIffNoRepeats` | routing.c:782 | the merged links of a source are free of repeats if and only if the packet's edges for it are |
| `Merge.MergeKeepsLocal` | routing.c:759-766 | a merge never changes the local host, never changes a kind, and never lowers a mark |
| `Merge.MergeKeepsTableIff` | routing.c:711-787 | the merge keeps the table invariant if and only if the packet repeats no destination of any source it is used for |
| `Cache.GraphIsLinks` | routing.c:155-178 | the matrix that the computation starts from holds 1 on the diagonal, the time of every link at its target, and 0 where there is no link |
| `Cache.EntryBoundsLinks` | routing.c:155-244 | the computed entry of a linked target is at most the time of the link, and at most the sum over any two links in use that lead there |
| `Cache.DropKeepsTable` | routing.c:307-333 | removing a normal host with the links to it keeps the table invariant |
| `Cache.TrimKeepsTable` | routing.c:335-362 | whatever the old matrix says, trimming keeps the invariant, removes only normal hosts, and prunes exactly the links to removed hosts |
| `Cache.TrimSparesNeighbours` | routing.c:346-359 | of two neighbours at most one is removed in one call |
| `Cache.TrimIdleIff` | routing.c:346-359 | trimming changes nothing if and only if no position is both unreachable in the old matrix and normal |
| `Cache.TrimRemovesIff` | routing.c:346-359 | for every table and old matrix, a host goes if and only if it is normal, its predecessor does not go, and the column it has shifted to by the number of hosts gone before it calls for trimming |
| `Cache.AllDueGoneIff` | routing.c:337-359 | a single host that is due is removed; where every column that calls for trimming holds a normal host, all due hosts are removed if and only if at most one is due |
| `Cache.DueHostStays` | routing.c:346-359 | a sound table with two due neighbours, of which one stays |
| `Cache.FreesOnlyRemovedIff` | routing.c:331-332 | of the hosts that one pass of the loop frees none is still in the table if and only if every position due for trimming is the last |
| `Cache.FreedIsInSlot` | routing.c:331-332 | what is freed is what the slot holds once the rest has moved down |
| `Cache.FewerLinksThanHosts` | routing.c:261-263 | a host has fewer links than there are hosts, so the read of the matrix by link number stays in bounds |
| `Cache.ExportIff` | routing.c:252-287 | a record is exported if and only if it is that of link j of host i and entry (i, j) is nonzero |
| `Cache.LinkExportedIff` | routing.c:260-280 | the record of link j of host i is in the export of a sound table if and only if entry (i, j) of its graph is nonzero |
| `Cache.AllExportedIff` | routing.c:252-287 | every link in use is exported if and only if for each of them the entry at its number is nonzero |
| `Cache.FirstLinkWithheld` | routing.c:262-263 | the record of the first link of a host without a link to the first host is not in the export |
| `Cache.RowWithholdsLink` | routing.c:262-263 | a sound table of three hosts in a row whose second link is in use and not in the export |
| `Cache.ExportNoRepeats` | routing.c:252-287 | one export of a sound table repeats no pair of source and destination |
| `RoutingState.EditKeepsTable` | routing.c:603-670 | adding or removing one local link together with the kind of its target keeps the table invariant |
| `RoutingState.MeasuredIsEdit` | routing.c:631-670 | a measurement makes its target direct and linked, keeps the peer of a host that already was direct, and changes nothing else |
| `RoutingState.MeasuredMarks` | routing.c:635-670 | a new local link raises the mark of local to its stamp, an update of one does not, a created host is bare with mark 0, and no other mark changes |
| `RoutingState.UnregisteredIsEdit` | routing.c:803-834 | a removal makes its target normal and unlinked and changes nothing else |
| `RoutingState.UnregisteredLinks` | routing.c:817-834 | a removal takes away the link to its target and no other, times included |
| `RoutingState.AddCodes` | routing.c:603-679 | -2 exactly for the local address, otherwise 0 |
| `RoutingState.RemoveCodes` | routing.c:803-843 | 0 exactly if there is a link to the address, otherwise 1 |
| `RoutingState.StepKeepsInv` | routing.c:414-437 | every operation keeps the table invariant and leaves matrices that are those of the new table |
| `RoutingState.RefreshRemovesIff` | routing.c:335-362 | every refresh removes exactly the hosts that go by the rule of `TrimRemovesIff` where the matrices have the size of the table, and none otherwise |
| `RoutingState.UpdateIsSound` | routing.c:698-789 | for a packet without repeated pairs the table is sound when trimming begins, in whatever order the packet was sorted |
| `Lookup.MulticastIsLowBit` | util.h:12 | an address is multicast exactly if the low bit of its first byte is set |
| `Lookup.FoundAreDirect` | routing.c:878-1007 | every returned host is in the table, direct and linked from local, for multicast and for unicast to any other host |
| `Lookup.FailedIff` | routing.c:878-988 | -2 exactly for a multicast from an unknown host, -1 exactly for unicast to one, and no other code |
| `Lookup.UnicastAnswerIff` | routing.c:974-1007 | unicast to another known host is answered with nobody if and only if local has no link in use to it, and otherwise with one host |
| `Lookup.MulticastAnswer` | routing.c:932-969 | a multicast is answered with exactly the selected hosts, each once, in table order |
| `Lookup.DroppedIff` | routing.c:905-910 | the branch that returns 0 without the lock is taken if and only if the lookup is for a multicast from another host of the table without a link in use to local |
| `Lookup.UnicastToLocalFindsLocal` | routing.c:974-1007 | for unicast to the local host the answer is the local host |
| `Lookup.OwnMulticastFindsNobody` | routing.c:912-972 | a multicast from the local host is answered with nobody |
| `Lookup.NetworkDelivers` | routing.c:974-1007 | in a network of nodes with one graph, each answering from its own table, a unicast packet that the first node forwards at all arrives, without visiting a node twice, in fewer than n hops |
| `Routing.FillRow` | routing.c:157-178 | one row of the adjacency matrix holds 1 on the diagonal, the time of each link, and 0 elsewhere |
| `Routing.UnlinkEverywhere` | routing.c:319-329 | every host loses its link to the address |
| `Routing.TrimHost` | routing.c:307-333 | a normal host is dropped with the links to it and the host in its slot after the shift is freed, any other is left |
| `Routing.TrimTurn` | routing.c:346-359 | one turn leaves the rest of the trimming, and of the freeing, to do |
| `Routing.TrimLoop` | routing.c:346-359 | the loop over shifting positions computes the trimmed table and the list of freed hosts |
| `Routing.MeasureLink` | routing.c:631-670 | the table part of adding a direct link |
| `Routing.UnregisterHost` | routing.c:817-834 | the table part of removing a direct link |
| `Routing.ExportRow` | routing.c:260-280 | the records of one source |
| `Routing.ExportAll` | routing.c:254-281 | the records of all sources in order |
| `Routing.FollowChain` | routing.c:912-921 | the first multicast loop ends and returns the hop chain from the source to this node, then this node |
| `Routing.PassesThrough` | routing.c:932-954 | the second loop ends and answers whether the chain to a destination begins with that chain |
| `Routing.Multicast` | routing.c:912-969 | the selected hosts are exactly those whose chain from the source runs through this node, in table order |
| `Routing.Unicast` | routing.c:982-1007 | nobody, the recorded intermediate, or the destination itself |
| `Routing.Routing.constructor` | routing.c:548-565 | an empty table with empty matrices |
| `Routing.Routing.AddLocal` | routing.c:579-592 | adds the local host, or returns 1 and changes nothing if the address is taken; on an empty table the result is the initial state of a run, with the invariant |
| `Routing.Routing.ComputePaths` | routing.c:105-250 | fresh matrices that hold the results for the current table |
| `Routing.Routing.Trim` | routing.c:335-362 | the trimmed table and the freed hosts, and 1 with no change when the matrices have another size |
| `Routing.Routing.UpdateExportedEdges` | routing.c:252-287 | the list of edges grows by the export of the current table |
| `Routing.Routing.UpdateCache` | routing.c:414-437 | trimmed table, its matrices, its export, and 0 |
| `Routing.Routing.AddDirectLink` | routing.c:603-679 | the whole new state and return code, as a step that keeps the invariant |
| `Routing.Routing.RemoveDirectLink` | routing.c:799-843 | the whole new state and return code, as a step that keeps the invariant |
| `Routing.Routing.UpdateEdges` | routing.c:698-796 | for every packet that repeats no destination of a source it is used for, a step of the declarative merge followed by the refreshed cache, keeping the invariant |
| `Routing.Routing.HostsToHost` | routing.c:848-1014 | the return code, the hosts, and whether the lock is still held, for every outcome |
| `Runs.RunKeepsInv` | routing.c:414-437 | in every state of every run the table invariant holds, marks bounding the links of all other hosts included, and path and next are those of the table whenever their sizes agree |
| `Runs.ReachableAnswersAreDirect` | routing.c:848-1007 | in every reachable state every returned host is a direct peer linked from local |
| `Runs.DirectIffRegistered` | routing.c:594-679 | over every run a host is direct, and linked from local, exactly when the last registration or removal of it was a registration, and it points to the first peer to register since the last removal |
| `Runs.PacketsKeepLocal` | routing.c:698-796 | no received packet, with the trimming it causes, changes the local host or its links |
| `Runs.MarksNeverDecrease` | routing.c:485-487 | while a host stays in the table its timestamp mark never decreases |
| `Provenance.MarksAreStamps` | routing.c:485-487 | in every state of every run a mark is 0 or the stamp of a link of that host that some operation brought |
| `Provenance.LocalLinksAreLatest` | routing.c:603-670 | in every state of every run the local host has exactly the links measured last for peers that have not unregistered since, with those times |
| `Provenance.LinksWereReceived` | routing.c:711-787 | in every state of every run each link of another host was in an earlier packet, with that source, time and stamp |
| `Provenance.RemoveAnswers` | routing.c:803-843 | over every run a removal answers 0 exactly if the address was measured since it last unregistered, otherwise 1 |
| `Runs.ExportsWereLinks` | routing.c:252-287 | every record in the list of edges decodes to a link, never to oneself, that the table held after some operation |
| `Runs.ListGrows` | routing.c:278 | along every run the list of edges is only ever appended to |
| `Runs.ListIsHistory` | routing.c:1035-1041 | the list that is handed out holds exactly the records that some operation of the run exported, those of withdrawn links included |
| `Runs.RepeatsIffSentTwice` | routing.c:252-287 | the list repeats a destination of a source if and only if two operations exported a link of that source to it |
| `Exchange.RepeatedPairDangles` | routing.c:319-329 | after merging a packet that names a pair of different hosts twice, trimming the target leaves a link to a host that is gone |
| `Exchange.ListKeepsTableIff` | routing.c:698-787 | for any list in any sorted order, the receiving table is sound if and only if the list repeats no destination of a taken source |
| `Exchange.ListIsCopied` | routing.c:737-787 | for any list, the record of a taken source holds exactly the links that the list has of it |
| `Exchange.CopyIsExactIff` | routing.c:737-787 | for any list, the record of a taken source equals that of a sound table if and only if the list has each link there once and nothing else of that source |
| `Exchange.SentListKeepsTableIff` | routing.c:1035-1041 | whenever in a run a node sends its list, the receiving table stays sound if and only if no link of a taken source was exported by two operations of the sender |
| `Exchange.HistoryIsCopied` | routing.c:1035-1041 | the receiver then has exactly the links of a taken source that the sender exported after any operation of its run, withdrawn ones included |
| `Exchange.SentCopyIsExactIff` | routing.c:1035-1041 | it has the present links of the sender if and only if the list has each of them once and nothing else of that source |
| `Exchange.TooLongForGood` | routing.c:278 | once the list has more than 1820 records no list of the rest of the run arrives |
| `Exchange.FirstListKeepsTable` | routing.c:252-287 | the list after the first refresh keeps every receiving table sound |
| `Exchange.FirstCopyIsExactIff` | routing.c:252-287 | after the first refresh the copy of a source is exact if and only if the entry at the number of each of its links is nonzero |
| `Runs.RefreshRepeatsIff` | routing.c:278 | the list of edges is without repeated pairs after a refresh if and only if it was before and the new export shares no pair with it |
| `Witnesses.MeasuringTwiceRepeatsPair` | routing.c:603-679 | a run of two measurements of one peer, after which the list of edges is two records of one pair |
| `Witnesses.TwiceSpoilsTable` | routing.c:698-787 | that list, in any sorted order, spoils the table of a node that knows only itself |
| `Witnesses.WithdrawnLinkIsListed` | routing.c:799-843 | a run of a registration and a removal, after which the list still names the link that is gone |
| `Witnesses.WithdrawnLinkIsCopied` | routing.c:698-787 | a node that knows only itself gets that link |
| `Witnesses.WrongHostIsFreed` | routing.c:331-332 | a run after which one more measurement makes trimming drop the host that left and free a host that stays in the table |
| `Runs.MeasuredLinks` | routing.h:90-101 | a measurement replaces the link to its target and no other |
| `Runs.MeasuredPeerIsAnswered` | routing.h:90-101 | right after a measurement with a nonzero time, packets for the peer are answered with exactly one direct peer |
| `Runs.UnregisteredPeerIsNot` | routing.h:109-110 | right after a removal, packets for the address are answered with nobody |
| `Peers.StepKeepsSysInv` | dpeer.c:561-568 | every step of every thread but the dropped lookup keeps: whoever table or group points to still has its removal ahead, and whatever a reader holds is still registered |
| `Peers.BroadcastSeesGroup` | dpg.c:32-56 | in every interleaving a broadcast holds exactly the peers of the present group |
| `Peers.MergesIff` | dpeer.c:177-228 | a link graph is merged exactly under the table lock, by a peer before it joins the group or while it is served |
| `PeerRuns.TableStepRefines` | routing.c:799-843 | every call on the real table acts on its owners as the thread model says |
| `PeerRuns.EveryLookupHappens` | routing.c:848-1014 | every lookup has an outcome in every state |
| `PeerRuns.LockCountsHoldersIff` | routing.c:905-910 | in every interleaving the routing lock counts its holders if and only if no lookup so far met the guard of the dropping branch |
| `PeerRuns.NoFreedPeerIsHeld` | dpeer.c:272-283 | in every interleaving in which no lookup meets that guard, no freed peer is in the table, in the group, or held by a reader |
| `PeerRuns.DropLetsFreedPeerBeHeld` | routing.c:905-910 | a run in which one drop leads to a freed peer that a reader still holds |
| `PeerFutures.SafeFromHereIff` | routing.c:905-910 | after any interleaving, every continuation in which no further lookup meets that guard is safe if and only if no lookup so far met it |
| `PeerFutures.EveryStartServes` | dpeer.c:618-695 | after any interleaving with free locks, a new peer started in each of the three ways can come to be served, in the group and with its link in the table |
| `PeerFutures.ServedIsMeasured` | dpeer.c:108-135 | a served peer can be measured again |
| `PeerFutures.AnyThreadCanEnd` | dpeer.c:561-568 | wherever a thread stands, with free locks it can come to its end and be freed |
| `PeerGroup.Group.InsertPeer` | dpg.c:108-132 | the peer is listed under its address unless another already is |
| `PeerGroup.Group.RemovePeer` | dpg.c:134-150 | whoever is listed under the address is removed, and -2 when nobody is |
| `Locks.BroadcastOrdered` | dpg.c:32-56 | a broadcast takes the group's lock, the routing lock and one write lock at a time, in this order |
| `Locks.BroadcastHolds` | dpg.c:32-56 | a broadcast writes to each of its peers once, in order, with the locks of group and table held for reading |
| `Locks.DeliverOrdered` | dpeer.c:376-392 | a delivery takes the routing lock and then one write lock at a time |
| `Locks.DeliverHolds` | dpeer.c:272-283 | a delivery writes to each of its peers once, in order, with the lock of the table held for reading |
| `Locks.ScriptOrdered` | dpeer.c:42-84 | every call takes locks in this order, the limiter's alone, and releases them all |
| `Locks.EditsExclude` | dpg.c:108-150 | whatever changes group, table or limiter holds its lock for writing |
| `Locks.RunExcludes` | routing.c:603-679 | in every interleaving a lock that two threads hold is held by both for reading |
| `Locks.NoWaitCycle` | routing.c:1035-1054 | in no interleaving of any number of threads do waiting threads form a cycle |
| `Locks.NoDeadlock` | pcon.c:43-79 | in every interleaving, while a thread has work left some thread can proceed |
| `Clock.TimersAreMicros` | pcon.c:55-58 | subtracting and comparing times is subtracting and comparing microseconds |
| `Pcon.CompareIsOrder` | pcon.c:13-32 | the host comparison is a total order that identifies hosts |
| `Pcon.Limiter.Connect` | pcon.c:36-80 | a call launches exactly if the host is new or its last launch is more than two seconds ago, and records it |
| `Pcon.PairSpaced` | pcon.c:52-68 | any two launches to one host are more than two seconds apart, for any calls and clock readings |
| `Pcon.LaunchesIff` | pcon.c:52-68 | a call launches if and only if every earlier launch to its host is more than two seconds old, for any calls and clock readings |
| `Pcon.LaunchesSpaced` | pcon.c:36-80 | n launches to one host span at least n - 1 times two seconds and a microsecond |
| `ProbeTimer.CountProbe` | dpeer.c:510-520 | a broadcast is due with the first of every ten probes |
| `ProbeTimer.OneTurn` | dpeer.c:500-559 | a turn probes exactly if a second has passed, and leaves what remains of the current second |
| `ProbeTimer.Serve` | dpeer.c:500-559 | under any clock the turns that probe are exactly those of the schedule: the first, and after each probe the first turn before which a second has passed; and the turns that broadcast are the first of every ten of these |
| `ProbeTimer.ScheduleUnique` | dpeer.c:500-559 | the clock readings leave only one schedule |
| `ProbeTimer.ProbesSpaced` | dpeer.c:500-559 | under a monotone clock any two probes are at least a second apart |
| `ProbeTimer.SlowTurnsAllProbe` | dpeer.c:500-559 | if every turn lasts a second, every turn probes |
| `ProbeTimer.ProbeWithinSecond` | dpeer.c:500-559 | once a second has passed since a probe, the next probe is sent |
| `Framing.SendData` | dpeer.c:23-38 | success exactly if the sends take all of the data before one fails, and in any case exactly the bytes that they took |
| `Framing.AcceptsIff` | dpeer.c:23-38 | the sends take all of the data if and only if some nonempty run of successful ones from the first adds up to its length |
| `Framing.SentIsTotal` | dpeer.c:23-38 | otherwise what is sent is the sum up to the first failure |
| `Framing.SendPacket` | dpeer.c:42-84 | the same for a header and a body cut to its sixteen-bit length |
| `Framing.SendStart` | dpeer.c:42-71 | the same for a header, whose length is cut to sixteen bits, and data of any length |
| `Framing.CutRoundTrip` | dpeer.c:236-334 | a packet is read back cut, with the stream at the next header, if and only if it is not a probe of another size |
| `Framing.SendAll` | dpeer.c:42-84 | packets sent through any partial sends go out up to the first that fails and as much of that one as was taken; the reader of well-formed ones has a prefix of them, and all if every send was accepted |
| `Framing.BrokenStreamIsPrefix` | dpeer.c:236-334 | wherever a stream of well-formed packets breaks off, the reader has a prefix of them |
| `Framing.FrameRoundTrip` | dpeer.c:236-334 | a packet is read back, with the stream at the next header, if and only if it is well formed |
| `Framing.ReadIff` | dpeer.c:236-334 | a packet is read from exactly the streams that begin with its kind, some length and a body of the size these ask for |
| `Framing.Be16IsBigEndian` | dpeer.c:47-50 | lengths, kinds and counts are big-endian numbers of two bytes |
| `Framing.ProbeBytes` | peer_proto.h:33-34 | the bytes of a probe and of its answer |
| `Framing.ProbesIgnoreLength` | dpeer.c:89-115 | two bytes are read after the header of a probe or of its answer, whatever length it announces |
| `Framing.StreamRoundTrip` | dpeer.c:236-334 | a sequence of packets is read back as sent if and only if all are well formed |
| `Framing.SplitFlatten` | dpeer.c:206-221 | edges laid out one after the other are found again |
| `Framing.FlattenAt` | peer_proto.h:95-101 | edge k of a graph stands at 36 k |
| `Framing.GraphLayout` | dpeer.c:341-373 | kind, length, count, sender and edges of a link graph stand where the protocol has them |
| `Framing.ParseIff` | dpeer.c:177-228 | a body is read as a graph if and only if it is that graph with its count and less than one more edge behind it |
| `Framing.GraphArrivesIffFits` | dpeer.c:341-373 | a link graph is received as sent, with the stream aligned behind it, if and only if it has at most 1820 edges |
| `Framing.SendLinkstate` | dpeer.c:341-373 | header, fixed part and edges go out as one link graph, with 0, -1 or -2 exactly as the sends decide |

## Left out

- `Routing.Routing.RemoveDirectLink`: the return code -5 does not appear, because the invariant excludes its branch.
- `Routing.PassesThrough`: the test for the end of a chain after a match does not appear, because it cannot succeed there.
- `Routing.Routing.UpdateEdges`: packets that repeat a destination of a source they are used for, which the program's own list can become; `MergeKeepsTableIff` and `RepeatedPairDangles` say what they do to the table.
- `Routing.TrimLoop`: returns the hosts that are freed and goes on with a table in which their memory is intact, as do all members below that build on it.
- `Runs.RunKeepsInv`: an update is one whose merge leaves a sound table, and every trimming is taken to free the host it removes.
- `Runs.ReachableAnswersAreDirect`: takes every trimming to free the host it removes.
- `Runs.DirectIffRegistered`: takes every trimming to free the host it removes.
- `Runs.PacketsKeepLocal`: takes every trimming to free the host it removes.
- `Runs.MarksNeverDecrease`: takes every trimming to free the host it removes.
- `Runs.ExportsWereLinks`: takes every trimming to free the host it removes.
- `Runs.ListGrows`: takes every trimming to free the host it removes.
- `Runs.ListIsHistory`: takes every trimming to free the host it removes.
- `Runs.RepeatsIffSentTwice`: takes every trimming to free the host it removes.
- `Exchange.SentListKeepsTableIff`: takes every trimming of the sender to free the host it removes, and the list to arrive.
- `Exchange.HistoryIsCopied`: takes every trimming of the sender to free the host it removes, and the list to arrive.
- `Exchange.SentCopyIsExactIff`: takes every trimming of the sender to free the host it removes, and the list to arrive.
- `PeerFutures.SafeFromHereIff`: takes every trimming to free the host it removes, and releasing the lock too often to lower its count below zero.
- `Cache.AllDueGoneIff`: the equivalence is for tables in which no other host stands in a column that calls for trimming; `Cache.TrimRemovesIff` decides the rest host by host.
- `PeerRuns.LockCountsHoldersIff`: takes every trimming to free the host it removes.
- `PeerRuns.NoFreedPeerIsHeld`: takes every trimming to free the host it removes; a peer keeps its address once it is registered, although reading a link graph can overwrite it; what the caller does with the local host, which it takes for a peer, is not modelled.
- `Locks.ScriptOrdered`: the dropped lookup, which releases the routing lock twice, is not among the calls.
- `Locks.NoWaitCycle`: ranges over the calls of `Locks.ScriptOrdered`, without the dropped lookup.
- `Locks.NoDeadlock`: ranges over the calls of `Locks.ScriptOrdered`, without the dropped lookup.
- `Peers.StepKeepsSysInv`: excludes the dropped lookup, which does not keep it.
- `Provenance.MarksAreStamps`: takes every trimming to free the host it removes.
- `Provenance.LocalLinksAreLatest`: takes every trimming to free the host it removes.
- `Provenance.LinksWereReceived`: takes every trimming to free the host it removes.
- `Provenance.RemoveAnswers`: takes every trimming to free the host it removes.
- `PeerFutures.EveryStartServes`: takes every trimming to free the host it removes.
- `PeerFutures.AnyThreadCanEnd`: takes every trimming to free the host it removes.
- `ProbeTimer.Serve`: the broadcast after a received link state does not appear, because its branch cannot be reached.
- `Framing.GraphArrivesIffFits`: edges are opaque records of 36 bytes; a body shorter than the fixed part of a link graph, which the program reads out of bounds, is rejected.
- Allocation failure and the unlocking after a failed send; a failed send ends the peer.
- IP addresses and ports in edge records, which packing swaps and unpacking does not.
- The race of two readers that both recompute the matrices before the first update.
- Blocking on a full socket while locks are held.
- Sockets, epoll, the tap device, argument parsing, name lookup, debug output and the packet types that are only named.
