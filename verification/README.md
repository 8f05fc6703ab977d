# Verified model of the MASTER scheduler and its mote libraries

This project models two connected parts of the repository and proves them correct with Dafny.

**The scheduling pipeline.** MASTER computes a central TSCH schedule: from a graph of expected transmission counts
(ETX) to shortest paths, to overlapping sub-flows, to sliding-window cells, to a grid of timeslots and channels filled
by reverse longest path first (RLPF), to the links and forwarding tables of each node, to a binary file, to
hexadecimal lines on a serial line, to the flash of a mote, and back to the record that each mote reads. Every stage is
proved against the property that the next one needs. The main results at the end of the chain are:

* `Deployment.Run`: the whole chain as one method. It succeeds exactly if there is a flow, the window size is usable,
  the path search of no flow is blocked and the schedule has at most 255 timeslots; then the motes, each reading its
  own record from the flash that the upload left, hand packets of every flow along a path from its source to its
  destination, and no path is cheaper under the powered ETX weights. In every cell each two adjacent participants find
  a sending and a receiving link of the flow at the timeslot and channel of the cell in their records.
* `EndToEnd.Delivered`: with the sliding-window strategy, for every schedule and every set of failed (channel,
  timeslot) positions in which each sub-flow loses at most its window size minus two of its own cells, one pass over
  the timeslots carries a packet from the source of its flow to the destination. The window size is the one that
  `calculate_window_size` computes for the sub-path. `Delivery.WindowIsTight` shows that one more loss can be too many.
* `Scheduling.Schedule.Create`: the finished grid holds every cell once, without conflicts, without empty timeslots,
  with every flow in order of time, and no longer than the number of cells and no shorter than the longest flow; paths
  are cheapest, windows have the computed size, and it fails exactly for the stated reasons. Read backwards, the grid
  is the first-fit placing of the flows from the longest to the shortest, and there is only one such grid
  (`Scheduling.TimetableIsDetermined`), as there is only one path (`ShortestPath.RouteIsUnique`) and only one split of it
  (`SubFlows.EvenSplitIsUnique`).
* `Uniqueness.FileDeterminesSchedule`: no two different schedules give the same bytes.
* `Forwarding.LinksAreConsistent` and `Forwarding.OneLinkPerSlot`: in the link lists of a finished schedule every hop
  of every cell has its sending and its receiving link, and no node has two links in a timeslot.
* `TimeSource.TimeSources.GetTimesourceForNodes`: following time sources reaches the network time source from every
  node, although scheduled and other nodes use two different graphs; which graph a node uses is stated exactly.
* `HeapMem.Heap.Realloc`: contents are kept on every path, nothing leaks, the object stays where it is exactly if it fits
  there, and NULL comes back exactly if there is no room anywhere (within the search limit).

**The libraries on the mote.** `heapmem` (allocator), `ringbuf` (interrupt ring, at the granularity of single shared
accesses), `hash-map` (coalesced chaining), `nbr-table` (shared neighbour keys with eviction), `slip` (framing of
RFC 1055 over a cyclic buffer) and `ccm-star` (against the block formulas of RFC 3610) are each shown to agree with
something simpler: a map, a queue, disjoint byte ranges, a round trip, a formula.

## Layout

Each `.dfy` file is one module. `Options`, `Sequences`, `Arithmetic`, `Graphs`, `PriorityDictionary`, `ShortestPath`, `SubFlows`, `Windows`, `Cells`, `Flows`,
`Grids`, `Scheduling`, `Delivery` and `EndToEnd` are the pipeline up to delivery; `TimeSource`, `Transmissions`, `Links`,
`Forwarding`, `Beacon`, `BeaconWriter`, `Motes`, `Uniqueness`, `SerialLine`, `Upload` and `Deployment` turn a schedule into what the
motes hold; `HeapLayout`, `HeapStates`, `HeapMem`, `RingBuffer`, `HashMap`, `NeighborTable`, `Slip` and `CcmStar` are the
libraries. Code that works by updating state is a class or a method with loops whose contract ties it to a
specification; the properties are lemmas about the specification.

`dafny verify dfyconfig.toml` checks everything.

## Modelling decisions

* ETX weights, costs and distances are exact reals and `math.ceil` is exact; floating-point rounding is not modelled.
  Nodes are integers, so the heap's order of equal distances by key is modelled.
* ETX is at least one, source and destination of a flow differ, and `max_sub_flow_length` is at least three. With a
  maximum of two the loop of `Master/Python/flow.py:32` goes on until the first sub-path is a single node without a
  hop, and with one it does not end.
* What the Python code signals by raising is a Boolean or a variant of a result datatype.
* Pointers into static arenas are offsets, indices or -1 for NULL. 8-bit counters that wrap are written out.
* Block cipher, buffer sizes and alignment are parameters or constants without a fixed value.
* Lists and dictionaries that methods update are fields of type `seq` and `map`.

## Where the code differs from what one might expect

* The sub-flow loop (`Master/Python/flow.py:32`) gives the least possible number of sub-flows if and only if one less
  than the maximum length does not divide the number of hops; if it does, a split with one sub-flow fewer exists
  (`SubFlows.CountIsLeastUnlessDivisible`, and five nodes with a maximum of three in `SubFlows.FiveNodesTakeThree`).
* The 8-bit position in `os/lib/ccm-star.c` makes the loops end exactly for messages of at most 240 bytes and
  additional data of at most 254 bytes (`CcmStar.LoopEndsExactly`).
* An upload closes with an empty line, which the loader takes for the beginning of a message with whatever the buffer
  still holds. A file of more than 39 bytes has stopped the loader by then; a shorter one has not, and the empty line
  appends leftover bytes. Flash ends with exactly the file if and only if the file has more than 39 bytes, is empty or
  starts with a zero byte (`Upload.UploadArrives`); the file 05 ends as 05 55 (`Upload.ShortFileIsSpoiled`). Schedule
  files of at least one node are always long enough (`Deployment.FileIsBytes`).
* The file carries the slotframe length after it was raised to the minimum and made odd, so the length byte alone does
  not tell schedules of 4 and 5 timeslots apart (`BeaconWriter.SlotframeLength`). The records do: equal files place
  equal cells (`Uniqueness.FileDeterminesSchedule`).
* The reader on the motes always expects the two tables of first and last slots, which the writer leaves out when
  retransmissions by time to live are off. All nodes find their records if and only if the tables are there
  (`BeaconWriter.ReadBackExactlyWithTables`); in the file of a schedule with one hop, one node finds nothing and the
  other a record without links (`Beacon.OneHopIsMisread`).
* A SLIP frame that arrives before the one before it was polled is stranded: its opening END is stored like a byte, so
  that the first poll makes an empty packet of it (`Slip.SecondFrameIsStranded`, for every two frames that fit).
* Key 0 marks empty slots of the hash map. Looking it up finds nothing, and storing it succeeds but counts an entry
  that no slot holds, which breaks the table (`HashMap.HashTable.Insert`).

## Model

| member | source | states |
|---|---|---|
| `PriorityDictionary.RootIsLeast` | Master/Python/priodict.py:20-33 | in every heap-ordered array the pair at the root is at most every other pair, by value and then key |
| `PriorityDictionary.CoveredRootIsLeastKey` | Master/Python/priodict.py:20-33 | when the root of a heap that covers all current entries is itself current, its key is the least key of the dictionary, however many stale pairs the heap holds |
| `PriorityDictionary.SinkLast` | Master/Python/priodict.py:21-32 | the sift-down loop that replaces the root by the last pair keeps heap order and loses exactly the old root |
| `PriorityDictionary.Raise` | Master/Python/priodict.py:54-61 | the sift-up loop keeps heap order and adds exactly the new pair |
| `PriorityDictionary.SortedItems` | Master/Python/priodict.py:50-52 | a rebuild holds exactly the current entries, sorted, which is a heap |
| `PriorityDictionary.PriorityDictionary.Smallest` | Master/Python/priodict.py:15-33 | returns the key of the least (value, key) pair of the current dictionary, which is unchanged; it is absent exactly when the dictionary is empty |
| `PriorityDictionary.PriorityDictionary.SetItem` | Master/Python/priodict.py:44-61 | the dictionary gains exactly the new entry and the lazy heap still covers every entry and holds at most 2n + 1 pairs for n entries, on both the rebuild and the sift-up path |
| `PriorityDictionary.PriorityDictionary.Remove` | Master/Python/priodict.py:35-42 | deleting an entry leaves the heap alone and the other entries covered |
| `ShortestPath.Frontier` | Master/Python/dijkstra.py:48-71 | every path to a vertex that is not final crosses the queue at a cost at least that of the crossing point |
| `ShortestPath.PopIsMinimal` | Master/Python/dijkstra.py:53-56 | with non-negative weights the popped vertex has its least cost |
| `ShortestPath.PopComesBefore` | Master/Python/dijkstra.py:53-56 | with positive weights a popped vertex comes before every vertex that is left, by (distance, key) |
| `ShortestPath.EndPopped` | Master/Python/dijkstra.py:55-56 | when the end is popped its cost is minimal and all vertices that come before it are in the graph |
| `ShortestPath.DeadEndPopped` | Master/Python/dijkstra.py:60-61 | a vertex without entry that is popped comes before the end in the (distance, key) order |
| `ShortestPath.Exhausted` | Master/Python/dijkstra.py:53-71 | when the queue runs empty without the end, the end cannot be reached |
| `ShortestPath.PopKeeps` | Master/Python/dijkstra.py:53-54 | moving the least vertex from the queue to the final distances keeps the search invariant |
| `ShortestPath.RelaxKeeps` | Master/Python/dijkstra.py:62-69 | lowering a distance and setting the predecessor keeps the search invariant |
| `ShortestPath.TreePathIsShortRoute` | Master/Python/dijkstra.py:85-91 | walking predecessors gives a simple path from the start whose cost is the recorded distance |
| `ShortestPath.ExpandVertex` | Master/Python/dijkstra.py:62-69 | the loop over the neighbours relaxes every edge of the vertex, and raises only if a weight is negative |
| `ShortestPath.Dijkstra` | Master/Python/dijkstra.py:8-71 | ends for every graph with a tree of final distances that contains the end or has exhausted the graph, or with the reason for which it raises |
| `ShortestPath.ReadPath` | Master/Python/dijkstra.py:84-92 | the walk over the predecessors ends and yields the tree path from start to end |
| `ShortestPath.ShortestPath` | Master/Python/dijkstra.py:74-92 | a returned path is a simple path from start to end whose cost is the returned one and, for non-negative weights, minimal over all paths; for positive weights each of its vertices is the first, by distance and key, from which the next one is reached at its cost; the better-path error needs a negative weight, a missing end means that it cannot be reached, a missing vertex is one that can be reached (for positive weights, before the end) |
| `ShortestPath.RouteIsUnique` | Master/Python/dijkstra.py:53-91 | for positive weights the contract leaves one path only, also among several cheapest ones |
| `ShortestPath.RelaxEarliest` | Master/Python/dijkstra.py:67-69 | a predecessor is replaced only for a smaller distance, so it is the first of all that reach the vertex at that distance |
| `ShortestPath.TreePathIsCanonical` | Master/Python/dijkstra.py:85-91 | the path read off the tree is that one |
| `ShortestPath.FoundExactlyUnlessBlocked` | Master/Python/dijkstra.py:74-92 | for positive weights a path is found if and only if the end can be reached and no vertex without entry comes before it in the (distance, key) order |
| `SubFlows.CeilDivSpec` | Master/Python/flow.py:32-34 | ceil(a / b) is at most k exactly when a is at most k times b |
| `SubFlows.CountSubFlows` | Master/Python/flow.py:30-34 | the loop ends with the least count of at least two whose share is below the maximum length |
| `SubFlows.CountArithmetic` | Master/Python/flow.py:32-41 | with that count every share has at least two nodes, and the shares cover the path with none left empty |
| `SubFlows.SplitPath` | Master/Python/flow.py:29-42 | for every path the sub-paths have between 2 and the maximum number of nodes, consecutive ones overlap in exactly one node, joined they are the path, their number is the one of the loop, and all but the last take the same share |
| `SubFlows.EvenSplitIsUnique` | Master/Python/flow.py:29-42 | there is only one such split of a path |
| `SubFlows.JoinedLength` | Master/Python/flow.py:39-42 | any such split of a path into k sub-paths has more than k and at most k * (max - 1) + 1 nodes |
| `SubFlows.SplitNeeds` | Master/Python/flow.py:30-42 | no split of a path has fewer than ceil(hops / (max - 1)) sub-paths |
| `SubFlows.GreedySplits` | Master/Python/flow.py:30-42 | cutting full sub-paths off the end is a split of every path |
| `SubFlows.GreedyIsLeast` | Master/Python/flow.py:30-42 | that split attains the bound |
| `SubFlows.CountIsLeastUnlessDivisible` | Master/Python/flow.py:30-34 | the count of the loop is the least of all splits if and only if (max - 1) does not divide the number of hops; if it does, a split with exactly one sub-path fewer exists, and none has fewer |
| `SubFlows.FiveNodesTakeThree` | Master/Python/flow.py:30-34 | five nodes with at most three in a sub-path split into two, where the loop takes three |
| `SubFlows.SubPathsArePaths` | Master/Python/flow.py:44-53 | the parts of a path in a graph are paths in that graph |
| `SubFlows.CostsAddUp` | Master/Python/flow.py:44-53 | the costs of the sub-flows sum up to the cost of the path |
| `Windows.EtxSumsAtLeastHops` | Master/Python/flow.py:69-84 | with ETX at least one, the hop count is at most the cost, which is at most the sum of rounded-up link costs |
| `Windows.CeilIsLeast` | Master/Python/flow.py:69-84 | rounding up gives the least integer that is not below the number, and nothing else |
| `Windows.CeilSumIs` | Master/Python/flow.py:76-84 | the sum over the links is the sum of the least integers that are not below their ETX |
| `Windows.SlotsCoverHops` | Master/Python/flow.py:86-96 | under every algorithm the window leaves at least one cell per hop |
| `Windows.CalculateWindowSize` | Master/Python/flow.py:56-96 | a usable fixed size is taken as it is and a size below two is refused; otherwise the number of cells is, by algorithm, the least integer not below one, two or three times the ETX of the sub-path, or one, two or three times the sum of the rounded-up ETX of its links, and the window is at least two |
| `Windows.AskedOnce` | Master/Python/flow.py:68-96 | each algorithm asks for one number of cells only |
| `Windows.InsertParticipant` | Master/Python/flow.py:125-135 | appends the node to exactly the lists of its insertion range |
| `Windows.FillWindow` | Master/Python/flow.py:123-137 | the participant lists are, cell by cell, at most w consecutive nodes of the sub-path that move on by one node per cell, and the transmission counts are the lengths of the insertion ranges |
| `Windows.AssignedSender` | Master/Python/flow.py:126-133 | in a sub-path of different nodes every sender ends up with its own count |
| `Cells.Cell.SetScheduleAttributes` | Master/Python/cell.py:9-11 | a cell takes the timeslot and channel and changes nothing else |
| `Cells.HopEtxIsLeast` | Master/Python/flow.py:116 | the number of cells of a link is the least integer not below its ETX |
| `Cells.WindowCellsAlong` | Master/Python/flow.py:123-137 | window cells are runs of the sub-path from its first node to its last, each sharing a node with the next |
| `Cells.LinkCellsAlong` | Master/Python/flow.py:112-119 | the same for the cells that repeat each link |
| `Cells.BlockAlong` | Master/Python/flow.py:103-137 | the same for all three strategies |
| `Cells.FlowCellsAlong` | Master/Python/flow.py:103-138 | because sub-paths overlap in a node, consecutive cells of the whole flow share a node, from source to destination |
| `Flows.PoweredIsPositive` | Master/Python/flow.py:19-24 | raising weights of at least one to any power keeps them positive |
| `Flows.PowerAdds` | Master/Python/flow.py:23-24 | exponents add up |
| `Flows.PowerOne` | Master/Python/flow.py:23-24 | powers with exponents 0, 1 and 2 |
| `Flows.PowerGrows` | Master/Python/flow.py:23-24 | a larger weight has a larger power |
| `Flows.PoweredEdges` | Master/Python/flow.py:20-24 | the powered graph has the same edges, each with the power of its weight |
| `Flows.Flow.CheapestMeans` | Master/Python/flow.py:19-26 | with power 1 the path has the least ETX in the graph itself, with power 0 the fewest hops |
| `Flows.PathIsDetermined` | Master/Python/flow.py:19-42 | graph, ends, power and maximum length determine the sub-paths |
| `Flows.HopCells` | Master/Python/flow.py:106-111 | one cell per hop, as a window of size two would give, and one transmission per sender |
| `Flows.EtxCells` | Master/Python/flow.py:112-119 | as many cells per hop as its rounded-up ETX, and as many transmissions |
| `Flows.MakeCells` | Master/Python/flow.py:136-137 | new, different cell objects of the flow with the given participants in order |
| `Flows.PathCost` | Master/Python/flow.py:47-53 | the loop computes the cost of a path |
| `Flows.Flow.ComputePath` | Master/Python/flow.py:19-53 | sets the even split of a simple source-to-destination path that is cheapest under the powered weights, of least ETX for power 1, with the ETX cost of every part; fails exactly if the destination cannot be reached or a node without entry comes before it in the search |
| `Flows.Flow.CreateCells` | Master/Python/flow.py:98-138 | sets the cells and transmission counts of the strategy for all sub-paths in order, with the fixed or computed window size for each; fails exactly for a window size that raises, or without a path |
| `Flows.Flow.CellsAlong` | Master/Python/flow.py:98-138 | the cells of a flow lie along its path |
| `Grids.PutKeeps` | Master/Python/scheduling.py:62-66 | placing a cell in the first free channel of a schedulable slot keeps: every placed cell exactly once, no position with two cells, no node in two cells of a slot, occupied slots and channels a prefix |
| `Grids.SchedulableIs` | Master/Python/scheduling.py:22-34 | a slot takes a cell exactly if some channel holds no placed cell there and no participant is in a cell placed there |
| `Grids.FirstFitIsOne` | Master/Python/scheduling.py:60-64 | there is only one first-fit position |
| `Grids.ReverseRow` | Master/Python/scheduling.py:69-74 | the cut and the in-place swap loop give the reverse of the used part |
| `Grids.ReversalKeeps` | Master/Python/scheduling.py:68-74 | reversal keeps freedom of conflicts and compactness, and mirrors every timeslot |
| `Scheduling.Schedule.AvailableChannelInSlot` | Master/Python/scheduling.py:16-20 | the first free channel, or 0 if there is none |
| `Scheduling.Schedule.SchedulableInSlot` | Master/Python/scheduling.py:22-34 | true exactly if some channel is free and no participant is used in the slot |
| `Scheduling.Schedule.TopTakesAll` | Master/Python/scheduling.py:59-61 | the first empty timeslot takes every cell, so the search stays in the grid |
| `Scheduling.Schedule.FindSlot` | Master/Python/scheduling.py:60-61 | the search ends at the first slot from the start on that takes the cell, at most the first empty one |
| `Scheduling.Schedule.PlaceCell` | Master/Python/scheduling.py:60-66 | the cell goes to the first slot from the start on that takes it, and to the first free channel there, and the grid invariant is kept |
| `Scheduling.Schedule.SharedNodeBlocks` | Master/Python/scheduling.py:59-64 | a cell that shares a node with the next cell of its flow cannot go into that cell's slot, although the index is not incremented |
| `Scheduling.Schedule.PlaceFlow` | Master/Python/scheduling.py:56-66 | each cell goes to its first-fit position from the slot of the next cell on, so slots strictly decrease from the last cell to the first; other cells stay where they are |
| `Scheduling.Schedule.PlaceAll` | Master/Python/scheduling.py:53-66 | after the loop over the flows every cell is where first fit puts it given the flows before its own and the later cells of its own, and every flow is in order |
| `Scheduling.Schedule.OrderFlowsDecreasing` | Master/Python/scheduling.py:13-14 | a stable sort by decreasing length, which permutes the flows |
| `Scheduling.StableSort` | Master/Python/scheduling.py:13-14 | the order is a permutation, longer first, equal lengths in their old order |
| `Scheduling.AscendingNeedsRoom` | Master/Python/scheduling.py:44-74 | strictly increasing timeslots below n leave room for at most n cells |
| `Scheduling.TimetableFromPlacing` | Master/Python/scheduling.py:68-79 | reversal turns the placing into a timetable: compact, free of conflicts, all cells once, every flow with strictly increasing timeslots, length between the longest flow and the number of cells |
| `Scheduling.FirstFitDetermines` | Master/Python/scheduling.py:53-66 | flows in their order and the number of channels determine the positions of all cells |
| `Scheduling.TimetableIsDetermined` | Master/Python/scheduling.py:53-79 | two such timetables of the same lists in the same number of channels have the same length and the same grid |
| `Scheduling.Schedule.StampCells` | Master/Python/scheduling.py:75-79 | every cell learns its own timeslot and channel |
| `Scheduling.Schedule.RunRlpf` | Master/Python/scheduling.py:53-79 | the scheduling loop ends inside the preallocated grid and yields a timetable that, read backwards, is the first-fit placing, unless there is no cell |
| `Scheduling.Schedule.Create` | Master/Python/scheduling.py:36-79 | succeeds exactly if there is a flow, the window size is usable and the path search of no flow is blocked; success orders the flows stably by decreasing length and gives a timetable of all their cells in the given number of channels that, read backwards, places them by first fit in that order, with cheapest paths and computed window sizes |
| `Delivery.ForwardInWindow` | Master/Python/flow.py:123-137 | in cell j of a window a holder in reach hands the packet to the next node of the sub-path |
| `Delivery.WindowProgress` | Master/Python/flow.py:123-137 | after j cells with l losses the packet is at node j - l of the sub-path, or at its end |
| `Delivery.WindowDelivers` | Master/Python/flow.py:123-137 | with at most w - 2 losses the cells of a sub-flow carry the packet to its last node |
| `Delivery.WindowIsTight` | Master/Python/flow.py:123-137 | if the first w - 1 cells fail, the packet never leaves the source |
| `Delivery.BlockInFlow` | Master/Python/flow.py:103-138 | where the cells of a sub-flow are among the cells of the flow |
| `Delivery.FlowDelivers` | Master/Python/flow.py:39-42 | if every sub-flow loses at most its window size minus two of its own cells, the cells of the flow carry the packet from source to destination |
| `Delivery.StartIsOffset` | Master/Python/flow.py:103-138 | the cells of a sub-flow start where the hops and windows of the sub-flows before it end |
| `Delivery.StartsFit` | Master/Python/flow.py:103-138 | these starts lie among the cells of the flow, so the tolerance asks for nothing but few losses |
| `Delivery.ToleranceIs` | Master/Python/flow.py:56-138 | losing at most the computed window size minus two in every sub-flow is exactly what the cells of the flow can stand |
| `EndToEnd.SlotHasOneStep` | Master/Python/scheduling.py:53-79 | in one timeslot a packet of a flow moves by at most the one cell of its flow |
| `EndToEnd.PassIsRelay` | Master/Python/scheduling.py:53-79 | a pass over the timeslots of the whole grid is the relay over the cells of the flow in flow order |
| `EndToEnd.Delivered` | Master/Python/scheduling.py:36-79 | for every finished sliding-window schedule, every flow and every set of failed positions of which each sub-flow loses at most its fixed or computed window size minus two, one pass over the grid brings the packet from source to destination |
| `Transmissions.WindowSends` | Master/Python/flow.py:125-135 | the number of window cells in which a node can send is the count that is recorded for it |
| `Transmissions.BlockSends` | Master/Python/flow.py:106-135 | the same for all three strategies |
| `Transmissions.MaxTransmissionsAreSendingCells` | Master/Python/flow.py:103-137 | over the whole flow, with nodes that end one sub-flow and start the next, `max_transmissions[v]` is the number of cells in which v can send, for every node of the path but the last |
| `Transmissions.PathNodeSends` | Master/Python/flow.py:103-137 | every path node but the last has a cell in which it can send |
| `Links.GetNodeSchedule` | Master/Python/scheduling.py:81-93 | exactly the asked nodes that take part somewhere, each with its cells by timeslot and channel, and the keys in the order in which the grid, by timeslot, channel and participant, first meets them |
| `Links.EnteredByMeeting` | Master/Python/scheduling.py:81-93 | the order of insertion holds the asked nodes that are met, each once, and each before those met first after it |
| `Links.SlotHasOneCell` | Master/Python/scheduling.py:81-93 | a node has at most one cell in a timeslot |
| `Links.NodeCellsAscend` | Master/Python/scheduling.py:81-93 | the cells of a node have strictly increasing timeslots |
| `Links.NodeCellsComplete` | Master/Python/scheduling.py:81-93 | every placed cell with the node is in its list |
| `Forwarding.SenderLink` | Master/Python/scheduling_contiki.py:110-118 | exactly the participants but the last have a sending link, which names the participant after them, exactly those but the first have a receiving link, and the last names the one before it |
| `Forwarding.InsertKeeps` | Master/Python/scheduling_contiki.py:122 | inserting a link keeps the order by (neighbour, timeslot) and adds exactly that link |
| `Forwarding.SortedListOfLinks` | Master/Python/scheduling_contiki.py:105-123 | a permutation of the links of the node's cells, sorted by (neighbour, timeslot) |
| `Forwarding.SortedMeans` | Master/Python/scheduling_contiki.py:122 | in the sorted list neighbours never decrease, and timeslots never decrease among links of one neighbour |
| `Forwarding.LinkOfCell` | Master/Python/scheduling_contiki.py:105-123 | the link list of a node has a link for each placed cell with the node |
| `Forwarding.CellOfLink` | Master/Python/scheduling_contiki.py:105-123 | each link of the list comes from such a cell |
| `Forwarding.LinksAreConsistent` | Master/Python/scheduling_contiki.py:105-123 | for every placed cell and adjacent participants a and b of it, the list of a has a sending link that names b and the list of b a receiving link, both in the timeslot and channel of the cell and with its flow |
| `Forwarding.OneLinkPerSlot` | Master/Python/scheduling_contiki.py:105-123 | no two links of a node are in the same timeslot |
| `Forwarding.BuildForwardTo` | Master/Python/scheduling_contiki.py:414-422 | drops repeated (flow, neighbour) pairs and keeps the last pair of each flow |
| `Forwarding.ForwardToIsBuilt` | Master/Python/scheduling_contiki.py:414-422 | on links sorted by neighbour, dropping repeated pairs first gives the same dictionary as taking the last sending link of each flow |
| `Forwarding.SendsToNextHop` | Master/Python/scheduling_contiki.py:107-120 | a sending link of path node p in a cell of the flow names path node p + 1 |
| `Forwarding.LinksNameNextHop` | Master/Python/scheduling_contiki.py:105-123 | all sending links of a path node for one flow name the same neighbour, its next hop |
| `Forwarding.ForwardsToNextHop` | Master/Python/scheduling_contiki.py:414-422 | the forwarding table of path node p has an entry for the flow, and it is path node p + 1 |
| `Forwarding.WalkFollowsPath` | Master/Python/scheduling_contiki.py:414-432 | following `forward_to` k times from the source is at node k of the path, and at the destination at its end |
| `TimeSource.NextHopIsCloser` | Master/Python/scheduling_contiki.py:72-78 | the next hop of a node has a strictly smaller distance to the root |
| `TimeSource.RestrictedEdges` | Master/Python/scheduling_contiki.py:65-71 | the graph of the scheduled nodes has exactly the edges between them, with squared weights, and no entry without an edge |
| `TimeSource.HopUnlessBlocked` | Master/Python/scheduling_contiki.py:72-78 | for positive weights the search of a node fails exactly if it is blocked |
| `TimeSource.HopIsUnique` | Master/Python/scheduling_contiki.py:72-78 | for positive weights a node has one next hop only |
| `TimeSource.NextHopDoesNotFail` | Master/Python/scheduling_contiki.py:72-78 | the search from the next hop of a found path does not raise; this rests on the (distance, key) order of the heap |
| `TimeSource.MissingVertexComesFirst` | Master/Python/scheduling_contiki.py:72-78 | a vertex without entry that would stop the search from the next hop would have stopped the search from the node |
| `TimeSource.DescendingLeads` | Master/Python/scheduling_contiki.py:57-97 | entries that descend in distance, or lead into nodes that are done, lead to the root |
| `TimeSource.ScheduledHops` | Master/Python/scheduling_contiki.py:72-78 | every scheduled node has its next hop in the graph of scheduled nodes or is collected as failed |
| `TimeSource.RemainingHops` | Master/Python/scheduling_contiki.py:94-97 | every other node has its next hop in the whole graph; the method fails only if the search of some node fails |
| `TimeSource.TimeSources.FirstRound` | Master/Python/scheduling_contiki.py:58-86 | if the root is scheduled, every scheduled node has its next hop in the graph of the scheduled nodes or its search there fails; these and all nodes that are not scheduled are left |
| `TimeSource.TimeSources.GetTimesourceForNodes` | Master/Python/scheduling_contiki.py:57-97 | on success every node but the root has an entry: the second node of a cheapest path in the graph of the scheduled nodes if node and root are scheduled and that search is not blocked, in the whole graph otherwise; for positive weights it fails exactly if some node has neither; with all vertices known, following entries from any node reaches the root |
| `Beacon.EncodedParses` | os/net/master-routing/master-schedule.c:208-237 | an encoded record in front of any bytes is parsed as that record, leaving those bytes |
| `Beacon.FindsRecord` | os/net/master-routing/master-schedule.c:208-253 | the search for a node finds the first record that was written for it, and nothing if there is none |
| `Beacon.RecordsAreUnique` | Master/Python/scheduling_contiki.py:370-450 | two lists of records with the same bytes are the same |
| `Beacon.ConfigRoundTrip` | Master/Python/scheduling_contiki.py:321-368 | the configuration part is read back as it was written |
| `Beacon.FileIsUniquelyDecodable` | Master/Python/scheduling_contiki.py:321-450 | the bytes of two files are equal exactly if their configurations and records are; what this means for schedules is `Uniqueness.FileDeterminesSchedule` |
| `Beacon.ReadRecord` | os/net/master-routing/master-schedule.c:209-245 | the bytes read are the bytes asked for exactly if a whole record is left, and then the record is the parsed one |
| `Beacon.ReadFromFlashById` | os/net/master-routing/master-schedule.c:167-260 | succeeds exactly if the file has a configuration and a record of the node before any cut-off record, and returns both |
| `Beacon.NodeReadsOwnRecord` | os/net/master-routing/master-schedule.c:167-260 | in a file whose records have different ids every node finds its own |
| `Beacon.ShortFileIsMisread` | os/net/master-routing/master-schedule.c:184-206 | of a file without slot tables the reader takes the first sixteen record bytes for the tables and starts to search inside the records |
| `Beacon.FoundFits` | os/net/master-routing/master-schedule.c:208-253 | records with different ids that are all found take up at least their total length |
| `Beacon.ShortFileLosesRecords` | os/net/master-routing/master-schedule.c:167-260 | so in a file without slot tables at least one of the records, if they have sixteen bytes at all, is not found |
| `Beacon.ShortFileIsUniquelyDecodable` | Master/Python/scheduling_contiki.py:349-450 | the records of a file without slot tables are determined by its bytes |
| `Beacon.OneHopIsMisread` | os/net/master-routing/master-schedule.c:167-260 | in the file of a one-hop schedule without slot tables the sender is not found and the receiver gets a record without links |
| `BeaconWriter.FindNumber` | Master/Python/scheduling.py:106-110 | the first flow with the number, or none |
| `BeaconWriter.FindSource` | Master/Python/scheduling_contiki.py:99-103 | the first flow that starts at the node, or none |
| `BeaconWriter.EntriesAre` | Master/Python/scheduling_contiki.py:326-347 | with different flow numbers the inner loop writes at most one byte per number |
| `BeaconWriter.WriteTable` | Master/Python/scheduling_contiki.py:326-368 | eight bytes, for each flow number the value of its flow or 0 |
| `BeaconWriter.SlotframeLength` | Master/Python/scheduling_contiki.py:314-319 | odd, at least the schedule length and the minimum, and at most one above the larger |
| `BeaconWriter.WriteLinks` | Master/Python/scheduling_contiki.py:392-417 | four bytes per link in order, the pairs for the forwarding table, and the flows in which the node sends |
| `BeaconWriter.WriteForwards` | Master/Python/scheduling_contiki.py:423-431 | for each flow number the next hop from the forwarding table or 0 |
| `BeaconWriter.WriteMaxima` | Master/Python/scheduling_contiki.py:436-448 | for each flow in which the node sends its transmission count, else 0 |
| `BeaconWriter.WriteNode` | Master/Python/scheduling_contiki.py:371-448 | the bytes are the encoded record of the node |
| `BeaconWriter.Generate` | Master/Python/scheduling_contiki.py:303-451 | the bytes are the encoded configuration, with the slot tables exactly if retransmissions by time to live are on, and the records |
| `BeaconWriter.NodeReadsBack` | Master/Python/scheduling_contiki.py:303-451 | every node with an id below 256 reads back its own record and the common configuration from the generated file with slot tables |
| `BeaconWriter.ReadBackExactlyWithTables` | Master/Python/scheduling_contiki.py:349-368 | for every schedule with a node, all nodes read back their records if and only if the slot tables are written |
| `Motes.FlowsAreKnown` | Master/Python/scheduling_contiki.py:436-441 | every sending link of a schedule belongs to one of its flows, so the look-up of the flow succeeds |
| `Motes.ConfigTells` | Master/Python/scheduling_contiki.py:326-368 | the tables of the configuration hold under the number of a flow its source and destination and the timeslots of its first and last cell; the number of flows is written, and the slotframe length is odd, at least the slots and the minimum, and at most one more than one of the two |
| `Motes.ReadsNextHop` | os/net/master-routing/master-schedule.c:331-334 | `get_forward_dest` of the record that a path node reads is the next node of the path |
| `Motes.MotesFollowPath` | os/net/master-routing/master-schedule.c:331-334 | following `get_forward_dest` from mote to mote goes along the path of the flow to the destination |
| `Motes.ReadsMaxTransmissions` | os/net/master-routing/master-schedule.c:336-339 | `get_max_transmissions` of that record is the transmission count of the node in the flow, as a byte |
| `Motes.ReadsOwnFlow` | Master/Python/scheduling_contiki.py:372-383 | a source reads the number and destination of its first flow, any other node zeros |
| `Uniqueness.NextInCell` | Master/Python/scheduling_contiki.py:414-422 | the forwarding table of a participant of a placed cell names the participant after it |
| `Uniqueness.OptionSays` | Master/Python/scheduling_contiki.py:110-118 | the option of a link tells whether its node is the first or the last of the cell |
| `Uniqueness.ViewIsExplained` | Master/Python/scheduling_contiki.py:105-123 | the written links are exactly those of what the schedule places at its positions |
| `Uniqueness.SameUpTo` | Master/Python/scheduling_contiki.py:370-450 | records with the same bytes have, at each position, the same participants in the same order |
| `Uniqueness.FileDeterminesSchedule` | Master/Python/scheduling_contiki.py:303-451 | two schedules with values below 256 and all participants written, whose files are equal, place the same flows and participants at the same positions, with or without the slot tables |
| `SerialLine.StreamIsAssembled` | os/dev/serial-line.c:130-178 | lines of fewer than 128 bytes without line ends or ignored bytes come out as they went in |
| `SerialLine.LongLinesAreCut` | os/dev/serial-line.c:136-146 | lines of any length come out in order, each cut to its first 127 bytes |
| `SerialLine.SerialDriver.InputByte` | os/dev/serial-line.c:93-118 | exactly which bytes enter the ring: all with room but the ignored one, and after an overflow only a line end; the overflow flag is set exactly when a byte is refused and cleared when one is taken |
| `SerialLine.SerialDriver.ProcessByte` | os/dev/serial-line.c:130-178 | takes exactly the oldest byte, adds it to the line if it fits, and posts the line at a line end |
| `SerialLine.SerialDriver.AllLinesArrive` | os/dev/serial-line.c:93-178 | however inputs and process turns are interleaved, once the ring is empty all lines are there, if no byte was refused |
| `Upload.DigitsAre` | Master/Python/upload_schedule.py:13-27 | the digits are 0 to 9 and A to F |
| `Upload.HexRoundTrip` | Master/Python/upload_schedule.py:13-27 | for all 256 values the mote's decoding of the two digits is the byte |
| `Upload.FromHexOfHex` | os/dev/serial-line.c:64-92 | decoding the digits of any bytes gives the bytes |
| `Upload.ToAscii` | Master/Python/upload_schedule.py:42-45 | the digits of all bytes in order |
| `Upload.ReadNext` | Master/Python/upload_schedule.py:50-58 | the next chunk with its prefix, or nothing at the end of the file |
| `Upload.UploadSchedule` | Master/Python/upload_schedule.py:29-63 | the lines are the chunks of 39 bytes with their prefixes, followed by an empty line |
| `Upload.EndsExactlyWhenLong` | Master/Python/upload_schedule.py:39-58 | the first line begins, lines between continue, and a line ends the message exactly if the file is longer than 39 bytes, and then it is the last |
| `Upload.WriteToFlash` | os/net/master-routing/master-schedule.c:86-107 | decoding in place, the bytes over the digits, appends exactly the decoded bytes and leaves the buffer as the later lines find it |
| `Upload.HandleLine` | os/net/master-routing/master-schedule.c:270-304 | a line with a known prefix is decoded to flash, the ending one stops the loader, others are ignored; an empty line is a beginning one whose data is what the buffer still holds |
| `Upload.LoadsUpTo` | os/net/master-routing/master-schedule.c:270-304 | after k lines of an upload the flash holds the first k chunks of the file, whatever the buffer held before |
| `Upload.EmptyLineAfterShort` | os/net/master-routing/master-schedule.c:270-304 | after a file that took one line the empty line leaves the flash alone exactly if the file is empty or starts with a zero, and otherwise appends to it |
| `Upload.ShortFileIsSpoiled` | os/net/master-routing/master-schedule.c:270-304 | the file 05 is stored as 05 55 |
| `Upload.UploadArrives` | Master/Python/upload_schedule.py:29-63 | after all lines of an upload without loss on the serial line the flash starts with the file, the loader has stopped exactly if the file is longer than 39 bytes, and the flash is exactly the file if and only if it is that long, empty or starts with a zero |
| `Upload.HandleLines` | os/net/master-routing/master-schedule.c:270-304 | the loop over the lines, in one buffer that is filled and decoded in place, is the reaction line by line |
| `Upload.SendLines` | os/dev/serial-line.c:93-178 | lines go through the ring and the process without loss |
| `Upload.Transfer` | Master/Python/upload_schedule.py:29-63 | sending and loading a file of more than 39 bytes ends with exactly the file in flash and the loader stopped |
| `Deployment.FileIsBytes` | Master/Python/scheduling_contiki.py:303-451 | what the writer produces are bytes, and with at least one node more than one line |
| `Deployment.UploadedFileIsRead` | os/net/master-routing/master-schedule.c:167-260 | after all lines of an upload without loss the loader has stopped and every node finds its record and the configuration in flash |
| `Deployment.CollectInfos` | Master/Python/scheduling_contiki.py:321-368 | what the writer reads of the flows: number, source, destination, timeslots of the first and last cell, and transmission counts |
| `Deployment.CollectLinks` | Master/Python/scheduling_contiki.py:370-392 | exactly the asked nodes that take part, each once and with its sorted list of links, of which there are no more than timeslots |
| `Deployment.CollectedIsWritable` | Master/Python/scheduling_contiki.py:303-451 | what is collected from a finished schedule meets all that the writer needs |
| `Deployment.PathIsCollected` | Master/Python/scheduling_contiki.py:370-392 | every node of every path has a record |
| `Deployment.MotesMeet` | os/net/master-routing/master-schedule.c:208-253 | by the records that they read, adjacent participants of a placed cell have a sending and a receiving link of its flow at its timeslot and channel |
| `Deployment.Deploy` | Master/Python/scheduling_contiki.py:303-451 | links, file and upload of a finished schedule whose values fit in bytes leave its file in flash, by which the motes hand packets of every flow along its path to the destination and meet in every cell |
| `Deployment.Journey` | os/net/master-routing/master-schedule.c:331-334 | reading the own record and handing the packet on, mote by mote, is the walk by the file |
| `Deployment.Run` | Master/Python/scheduling.py:36-79 | from the ETX graphs to the flash: succeeds exactly if scheduling does and the schedule has at most 255 timeslots, and then packets of every flow travel from mote to mote along a cheapest path from its source to its destination, adjacent participants meet in every cell, and the schedule is the first-fit one of the flows from the longest on |
| `HeapMem.Heap.ExtendSpace` | os/lib/heapmem.c:154-167 | grows the footprint exactly if it stays in the arena |
| `HeapMem.Align` | os/lib/heapmem.c:104-105 | the least multiple of the alignment that is not below the size |
| `HeapMem.AlignTwice` | os/lib/heapmem.c:323-441 | aligning an aligned size changes nothing |
| `HeapMem.Heap.FreeChunk` | os/lib/heapmem.c:169-187 | gives the last chunk back to the unused part or puts the chunk in front of the free list, and nothing else; the invariant holds, no byte of another live allocation changes, and nothing becomes live |
| `HeapMem.Heap.AllocateChunk` | os/lib/heapmem.c:189-208 | unlinks exactly this chunk from the doubly linked list, wherever it is |
| `HeapMem.Heap.SplitChunk` | os/lib/heapmem.c:210-231 | cuts the chunk exactly if header and rest fit, keeps its kept bytes and everything else, and leaves nothing else live |
| `HeapMem.Heap.CoalesceChunks` | os/lib/heapmem.c:233-246 | merges all free chunks behind the chunk, keeps its bytes and every other live allocation |
| `HeapMem.Heap.DefragChunks` | os/lib/heapmem.c:248-264 | at most SEARCH_MAX listed chunks grow, each by swallowing the free chunks behind it, and the live ones stay; if the free list is within the search limit, afterwards no two adjacent chunks are free |
| `HeapMem.Heap.FindBest` | os/lib/heapmem.c:277-298 | the first of the smallest fitting chunks among the first SEARCH_MAX entries of the free list, or none if none of them fits |
| `HeapMem.Heap.GetFreeChunk` | os/lib/heapmem.c:266-307 | takes a smallest fitting merged chunk and cuts it to the request where it can be cut |
| `HeapMem.Heap.Alloc` | os/lib/heapmem.c:323-353 | a new live chunk of at least the aligned size and at most a header more, all live allocations unchanged and no other; within the search limit NULL exactly if no run of adjacent free chunks and no unused tail fits, and otherwise a smallest fitting merged chunk is taken |
| `HeapMem.Heap.Free` | os/lib/heapmem.c:367-384 | the chunk is not live any more, all others are unchanged, nothing becomes live; NULL does nothing |
| `HeapMem.Heap.ResizeInPlace` | os/lib/heapmem.c:435-466 | succeeds exactly if the chunk is large enough, is last and can be extended, or is large enough together with the free chunks behind it, with the contents kept; otherwise the object is intact and there is room elsewhere exactly if there was before |
| `HeapMem.Heap.GrowByCoalescing` | os/lib/heapmem.c:452-466 | absorbs all free chunks behind the chunk, which is enough exactly if they reach the size |
| `HeapMem.Heap.Move` | os/lib/heapmem.c:474-482 | copies the object to a new chunk and frees the old one, or leaves it intact; within the search limit exactly if there is no room |
| `HeapMem.Heap.Realloc` | os/lib/heapmem.c:403-483 | keeps the first min(old, new) bytes on every path; the object stays in place exactly if it fits there; within the search limit NULL for a non-zero size exactly if it does not and there is no room elsewhere, and then the old object is live and intact; no byte of any other live allocation changes and nothing else becomes live |
| `HeapMem.Heap.Stats` | os/lib/heapmem.c:486-508 | allocated plus available plus overhead is the arena size, allocated is the sum of the live sizes, and the chunk count and footprint are right; the live allocations stay the same |
| `HeapStates.AbsorbKeeps` | os/lib/heapmem.c:240-245 | one merge keeps the invariant: chunks tile the used space, the bytes of every header are those of its fields, and the free list holds exactly the free chunks once each with consistent links |
| `HeapStates.SplitKeeps` | os/lib/heapmem.c:222-230 | one split keeps the invariant |
| `HeapStates.CopyKeeps` | os/lib/heapmem.c:474-482 | writing into the data of a live allocation keeps the invariant, so it damages no header, and every other live allocation |
| `HeapStates.RunInOneChunk` | os/lib/heapmem.c:250-264 | after defragmentation every run of adjacent free chunks lies in one chunk |
| `HeapStates.NothingFits` | os/lib/heapmem.c:269-341 | if no merged chunk fits then no run of free chunks of the original heap does |
| `HeapStates.ChunkIsRun` | os/lib/heapmem.c:250-264 | a free chunk of the merged heap is a run of free chunks of the original one |
| `HeapStates.GrownReaches` | os/lib/heapmem.c:233-246 | coalescing reaches as far as the free chunks behind do |
| `HeapStates.NoRoomBefore` | os/lib/heapmem.c:452-478 | if nothing fits after an object absorbed the free chunks behind it, nothing fitted before |
| `HeapStates.LiveDisjoint` | os/lib/heapmem.c:107-118 | two different live allocations never overlap |
| `HeapLayout.TilesInOrder` | os/lib/heapmem.c:107-111 | chunks that tile the used space are in order and end before the next starts |
| `HeapLayout.UnlinkLinked` | os/lib/heapmem.c:196-207 | removing an element of a consistent doubly linked list leaves a consistent list |
| `HeapLayout.PushLinked` | os/lib/heapmem.c:180-185 | pushing an element in front leaves a consistent list |
| `RingBuffer.MaskedArithmetic` | os/lib/ringbuf.c:64-75 | for every power of two up to 128 the masked 8-bit expressions are distance and successor in a ring |
| `RingBuffer.StepKeeps` | os/lib/ringbuf.c:52-110 | every single shared read or write of either side keeps the invariant |
| `RingBuffer.Fifo` | os/lib/ringbuf.c:52-110 | for every interleaving the bytes returned are a prefix of the bytes accepted, at most size - 1 are unread, and every unread byte is in its slot |
| `RingBuffer.StoreHitsNoUnread` | os/lib/ringbuf.c:74 | a store never overwrites an unread slot |
| `RingBuffer.RefusedExactlyWhenFullOrEmpty` | os/lib/ringbuf.c:64-94 | a put is refused exactly when size - 1 bytes are unread, a get exactly when none is |
| `RingBuffer.RingBuf.Put` | os/lib/ringbuf.c:52-77 | appends the byte exactly if there is room |
| `RingBuffer.RingBuf.Get` | os/lib/ringbuf.c:79-110 | removes and returns the oldest byte, or -1 if there is none |
| `HashMap.HashTable.ClearTable` | os/sys/hash-map.c:11-21 | the empty map |
| `HashMap.HashTable.Lookup` | os/sys/hash-map.c:72-82 | the value of the key in the map, 0 if there is none, for every key; the walk along the chain ends |
| `HashMap.HashTable.Insert` | os/sys/hash-map.c:27-70 | the map gains or changes exactly this entry; it fails exactly if the key is absent and all slots are used, so the last return is not reached; the table stays valid if and only if the key is not 0 or nothing was stored |
| `HashMap.HashTable.FindOnChain` | os/sys/hash-map.c:36-44 | the do-while loop finds the key exactly if it is in the map, and otherwise ends at the end of the chain |
| `HashMap.HeldKeyStartsChain` | os/sys/hash-map.c:28-35 | if a key is held, the slot of its hash is used, so an empty slot means that the key is absent |
| `HashMap.FilledKeeps` | os/sys/hash-map.c:49-68 | filling an empty slot behind the last node keeps chains acyclic, keys unique and every key on the chain of its hash, also where chains have grown together |
| `HashMap.KeyIsOnItsChain` | os/sys/hash-map.c:72-82 | a key is in the map exactly if the chain from the slot of its hash reaches it |
| `NeighborTable.BitOfSetBit` | os/net/nbr-table.c:149-179 | setting or clearing the bit of one table changes exactly that bit |
| `NeighborTable.CountUses` | os/net/nbr-table.c:250-256 | the shift loop counts the tables that use a neighbour |
| `NeighborTable.EvictedLookups` | os/net/nbr-table.c:181-198 | removing a key takes its address out of every table and changes no other look-up |
| `NeighborTable.EnlistedLookups` | os/net/nbr-table.c:364-371 | listing a new key changes no look-up of any table |
| `NeighborTable.UpdatedLookups` | os/net/nbr-table.c:374-379 | setting or clearing the bit of a listed slot changes one table at one address |
| `NeighborTable.NewKeyAdded` | os/net/nbr-table.c:355-379 | making room, listing and initialising together: exactly (table, address) becomes present and zeroed, and only the evicted address is lost |
| `NeighborTable.NeighborTables.Register` | os/net/nbr-table.c:283-302 | the next index, while there are fewer than eight tables |
| `NeighborTable.NeighborTables.IndexFromLladdr` | os/net/nbr-table.c:129-147 | the slot of the address, the null address for NULL |
| `NeighborTable.NeighborTables.FindVictim` | os/net/nbr-table.c:241-267 | a key that is not locked, is used by the fewest tables and is the oldest such; none only if all are locked |
| `NeighborTable.NeighborTables.RemoveKey` | os/net/nbr-table.c:181-198 | each table with a callback that used the neighbour is told exactly once, and the key is gone |
| `NeighborTable.NeighborTables.Allocate` | os/net/nbr-table.c:200-279 | a free slot, or the slot of the victim; fails exactly if all slots are taken and all keys locked |
| `NeighborTable.NeighborTables.AddLladdr` | os/net/nbr-table.c:341-385 | fails exactly if the address is new, all slots are taken and all keys are locked, and then changes nothing; otherwise (table, address) is present and zeroed and no other look-up changes except those of the evicted address; addresses stay distinct |
| `NeighborTable.NeighborTables.GetFromLladdr` | os/net/nbr-table.c:387-393 | the item that the table holds for the address, or none |
| `NeighborTable.NeighborTables.Remove` | os/net/nbr-table.c:395-402 | the item is gone from its own table only, and its lock there is released |
| `NeighborTable.NeighborTables.SetLock` | os/net/nbr-table.c:404-424 | sets or clears exactly one lock bit and changes no look-up |
| `Slip.SlipWrite` | os/dev/slip.c:93-115 | the frame of a payload: END, the escaped bytes, END |
| `Slip.EscapedDecodes` | os/dev/slip.c:140-160 | decoding undoes escaping for every payload of at most blen bytes |
| `Slip.FeedEscaped` | os/dev/slip.c:269-331 | bytes of an escaped payload are stored one behind the other from any offset of the ring, across the wrap |
| `Slip.FeedFrame` | os/dev/slip.c:269-331 | a frame that fits, received by an idle driver, is one buffered packet |
| `Slip.WrappedDecodes` | os/dev/slip.c:161-206 | the two loops over a wrapped packet decode it as one |
| `Slip.PollPacket` | os/dev/slip.c:124-241 | polling a buffered packet returns the payload and leaves the driver idle |
| `Slip.RoundTrip` | os/dev/slip.c:93-331 | any run of non-empty payloads that fit, each received and polled before the next, is returned unchanged and in order, from every ring offset |
| `Slip.RubbishIsRecovered` | os/dev/slip.c:273-307 | any bytes, with or without END among them, that make the driver give up with no packet buffered are forgotten at the next END, and all frames after it arrive |
| `Slip.LongFrameIsDropped` | os/dev/slip.c:294-307 | a frame that does not fit is dropped as a whole, and the driver is idle after the next END at the latest |
| `Slip.BadEscapeIsDropped` | os/dev/slip.c:279-288 | a frame with a bad escape is dropped as a whole |
| `Slip.SecondFrameIsStranded` | os/dev/slip.c:208-238 | of two frames that arrive before a poll the first is returned, and then nothing can be polled although the second is still stored |
| `Slip.Receiver.InputByte` | os/dev/slip.c:269-331 | the state after a byte, and a notification exactly when a packet has ended |
| `Slip.Receiver.DecodeLoop` | os/dev/slip.c:140-160 | the decoding loop, with its early end for a packet that is too long |
| `Slip.Receiver.PollHandler` | os/dev/slip.c:124-241 | the returned packet, the state after removing it, and a renewed poll request exactly if another packet is buffered behind it |
| `CcmStar.FlagsAgree` | os/lib/ccm-star.c:46-47 | the bit fields of the flags are the sum of section 2.2 of RFC 3610 for every valid MIC length |
| `CcmStar.CounterBlocksDiffer` | os/lib/ccm-star.c:46-60 | no counter block is the first block of an authentication, and different counters or nonces have different blocks |
| `CcmStar.AuthBlocksTell` | os/lib/ccm-star.c:92-122 | the authenticated blocks determine nonce, message and additional data |
| `CcmStar.SetIv` | os/lib/ccm-star.c:50-60 | flags, nonce and a two-octet counter |
| `CcmStar.CtrStep` | os/lib/ccm-star.c:63-79 | XORs exactly the block at the position with the key stream block of the counter |
| `CcmStar.Ctr` | os/lib/ccm-star.c:129-141 | the message XOR the key stream of section 2.3 of RFC 3610, up to 240 bytes |
| `CcmStar.Absorb` | os/lib/ccm-star.c:103-121 | a loop over data continues the block chain of section 2.2 over its zero-padded blocks |
| `CcmStar.BlockPlaces` | os/lib/ccm-star.c:92-122 | the shifted blocks that the code takes from additional data and message are the blocks of section 2.2 |
| `CcmStar.ComputeMic` | os/lib/ccm-star.c:81-127 | for any block cipher the MIC is the CBC-MAC over the block sequence of section 2.2, cut to M bytes and masked by S_0 as in section 2.3 |
| `CcmStar.CryptTwice` | os/lib/ccm-star.c:129-141 | encrypting twice with the same nonce restores the message |
| `CcmStar.Aead` | os/lib/ccm-star.c:149-171 | forward, the MIC of the plain message and its encryption; backward, the decryption and its MIC |
| `CcmStar.SealAndOpen` | os/lib/ccm-star.c:149-171 | forward and then backward restores the message and reproduces the MIC |
| `CcmStar.LoopEndsExactly` | os/lib/ccm-star.c:103-140 | with the position in 8 bits a loop from `start` ends exactly for lengths of at most 240 + start |

## Left out

- Sockets, threads, argument parsing, log parsing, printing and file access: only input and output; the ETX graph, file contents and bytes on the wire are parameters.
- The textual generator `generate` in `Master/Python/scheduling_contiki.py` and the generated C files: string templates around the same links, forwarding tables and counts.
- Floating-point rounding of ETX sums and powers: numbers are exact.
- Duplicates, aliasing and the order of the node list in `get_timesource_for_nodes`: node lists are sets, so it is not modelled that the list of remaining nodes may be the node list itself.
- `size_t` overflow in `ALIGN` and `extend_space`, and the 16-bit `len` of `slip_poll_handler`: sizes are unbounded.
- HeapMem.Heap.SplitChunk: shrinks the chunk before it frees the rest, where the source does so after; the result is the same and the intermediate state is not claimed.
- `nbr_table_update_lladdr`, the iteration by `nbr_table_head` and `nbr_table_next`, and the external removal policy: the policy function is not part of the repository's code, the others would add easier members.
- Callbacks that call back into the neighbour table: a callback is only recorded as a notification.
- The statistics counters of the SLIP driver, and what later frames make of a stranded one.
- Slip.Receiver.PollHandler: the packet is returned as a sequence, so the size of the caller's buffer is not modelled.
- Beacon.ReadFromFlashById: failing flash operations and the capacity of the link array are not modelled.
- Upload.HandleLine: opening and writing the flash file always succeed, and a buffer in which no zero ends the digits is left out, because the source then reads behind its buffer.
- AES, the key schedule, `list.c`, `memb.c` and the process and timer libraries: foreign or easier; lists and memory blocks are sequences.
- Drivers, examples, configuration and the other networking code.
