# Galois runtime cores in Dafny

This project models five sequential cores of the Galois parallel runtime and
graph library, and proves properties of each model.

- **Insertion bag** (`galois_insert_bag`): a bag that every thread pushes into
  without locking. Each thread owns a chain of page-sized chunks, newest
  first. A chunk holds its elements in the slots `dbegin .. dend` of its page
  and has room up to `dlast`. The bag is modelled as a class (`InsBag.InsertBag`)
  whose `heads` array holds one chain per thread, as a sequence of chunks from
  the head onwards. A page allocator gives out fresh page ids and tracks the
  pages in use. The bag's iterator is a class of its own
  (`InsBag.BagIterator`): a thread, a chunk index on that thread's chain and a
  slot. The proofs tie the iterator to the bag's contents in traversal order
  (`InsBag.Contents`): threads in index order, then chunks from the head, then
  slots in push order.
- **Graph file** (`FileGraph`): the V1 binary format is four little-endian
  64-bit header words, the 64-bit out-index array, the 32-bit destination
  array, optional 32-bit padding, and then the edge data. The mapping is a
  byte sequence, and `parse` is offset arithmetic over it. An encoder
  (`FileGraph.Encoded`) writes the same layout, and `parse` is proved to read
  back every part of what it writes. The neighbour-range queries are
  functions of the decoded out-index and destination words.
- **Local-computation graphs** (`LCGraph.h`):
  - `LC_CSR_Graph` copies both arrays from the file graph.
  - `LC_CSRInline_Graph` lays every node's edges out contiguously.
  - `LC_Linear_Graph` places each node record, followed by its edge records,
    in one block. `NodeInfo::next` moves to the next node-sized slot.
  - `LC_Linear2_Graph` splits the nodes into per-thread ranges of about equal
    byte size (`distribute`) and sizes and fills each thread's block
    (`AllocateNodes`).
  - Addresses are naturals. Pointers into `NodeData`/`EdgeData` are indices.
- **Range helpers** (`GAlgs.h`): `safe_advance` for input and random-access
  iterators, and `split_range`. Iterators are integer positions `b <= e`.
- **Termination detection** (`Termination.h`): the per-thread token records,
  `workHappened`, `initializeThread` and the `globalTermination` read, as
  transitions over an array of records indexed by thread id.

A shared module `Csr` defines the compressed-sparse-row ranges that the
file graph and the in-memory graphs all use. `LittleEndian` decodes and
encodes little-endian words. `NodeLayout` holds the `NodeInfo` address
arithmetic shared by `LC_Linear_Graph` and `LC_Linear2_Graph`.

The thread id that `getTID()` returns is a parameter wherever the source
calls it. Each `PerCPU`/`PerThreadStorage` is an array indexed by thread id.

## Model

| member | source | states |
|---|---|---|
| GAlgs.BoundedAdvance | include/Galois/util/GAlgs.h:37-42 | the input-iterator stop is `b + min(n, e - b)` for `n >= 0` and `e` for negative `n` (where `n--` never reaches zero first); it never passes `e` |
| GAlgs.SafeAdvanceInput | include/Galois/util/GAlgs.h:37-42 | the `while (b != e && n--) ++b` loop returns exactly `BoundedAdvance(b, e, n)` |
| GAlgs.SafeAdvanceRandomAccess | include/Galois/util/GAlgs.h:29-35 | as written: `b + n`, which lies beyond `e`, exactly when `e - b < n`; `e` otherwise |
| GAlgs.SafeAdvanceRandomAccessIntended | include/Galois/util/GAlgs.h:26-27 | the behaviour the comment describes: the result stays in `[b, e]` and equals the input-iterator result |
| GAlgs.RandomAccessDisagreesWithInput | include/Galois/util/GAlgs.h:29-42 | concrete inputs on which the two branches of `safe_advance_dispatch` return different positions |
| GAlgs.RandomAccessAgreesOnlyAtLength | include/Galois/util/GAlgs.h:29-42 | for `n >= 0` the two branches agree if and only if `n == e - b` |
| GAlgs.SafeAdvance | include/Galois/util/GAlgs.h:44-48 | the branch is chosen by the iterator category alone: random access takes the as-written branch, every other category the input loop |
| GAlgs.SplitRange | include/Galois/util/GAlgs.h:51-58 | the midpoint lies in `[b, e]`, and the first half is never shorter than the second and at most one longer |
| Termination.TokenHolder.WorkHappened | include/Galois/Runtime/Termination.h:37-39 | the process becomes black; the token colour and possession are unchanged |
| Termination.NewTokenHolder | include/Galois/Runtime/Termination.h:36 | a new record has a white token, no token and a black process |
| Termination.DefaultHolders | include/Galois/Runtime/Termination.h:42 | the per-thread storage after construction is one default record per thread |
| Termination.InitializeStep | include/Galois/Runtime/Termination.h:57-62 | thread 0 takes the token and colours it black, keeping its process colour; any other thread changes nothing; no other record changes |
| Termination.InitializeAll | include/Galois/Runtime/Termination.h:57-62 | running `initializeThread` on a list of threads keeps one record per thread |
| Termination.InitializeAllKeepsOthers | include/Galois/Runtime/Termination.h:57-62 | initialising threads, in any order, leaves every record but thread 0's unchanged, and keeps thread 0's black token once it has one |
| Termination.InitializeSeedsOneBlackToken | include/Galois/Runtime/Termination.h:36-62 | after default construction and `initializeThread` on any list of threads that includes thread 0, exactly one record holds the token: thread 0's, and it is black |
| Termination.InitializeAllSplit | include/Galois/Runtime/Termination.h:57-62 | initialising the threads of `a + b` is initialising those of `a` and then those of `b` |
| Termination.TerminationDetection.constructor | include/Galois/Runtime/Termination.h:42-47 | the storage holds one default record per thread, and the flags take the given values |
| Termination.TerminationDetection.WorkHappened | include/Galois/Runtime/Termination.h:49-51 | only the calling thread's record changes, and it becomes `TokenHolder.WorkHappened` of the old record |
| Termination.TerminationDetection.InitializeThread | include/Galois/Runtime/Termination.h:57-62 | the records become `InitializeStep` of the old records for the calling thread |
| Termination.TerminationDetection.GlobalTermination | include/Galois/Runtime/Termination.h:67-69 | returns the `globalTerm` flag and changes nothing |
| Termination.WorkHappenedIdempotent | include/Galois/Runtime/Termination.h:37-51 | calling `workHappened` twice, on a record or on the per-thread storage, leaves the same state as calling it once |
| LittleEndian.Value | src/FileGraph.cpp:33-39 | the number a little-endian byte sequence spells is below `256^len` |
| LittleEndian.Decode | src/FileGraph.cpp:61-65 | a `w`-byte word read from the mapping (`le64toh`/`le32toh`) is below `256^w` |
| LittleEndian.Encode | src/FileGraph.cpp:33-39 | a value below `256^w` is written as exactly `w` bytes |
| LittleEndian.ValueEncode | src/FileGraph.cpp:33-39 | the bytes written for `v` spell `v` |
| LittleEndian.DecodeEncode | src/FileGraph.cpp:33-39 | decoding an encoded word gives back its value |
| LittleEndian.DecodeShift | src/FileGraph.cpp:66-70 | a word read past a prefix is the word read in the rest |
| LittleEndian.DecodePrefix | src/FileGraph.cpp:66-70 | a word read inside a prefix ignores what follows |
| LittleEndian.EncodeAll | src/FileGraph.cpp:38-39 | an array of `n` words of `w` bytes takes `n * w` bytes |
| LittleEndian.DecodeEncodeAll | src/FileGraph.cpp:38-39 | word `i` of an encoded array decodes to element `i` |
| Csr.Degree | src/FileGraph.cpp:176-178 | a node's edge count is the distance from its first edge to the next node's first edge |
| Csr.DegreeSumTelescopes | src/FileGraph.cpp:38 | the edge counts of consecutive nodes add up to the distance between their offsets |
| Csr.FindEdge | src/FileGraph.cpp:160-166 | the result is `~0` if and only if no edge in the range has the destination; otherwise it is the first edge in the range that has it |
| FileGraph.LayoutOf | src/FileGraph.cpp:66-73 | `outIdx` starts at byte 32 and `outs` at `32 + 8 * numNodes`; the edge data follows the `numEdges` 32-bit entries, with at most 4 bytes of padding, at an offset that is a multiple of 8 |
| FileGraph.Words | src/FileGraph.cpp:38-39 | reading `count` words of `w` bytes gives `count` values, each below `256^w` |
| FileGraph.WordAt | src/FileGraph.cpp:38-39 | word `i` of an array is the `w`-byte word at byte `off + w * i` |
| FileGraph.EncodedHeader | src/FileGraph.cpp:33-37 | the header is four words |
| FileGraph.Encoded | src/FileGraph.cpp:33-41 | a V1 file is exactly as long as the edge-data offset plus the edge data |
| FileGraph.WordsReadBack | src/FileGraph.cpp:38-39 | an encoded array reads back as itself from its offset, whatever comes before or after it |
| FileGraph.Pad | src/FileGraph.cpp:40-72 | 4 bytes of padding when `numEdges` is odd, none otherwise |
| FileGraph.EncodedHeaderReads | src/FileGraph.cpp:61-65 | the four header words of an encoded file read back as version 1, the edge-type size, the node count and the edge count |
| FileGraph.EncodedHeaderWord | src/FileGraph.cpp:61-65 | each of the four header words of an encoded file lies inside the file and reads back as the value written |
| FileGraph.EncodedOutIdxReads | src/FileGraph.cpp:66-67 | the out-index array reads back from byte 32 |
| FileGraph.EncodedOutsReads | src/FileGraph.cpp:67-70 | the destination array reads back from the `outs` offset |
| FileGraph.EncodedEdgeData | src/FileGraph.cpp:71-73 | the bytes from the edge-data offset on are the edge data |
| FileGraph.ParseReadsEncoded | src/FileGraph.cpp:58-74 | parsing an encoded file recovers every header word, both arrays and the edge data |
| FileGraph.ReadWord64 | src/FileGraph.cpp:61-65 | `le64toh(*fptr++)` yields the 64-bit word at the cursor and moves the cursor 8 bytes on |
| FileGraph.FileGraph.constructor | src/FileGraph.cpp:43-48 | no mapping, zero offsets and zero counts |
| FileGraph.FileGraph.Parse | src/FileGraph.cpp:58-74 | the edge-type size and counts are header words 1-3, the array offsets are `LayoutOf` of the counts, and the mapping fields are untouched |
| FileGraph.FileGraph.StructureFromMem | src/FileGraph.cpp:76-98 | the mapping is the given memory (a copy is equal to it), the counts are read from it, and the graph is valid exactly when both arrays fit in it |
| FileGraph.FileGraph.OutIdxSeq | src/FileGraph.cpp:199-205 | `edgeid_begin() .. edgeid_end()` yields `numNodes` 64-bit values |
| FileGraph.FileGraph.OutsSeq | src/FileGraph.cpp:191-197 | `nodeid_begin() .. nodeid_end()` yields `numEdges` 32-bit values |
| FileGraph.FileGraph.OutIdxWord | src/FileGraph.cpp:169-173 | `le64toh(outIdx[i])` is the word at byte `outIdx + 8 * i` and element `i` of the out-index sequence |
| FileGraph.FileGraph.OutsWord | src/FileGraph.cpp:188 | `le32toh(outs[j])` is the word at byte `outs + 4 * j` and element `j` of the destination sequence |
| FileGraph.FileGraph.RawNeighborBegin | src/FileGraph.cpp:168-170 | node N's first edge is 0 for node 0, else `outIdx[N-1]` |
| FileGraph.FileGraph.RawNeighborEnd | src/FileGraph.cpp:172-174 | node N's range ends at `outIdx[N]` |
| FileGraph.FileGraph.NeighborsSize | src/FileGraph.cpp:176-178 | the pointer distance is the range's length whenever the range is ordered, and fits in 64 bits |
| FileGraph.FileGraph.NeighborsSizeIsDegree | src/FileGraph.cpp:176-178 | for an ordered range `neighborsSize` is the node's degree |
| FileGraph.FileGraph.EdgeBegin | src/FileGraph.cpp:180-182 | `edge_begin` is the same bound as `raw_neighbor_begin` |
| FileGraph.FileGraph.EdgeEnd | src/FileGraph.cpp:183-185 | `edge_end` is the same bound as `raw_neighbor_end` |
| FileGraph.FileGraph.GetEdgeDst | src/FileGraph.cpp:187-189 | an edge's destination is its `outs` entry, a 32-bit value |
| FileGraph.FileGraph.ContainsNode | src/FileGraph.cpp:227-229 | true if and only if `n < numNodes` |
| FileGraph.FileGraph.Size | src/FileGraph.cpp:219-221 | the node count truncated to `unsigned int`: below `2^32`, and equal to the count when it fits |
| FileGraph.FileGraph.SizeEdges | src/FileGraph.cpp:223-225 | the edge count truncated to `unsigned int`: below `2^32`, and equal to the count when it fits |
| FileGraph.FileGraph.NodeRangeIsContainsNode | src/FileGraph.cpp:211-229 | node iteration from `begin()`, node 0, to `end()`, `numNodes`, covers exactly the nodes `containsNode` accepts |
| FileGraph.FileGraph.GetEdgeIdx | src/FileGraph.cpp:160-166 | the loop returns `FindEdge` over src's range: the first edge leading to dst, or `~0` |
| FileGraph.FileGraph.HasNeighbor | src/FileGraph.cpp:207-209 | true if and only if some edge in the range of n1 has destination n2 |
| FileGraph.FileGraph.Swap | src/FileGraph.cpp:144-154 | all nine fields are exchanged |
| FileGraph.SwapTwiceRestores | src/FileGraph.cpp:144-154 | swapping twice restores both graphs, and each stays valid |
| LCCsrGraph.VoidEdgeData.Get | include/Galois/Graphs/LCGraph.h:89 | every edge's data reads as `false` |
| LCCsrGraph.VoidEdgeData.ReadIn | include/Galois/Graphs/LCGraph.h:90 | loading edge data changes nothing |
| LCCsrGraph.CopyOutIdx | include/Galois/Graphs/LCGraph.h:206 | the fresh array holds the file's out-index sequence |
| LCCsrGraph.CopyOuts | include/Galois/Graphs/LCGraph.h:207 | the fresh array holds the file's destination sequence |
| LCCsrGraph.LCCsrGraph.constructor | include/Galois/Graphs/LCGraph.h:131 | empty arrays and zero counts |
| LCCsrGraph.LCCsrGraph.RawNeighborBegin | include/Galois/Graphs/LCGraph.h:109-111 | node N's first edge is 0 for node 0, else `EdgeIndData[N-1]` |
| LCCsrGraph.LCCsrGraph.RawNeighborEnd | include/Galois/Graphs/LCGraph.h:113-115 | node N's range ends at `EdgeIndData[N]` |
| LCCsrGraph.LCCsrGraph.GetEdgeDst | include/Galois/Graphs/LCGraph.h:165-167 | an edge's destination is its `EdgeDst` entry |
| LCCsrGraph.LCCsrGraph.GetEdgeIdx | include/Galois/Graphs/LCGraph.h:117-123 | the loop returns `FindEdge` over src's range: the first edge leading to dst, or `~0` |
| LCCsrGraph.LCCsrGraph.HasNeighbor | include/Galois/Graphs/LCGraph.h:150-152 | true if and only if some edge in src's range has destination dst |
| LCCsrGraph.LCCsrGraph.Size | include/Galois/Graphs/LCGraph.h:169-171 | the 64-bit node count |
| LCCsrGraph.LCCsrGraph.SizeEdges | include/Galois/Graphs/LCGraph.h:173-175 | the 64-bit edge count |
| LCCsrGraph.LCCsrGraph.StructureFromFile | include/Galois/Graphs/LCGraph.h:197-211 | the counts come from the file graph, and the two arrays are fresh copies of its out-index and destination sequences |
| LCCsrGraph.LCCsrGraph.RangesMatchFile | include/Galois/Graphs/LCGraph.h:200-207 | once loaded, every node's edge range is the file graph's range |
| LCCsrInlineGraph.NodeIds | include/Galois/Graphs/LCGraph.h:351-358 | `node_ids[x]` is the NodeInfo of node x |
| LCCsrInlineGraph.LayOutNode | include/Galois/Graphs/LCGraph.h:365-372 | one pass lays out one more node: its bounds are its file range, each of its edges points at its destination, and `curEdge` moves to the next node's first edge |
| LCCsrInlineGraph.LayOutEdges | include/Galois/Graphs/LCGraph.h:361-373 | every node's bounds are its file range, and every edge points at its destination |
| LCCsrInlineGraph.LCCsrInlineGraph.constructor | include/Galois/Graphs/LCGraph.h:287 | empty arrays and zero counts |
| LCCsrInlineGraph.LCCsrInlineGraph.StructureFromFile | include/Galois/Graphs/LCGraph.h:344-374 | fresh arrays holding the file graph, laid out inline with the file's counts |
| LCCsrInlineGraph.LCCsrInlineGraph.EdgeBegin | include/Galois/Graphs/LCGraph.h:334-337 | `edge_begin` is the node's stored `edgebegin` |
| LCCsrInlineGraph.LCCsrInlineGraph.EdgeEnd | include/Galois/Graphs/LCGraph.h:339-342 | `edge_end` is the node's stored `edgeend` |
| LCCsrInlineGraph.LCCsrInlineGraph.GetEdgeDst | include/Galois/Graphs/LCGraph.h:314-316 | an edge's destination is its stored `dst` |
| LCCsrInlineGraph.LCCsrInlineGraph.Size | include/Galois/Graphs/LCGraph.h:318-320 | the node count |
| LCCsrInlineGraph.LCCsrInlineGraph.SizeEdges | include/Galois/Graphs/LCGraph.h:322-324 | the edge count |
| LCCsrInlineGraph.LCCsrInlineGraph.End | include/Galois/Graphs/LCGraph.h:326-359 | `begin()` is `&NodeData[0]` and `end()` is `endNode`, one past the last node |
| LCCsrInlineGraph.LCCsrInlineGraph.Contiguous | include/Galois/Graphs/LCGraph.h:361-373 | node 0's edges begin at `EdgeData[0]`, each node's `edgebegin` is the previous node's `edgeend`, and the last node's `edgeend` is the end of `EdgeData` |
| LCCsrInlineGraph.LCCsrInlineGraph.EdgesMatchFile | include/Galois/Graphs/LCGraph.h:361-373 | each node's range starts at the file's first edge, has `neighborsSize` edges, and its k-th edge points at the file's k-th destination |
| NodeLayout.EdgeBegin | include/Galois/Graphs/LCGraph.h:388-392 | the edges start one NodeInfo past the node |
| NodeLayout.EdgeSlot | include/Galois/Graphs/LCGraph.h:394-397 | the j-th EdgeInfo is `j` edge sizes past `edgeBegin` |
| NodeLayout.EdgeSlotStep | include/Galois/Graphs/LCGraph.h:394-397 | `++edge` moves one edge size on |
| NodeLayout.EdgeEnd | include/Galois/Graphs/LCGraph.h:394-398 | `edgeEnd` is `numEdges` EdgeInfos past `edgeBegin` |
| NodeLayout.CeilDivBounds | include/Galois/Graphs/LCGraph.h:400-406 | the slot `next()` picks is a multiple of the node size within one node size of the end of the edges |
| NodeLayout.CeilDivIsLeast | include/Galois/Graphs/LCGraph.h:400-406 | it is the least such multiple |
| NodeLayout.NextSlotIsFirstFree | include/Galois/Graphs/LCGraph.h:400-406 | `next()` is the first node slot not below `edgeEnd` |
| NodeLayout.NextSlotBound | include/Galois/Graphs/LCGraph.h:400-406 | a node with k edges takes less than `2 * sizeof(NodeInfo) + k * sizeof(EdgeInfo)` bytes |
| NodeLayout.Next | include/Galois/Graphs/LCGraph.h:400-406 | the stepping loop returns `ceil((S_N + k * S_E) / S_N)` node slots after the node |
| NodeLayout.LayoutBound | include/Galois/Graphs/LCGraph.h:491-501 | laying out a run of nodes with `next()` stays within two node sizes per node plus one edge size per edge |
| NodeLayout.LayoutMonotone | include/Galois/Graphs/LCGraph.h:495-501 | later nodes are placed at higher addresses |
| NodeLayout.NodeEdgesEndBeforeNext | include/Galois/Graphs/LCGraph.h:495-501 | a node's edges end at or before the next node's record, which lies within the run |
| LCLinearGraph.AllocSize | include/Galois/Graphs/LCGraph.h:491-492 | the block is exactly two NodeInfos per node and one EdgeInfo per edge |
| LCLinearGraph.NodeRecordFits | include/Galois/Graphs/LCGraph.h:491-501 | every node record and its edges lie inside the block, and before the next node |
| LCLinearGraph.PlaceNodes | include/Galois/Graphs/LCGraph.h:494-501 | node i's record sits where `next()` from the previous node lands, and its `numEdges` is its degree |
| LCLinearGraph.WriteNodeEdges | include/Galois/Graphs/LCGraph.h:505-511 | the k-th edge of node ii points at the record of its k-th destination, and nothing outside that node's edge slots changes |
| LCLinearGraph.WriteNextNode | include/Galois/Graphs/LCGraph.h:504-512 | one pass of the edge loop writes one more node's edges |
| LCLinearGraph.WriteEdges | include/Galois/Graphs/LCGraph.h:504-512 | every edge of every node points at the record of its destination |
| LCLinearGraph.LCLinearGraph.constructor | include/Galois/Graphs/LCGraph.h:429 | no nodes and no block |
| LCLinearGraph.LCLinearGraph.StructureFromFile | include/Galois/Graphs/LCGraph.h:486-513 | for counts below `2^32` and every node degree below `2^31` (the `int numEdges` of a NodeInfo), the counts are the file's, and the block holds every node and its edges as the two loops lay them out |
| LCLinearGraph.LCLinearGraph.EdgeBeginOf | include/Galois/Graphs/LCGraph.h:476-479 | `edge_begin` is one NodeInfo past the node |
| LCLinearGraph.LCLinearGraph.EdgeEndOf | include/Galois/Graphs/LCGraph.h:481-484 | `edge_end` is `numEdges` EdgeInfos past `edge_begin` |
| LCLinearGraph.LCLinearGraph.NodeInBlock | include/Galois/Graphs/LCGraph.h:491-501 | in a loaded graph, each node's record and edges lie inside the allocated block |
| LCLinearGraph.LCLinearGraph.NodesDisjoint | include/Galois/Graphs/LCGraph.h:495-501 | in a loaded graph, a node's edges end at or before the next node's record |
| LCLinear2Graph.OffsetMonotone | include/Galois/Graphs/LCGraph.h:590-609 | first-edge offsets never decrease along an ordered out-index array |
| LCLinear2Graph.BytesClosedForm | include/Galois/Graphs/LCGraph.h:577-608 | the bytes counted up to node i are `S_N * i + S_E * (edges before i)` |
| LCLinear2Graph.BlockShareDivides | include/Galois/Graphs/LCGraph.h:577-579 | `blockSize` is the byte total divided by the thread count, rounded down: `num` blocks fit in the total and `num` blocks of one byte more do not |
| LCLinear2Graph.FirstReach | include/Galois/Graphs/LCGraph.h:591-604 | the node where a range closes is at or after the scan's start, and the bytes before it reach the threshold |
| LCLinear2Graph.FirstReachIsFirst | include/Galois/Graphs/LCGraph.h:591-604 | no earlier node reaches the threshold: a non-last range closes at the first node whose cumulative size is `>= (tid + 1) * blockSize` |
| LCLinear2Graph.Pos | include/Galois/Graphs/LCGraph.h:590-610 | where the scan stands when a thread starts lies within the node range |
| LCLinear2Graph.Last | include/Galois/Graphs/LCGraph.h:583-602 | `last` when a thread starts is never past the scan position |
| LCLinear2Graph.ScanThread | include/Galois/Graphs/LCGraph.h:591-609 | the inner loop stops at `FirstReach`, with `curSize`, `nnodes` and `nedges` counting the nodes and edges passed |
| LCLinear2Graph.Slots | include/Galois/Graphs/LCGraph.h:590-610 | one slot per thread before the last |
| LCLinear2Graph.SlotsAt | include/Galois/Graphs/LCGraph.h:590-610 | slot t is thread t's range if it closes, and its old contents otherwise |
| LCLinear2Graph.CloseRange | include/Galois/Graphs/LCGraph.h:592-603 | a closing thread writes its slot with `last .. ii` and its counts, and only that slot; the running totals and `last` move on |
| LCLinear2Graph.DistributeThread | include/Galois/Graphs/LCGraph.h:590-610 | one outer pass writes only thread tid's slot and leaves the cursor where the next thread starts |
| LCLinear2Graph.Distribute | include/Galois/Graphs/LCGraph.h:576-617 | slots before the last are the closed ranges (or keep their contents), the last slot gets the rest of the nodes and edges, and later slots are untouched |
| LCLinear2Graph.CloseLast | include/Galois/Graphs/LCGraph.h:612-616 | the last thread's slot gets every node from `last` to the end with the nodes and edges not yet counted; the other slots are untouched |
| LCLinear2Graph.NextRangeBegins | include/Galois/Graphs/LCGraph.h:596-602 | each written range begins where the previous written range ends |
| LCLinear2Graph.LastAfterClose | include/Galois/Graphs/LCGraph.h:596-602 | once a thread closes its range, `last` stays at the node where it closed until the next thread closes |
| LCLinear2Graph.FirstRangeBegins | include/Galois/Graphs/LCGraph.h:583-596 | the first written range begins at node 0 |
| LCLinear2Graph.AssignedUpToLast | include/Galois/Graphs/LCGraph.h:599-602 | `runningNodes` and `runningEdges` count exactly the nodes and edges before `last` |
| LCLinear2Graph.CountsSumToTotals | include/Galois/Graphs/LCGraph.h:612-616 | the node and edge counts of the written slots add up to the graph's totals |
| LCLinear2Graph.WrittenSlotsConsistent | include/Galois/Graphs/LCGraph.h:594-616 | every written slot's counts are the nodes and edges of its range |
| LCLinear2Graph.BlockSize | include/Galois/Graphs/LCGraph.h:634-637 | a thread's block is exactly two headers, two NodeInfos per node and one EdgeInfo per edge |
| LCLinear2Graph.AllocateNodes | include/Galois/Graphs/LCGraph.h:630-656 | for a range whose node degrees fit in the `int numEdges` of a NodeInfo: the header records the size; `begin` is right after the header; for a non-empty range each node's record is where `next()` lays it out, with its degree, and `end` is past the last one; other nodes are untouched |
| LCLinear2Graph.BlockFits | include/Galois/Graphs/LCGraph.h:633-655 | a thread's nodes and edges, plus a spare header, fit in the block it requests |
| InsBag.Layout.FirstSlot | include/Galois/Runtime/InsBag.h:53-57 | the data starts at slot 1, or further on when the header is larger than an element |
| InsBag.Chunk.DEnd | include/Galois/Runtime/InsBag.h:37-38 | `dend` is `dbegin` plus the number of stored elements |
| InsBag.ChainItemsAppend | include/Galois/Runtime/InsBag.h:114-119 | the elements of two joined chains are the elements of the first followed by those of the second |
| InsBag.ItemInChain | include/Galois/Runtime/InsBag.h:106-119 | element i of chunk c comes after the elements of the chunks before c on the chain |
| InsBag.AllItemsPrefix | include/Galois/Runtime/InsBag.h:122-128 | the elements of threads `0 .. t-1` are a prefix of those of threads `0 .. u-1` for `t <= u` |
| InsBag.ThreadItemInBag | include/Galois/Runtime/InsBag.h:122-128 | element j of thread t's chain is element `|threads before t| + j` of the bag |
| InsBag.Canon | include/Galois/Runtime/InsBag.h:138-144 | an iterator built for thread t settles on thread t or a later one |
| InsBag.CanonRank | include/Galois/Runtime/InsBag.h:138-168 | an iterator built for thread t is at an element or at `end()`, and has passed exactly the elements of threads before t |
| InsBag.DataRank | include/Galois/Runtime/InsBag.h:159 | an iterator at an element stands within its thread's share of the bag, and dereferences to the bag's element at its position |
| InsBag.StepRank | include/Galois/Runtime/InsBag.h:130-151 | `operator++` passes exactly one element, and either stays in the thread or lands where an iterator built for the next thread stands |
| InsBag.LocalStep | include/Galois/Runtime/InsBag.h:122-178 | a step from `local_begin()` stays in the thread's share and visits the thread's chain in order |
| InsBag.GlobalStep | include/Galois/Runtime/InsBag.h:130-168 | a step from `begin()` visits the next element of the bag |
| InsBag.PushChainItems | include/Galois/Runtime/InsBag.h:181-191 | push stores exactly one more element, `val`: first on a new chunk, or after the head chunk's elements; the chain gains exactly `val` |
| InsBag.PushChainShape | include/Galois/Runtime/InsBag.h:181-189 | a chunk is added exactly when the thread has none or its head is full; it becomes the head with the old chain after it; every chunk stays laid out and non-empty |
| InsBag.PushChainPages | include/Galois/Runtime/InsBag.h:184-187 | push adds the fresh page to the chain's pages when it opens a chunk, and no page otherwise |
| InsBag.AllItemsUpdateBefore | include/Galois/Runtime/InsBag.h:181-191 | changing one thread's chain leaves the elements of earlier threads unchanged |
| InsBag.AllItemsUpdate | include/Galois/Runtime/InsBag.h:181-191 | changing one thread's chain changes the bag's contents by exactly that chain's change |
| InsBag.PushContents | include/Galois/Runtime/InsBag.h:181-191 | a push by any thread adds exactly `val` to the bag |
| InsBag.EmptyBagCanon | include/Galois/Runtime/InsBag.h:84-88 | with every chain empty, an iterator built for any thread is `end()` |
| InsBag.ClearLeaksLaterChunks | include/Galois/Runtime/InsBag.h:64-75 | a bag with one thread holding two chunks uses pages 0 and 1; `destruct` frees only page 0, so page 1 stays in use with no chain reaching it |
| InsBag.ClearLeaksSecondChunk | include/Galois/Runtime/InsBag.h:64-88 | in every bag whose chunks have distinct pages, a thread's second chunk is on a chain but is no head page, so `clear` leaves its page in use |
| InsBag.InsertBag.constructor | include/Galois/Runtime/InsBag.h:42-78 | every head starts null and no page is in use |
| InsBag.InsertBag.NewHeader | include/Galois/Runtime/InsBag.h:50-62 | a fresh page whose chunk is empty (`dend == dbegin`), starts at `FirstSlot`, ends at `LastSlot`, `pageSize / sizeof(T)`, and is on no chain |
| InsBag.InsertBag.InsHeader | include/Galois/Runtime/InsBag.h:44-48 | the chunk becomes the thread's head with the old chain after it; other threads are unchanged |
| InsBag.InsertBag.Push | include/Galois/Runtime/InsBag.h:181-191 | the thread's chain becomes `PushChain`; other threads are unchanged; a page is allocated exactly when a chunk is added; the bag gains exactly `val`; the reference is the head's last slot and holds `val`; the bag stays valid and leak-free |
| InsBag.InsertBag.PushBack | include/Galois/Runtime/InsBag.h:194-196 | the same chain update and contents change as `push` |
| InsBag.InsertBag.Destruct | include/Galois/Runtime/InsBag.h:64-75 | as written: every thread's chain loses its head chunk, and only the head pages are freed |
| InsBag.InsertBag.Clear | include/Galois/Runtime/InsBag.h:84-88 | every head is null, only the old head pages are freed, and `begin() == end()` |
| InsBag.InsertBag.ClearAll | include/Galois/Runtime/InsBag.h:64-88 | corrected: every head is null and every chunk's page is freed, so a leak-free bag ends with no page in use |
| InsBag.InsertBag.FreeChain | include/Galois/Runtime/InsBag.h:64-75 | frees the page of every chunk of a chain |
| InsBag.InsertBag.Begin | include/Galois/Runtime/InsBag.h:162-164 | an iterator built for thread 0 |
| InsBag.InsertBag.End | include/Galois/Runtime/InsBag.h:166-168 | the iterator past the last thread: no chunk, no slot |
| InsBag.InsertBag.LocalBegin | include/Galois/Runtime/InsBag.h:172-174 | an iterator built for the calling thread |
| InsBag.InsertBag.LocalEnd | include/Galois/Runtime/InsBag.h:176-178 | an iterator built for the thread after the caller |
| InsBag.InsertBag.Traverse | include/Galois/Runtime/InsBag.h:130-168 | walking from `begin()` to `end()` visits every element of the bag exactly once: threads in order, chunks from the head, slots in push order |
| InsBag.InsertBag.TraverseLocal | include/Galois/Runtime/InsBag.h:122-178 | walking from `local_begin()` to `local_end()` visits exactly the calling thread's elements, in chain order |
| InsBag.WalkThread | include/Galois/Runtime/InsBag.h:130-134 | the loop of a local walk collects the rest of the thread's chain |
| InsBag.BagIterator.constructor | include/Galois/Runtime/InsBag.h:138-144 | the iterator settles on the first element of thread t or a later thread, else at the end |
| InsBag.BagIterator.InitThread | include/Galois/Runtime/InsBag.h:100-104 | the head of thread `thr` and its first slot, or no chunk; the result says whether there is a chunk |
| InsBag.BagIterator.AdvanceLocal | include/Galois/Runtime/InsBag.h:106-112 | with a chunk, the slot moves on by one and the result says whether it is still before `dend`; without one, nothing changes and the result is false |
| InsBag.BagIterator.AdvanceChunk | include/Galois/Runtime/InsBag.h:114-120 | the next chunk of the chain and its first slot, or no chunk past the last |
| InsBag.BagIterator.AdvanceThread | include/Galois/Runtime/InsBag.h:122-128 | settles on the first later thread with a chunk, else at the end |
| InsBag.BagIterator.Advance | include/Galois/Runtime/InsBag.h:130-151 | the position becomes `Step` of the old position |
| InsBag.BagIterator.Equals | include/Galois/Runtime/InsBag.h:153-158 | two iterators are equal exactly when they are over the same bag and at the same thread, chunk and slot; `operator!=` is its negation |
| InsBag.BagIterator.Get | include/Galois/Runtime/InsBag.h:159 | `operator*` is the bag's element at the iterator's position in traversal order |

## Left out

- Operating-system calls are not modelled. This covers `mmap`, `open`, `fstat`, `munmap`, `close` and `write` in `FileGraph::structureFromFile`, `structureToFile`, `clone` and the destructor. A mapping is a byte sequence given to `structureFromMem`.
- `FileGraph.FileGraph.Parse` follows a release build: the `assert(version == 1)` check is compiled out, so the version word is read and ignored. It requires the 32 header bytes to be present. `StructureFromMem` states when the arrays fit.
- The edge data of a graph file is carried as bytes. Host-order conversion of edge data and the non-void `EdgeDataWrapper` are not modelled.
- `acquire`, `checkWrite` and the `MethodFlag` arguments of every accessor are not modelled: their implementation is not part of this model.
- `largeInterleavedAlloc`, `largeAlloc`, `memset`, the frees and placement `new` of user data are not modelled. A block is its base address, and its contents are the fields the loops write.
- `getData`, `getEdgeData` and the node-data constructors of every graph are not modelled: they only reach user data.
- `LC_CSRInline_Graph::getEdgeIdx` (include/Galois/Graphs/LCGraph.h:259-265) is not modelled: it compares a NodeInfo pointer with an integer.
- The `LC_CSRInline_Graph` destructor is not modelled: it frees `NodeData` with `numEdges` elements where the allocation used `numNodes` (include/Galois/Graphs/LCGraph.h:294 against 349).
- `LC_Linear_Graph::getEdgeIdx` and the `LC_Linear2_Graph` pieces outside `distribute` and `AllocateNodes` are not modelled. These are `getEdgeIdx`, `AllocateEdges`, `local_iterator` (include/Galois/Graphs/LCGraph.h:697-734), the edge accessors and the destructor.
- `Galois::on_each` is not modelled. `AllocateNodes` is modelled for one thread id, with its block base address as a parameter.
- `LCLinear2Graph.Distribute` computes the byte total, and the last slot's counts, from the node count `|idx|` and the edge count `Offset(idx, |idx|)` of the out-indices. The source uses `numNodes` and `numEdges`, set from the header through `size()` and `sizeEdges()`. The model takes them to agree, which holds for a well-formed file with counts below `2^32`.
- `LCLinear2Graph.CloseLast` takes the same counts from the out-indices as `Distribute`.
- `LCLinear2Graph.Distribute`: `size_t` arithmetic is unbounded, so overflow of `(tid + 1) * blockSize` is not captured. It requires at least one active thread, and slots of threads whose range never closes keep their previous contents.
- `LCCsrGraph.LCCsrGraph.StructureFromFile` requires the counts to fit in 32 bits, because `FileGraph::size()` truncates them to `unsigned int`. The same holds for `LCCsrInlineGraph.LCCsrInlineGraph.StructureFromFile`.
- `LCLinearGraph.LCLinearGraph.StructureFromFile` requires the counts to fit in 32 bits and every node degree to be below `2^31`, because the degree is stored in the `int numEdges` of a NodeInfo. The wrapped value a larger degree would leave there is not modelled.
- `LCLinear2Graph.AllocateNodes` requires every node degree in its range to be below `2^31`, for the same `int numEdges` store. The wrapped value a larger degree would leave there is not modelled. The layout loops also require a well-formed file, where every range is ordered and within the edge array.
- The layout loops read the file graph through its decoded out-index and destination sequences. They do not call the per-node queries.
- `uninitialized_destroy` (include/Galois/util/GAlgs.h:63-69) is not modelled: it only runs destructors.
- `localTermination`, `reset` and the body of the `TerminationDetection` constructor are not modelled, because they are defined in a file that is not part of this model. The constructor takes the initial flag values as parameters. `volatile` cross-thread visibility is a concurrency concern and is not modelled.
- The insertion bag's element destructor calls (`ii->~T()`) are not modelled. `MM::pageAlloc`/`pageFree` are a counter of fresh page ids and the set of pages in use. The capacity of a fresh chunk is `pageSize / sizeof(T) - FirstSlot`, which `Layout.Valid` keeps at one or more.
- Iterator pointers are a chunk index on the thread's chain plus a slot number, so `operator==` compares those. The default iterator constructor, the bag's copy constructor and its destructor are not modelled.
- `InsBag.InsertBag.Traverse`, `InsBag.InsertBag.TraverseLocal` and `InsBag.WalkThread` are client loops over `begin() .. end()` and `local_begin() .. local_end()`. They are not members of the source.
- Concurrent pushes by different threads are not modelled. Each call runs alone.

## Findings

| source | as written | input that shows it | evidently intended | confidence | as-written member | corrected member |
|---|---|---|---|---|---|---|
| include/Galois/util/GAlgs.h:29-35 | the random-access `safe_advance_dispatch` returns `b + n` when `distance(b, e) < n` and `e` otherwise | `b = 0, e = 1, n = 5` gives `5`, past the end; the input-iterator branch gives `1` | return `e` when it is closer than `n` steps, else `b + n`, as the comment at lines 26-27 says | not executed; high | GAlgs.SafeAdvanceRandomAccess, GAlgs.RandomAccessDisagreesWithInput | GAlgs.SafeAdvanceRandomAccessIntended |
| include/Galois/Runtime/InsBag.h:64-75, 84-88 | `destruct` frees only each thread's head chunk, and `clear` then nulls the heads | one thread holding two chunks on pages 0 and 1: after `clear`, page 1 is still in use and no chain reaches it | free every chunk of every chain | not executed; medium | InsBag.InsertBag.Clear, InsBag.ClearLeaksSecondChunk, InsBag.ClearLeaksLaterChunks | InsBag.InsertBag.ClearAll |
