# NamiDB in Dafny

A model of five parts of NamiDB, a graph database whose search indexes live in object storage, with proofs about each.

- **The Bolt connection engine.** A chunk reader that survives being dropped in the middle of a read, a memory budget
  shared by all sessions, and the per-connection state machine with authentication, transactions and result streams.
- **The PackStream codec.** Encoder and decoder with a nesting limit and a heap budget that decides which messages decode,
  and the Path structure results are sent in.
- **The top-k coordinator.** It asks every segment for a local list, drops hits that a later version replaced, and widens
  the lists until the global answer is certain.
- **The Vamana graph index.** Beam search, pruning, construction and online insertion.
- **The range cache.** A byte-bounded cache over an immutable file.

`dafny verify dfyconfig.toml` checks the whole project.

## How it is organised

| files | contents |
|---|---|
| `Ranking.dfy` | the order of hits by (key, id), the best k of a set, heaps |
| `BeamSearch.dfy`, `BeamTheorems.dfy` | visited scratch and beam search as loops, and what the search guarantees |
| `Pruning.dfy`, `Vamana.dfy` | in-place pruning, insertion and construction |
| `Coordinator.dfy`, `FlatOracle.dfy` | the coordinator, the flat oracles, and their agreement |
| `PackStream.dfy`, `PackStreamTheorems.dfy`, `PackStreamSoundness.dfy`, `PackStreamResults.dfy`, `Codec.dfy` | the codec as functions, round trip, soundness of decoding, the resulting theorems, and the codec as it runs |
| `WireFormat.dfy`, `WireTheorems.dfy`, `WireExactness.dfy`, `Utf8.dfy` | what bytes mean, from the marker table alone; encoder and decoder keep to it; decoding is exact; strings |
| `Chunk.dfy`, `MessageReader.dfy`, `Budget.dfy`, `SharedReaders.dfy` | framing, the stateful reader that refines it, the shared budget, and many readers on one budget |
| `Streaming.dfy`, `Protocol.dfy`, `Session.dfy` | result paging, the protocol as a function of the backend's answers, and the connection that follows it |
| `PathMapping.dfy` | runtime values on the wire and paths |
| `RangeCache.dfy` | the cache against a list in order of last use |

Code that works step by step is modelled by methods and classes; each is tied by its `ensures` to a specification function
or to the promised property, and the theorems are about those. Distances and scores are reals. What a client sends, how the
transport splits bytes, what the backend answers, random draws and clocks are parameters or nondeterministic choices.

## Where a promise needs a condition

- *Beam search keeps the ef closest results seen so far* (`crates/namidb-ann/src/search.rs:152-155`). The farthest result is
  captured once per expansion, so a beam that fills in the middle of one drops nearer nodes; a beam that is full when an
  expansion begins does not (`BeamTheorems.OnlyFillingLosesTheCloser`). The promise holds on all graphs of n nodes exactly
  when ef is 1 or n: `BeamTheorems.ClosestKeptExactlyWhen`, with the failing family in `BeamTheorems.StarDropsTheNearer`.
- *Decoding undoes encoding.* It does exactly when every string and byte length fits 32 bits (the encoder cuts longer
  lengths), containers nest at most 128 deep, the heap fits 2 MiB + 8 bytes per wire byte and every length fits `max_len`:
  `PackStreamResults.RoundTripExactlyWhen`, with failing inputs in `PackStreamResults.TooDeepDoesNotReturn` and
  `PackStreamResults.CutLengthDoesNotReturn`.
- *The budget bounds memory.* Units are cut to 32 bits, so the bound holds exactly when the capacity is below the largest
  unit count or the largest message fits it: `SharedBudget.SafeExactlyWhen`, with the failing run in
  `SharedBudget.SaturationUndercharges`.
- *The cache evicts the least recently touched range.* Exactly until two ranges carry the saturated 64-bit stamp:
  `RangeCache.OldestIsLeastRecentExactlyWhen`, with a tie in `RangeCache.SaturatedStampsTie`.
- *A path structure stands for its path.* Exactly when each relationship joins the nodes around it and nodes with one id look
  the same on the wire: `PathMapping.PathRebuiltExactlyWhen`, with a path that fails in
  `PathMapping.RelabelledPathIsNotRebuilt`.
- *Result buffers are empty outside streaming.* GOODBYE leaves them as they are; they are empty in every other state:
  the invariant kept by `Session.Session.Handle`, with a row that survives in `Session.RowSurvivesGoodbye`.
- The base charge of a message is 2 MiB, as in `crates/namidb-bolt/src/budget.rs:22`; the 64 KiB in the documentation is older.

## Model

| member | source | states |
|---|---|---|
| `Ranking.PopLeast` | crates/namidb-ann/src/search.rs:217 | the candidate heap gives its least (distance, id) and keeps the rest |
| `Ranking.IntoSorted` | crates/namidb-ann/src/search.rs:241-248 | draining a heap gives every element once, ascending by (distance, id) |
| `Ranking.TopK` | crates/namidb-ann/src/search.rs:241-250 | sorting and truncating gives the best k |
| `Ranking.BestByRank` | crates/namidb-bench/src/object_native_architecture.rs:1907-1912 | an element is among the best k exactly when fewer than k others come before it |
| `Ranking.BestOfPart` | crates/namidb-bench/src/object_native_architecture.rs:1534-1537 | a part answers for the whole if everything outside it is beaten k times inside it |
| `VisitScratch.BeamScratch.Dense` | crates/namidb-ann/src/search.rs:71-78 | dense marks cover the nodes |
| `VisitScratch.BeamScratch.Sparse` | crates/namidb-ann/src/search.rs:82-86 | a sparse scratch is valid |
| `VisitScratch.BeamScratch.Begin` | crates/namidb-ann/src/search.rs:89-109 | whatever came before, including a 32-bit epoch wrap-around and a resize, the visited set is empty |
| `VisitScratch.BeamScratch.MarkIfNew` | crates/namidb-ann/src/search.rs:113-129 | reports exactly the unvisited ids and adds the id to the visited set |
| `BeamSearch.ExpandShrinksFuel` | crates/namidb-ann/src/search.rs:217-239 | each expansion brings the search nearer to its end |
| `BeamSearch.BeamSearchWithScratch` | crates/namidb-ann/src/search.rs:176-251 | the heap-driven loop computes the search as a function of the graph, on any scratch |
| `BeamSearch.Traverse` | crates/namidb-ann/src/search.rs:217-239 | the expansion loop ends with the results of the search function, from any consistent beam |
| `BeamSearch.SearchStep` | crates/namidb-ann/src/search.rs:217-224 | one step: stop on an empty heap or a converged full beam, otherwise expand the nearest candidate against the farthest result |
| `BeamSearch.ExpandNode` | crates/namidb-ann/src/search.rs:217-239 | expanding a node offers every neighbour against the distance captured at the start |
| `BeamSearch.OfferNeighbour` | crates/namidb-ann/src/search.rs:224-238 | one neighbour: out-of-range and visited ids are skipped; into a full beam only a node nearer than the captured distance is taken, and the farthest goes |
| `BeamTheorems.SearchInvariant` | crates/namidb-ann/src/search.rs:199-239 | the beam invariant holds at every step, and at the end nothing in the beam is unexpanded |
| `BeamTheorems.OutcomeSize` | crates/namidb-ann/src/search.rs:199-239 | the final beam holds min(ef, number of reachable nodes) reachable nodes with their distances |
| `BeamTheorems.AnswerShape` | crates/namidb-ann/src/search.rs:196-250 | exactly min(k, reachable) distinct reachable ids with correct distances, sorted by (distance, id) |
| `BeamTheorems.FirstHitIsNearestScored` | crates/namidb-ann/src/search.rs:220-250 | the first hit has the least distance over all nodes ever scored |
| `BeamTheorems.BeamIsLocallyClosed` | crates/namidb-ann/src/search.rs:217-239 | all in-range neighbours of every final beam node were scored |
| `BeamTheorems.ClampedWidth` | crates/namidb-ann/src/search.rs:196-197 | the beam is as wide as asked, no narrower than k and no wider than the graph |
| `BeamTheorems.FullBeamDropsFarther` | crates/namidb-ann/src/search.rs:220-238 | expanding a full beam lets go of nothing, newly scored or held before, that is nearer than a node it holds at the end |
| `BeamTheorems.OnlyFillingLosesTheCloser` | crates/namidb-ann/src/search.rs:220-238 | an expansion that loses a closer node is the one that fills the beam |
| `BeamTheorems.WideBeamIsExact` | crates/namidb-ann/src/search.rs:176-251 | with ef at least n the answer is the k nearest of everything reachable, for any adjacency |
| `BeamTheorems.StarDropsTheNearer` | crates/namidb-ann/src/search.rs:220-231 | for every ef strictly between 1 and n a graph on which a nearer scored node is dropped |
| `BeamTheorems.NarrowOrWideKeepsClosest` | crates/namidb-ann/src/search.rs:217-239 | a beam of width 1 or n keeps the closest scored nodes |
| `BeamTheorems.ClosestKeptExactlyWhen` | crates/namidb-ann/src/search.rs:152-155 | the documented "ef closest seen so far" holds on all graphs exactly when ef is 1 or n |
| `BeamTheorems.SameAnswerOnAnyScratch` | crates/namidb-ann/src/search.rs:156-172 | dense and sparse scratch with any history give the same hits |
| `Pruning.Compact` | crates/namidb-ann/src/build.rs:125-144 | the write-index compaction leaves exactly the unoccluded tail, in order |
| `Pruning.PickInPlace` | crates/namidb-ann/src/build.rs:115-147 | the in-place loop computes the greedy selection |
| `Pruning.RobustPrune` | crates/namidb-ann/src/build.rs:99-148 | filter, sort, dedup and pick, including the empty and zero-degree cases |
| `Pruning.GreedyIsRobustPrune` | crates/namidb-ann/src/build.rs:115-147 | the greedy selection meets a declarative definition of RobustPrune |
| `Pruning.RobustPruneUnique` | crates/namidb-ann/src/build.rs:115-147 | nothing else meets that definition |
| `Pruning.PreparedCandidates` | crates/namidb-ann/src/build.rs:109-113 | when distance is a function of the id, removing adjacent repeats removes all repeats |
| `Pruning.PruneContract` | crates/namidb-ann/src/build.rs:99-148 | at most r distinct non-anchor candidates, nearest first, none occluded by an earlier pick; with room left, everything dropped is occluded by a pick at nonzero distance |
| `Pruning.PicksAreApart` | crates/namidb-ann/src/build.rs:125-144 | of two picks the later one is at distance zero from the earlier, or nearer to the anchor than alpha times their distance |
| `Pruning.MissingIsOccluded` | crates/namidb-ann/src/build.rs:115-147 | with room left, a candidate that is missing has a pick at nonzero distance of which alpha times is at most its own distance |
| `Pruning.DuplicateIsKept` | crates/namidb-ann/src/build.rs:137 | with room left, a candidate at distance zero from every pick is kept: a duplicate is not dropped because of its twin |
| `Vamana.RelinkedIsGood` | crates/namidb-ann/src/build.rs:210-224 | a relinked neighbour list keeps the degree bound, range, no self-loop and no repeat |
| `Vamana.ReverseEdge` | crates/namidb-ann/src/build.rs:293-306 | the list after a reverse edge is the old one plus it, or if that overflows its robust prune; the edge is there unless r picks are nearer or one occludes it |
| `Vamana.PrunedIsPrune` | crates/namidb-ann/src/build.rs:206-209 | the chosen neighbours are the robust prune of the measured hits, nothing else |
| `Vamana.RelinkedIsRelink` | crates/namidb-ann/src/build.rs:210-224 | linking back changes nothing if the edge is there, appends it if there is room, and otherwise leaves the robust prune of all of them measured from their owner |
| `Vamana.LinkAllAt` | crates/namidb-ann/src/build.rs:293-306 | reverse edges touch exactly the chosen neighbours' lists |
| `Vamana.AddReverseEdges` | crates/namidb-ann/src/build.rs:293-306 | every chosen neighbour is linked back: unchanged, appended or robustly pruned; no other list changes |
| `Vamana.HitsLeaveAChoice` | crates/namidb-ann/src/build.rs:191-206 | the search before a prune returns min(max(build width, r + 1), reachable) reachable nodes, nearest first, with their distances |
| `Vamana.ChooseNeighbours` | crates/namidb-ann/src/build.rs:191-206 | the robust prune of the search hits other than the node itself |
| `Vamana.Grow` | crates/namidb-ann/src/build.rs:274-307 | the new node gets the robust prune of its hits, each of those is linked back, every other list is unchanged, well-boundedness is kept |
| `Vamana.VamanaGraph.InsertLast` | crates/namidb-ann/src/build.rs:252-308 | both rejections leave the graph unchanged; the first insert sets the entry and later ones keep it and link the node as in Grow; the lists stay well-bounded |
| `Vamana.InsertRun` | crates/namidb-ann/src/build.rs:252-308 | any run of inserts from the empty graph keeps every list well-bounded and the entry in place |
| `Vamana.NearestOthersAreNearest` | crates/namidb-ann/src/build.rs:333-345 | brute-force seeding links each node to its r nearest others |
| `Vamana.RandomInitIsGood` | crates/namidb-ann/src/build.rs:355-375 | for every random draw, random seeding gives min(r, n - 1) distinct neighbours and no self-loop |
| `Vamana.ApproximateMedoid` | crates/namidb-ann/src/build.rs:312-330 | the first sampled node with the least total distance to the sample: none is better, and every earlier one is worse |
| `Vamana.RefineOne` | crates/namidb-ann/src/build.rs:189-225 | one node of a refinement pass gets the robust prune of its hits and is linked back |
| `Vamana.RandomInitIsSeed` | crates/namidb-ann/src/build.rs:355-375 | random seeding gives each node its first min(r, n - 1) drawn ids other than itself, in order |
| `Vamana.BruteForceInitIsSeed` | crates/namidb-ann/src/build.rs:333-345 | brute-force seeding gives each node its r nearest others, in order |
| `Vamana.RefinePass` | crates/namidb-ann/src/build.rs:189-226 | the pass refines the nodes in the shuffled order, each on the graph the one before left |
| `Vamana.Build` | crates/namidb-ann/src/build.rs:154-228 | for every random choice: a seeded graph, then one refinement of every node in the shuffled order from the medoid; the result is well-bounded and its entry is in range |
| `Coordinator.ReconcileNodeVersions` | crates/namidb-storage/src/sst/search_delta.rs:249-286 | the highest LSN wins and everything that holds it agrees; it fails exactly on a reserved LSN or on a record that differs from an earlier one with the highest LSN so far |
| `Coordinator.LocalSearch` | crates/namidb-bench/src/object_native_architecture.rs:1427-1484 | a segment's local list is its best hits up to the limit, with its count of eligible rows |
| `Coordinator.WinnerIsCurrent` | crates/namidb-bench/src/object_native_architecture.rs:1503-1520 | the reconciled winner says whether a hit of a base or delta segment is current |
| `Coordinator.IsWinning` | crates/namidb-bench/src/object_native_architecture.rs:1503-1520 | the winner test accepts exactly current hits |
| `Coordinator.JudgeSegment` | crates/namidb-bench/src/object_native_architecture.rs:1502-1525 | of a local list exactly the current hits are kept, in order |
| `Coordinator.SearchSegment` | crates/namidb-bench/src/object_native_architecture.rs:1422-1485 | the hits of a segment are eligible rows whatever the search; an exact search gives its local top and an honest exhaustion flag |
| `Coordinator.VisitSegment` | crates/namidb-bench/src/object_native_architecture.rs:1422-1525 | accepted hits are current, and after an exact search they are all current rows of the local top |
| `Coordinator.InsertWinners` | crates/namidb-bench/src/object_native_architecture.rs:1521-1526 | the winner map holds one hit per node |
| `Coordinator.Round` | crates/namidb-bench/src/object_native_architecture.rs:1418-1533 | one round gives at most k rows of the merged corpus, best first; with exact searches the best k of everything accepted, and each segment's count |
| `Coordinator.Widen` | crates/namidb-bench/src/object_native_architecture.rs:1544-1558 | limits never shrink nor pass the live rows, each short, unexhausted segment takes its next limit, and every skipped one keeps its own |
| `Coordinator.SlackFalls` | crates/namidb-bench/src/object_native_architecture.rs:1550-1557 | the rows out of reach fall with every change of the limits |
| `Coordinator.WideningIsGeometric` | crates/namidb-bench/src/object_native_architecture.rs:1544-1558 | every widening at least doubles a limit until it reaches the live rows |
| `Coordinator.StopIsExact` | crates/namidb-bench/src/object_native_architecture.rs:1534-1543 | when the loop stops, the best k of the accepted are the best k of the merged corpus |
| `Coordinator.MustWiden` | crates/namidb-bench/src/object_native_architecture.rs:1544-1561 | a round that does not stop changes some limit, so the "could not prove" exit is never taken |
| `Coordinator.MergedOnePerNode` | crates/namidb-bench/src/object_native_architecture.rs:1521-1524 | in the merged corpus a node has one hit |
| `Coordinator.CoordinatedQuery` | crates/namidb-bench/src/object_native_architecture.rs:1391-1563 | for every set of segments and every k it terminates; on consistent segments its hits are current rows, one per node, best first, whatever an approximate base search finds; with exact searches they are the best k of the merged corpus and it never gives up |
| `FlatOracle.RetainKeepsBest` | crates/namidb-bench/src/object_native_architecture.rs:1333-1342 | pushing, sorting and truncating keeps the best k of everything seen |
| `FlatOracle.ExactFinal` | crates/namidb-bench/src/object_native_architecture.rs:1276-1308 | the flat scan returns the best k live matching rows |
| `FlatOracle.MergedViewHits` | crates/namidb-bench/src/object_native_architecture.rs:1826-1899 | the rows of the merged view are the highest-LSN versions in the segments |
| `FlatOracle.CoordinatedTextQuery` | crates/namidb-bench/src/object_native_architecture.rs:1926-2044 | the text coordinator answers what the text oracle answers |
| `FlatOracle.CoordinatedVectorQuery` | crates/namidb-bench/src/object_native_architecture.rs:1391-1563 | the vector coordinator in exact mode answers what the vector oracle answers |
| `PackStreamTheorems.HeadOfHeader` | crates/namidb-bolt/src/codec.rs:229-293 | every length of every kind is read back from its marker |
| `PackStreamTheorems.HeadOfInt` | crates/namidb-bolt/src/codec.rs:178-194 | every 64-bit integer is read back from its shortest form |
| `PackStreamTheorems.RoundTrip` | crates/namidb-bolt/src/codec.rs:143-545 | at any depth and heap use, decoding an encoding succeeds exactly when its weight fits, gives the value, and stops at the bytes after it |
| `PackStreamTheorems.ItemsRoundTrip` | crates/namidb-bolt/src/codec.rs:459-474 | the same for the elements of a list |
| `PackStreamTheorems.EntriesRoundTrip` | crates/namidb-bolt/src/codec.rs:476-510 | the same for the entries of a map |
| `PackStreamSoundness.HeaderIsMinimal` | crates/namidb-bolt/src/codec.rs:229-293 | no accepted header, however wide, is shorter than the encoder's |
| `PackStreamSoundness.PutCosts` | crates/namidb-bolt/src/codec.rs:494-507 | inserting a decoded entry, also over a duplicate key, costs no more than it took on the wire |
| `PackStreamSoundness.DecodeIsSound` | crates/namidb-bolt/src/codec.rs:307-425 | whatever decodes is a prefix's worth: encodable, no more nodes than bytes, within depth and heap, and no longer when encoded again |
| `PackStreamResults.ValuePaidFor` | crates/namidb-bolt/src/codec.rs:530-545 | the minimum-wire checks never refuse an encoding |
| `PackStreamResults.RoundTripExactlyWhen` | crates/namidb-bolt/src/codec.rs:302-305 | a message decodes to the value it encodes exactly when height, heap and lengths fit the limits |
| `PackStreamResults.TooDeepDoesNotReturn` | crates/namidb-bolt/src/codec.rs:60 | a list 129 deep is encoded and refused by the decoder |
| `PackStreamResults.CutLengthDoesNotReturn` | crates/namidb-bolt/src/codec.rs:214-227 | a byte string of 4 GiB or more is encoded under a cut length and never comes back |
| `PackStreamResults.MessageRoundTripExactlyWhen` | crates/namidb-bolt/src/codec.rs:62-87 | for a message within max_len only height, heap and the 32-bit lengths decide |
| `PackStreamResults.CheapShapeDecodes` | crates/namidb-bolt/src/codec.rs:69-87 | a value whose heap is paid for by its own bytes decodes whatever its size |
| `PackStreamResults.FloatListDecodes` | crates/namidb-bolt/src/codec.rs:69-87 | every list of floats whose encoding fits max_len decodes |
| `PackStreamResults.FloatMatrixDecodes` | crates/namidb-bolt/src/codec.rs:69-87 | every list of non-empty lists of floats whose encoding fits max_len decodes |
| `PackStreamResults.AnyDecode` | crates/namidb-bolt/src/codec.rs:302-545 | for any bytes, a successful decode consumes a prefix, builds no more nodes than bytes, stays within the heap limit, and re-encodes no longer |
| `PackStreamResults.RawTagAgrees` | crates/namidb-bolt/src/session.rs:367-392 | the tag peeked from raw bytes is the tag of the structure that decodes from them |
| `WireFormat.BigEndianIsPositional` | crates/namidb-bolt/src/codec.rs:229-293 | the bytes written for a length or number are its digits to base 256, the most significant first |
| `WireFormat.Get16IsPositional` | crates/namidb-bolt/src/codec.rs:561-566 | two bytes are read as the sum of their places; chunk headers are read this way |
| `WireTheorems.HeadIsInTable` | crates/namidb-bolt/src/codec.rs:322-423 | for any bytes the decoder reads the first ones as the PackStream marker table says, and calls exactly the reserved markers invalid |
| `WireTheorems.PutMeans` | crates/namidb-bolt/src/codec.rs:494-507 | inserting sets the key to the new value and leaves every other entry as it is |
| `WireTheorems.DecodeReads` | crates/namidb-bolt/src/codec.rs:307-425 | whatever the bytes, a value that decodes is the one the wire format reads at the front of them, with the last of repeated map keys winning |
| `WireTheorems.EncodeReads` | crates/namidb-bolt/src/codec.rs:143-293 | the wire format reads an encoding as its value, at any depth |
| `WireExactness.SpelledIsRead` | crates/namidb-bolt/src/codec.rs:322-342 | every spelling of null, a boolean, a float or an integer, also a wider one than needed, is read as that value |
| `WireExactness.AnnouncedIsRead` | crates/namidb-bolt/src/codec.rs:344-417 | every marker and length of the table is read as that kind and length |
| `WireExactness.ReadingIsDecoded` | crates/namidb-bolt/src/codec.rs:307-545 | bytes that have a reading decode to it, or fail by a limit on nesting, length or heap |
| `WireExactness.DecodesExactlyWhen` | crates/namidb-bolt/src/codec.rs:302-545 | a message that decodes has exactly one reading; one that fails other than by a limit has none |
| `Utf8.TextIsAccepted` | crates/namidb-bolt/src/codec.rs:427-442 | every text of Unicode scalar values is accepted as a string |
| `Utf8.AcceptedIsText` | crates/namidb-bolt/src/codec.rs:427-442 | nothing else is |
| `Codec.EncodeInto` | crates/namidb-bolt/src/codec.rs:143-176 | appends exactly the encoding, which the wire format reads as the value unless a length was cut, and fails exactly on what cannot be encoded |
| `Codec.EncodeItemsInto` | crates/namidb-bolt/src/codec.rs:155-160 | appends the elements in order |
| `Codec.EncodeEntriesInto` | crates/namidb-bolt/src/codec.rs:161-167 | appends keys and values in key order |
| `Codec.Decoder.Decode` | crates/namidb-bolt/src/codec.rs:307-425 | the decoder over an advancing buffer and a running heap count computes the decoding function, and a value it returns is what the wire format reads in the bytes it took |
| `Codec.Decoder.DecodeAll` | crates/namidb-bolt/src/codec.rs:469-473 | the element loop |
| `Codec.Decoder.DecodePairs` | crates/namidb-bolt/src/codec.rs:494-509 | the entry loop, later duplicates winning |
| `Codec.DecodeMessage` | crates/namidb-bolt/src/codec.rs:302-305 | one message under the limits derived from its length |
| `Chunk.ReadMessage` | crates/namidb-bolt/src/chunk.rs:29-53 | the sequential reader gives the body, the size rejection or the cut the framing defines |
| `Chunk.WriteMessageChunked` | crates/namidb-bolt/src/chunk.rs:66-84 | the writer cuts the body at the clamped chunk size and closes it |
| `Chunk.WrittenReadsBack` | crates/namidb-bolt/src/chunk.rs:29-84 | at any chunk size a written body within the limit reads back with the stream at the next frame |
| `Chunk.WrittenSkips` | crates/namidb-bolt/src/chunk.rs:66-84 | skipping a written frame ends at the next frame |
| `Chunk.ChunksAreRead` | crates/namidb-bolt/src/chunk.rs:29-53 | any cut of a body into chunks of 1 to 65535 bytes, each behind its big-endian length, and a zero length reads as that body, or is over the limit |
| `Chunk.WholeIsChunks` | crates/namidb-bolt/src/chunk.rs:29-53 | whatever reads as a message is such chunks |
| `Chunk.WrittenIsChunks` | crates/namidb-bolt/src/chunk.rs:66-84 | the writer cuts chunks of the clamped size, only the last shorter |
| `Budget.Upgrade` | crates/namidb-bolt/src/session.rs:261-286 | raising a lease is all or nothing, never waits, moves units and loses none, and each refusal has its cause |
| `Budget.ChargeIsExact` | crates/namidb-bolt/src/budget.rs:106-144 | a frame costs 2 MiB and two bytes per byte while read, sixteen once decoded, rounded up to 4 KiB; it is refused exactly when that exceeds the budget, unless the budget has the largest unit count |
| `Budget.DefaultAdmitsExactly` | crates/namidb-bolt/src/budget.rs:37-43 | the default budget admits a message exactly up to 64 MiB |
| `SharedBudget.MessageMemoryBudget.Ensure` | crates/namidb-bolt/src/session.rs:261-286 | the semaphore does what the upgrade function says, and that is an action of the shared system |
| `SharedBudget.MessageMemoryBudget.Release` | crates/namidb-bolt/src/session.rs:290-295 | a dropped frame lease returns its units |
| `SharedBudget.MessageMemoryBudget.Finish` | crates/namidb-bolt/src/session.rs:1112-1115 | a consumed message returns its units |
| `Budget.TryNew` | crates/namidb-bolt/src/budget.rs:78-99 | which capacities are accepted, their rounding, and that an accepted one can decode a byte |
| `SharedBudget.ActAccounted` | crates/namidb-bolt/src/session.rs:146-165 | every framing, delivery, drop and completion keeps units conserved and messages fully charged |
| `SharedBudget.GrowthIsCharged` | crates/namidb-bolt/src/session.rs:261-286 | a growing frame is charged exactly what reading it needs, or nothing changes |
| `SharedBudget.DeliveryIsCharged` | crates/namidb-bolt/src/session.rs:146-165 | a delivered message carries exactly what decoding it needs, or its larger frame lease, and its framer keeps none; if the units cannot be had nothing changes |
| `SharedBudget.RunAccounted` | crates/namidb-bolt/src/budget.rs:146-169 | over any interleaving of any sessions available units plus leases equal the capacity |
| `SharedBudget.LeaseCovers` | crates/namidb-bolt/src/budget.rs:106-144 | the lease of a message covers its body and everything its decoder may admit |
| `SharedBudget.RunSafe` | crates/namidb-bolt/src/codec.rs:103-128 | over any interleaving, wire bytes plus admitted heap of all leased messages stay within the capacity |
| `SharedBudget.SaturationUndercharges` | crates/namidb-bolt/src/budget.rs:130-144 | at the largest unit count a larger message is delivered for the whole budget and exceeds it |
| `SharedBudget.SafeExactlyWhen` | crates/namidb-bolt/src/budget.rs:130-144 | the bound holds on all runs exactly when 32-bit units suffice for the largest message |
| `SharedBudget.BudgetIsSafe` | crates/namidb-bolt/src/budget.rs:146-169 | whatever was done with a semaphore object, its units are conserved and what is in flight fits |
| `MessageReader.ReadSome` | crates/namidb-bolt/src/session.rs:349-365 | one read gives any nonempty part of what is there, the end, or nothing yet |
| `MessageReader.StatefulMessageReader.ReadHeader` | crates/namidb-bolt/src/session.rs:171-195 | any split of a header leaves the meaning of the stream as it was |
| `MessageReader.StatefulMessageReader.AdmitChunk` | crates/namidb-bolt/src/session.rs:197-242 | terminator, size limit and budget at a chunk header; on the budget it acts as growing this session's frame |
| `MessageReader.StatefulMessageReader.NextChunk` | crates/namidb-bolt/src/session.rs:171-242 | a header read and acted on leaves the meaning of the stream as it was, or stops for the reason the sequential reader would |
| `MessageReader.StatefulMessageReader.FillChunk` | crates/namidb-bolt/src/session.rs:244-257 | any split of a chunk body leaves the meaning of the stream as it was |
| `MessageReader.StatefulMessageReader.TakeMessage` | crates/namidb-bolt/src/session.rs:146-165 | a complete body leaves with its lease, or is refused with everything in place; on the budget it acts as a delivery |
| `MessageReader.StatefulMessageReader.ReadMessage` | crates/namidb-bolt/src/session.rs:138-259 | dropped and called again at any point, it gives what the sequential reader gives from the same state, keeps the units, and touches no other session's lease |
| `MessageReader.StatefulMessageReader.ReleaseBuffered` | crates/namidb-bolt/src/session.rs:290-295 | memory and lease go back, the framing position stays |
| `MessageReader.StatefulMessageReader.DiscardOversized` | crates/namidb-bolt/src/session.rs:303-346 | after any rejection the stream stands at the next frame's first byte and no lease is held; it fails exactly when the frame never ends |
| `MessageReader.PollMany` | crates/namidb-bolt/src/session.rs:138-259 | with a fixed limit and no budget, any polling yields the bodies, rejections and position of the sequential reader |
| `SharedReaders.Interleave` | crates/namidb-bolt/src/session.rs:138-295 | any number of readers on one semaphore, polled, cut off and finished in any order, make a run of the shared system: units are conserved and what is in flight fits the capacity |
| `Streaming.LastOccurrences` | crates/namidb-bolt/src/session.rs:1574-1584 | marks exactly the final occurrence of each column name |
| `Streaming.ProjectByMove` | crates/namidb-bolt/src/session.rs:1378-1395 | moving at the last occurrence equals looking every column up, also with repeated names |
| `Streaming.AnswerMeans` | crates/namidb-bolt/src/session.rs:1354-1433 | PULL n sends the first n rows, or all that are left for a negative or larger n, and DISCARD none; a record holds the row's value of each column or null; the last message says whether rows remain |
| `Streaming.PagingIsExact` | crates/namidb-bolt/src/session.rs:1354-1433 | for any PULL and DISCARD sizes the records are the pulled stretches in order, and one summary closes exactly a drained stream |
| `Streaming.PullsDeliverEverythingPassed` | crates/namidb-bolt/src/session.rs:1367-1403 | pulls alone deliver a prefix, and all rows once the stream closes |
| `Session.Session.constructor` | crates/namidb-bolt/src/session.rs:1135-1163 | a negotiated connection starts unauthenticated, valid and outside a transaction |
| `Protocol.EveryRequestIsAnswered` | crates/namidb-bolt/src/session.rs:1165-1221 | every request but GOODBYE gets records and one closing message |
| `Protocol.CommitIsHonest` | crates/namidb-bolt/src/session.rs:1601-1614 | COMMIT is answered SUCCESS exactly when the backend was asked to commit and did |
| `Protocol.SuccessIsEarned` | crates/namidb-bolt/src/session.rs:1223-1346 | BEGIN, ROLLBACK and LOGON are answered SUCCESS exactly when the backend was asked in the right state and agreed |
| `Protocol.StateIsTold` | crates/namidb-bolt/src/session.rs:1165-1221 | after every answered request the session is in a transaction exactly when the backend's record has one begun and neither committed nor rolled back, and its state follows from the last message sent and that record alone |
| `Protocol.CallsAreAskedFor` | crates/namidb-bolt/src/session.rs:1223-1346 | each kind of backend call is made once, for one request in one state, and only a roll-back follows it |
| `Protocol.IgnoredExactlyWhen` | crates/namidb-bolt/src/session.rs:1202-1221 | IGNORED answers exactly the requests after a failure or outside the protocol, except GOODBYE and an authenticated RESET, and changes nothing |
| `Protocol.RunIsHonest` | crates/namidb-bolt/src/session.rs:1538-1598 | RUN streams exactly the fields, rows and counters the backend returned, or no stream opens |
| `Protocol.OnlyLoginOpens` | crates/namidb-bolt/src/session.rs:1223-1269 | from outside, READY is entered only by a login the backend accepted |
| `Protocol.FetchServed` | crates/namidb-bolt/src/session.rs:1354-1433 | a demand has one possible answer, next state and remainder |
| `Protocol.FetchLeaves` | crates/namidb-bolt/src/session.rs:1354-1433 | a size below the rows left drops that many from the front and keeps streaming; any other closes the stream |
| `Session.Session.FailRequest` | crates/namidb-bolt/src/session.rs:1691-1709 | FAILED always comes with empty buffers and no open transaction, and asks the backend to roll back exactly when the session was in a transaction |
| `Session.Session.RollbackIfOpen` | crates/namidb-bolt/src/session.rs:1126-1133 | rolls back exactly in a transaction or after a failure, and nothing is open afterwards |
| `Session.Session.Prefetch` | crates/namidb-bolt/src/session.rs:1473-1537 | what arrives is queued in order, counted, exactly when there is no transport error and it fits 16 messages and the byte cap; otherwise the queue is emptied |
| `Session.Session.PopPrefetched` | crates/namidb-bolt/src/session.rs:977-979 | messages leave in order and the byte count follows |
| `Session.Session.ExecuteRun` | crates/namidb-bolt/src/session.rs:1442-1599 | a statement the backend accepted streams its outcome, one it refused fails the request; a broken pipeline leaves a state that can be rolled back |
| `Session.Session.OpenStream` | crates/namidb-bolt/src/session.rs:1559-1598 | the column names are announced before rows and marks are kept |
| `Session.Session.CommitRequest` | crates/namidb-bolt/src/session.rs:1601-1614 | the backend is asked to commit; if it did, SUCCESS and READY, if not, a roll-back, FAILURE and FAILED |
| `Session.Session.BeginRequest` | crates/namidb-bolt/src/session.rs:1282-1297 | the backend is asked to begin; if it did, SUCCESS and TX_READY, if not, FAILURE and FAILED |
| `Session.Session.RollbackRequest` | crates/namidb-bolt/src/session.rs:1337-1343 | the backend is asked to roll back; if it did, SUCCESS and READY, if not, FAILURE and FAILED |
| `Session.Session.FetchRequest` | crates/namidb-bolt/src/session.rs:1354-1433 | one PULL or DISCARD answers its stretch, has-more exactly while rows remain, keeps the rest, and closes to the state the statement came from |
| `Session.Session.ServeDemands` | crates/namidb-bolt/src/session.rs:1354-1433 | any run of demands sends what the paging theorems are about |
| `Session.Session.HandleLogin` | crates/namidb-bolt/src/session.rs:1223-1269 | READY is reached exactly by a login the backend accepted |
| `Session.Session.HandleReady` | crates/namidb-bolt/src/session.rs:1271-1318 | requests outside a transaction follow the backend's answers, LOGOFF included |
| `Session.Session.HandleTxReady` | crates/namidb-bolt/src/session.rs:1320-1346 | requests inside a transaction follow the backend's answers |
| `Session.Session.HandleStreaming` | crates/namidb-bolt/src/session.rs:1348-1439 | only PULL and DISCARD are served while streaming |
| `Session.Session.HandleReset` | crates/namidb-bolt/src/session.rs:1176-1191 | RESET rolls back, empties the buffers and returns to READY |
| `Session.Session.HandleGoodbye` | crates/namidb-bolt/src/session.rs:1192-1201 | GOODBYE rolls back and leaves every buffer as it is |
| `Session.RowSurvivesGoodbye` | crates/namidb-bolt/src/session.rs:1192-1201 | a row not yet fetched is still held after GOODBYE |
| `Session.Session.Handle` | crates/namidb-bolt/src/session.rs:1165-1221 | for every request the calls on the backend, the next state, the buffers and the messages sent are what the protocol gives for the backend's answers; the state is in a transaction exactly when the backend's record is, and follows from the last message; everything stays consistent even when a write fails |
| `Session.Session.Step` | crates/namidb-bolt/src/session.rs:947-1117 | one turn of the loop: a message is answered as the protocol asks, an expired or idle transaction and a malformed or refused message fail the session, an unauthenticated timeout and every transport end close the connection; a closing turn leaves no transaction |
| `Session.Session.Serve` | crates/namidb-bolt/src/session.rs:941-1120 | over any client, transport and backend behaviour no transaction is open at the end, and no statement, BEGIN or COMMIT reached the backend outside an authenticated stretch |
| `PathMapping.Convert` | crates/namidb-bolt/src/mapping.rs:49-145 | the borrowed and the owned converter give the same wire value for every runtime value |
| `PathMapping.NodeFields` | crates/namidb-bolt/src/mapping.rs:147-178 | a node structure holds id, labels, properties and element id in their places |
| `PathMapping.RelFields` | crates/namidb-bolt/src/mapping.rs:180-222 | a relationship structure holds id, source, target, type, properties and the three element ids in their places |
| `PathMapping.UnboundFields` | crates/namidb-bolt/src/mapping.rs:357-399 | a relationship inside a path holds id, type, properties and element id in their places |
| `PathMapping.MixedPathIsList` | crates/namidb-bolt/src/mapping.rs:265-273 | a path with anything else in it is the list of its converted elements |
| `PathMapping.VisitItem` | crates/namidb-bolt/src/mapping.rs:243-274 | the hash index and the pending relationship do what the first-occurrence search says |
| `PathMapping.ConvertPath` | crates/namidb-bolt/src/mapping.rs:224-284 | the borrowed path converter, falling back to a list in the middle |
| `PathMapping.ConvertPathOwned` | crates/namidb-bolt/src/mapping.rs:286-355 | the owned path converter, looking first |
| `PathMapping.WalkFinds` | crates/namidb-bolt/src/mapping.rs:224-284 | walking the structure of any alternating path meets, at each stop, the first node with that id, and crosses the relationships in order |
| `PathMapping.PathRebuiltExactlyWhen` | crates/namidb-bolt/src/mapping.rs:224-284 | the walk gives back all nodes and each relationship's source and target exactly when the path is joined and ids identify nodes |
| `PathMapping.RelabelledPathIsNotRebuilt` | crates/namidb-bolt/src/mapping.rs:245-264 | one id with two labels: the walk shows the first label twice |
| `RangeCache.FitIsLongest` | crates/namidb-bench/src/object_native.rs:346-358 | eviction keeps the longest recent stretch that fits |
| `RangeCache.OldestIsLeastRecentExactlyWhen` | crates/namidb-bench/src/object_native.rs:347-351 | the smallest stamp names the least recently used range, exactly until two ranges carry the saturated stamp |
| `RangeCache.SaturatedStampsTie` | crates/namidb-bench/src/object_native.rs:334-335 | with two saturated stamps the more recently used range may be evicted |
| `RangeCache.BoundedCache.Get` | crates/namidb-bench/src/object_native.rs:332-337 | a hit ticks the clock and takes the new stamp, which none exceeds; its slot goes to the end of the list of uses and the others keep their order; a miss changes nothing |
| `RangeCache.BoundedCache.Evict` | crates/namidb-bench/src/object_native.rs:347-357 | one entry goes, the least recently used while the clock runs |
| `RangeCache.BoundedCache.Insert` | crates/namidb-bench/src/object_native.rs:339-368 | used bytes equal the sum of the entries and stay within the capacity; the new entry has the latest stamp, and the cache becomes what the list of uses says; a range that cannot fit changes nothing |
| `RangeCache.BoundedCache.Clear` | crates/namidb-bench/src/object_native.rs:370-373 | empties the cache and keeps the clock |
| `RangeCache.RangeSource.Fetch` | crates/namidb-bench/src/object_native.rs:423-464 | answers the file's bytes for the range, the range error, or a failed read |
| `RangeCache.RangeSource.Serve` | crates/namidb-bench/src/object_native.rs:423-477 | under any interleaving of fetch halves and clears every answer is the file's, within the byte bound; until the clock saturates the cache holds what the list of uses holds after the same steps, and a range that is gone was last hit or filled before every range that is kept |
| `RangeCache.StepKeepsOrder` | crates/namidb-bench/src/object_native.rs:332-374 | each step keeps the list in order of last use |

## Left out

- Coordinator.CoordinatedQuery: in `ServingAnn` mode nothing is claimed about recall, and it may end without an answer; the approximate index itself is not modelled.
- Coordinator.CoordinatedQuery: on segments where one node has two different versions under one LSN it may stop with a reconciliation error, as the code does.
- SharedBudget.RunSafe: counts messages that carry a lease; control frames of at most 4 KiB bypass the budget and are not counted.
- Session.Session.Serve: assumes that rolling back closes the transaction and that a refused BEGIN opens none; the backend itself is not modelled.
- Session.Session.Serve: starts after version negotiation; the handshake is not modelled.
- MessageReader.StatefulMessageReader.ReadMessage: a frame deadline appears as a failed read, not as a clock.
- PathMapping.Convert: scalars, vectors, dates and date-times are taken as the wire value they become; parameters sent by the client (`bolt_to_runtime`) are not modelled.
- Reachability of every inserted graph node is not promised by the code and not claimed.
- Rounding of f32, NaN and signed zero: distances and scores are reals.
- Saturating `usize` arithmetic is modelled by unbounded integers, where saturation cannot be reached by data in memory.
- int8 quantization (`crates/namidb-core/src/quantize.rs`): arithmetic error bounds only.
- Message field layout of requests and responses (`crates/namidb-bolt/src/message.rs`), beyond the request tag: a lookup table.
- The statement type, bookmark and other metadata in success messages: they are carried through unchanged.
- Credential comparison, failure codes and texts, ROUTE replies, element id formats and hashing: lookup tables or uninterpreted functions.
- Tokio, sockets, wake-up order of cancellation, tracing, counters and timing of the range source.
- Storage, query engine, manifest, write-ahead log and compaction.
