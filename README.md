# TSCBPT core in Dafny

TSCBPT builds Binary Partition Trees (BPTs) over images and image time
series. A BPT is a binary tree of regions. Its leaves are the pixels. Each
inner node is the union of its two children.

This project models TSCBPT's engine and the helpers around it, and proves
properties of the model:

- **Graph generation.** `DenseWRAGGenerator` turns a dense grid into a
  weighted region adjacency graph. It converts between row-major indices
  and coordinate vectors, keeps only forward offsets for a symmetric
  measure, and has generic, 2-D 8-connected and 3-D 10-connected variants
  (`grid_index.dfy`, `generator.dfy`, `generator_3d.dfy`).
- **Greedy construction.** `BPTConstructor` keeps the alive nodes and a
  pool with one candidate dissimilarity per node. Each step takes the
  pool's smallest dissimilarity and merges its two ends into a father.
  Every neighbour is relinked to the father, and the pool is reconciled.
  The main invariant: with a symmetric measure, the pool's first element
  is the smallest dissimilarity between alive nodes (`bpt_constructor.dfy`,
  `relinking.dfy`, `step_removal.dfy`, `reconcile.dfy`,
  `pool_invariant.dfy`, `neighbour_erase.dfy`).
- **Nodes and dissimilarities.** `BPTNode`, `BPTDissimilarity` and the
  comparators `pdiss_value_less` and `pnode_*` (`bpt_node.dfy`,
  `dissimilarity.dfy`, `pnode_comparators.dfy`).
- **Saving and replay.** The saving policies write one id pair per merge
  (`saving_policy.dfy`). `BPTReconstructor` replays those pairs into an
  id-indexed table. Replaying a saved run rebuilds the same tree
  (`reconstructor.dfy`).
- **Pruning and projection.** `BPTFrame::prune` and `NRegs_prune` cut the
  tree (`bpt_frame.dfy`). `BPTDataSource` stamps every grid cell with a
  value of the pruned region that covers it (`bpt_data_source.dfy`).
- **Region models.** Subnode counts and positions (`region_model.dfy`),
  `VectorModel` (`vector_model.dfy`), and the `AddHomogeneity` and
  `AddLogDetAverage` decorators (`decorators.dfy`).
- **Containers and iterators.** Dense, square, packed Hermitian and
  block-diagonal matrices (`matrices.dfy`). Array accessors
  (`accessors.dfy`), `Position` (`position.dfy`), `PositionCounter`
  (`position_counter.dfy`), `ImageData` (`images.dfy`), and
  `SourceCutter` / `SourceComposer` (`sources.dfy`).
- **Utilities.** The averaging helpers (`algorithms.dfy`) and the 2-D
  mirrored box filter (`box_filter.dfy`). Binary header validation and the
  byte-swapping file iterator (`binary_io.dfy`). The checking and storage
  policies (`checking_policy.dfy`, `storage.dfy`).

## Modelling choices

- **Nodes and dissimilarities.** A node is an index into an arena (`NodeStore.nodes`), and its id is that index. A dissimilarity is a key of an arena map. Pointer identity, which the source uses to break ties, becomes the order of these ids.
- **The measure and merge.** The dissimilarity measure is a function paired with its `isSymmetric` flag. The region-model merge is a function.
- **Reals.** `double` is modelled as an exact `real`.
- **Errors.** The source logs some errors and carries on. The model returns an error result there instead, and the run stops.
- **Fixed-width integers.** `size_t` and `int` arithmetic is written out only where a wrap changes the outcome.

## Model

| member | source | states |
|---|---|---|
| Accessors.Put | include/tsc/util/ArrayAccessor.hpp:58-133 | a write through `accessor(i, j, …)` keeps the indexed path valid and keeps the width of the outer level |
| Accessors.AtPut | include/tsc/util/ArrayAccessor.hpp:53-133 | the value written through `accessor(i, j, …)` is the value read back through the same indices |
| Accessors.AtPutOther | include/tsc/util/ArrayAccessor.hpp:163-237 | a write through one index tuple leaves every other element of the same depth unchanged |
| Accessors.PointerAt | include/tsc/util/ArrayAccessor.hpp:266-268 | the pointer accessor `accessor(i)` reads `data[i]` |
| Accessors.PointerPut | include/tsc/util/ArrayAccessor.hpp:270-272 | writing through the pointer accessor changes `data[i]` only, and the write is read back |
| Accessors.InnerBound | include/tsc/util/ArrayAccessor.hpp:358-415 | for in-extent indices the offset k·dims[1]+l·dims[2]+…+j stays below the product of all extents |
| Accessors.InnerInjective | include/tsc/util/ArrayAccessor.hpp:358-415 | two in-extent index tuples with the same offset inside a block are equal |
| Accessors.LinearLayout | include/tsc/util/ArrayAccessor.hpp:348-415 | with prepared extents, `(i, j, k, …)` lands in block i of Product(extents) elements, and distinct in-extent tuples never share an element |
| Accessors.LinearAccessor.constructor | include/tsc/util/ArrayAccessor.hpp:290-338 | the constructors with up to seven extents keep the container and leave the extents as their suffix products |
| Accessors.LinearAccessor.PrepareDims | include/tsc/util/ArrayAccessor.hpp:421-426 | the backward loop of prepare_dims turns the extents into their suffix products |
| Accessors.LinearAccessor.Set1 | include/tsc/util/ArrayAccessor.hpp:344-346 | `accessor(i) = v` writes element i only, and the write is read back |
| Accessors.LinearAccessor.Set | include/tsc/util/ArrayAccessor.hpp:353-415 | `accessor(i, j, k, …) = v` writes the element at k·dims[1]+…+i·dims[0]+j only, and the write is read back |
| Accessors.OneExtent | include/tsc/util/ArrayAccessor.hpp:348-356 | with a single extent d1, `(i, j)` is the row-major position i·d1+j |
| Accessors.LinearAccessor.Get1 | include/tsc/util/ArrayAccessor.hpp:340-342 | `accessor(i)` reads the container's element i |
| Accessors.LinearAccessor.Get | include/tsc/util/ArrayAccessor.hpp:348-411 | `accessor(i, j, k, …)` reads the element `accessor(k·dims[1]+…+i·dims[0]+j)` reads, so it and the multi-index write meet at the same element |
| Averaging.AverageAsWritten | include/tsc/util/Algorithms.h:26-35 | the value `average` leaves is undefined (a division by zero) exactly when the range holds one element |
| Averaging.Average | include/tsc/util/Algorithms.h:26-35 | the loop of `average` (output starts at the first element, `elems` counts the later ones) computes the sum of all elements divided by n − 1 |
| Averaging.AverageOfConstantOvershoots | include/tsc/util/Algorithms.h:28-34 | as written, n ≥ 2 copies of c average to n·c/(n − 1), which differs from c whenever c ≠ 0 |
| Averaging.AverageCorrected | include/tsc/util/Algorithms.h:26-35 | the same loop with the first element counted computes the arithmetic mean |
| Averaging.MeanOfConstant | include/tsc/util/Algorithms.h:26-35 | the mean the corrected loop computes returns c for n copies of c |
| Averaging.AverageUnaryValue | include/tsc/util/Algorithms.h:38-47 | the value of `averageUnaryMeasure` is undefined (a division by zero) exactly on an empty range |
| Averaging.AverageUnaryMeasure | include/tsc/util/Algorithms.h:38-47 | the loop adds m of every element to the caller's value and divides by the element count |
| Averaging.UnaryOfConstant | include/tsc/util/Algorithms.h:38-47 | from a zero start, a measure constant at c over a non-empty range averages to c |
| Averaging.Pairs | include/tsc/util/Algorithms.h:52-57 | the binary loop visits the pairs (xs[i], ys[i]) up to the end of the shorter range, and only those |
| Averaging.AverageBinaryMeasure | include/tsc/util/Algorithms.h:49-59 | the lockstep loop adds m of each visited pair to the caller's value and divides by the number of pairs |
| Averaging.BinaryIsUnaryOverPairs | include/tsc/util/Algorithms.h:49-59 | averaging a binary measure is averaging it, as a unary measure, over the visited pairs |
| Averaging.NullFunctor | include/tsc/util/Algorithms.h:107-116 | NullFunctor returns its argument |
| BinaryIO.SwapEndian | include/tsc/io/FileWithSizeReader.hpp:45-55 | the swap loop over the first half of the bytes returns the value's bytes reversed |
| BinaryIO.SwapEndianInvolution | include/tsc/io/BinaryFileIterator.hpp:81-91 | swapping twice gives the value back |
| BinaryIO.IntRoundTrip | include/tsc/io/FileWithSizeReader.hpp:58-64 | an int written as four bytes is read back as the same int |
| BinaryIO.ToSize | include/tsc/io/FileWithSizeReader.hpp:60-64 | assigning a non-negative int to a size_t keeps its value |
| BinaryIO.HeaderRoundTrip | include/tsc/io/FileWithSizeReader.hpp:57-75 | a header written as cols then rows, in either byte order, followed by rows·cols elements, is read back field by field and accepted |
| BinaryIO.HeaderCheckAsWrittenAcceptsNegative | include/tsc/io/FileWithSizeReader.hpp:72 | the size check as written accepts a header of two −1 fields before one byte of data, which the intended check rejects |
| BinaryIO.BinaryFileIterator.Reading | include/tsc/io/BinaryFileIterator.hpp:28-38 | the stream constructors keep the stream and the swap flag and read the first value at once |
| BinaryIO.BinaryFileIterator.EndIterator | include/tsc/io/BinaryFileIterator.hpp:40-42 | the default constructor is the end iterator: no stream, not good |
| BinaryIO.ReadBuffer | include/tsc/io/BinaryFileIterator.hpp:30-45 | a read of sizeof(T) bytes always leaves a value of sizeof(T) bytes: the next bytes when they are all there, the bytes left followed by the old ones on a short read, the old value from a failed stream |
| BinaryIO.BinaryFileIterator.Read | include/tsc/io/BinaryFileIterator.hpp:30-37 | one read of sizeof(T) bytes stays good only if they are all there, advances by sizeof(T), and leaves the bytes read, reversed when swapping, in the current value |
| BinaryIO.BinaryFileIterator.Increment | include/tsc/io/BinaryFileIterator.hpp:44-49 | `++` reads the next value: while good, the current value is the k-th element of the stream |
| BinaryIO.BinaryFileIterator.Deref | include/tsc/io/BinaryFileIterator.hpp:57-62 | `*` fails with ios_failure exactly on an end iterator, otherwise it returns the current value |
| BinaryIO.EqualToEnd | include/tsc/io/BinaryFileIterator.hpp:64-74 | a reading iterator equals the end iterator exactly when it has tried to read past the data, and the comparison is symmetric |
| BinaryIO.FileWithSizeReader.Empty | include/tsc/io/FileWithSizeReader.hpp:79 | the default reader is 0 × 0 with offset 0 and no swap |
| BinaryIO.FileWithSizeReader.Named | include/tsc/io/FileWithSizeReader.hpp:81-91 | the named constructors store the name and the swap flag before validating |
| BinaryIO.FileWithSizeReader.Copy | include/tsc/io/FileWithSizeReader.hpp:106-112 | the copy constructor copies name, rows, cols, offset and swap flag |
| BinaryIO.FileWithSizeReader.Assign | include/tsc/io/FileWithSizeReader.hpp:114-121 | assignment copies the same five fields |
| BinaryIO.FileWithSizeReader.ReadSize | include/tsc/io/FileWithSizeReader.hpp:57-75 | readsize sets cols then rows from the header, swapped when flagged, sets the offset to two ints, and fails with invalid_argument unless both fields are non-negative and rows·cols elements follow the header |
| BinaryIO.FileWithSizeReader.Begin | include/tsc/io/FileWithSizeReader.hpp:125-130 | begin reopens the file and starts reading offset ints in, with the reader's swap flag |
| BinaryIO.FileWithSizeReader.End | include/tsc/io/FileWithSizeReader.hpp:132-134 | end is the default end iterator |
| BinaryIO.OpenWithHeader | include/tsc/io/FileWithSizeReader.hpp:81-88 | the header constructor succeeds exactly when the header is accepted, with rows and cols from the file and offset 2 |
| BinaryIO.OpenWithSize | include/tsc/io/FileWithSizeReader.hpp:90-104 | the explicit-size constructor keeps rows and cols, sets offset 0, and fails with invalid_argument unless rows·cols·sizeof(T), in size_t, is the file size |
| BinaryIO.HeaderBoundsIteration | include/tsc/io/FileWithSizeReader.hpp:125-130 | an iterator begun after an accepted header stays good for exactly rows·cols reads, and the k-th value is the k-th element after the header |
| BoxCarFilter.IdxDistinct | include/tsc/util/filtering/BoxCarFiltering.h:40-60 | distinct cells (i, j) have distinct row-major positions i·cols + j |
| BoxCarFilter.Row | include/tsc/util/filtering/BoxCarFiltering.h:39-41 | the buffer filled for row i holds the cols cells of that row in order |
| BoxCarFilter.WindowLength | include/tsc/util/filtering/BoxCarFiltering.h:43-57 | the offsets from −(f−1)/2 to f/2 are f samples and include the centre |
| BoxCarFilter.Mirror | include/tsc/util/filtering/BoxCarFiltering.h:44-59 | the mirrored index \|x\|, reflected as 2n − c − 2 past the edge, lies in [0, n) and leaves indices already inside unchanged |
| BoxCarFilter.WindowReach | include/tsc/util/filtering/BoxCarFiltering.h:43-45 | for f/2 < n every mirrored index of the window lies in the buffer |
| BoxCarFilter.AccumulateWindow | include/tsc/util/filtering/BoxCarFiltering.h:43-47 | the k loop adds every window sample whose mirrored index is not the cell's own to the cell |
| BoxCarFilter.FilterRow | include/tsc/util/filtering/BoxCarFiltering.h:38-50 | one row of the horizontal pass leaves each of its cells at the horizontal window sum over a copy of the original row, and every other row unchanged |
| BoxCarFilter.HCellSameRow | include/tsc/util/filtering/BoxCarFiltering.h:39-41 | the horizontal pass reads only the row it filters |
| BoxCarFilter.HorizontalPass | include/tsc/util/filtering/BoxCarFiltering.h:38-50 | after the first pass every cell holds the horizontal window sum of the original image |
| BoxCarFilter.CopyColumn | include/tsc/util/filtering/BoxCarFiltering.h:53-55 | the vertical pass's buffer holds column j, top to bottom |
| BoxCarFilter.SmoothColumn | include/tsc/util/filtering/BoxCarFiltering.h:56-63 | every cell of column j gets its vertical window sum from the buffer, scaled by the factor, and other columns are unchanged |
| BoxCarFilter.FilterColumn | include/tsc/util/filtering/BoxCarFiltering.h:52-65 | one column of the vertical pass turns the horizontally filtered column into the fully filtered one and leaves other columns unchanged |
| BoxCarFilter.VerticalPass | include/tsc/util/filtering/BoxCarFiltering.h:51-65 | after the second pass every cell holds the separable filter of the original image |
| BoxCarFilter.BoxCarFilter2D | include/tsc/util/filtering/BoxCarFiltering.h:31-66 | in place, every cell ends as the mirrored horizontal-then-vertical window sum of the original image scaled by 1/(filterRows·filterCols), with the skip test as written |
| BoxCarFilter.SmoothedConstant | include/tsc/util/filtering/BoxCarFiltering.h:43-47 | with only the centre offset skipped, one pass over a constant buffer yields f copies of the constant |
| BoxCarFilter.ConstantImagePreserved | include/tsc/util/filtering/BoxCarFiltering.h:31-66 | with only the centre offset skipped, the filter maps a constant image to itself |
| BoxCarFilter.SmallFiltersAgree | include/tsc/util/filtering/BoxCarFiltering.h:46-60 | for filters up to 3 × 3 the skip test as written gives the intended result |
| BoxCarFilter.AsWrittenLosesMirroredSamples | include/tsc/util/filtering/BoxCarFiltering.h:46-60 | as written, a 1 × 5 filter over a constant 1 × 3 image leaves the middle cell at 3/5 of the constant |
| BPTNode.Sibling | include/tsc/bpt/BPTNode.hpp:121-125 | getSibling is null without a father; otherwise it is a child of the same father, and not the node itself when the father's children differ |
| BPTNode.RemovalOrder | include/tsc/bpt/BPTNode.hpp:185-191 | removeBPTNodes releases the node itself last |
| BPTNode.RemovalCoversSubtree | include/tsc/bpt/BPTNode.hpp:185-191 | removeBPTNodes releases exactly the nodes of the subtree |
| BPTNode.RemovalChildrenFirst | include/tsc/bpt/BPTNode.hpp:185-191 | every inner node is released after both of its children |
| BPTNode.GetNeighbors | include/tsc/bpt/BPTNode.hpp:170-179 | getNeighbors holds one entry per dissimilarity of the set, each the other endpoint of one of them, and every dissimilarity's other endpoint appears |
| BPTNode.NodeStore.constructor | include/tsc/bpt/BPTNode.hpp:205 | next_id starts at 0: the store of nodes is empty |
| BPTNode.NodeStore.CreateLeaf | include/tsc/bpt/BPTNode.hpp:86-96 | a leaf gets no father, no children, no dissimilarities and the next id, and next_id grows by one |
| BPTNode.NodeStore.CreateFather | include/tsc/bpt/BPTNode.hpp:98-100 | the three-argument constructor stores the given children, a null father and the next id |
| BPTNode.NodeStore.SetFather | include/tsc/bpt/BPTNode.hpp:136-140 | setFather changes the father of that node only |
| BPTNode.NodeStore.SetModel | include/tsc/bpt/BPTNode.hpp:146-150 | setModel changes the region model of that node only |
| BPTNode.NodeStore.SetDissimilarities | include/tsc/bpt/BPTNode.hpp:152-168 | the dissimilarity set of that node is replaced and nothing else changes |
| BPTNode.JoinKeepsWellFormed | include/tsc/bpt/BPTNode.hpp:98-140 | joining two distinct fatherless nodes under a fresh father keeps every child's id below its father's |
| BPTNode.ShapeJoin | include/tsc/bpt/BPTNode.hpp:98-100 | creating a father does not depend on the dissimilarity sets |
| BPTNode.AliveStep | include/tsc/bpt/BPTNode.hpp:98-100 | merging two distinct alive nodes, the father taking the next id, removes both from the alive set and adds the father |
| BPTNode.MergesAlivePrefix | include/tsc/bpt/BPTNode.hpp:98-100 | every prefix of a sequence of merges of alive nodes merges alive nodes too |
| BPTNode.MergesAliveAt | include/tsc/bpt/BPTNode.hpp:98-100 | the k-th merge of such a sequence joins two distinct nodes alive after the merges before it |
| BPTNode.ReplayAppend | include/tsc/bpt/BPTNode.hpp:98-140 | one more merge extends a replay by one father built from the merged models, with both children pointing at it |
| BPTNode.ShapeReplay | include/tsc/bpt/BPTNode.hpp:98-100 | replaying merges gives the same tree whatever the dissimilarity sets hold |
| Dissimilarity.GetNeighbor | include/tsc/bpt/BPTDissimilarity.hpp:88-99 | getNeighbor(a) is b, getNeighbor(b) is a with a checked first, and any other node gets null |
| Dissimilarity.Other | include/tsc/bpt/BPTDissimilarity.hpp:88-99 | for an endpoint, the opposite endpoint is what getNeighbor returns |
| Dissimilarity.NeighborOfNeighbor | include/tsc/bpt/BPTDissimilarity.hpp:88-99 | from an endpoint of a dissimilarity with distinct ends, the neighbour is the other end, and its neighbour is the start |
| Dissimilarity.LessIrreflexive | include/tsc/bpt/policies/PDissimilarityComparators.hpp:30-35 | pdiss_value_less is irreflexive |
| Dissimilarity.LessTransitive | include/tsc/bpt/policies/PDissimilarityComparators.hpp:30-35 | pdiss_value_less is transitive |
| Dissimilarity.LessTrichotomous | include/tsc/bpt/policies/PDissimilarityComparators.hpp:30-35 | for distinct dissimilarities exactly one direction holds, so an ordered set keeps all of them |
| Dissimilarity.FirstHasMinimumValue | include/tsc/bpt/policies/PDissimilarityComparators.hpp:30-35 | the first element of an ordered set has the minimum value |
| Dissimilarity.FirstUnique | include/tsc/bpt/policies/PDissimilarityComparators.hpp:30-35 | an ordered set has one first element |
| Dissimilarity.FirstExists | include/tsc/bpt/BPTConstructor.hpp:111 | every non-empty ordered set has a first element |
| Dissimilarity.First | include/tsc/bpt/BPTConstructor.hpp:111-112 | `*begin()` of a non-empty ordered set is its first element under pdiss_value_less |
| PNodeComparators.StrictOrders | include/tsc/bpt/PNodeComparators.h:28-54 | pnode_bigger, pnode_smaller and pnode_later are irreflexive and transitive |
| PNodeComparators.TotalOnDistinctIds | include/tsc/bpt/PNodeComparators.h:28-54 | on nodes with distinct identities exactly one direction of each ordering holds |
| PNodeComparators.BiggerIsSmallerReversed | include/tsc/bpt/PNodeComparators.h:28-46 | with different subnode counts pnode_bigger is pnode_smaller reversed; on equal counts both break ties by identity the same way |
| BPTConstructor.InitialPoolOk | include/tsc/bpt/BPTConstructor.hpp:75-81 | the pool the constructor fills with each leaf's first dissimilarity satisfies the pool invariant |
| BPTConstructor.Constructor.FromSet | include/tsc/bpt/BPTConstructor.hpp:75-81 | every leaf becomes alive and each leaf's first (smallest) dissimilarity enters the pool |
| BPTConstructor.Constructor.GetBinaryPartitionForest | include/tsc/bpt/BPTConstructor.hpp:92-258 | prepare and start run once before the loop and end once after it; the loop stops with at most numTrees alive or an empty pool, and never below numTrees once it has merged; the merges are of distinct alive nodes, the alive set afterwards is the one the merged pairs leave, and the tree is the replay of those pairs in the order the saving hooks reported them; with a symmetric measure no error occurs and an empty pool means no alive node has a dissimilarity |
| BPTConstructor.Constructor.Iterate | include/tsc/bpt/BPTConstructor.hpp:105-256 | one turn of the loop reports its hooks, extends the replayed merges by the pair it merged and is one merge step: the father F, with the next id, replaces a and b in the alive set; its neighbours are exactly the nodes other than a and b that a dissimilarity of a or b leads to; each neighbour n gets a new dissimilarity (F, n) valued measure(model of F, model of n), and with an asymmetric measure also (n, F) valued measure(model of n, model of F); n loses its dissimilarities to a and b and keeps the rest; every other node and dissimilarity is unchanged; with a symmetric measure that pair's dissimilarity is the smallest of the alive graph |
| BPTConstructor.Constructor.Step | include/tsc/bpt/BPTConstructor.hpp:111-253 | one merge selects the pool's first dissimilarity, which with a symmetric measure is the smallest of the whole alive graph, and is one merge step: the father F, with the next id, replaces a and b in the alive set; its neighbours are exactly the nodes other than a and b that a dissimilarity of a or b leads to; each neighbour n gets a new dissimilarity (F, n) valued measure(model of F, model of n), and with an asymmetric measure also (n, F) valued measure(model of n, model of F); n loses its dissimilarities to a and b and keeps the rest; every other node and dissimilarity is unchanged; hooks run as saveSelectedDissimilarity then saveFatherNode |
| BPTConstructor.Constructor.Select | include/tsc/bpt/BPTConstructor.hpp:111-131 | the pool's first dissimilarity is popped and reported, and its distinct endpoints leave the alive set; a dangling dissimilarity, an endpoint already merged or not alive is an error, which a symmetric measure never meets |
| BPTConstructor.Constructor.MergePair | include/tsc/bpt/BPTConstructor.hpp:134-204 | the father takes the next id with the merged model, becomes the parent of both endpoints, and both relinking loops run |
| BPTConstructor.Constructor.JoinFather | include/tsc/bpt/BPTConstructor.hpp:154-194 | a new father dissimilarity with the measure of (father, neighbour) is added to the father's set, and the same one (symmetric) or a new reverse one measured as (neighbour, father) to the neighbour's set |
| BPTConstructor.Constructor.Visit | include/tsc/bpt/BPTConstructor.hpp:145-200 | the neighbour's old first dissimilarity is read, the visited dissimilarity is erased from the neighbour's set (an erase that removes nothing is an error, never met with a symmetric measure), the neighbour becomes a father neighbour, and its old first is recorded when its first changed |
| BPTConstructor.Constructor.Detach | include/tsc/bpt/BPTConstructor.hpp:149-194 | the visited dissimilarity leaves the neighbour's set and a new neighbour is joined to the father |
| BPTConstructor.Constructor.VisitNeighbour | include/tsc/bpt/BPTConstructor.hpp:145-200 | a visit keeps the relinking invariant |
| BPTConstructor.Constructor.RelinkOne | include/tsc/bpt/BPTConstructor.hpp:145-178 | a dissimilarity leading to the other merged node is passed over; any other is visited, and the relinking invariant holds after either |
| BPTConstructor.Constructor.RelinkLoop | include/tsc/bpt/BPTConstructor.hpp:143-204 | each loop visits every dissimilarity of its merged node; the first joins every neighbour to the father, the second only those the first did not reach |
| BPTConstructor.NextRecord | include/tsc/bpt/BPTConstructor.hpp:166-200 | a neighbour's old first dissimilarity is recorded when its first one changed and it has no record yet |
| BPTConstructor.Constructor.Finish | include/tsc/bpt/BPTConstructor.hpp:213-253 | the father is reported and made alive, the pool is reconciled and the merged nodes' dissimilarities released; the result is one merge step: the father F, with the next id, replaces a and b in the alive set; its neighbours are exactly the nodes other than a and b that a dissimilarity of a or b leads to; each neighbour n gets a new dissimilarity (F, n) valued measure(model of F, model of n), and with an asymmetric measure also (n, F) valued measure(model of n, model of F); n loses its dissimilarities to a and b and keeps the rest; every other node and dissimilarity is unchanged |
| BPTConstructor.Constructor.Release | include/tsc/bpt/BPTConstructor.hpp:237-253 | the dissimilarities of a that do not lead to b, then all of b's, leave the arena, and both sets are cleared |
| BPTConstructor.Constructor.MergeSelected | include/tsc/bpt/BPTConstructor.hpp:134-253 | the merge of the selected endpoints reports the father after relinking, the father holds the merged model, and the result is one merge step: the father F, with the next id, replaces a and b in the alive set; its neighbours are exactly the nodes other than a and b that a dissimilarity of a or b leads to; each neighbour n gets a new dissimilarity (F, n) valued measure(model of F, model of n), and with an asymmetric measure also (n, F) valued measure(model of n, model of F); n loses its dissimilarities to a and b and keeps the rest; every other node and dissimilarity is unchanged |
| BPTConstructor.MergeComplete | include/tsc/bpt/BPTConstructor.hpp:206-253 | at the end of a merge the graph is in shape again, the father has both endpoints as children, the new dissimilarities keep their measure values, and with a symmetric measure the pool invariant holds again |
| BPTConstructor.MergeShrinksAlive | include/tsc/bpt/BPTConstructor.hpp:128-216 | a merge takes two alive nodes out and puts one in: the alive count drops by exactly one |
| BPTConstructor.MergeExtendsReplay | include/tsc/bpt/BPTConstructor.hpp:120-136 | the tree after one more merge is the replay of the reported pairs extended by that merge |
| BPTConstructor.LoopStep | include/tsc/bpt/BPTConstructor.hpp:105-256 | one successful turn adds one reported selection, one node fewer alive and one more merge in the replay |
| BPTConstructor.LoopStepAlive | include/tsc/bpt/BPTConstructor.hpp:128-216 | the pair a turn merges names two distinct alive nodes, and the alive set afterwards is the one the reported merges leave |
| PoolInvariant.PoolHeadIsGlobalMinimum | include/tsc/bpt/BPTConstructor.hpp:218-234 | with a symmetric measure and the pool invariant, the pool's first element is the smallest dissimilarity of the alive graph and first for both of its endpoints |
| PoolInvariant.GlobalMinimumIsMutualFirst | include/tsc/bpt/BPTConstructor.hpp:111 | with a symmetric measure the smallest alive dissimilarity is first for both of its endpoints |
| PoolInvariant.PoolEmptyIffNoEdges | include/tsc/bpt/BPTConstructor.hpp:105 | under the pool invariant the pool is empty exactly when no alive node has a dissimilarity |
| MergeStep.HeldAfterStep | include/tsc/bpt/BPTConstructor.hpp:143-204 | after a merge, a node other than the merged ones and the father holds only its new father dissimilarity or old ones untouched by the merge |
| MergeStep.SharedAwayFromFather | include/tsc/bpt/BPTConstructor.hpp:157-189 | with a symmetric measure every dissimilarity held by a node other than the father is held by its other endpoint too |
| MergeStep.StepKeepsGraph | include/tsc/bpt/BPTConstructor.hpp:111-253 | a merge step keeps the alive graph in shape: alive nodes unmerged, merged nodes empty, one dissimilarity per neighbour, shared when symmetric |
| MergeStep.UnchangedFirst | include/tsc/bpt/BPTConstructor.hpp:166-200 | a neighbour whose first dissimilarity was not recorded keeps it |
| MergeStep.MutualFirstNotRecorded | include/tsc/bpt/BPTConstructor.hpp:224-234 | a dissimilarity first for both endpoints after the merge was no neighbour's recorded old first |
| MergeStep.StepKeepsMutualInPool | include/tsc/bpt/BPTConstructor.hpp:218-234 | after a merge every dissimilarity first for both of its endpoints is in the pool |
| MergeStep.OldPoolElementStaysFirst | include/tsc/bpt/BPTConstructor.hpp:224-234 | an old pool element neither selected nor recorded is still first for one of its endpoints |
| MergeStep.StepKeepsPoolFirsts | include/tsc/bpt/BPTConstructor.hpp:218-234 | after a merge every pool element is first for one of its endpoints |
| MergeStep.StepKeepsPool | include/tsc/bpt/BPTConstructor.hpp:111-253 | with a symmetric measure a merge step keeps the pool invariant, so the next pool head is again the global minimum |
| Relinking.ReachedOnce | include/tsc/bpt/BPTConstructor.hpp:143-173 | a merged node reaches each neighbour through one dissimilarity only |
| Relinking.FirstLoopNeighbourIsNew | include/tsc/bpt/BPTConstructor.hpp:143-173 | in the first loop every neighbour other than b is new to the father |
| Relinking.OnlyEndpointsHold | include/tsc/bpt/BPTConstructor.hpp:145-149 | a visited dissimilarity lies in the sets of its two endpoints only |
| Relinking.SkipKeepsInv | include/tsc/bpt/BPTConstructor.hpp:147-178 | passing over the dissimilarity between the merged nodes changes nothing but the visited set |
| Relinking.VisitKeepsInv | include/tsc/bpt/BPTConstructor.hpp:145-200 | one visit keeps the relinking invariant |
| Relinking.StickyChange | include/tsc/bpt/BPTConstructor.hpp:166-200 | once a neighbour's first dissimilarity differs from its old first, erasing another old one keeps it different |
| Relinking.RecordsNeighbour | include/tsc/bpt/BPTConstructor.hpp:166-200 | a neighbour's old first dissimilarity is recorded once its first one has changed |
| Relinking.EndNeighbours | include/tsc/bpt/BPTConstructor.hpp:143-211 | after both loops the father's neighbours are exactly the nodes other than a and b that a dissimilarity of a or b leads to; they are alive, and neither merged node is one |
| Relinking.EndShape | include/tsc/bpt/BPTConstructor.hpp:134-136 | the father has a and b as children and the merged model, both have it as father, and no other father changes |
| Relinking.RelinkEnd | include/tsc/bpt/BPTConstructor.hpp:143-253 | the end of the relinking phase with the merged sets cleared is one merge step: the father F, with the next id, replaces a and b in the alive set; its neighbours are exactly the nodes other than a and b that a dissimilarity of a or b leads to; each neighbour n gets a new dissimilarity (F, n) valued measure(model of F, model of n), and with an asymmetric measure also (n, F) valued measure(model of n, model of F); n loses its dissimilarities to a and b and keeps the rest; every other node and dissimilarity is unchanged; the changed firsts are recorded exactly |
| Relinking.SymmetricNeighbourHolds | include/tsc/bpt/BPTConstructor.hpp:149-181 | with a symmetric measure the neighbour still holds the visited dissimilarity, so the erase removes one element |
| Relinking.RelinkedHoldsNew | include/tsc/bpt/BPTConstructor.hpp:156-194 | a relinked neighbour holds its new dissimilarity, which is not an old one |
| Reconcile.UpdatedPool | include/tsc/bpt/BPTConstructor.hpp:218-234 | the father's first dissimilarity enters the pool, each recorded neighbour's old first leaves it and its new first enters it unless, with a symmetric measure, its A end is the father; the pool ends within the bounds of the merge step |
| Reconcile.WalkStep | include/tsc/bpt/BPTConstructor.hpp:224-234 | one recorded neighbour's turn of the walk keeps the walked pool within its bounds |
| Reconcile.WalkEnd | include/tsc/bpt/BPTConstructor.hpp:224-234 | once every recorded neighbour is walked the pool lies within the bounds of the merge step |
| StepRemoval.NothingGoneIsHeld | include/tsc/bpt/BPTConstructor.hpp:237-253 | after a merge no node holds a dissimilarity that the removal deletes |
| StepRemoval.RemovalKeepsStep | include/tsc/bpt/BPTConstructor.hpp:237-253 | deleting the released dissimilarities keeps the structural facts of the step |
| StepRemoval.RemovalKeepsPool | include/tsc/bpt/BPTConstructor.hpp:237-253 | deleting the released dissimilarities keeps the pool facts of the step |
| NeighbourErase.EraseAsWritten | include/tsc/bpt/BPTConstructor.hpp:149-180 | the erase takes the merged node's own dissimilarity out of the neighbour's set and returns 1, or returns 0 and changes nothing when the set lacks it |
| NeighbourErase.EraseLinksTo | include/tsc/bpt/BPTConstructor.hpp:149-180 | the intended erase keeps exactly the neighbour's dissimilarities that do not lead back to the merged node |
| NeighbourErase.SymmetricEraseRemovesLink | include/tsc/bpt/BPTConstructor.hpp:149-180 | with a symmetric measure the erase as written removes exactly one dissimilarity, the neighbour's link back to the merged node |
| NeighbourErase.AsymmetricEraseKeepsLink | include/tsc/bpt/BPTConstructor.hpp:149-150 | with an asymmetric pair of dissimilarities the erase as written removes nothing, leaving the neighbour linked to the merged node |
| MergeStep.FatherNeighbourWasNeighbour | include/tsc/bpt/BPTConstructor.hpp:143-204 | every neighbour of the father is the other endpoint of a dissimilarity that a or b held |
| Relinking.EndValues | include/tsc/bpt/BPTConstructor.hpp:157-198 | each new dissimilarity of the father with a neighbour n holds measure(model of F, model of n), and with an asymmetric measure the one back holds measure(model of n, model of F) |
| Relinking.ModelsKept | include/tsc/bpt/BPTConstructor.hpp:134-137 | while relinking, the father holds the merged model and every older node its own model |
| MergeStep.RemovalKeepsValues | include/tsc/bpt/BPTConstructor.hpp:239-253 | releasing the merged nodes' dissimilarities keeps every new dissimilarity of the father and its measure value |
| BPTReconstructor.SetTable | include/tsc/bpt/BPTReconstructor.hpp:65-72 | the set constructor's table has 2L − 1 slots, holds exactly the leaves, and holds each one at the slot of its id |
| BPTReconstructor.BuildSetTable | include/tsc/bpt/BPTReconstructor.hpp:67-71 | the table loop writes every leaf at its id through `at`, failing on an id past the 2L − 1 slots |
| BPTReconstructor.SetTableOutOfRange | include/tsc/bpt/BPTReconstructor.hpp:70 | a leaf whose id is past the 2L − 1 slots makes the set constructor fail with out_of_range |
| BPTReconstructor.SetTableFilled | include/tsc/bpt/BPTReconstructor.hpp:65-72 | a table of 2L − 1 slots holding exactly the leaves, each at its own id, is the one the set constructor builds |
| BPTReconstructor.GeneratedLeavesFit | include/tsc/bpt/BPTReconstructor.hpp:65-72 | leaves numbered 0 … L − 1 are accepted whenever there is one, each at the slot of its id |
| BPTReconstructor.FirstLeafErrorStays | include/tsc/bpt/BPTReconstructor.hpp:76-80 | once a leaf fails the iterator constructor's check, later leaves do not change the reported failure |
| BPTReconstructor.SequenceAcceptsPositions | include/tsc/bpt/BPTReconstructor.hpp:74-82 | for distinct leaves the iterator constructor succeeds exactly when every leaf's id is its input position, and then every slot holds the node of its id |
| BPTReconstructor.ReadPairs | include/tsc/bpt/BPTReconstructor.hpp:99-113 | the ids read two at a time give one pair per two ids |
| BPTReconstructor.ReadPairsNext | include/tsc/bpt/BPTReconstructor.hpp:99-113 | reading two more ids reads one more pair, (id a, id b) in that order |
| BPTReconstructor.DecodeSavedPairs | include/tsc/bpt/BPTReconstructor.hpp:99-113 | the ids the saving policy writes read back as the merged pairs in merge order, when every id fits the 32-bit id type |
| BPTReconstructor.ReplayReproducesMerges | include/tsc/bpt/BPTReconstructor.hpp:92-141 | replaying a saved merge sequence gives the tree the construction built: the same fathers, children and region models |
| BPTReconstructor.AliveShrinks | include/tsc/bpt/BPTReconstructor.hpp:128-138 | merges of distinct alive nodes leave one node fewer alive per merge, and every alive node is older than the next father |
| BPTReconstructor.IdTableStore | include/tsc/bpt/BPTReconstructor.hpp:136 | storing a father at the slot of its id keeps every slot holding the node of its own id |
| BPTReconstructor.MergesNeeded | include/tsc/bpt/BPTReconstructor.hpp:92 | the loop needs \|alive\| − numTrees merges when more than numTrees nodes are alive, none otherwise |
| BPTReconstructor.ReplayNext | include/tsc/bpt/BPTReconstructor.hpp:99-126 | on a stream whose pairs merge alive nodes, the next two ids are there, distinct and both alive |
| BPTReconstructor.AliveFreeStep | include/tsc/bpt/BPTReconstructor.hpp:128-138 | a merge of two distinct free alive nodes, the father stored at its id, keeps the alive nodes free and one fewer |
| BPTReconstructor.ReplayInvNext | include/tsc/bpt/BPTReconstructor.hpp:99-126 | on a replayable start the loop finds the next two ids and they pass every check of one merge |
| BPTReconstructor.ReplayInvStep | include/tsc/bpt/BPTReconstructor.hpp:128-138 | a merge that passed its checks carries the loop's invariant (store is the replay, alive set, id table) on by one pair |
| BPTReconstructor.SavedRunReplays | include/tsc/bpt/BPTReconstructor.hpp:65-141 | a construction's saved run (leaves 0 … L − 1, its merges of alive nodes, stopped at numTrees) is a start the replay accepts |
| BPTReconstructor.Reconstructor.FromSet | include/tsc/bpt/BPTReconstructor.hpp:65-72 | the set constructor fails exactly when the table cannot be built; otherwise the leaves are alive and the table is SetTable |
| BPTReconstructor.Reconstructor.FromSequence | include/tsc/bpt/BPTReconstructor.hpp:74-82 | the iterator constructor fails exactly when a leaf's id is not its position; otherwise the leaves are alive and the table grows to 2L − 1 slots |
| BPTReconstructor.Reconstructor.ReadMerge | include/tsc/bpt/BPTReconstructor.hpp:115-138 | the two ids are looked up with `at` (out_of_range past the table), an empty slot or a node already merged is an error, and otherwise the father of both is created, stored at its id and made alive in their place |
| BPTReconstructor.Reconstructor.Turn | include/tsc/bpt/BPTReconstructor.hpp:98-138 | one turn reads two ids, reports EOF exactly when fewer than two are left, and succeeds exactly when the merge passes its checks, always on a replayable start |
| BPTReconstructor.Reconstructor.GetBinaryPartitionForest | include/tsc/bpt/BPTReconstructor.hpp:85-145 | the loop consumes two ids per merge until numTrees nodes are alive; the store is the replay of the pairs of nodes the ids name, the alive set is what those merges leave, and on a replayable start no error occurs |
| BPTReconstructor.Reconstructor.Init | include/tsc/bpt/BPTReconstructor.hpp:60-61 | the reconstructor holds the node table `nodeId` and the alive set `aliveNodes` it is given, with the node arena and merge operation they refer to |
| SavingPolicy.Effect | include/tsc/bpt/policies/SaveMergingSequence.hpp:48-53 | BPTDataSavingPolicy's hooks do nothing; SaveMergingSequence's selected-dissimilarity hook writes the `uint32_t` id of endpoint A and then of endpoint B |
| SavingPolicy.FlatMapAppend | include/tsc/bpt/policies/AddSavingPolicy.hpp:31-57 | the actions of a concatenated hook trace are the actions of its two parts, in order |
| SavingPolicy.RunAppend | include/tsc/bpt/policies/AddSavingPolicy.hpp:31-57 | running a policy over two consecutive traces gives the first trace's actions followed by the second's |
| SavingPolicy.RunLast | include/tsc/bpt/policies/AddSavingPolicy.hpp:31-57 | the actions of the last hook call of a trace come after all the others |
| SavingPolicy.ComposeRunsLastFirst | include/tsc/bpt/policies/AddSavingPolicy.hpp:64-79 | `BPT_SAVING_POLICY_n(P1, …, Pn)` runs every hook of Pn first and of P1 last |
| SavingPolicy.NoSavingIsNeutral | include/tsc/bpt/policies/BPTDataSavingPolicy.hpp:25-36 | adding the do-nothing policy on either side of AddSavingPolicy leaves the actions of every trace unchanged |
| SavingPolicy.Apply | include/tsc/bpt/policies/SaveMergingSequence.hpp:43-57 | applying no action leaves the file as it was |
| SavingPolicy.ApplyAppend | include/tsc/bpt/policies/SaveMergingSequence.hpp:43-57 | applying two action lists one after the other is applying their concatenation |
| SavingPolicy.PairIds | include/tsc/bpt/policies/SaveMergingSequence.hpp:48-53 | the merging sequence holds two ids per selected dissimilarity |
| SavingPolicy.PairIdsLast | include/tsc/bpt/policies/SaveMergingSequence.hpp:48-53 | one more merge appends its A id and then its B id, each reduced to `uint32_t` |
| SavingPolicy.MergedPairs | include/tsc/bpt/policies/SaveMergingSequence.hpp:48-53 | one merged pair per selected dissimilarity |
| SavingPolicy.SelectedInStep | include/tsc/bpt/BPTConstructor.hpp:120-213 | one merge step of the constructor reports exactly one selected dissimilarity |
| SavingPolicy.SelectedInAppend | include/tsc/bpt/BPTConstructor.hpp:100-258 | the selected dissimilarities of two consecutive parts of a trace are those of each part, in order |
| SavingPolicy.HookOnOpenFile | include/tsc/bpt/policies/SaveMergingSequence.hpp:48-53 | on an open stream, a merge-loop hook appends exactly the ids it writes and keeps the stream open |
| SavingPolicy.InnerWritesPairs | include/tsc/bpt/policies/SaveMergingSequence.hpp:48-53 | on an open stream, the hooks of the merge loop append the A and B ids of every selected dissimilarity, merge after merge, and nothing else |
| SavingPolicy.StartAndEnd | include/tsc/bpt/policies/SaveMergingSequence.hpp:43-57 | the start hook opens the file truncated (`ios::trunc` empties it) and the end hook closes it |
| SavingPolicy.SavedSequence | include/tsc/bpt/policies/SaveMergingSequence.hpp:43-57 | a whole construction saved with SaveMergingSequence leaves a closed file holding exactly one id pair per merge, in merge order, whatever it held before |
| BPTFrame.SubtreeBelow | include/tsc/bpt/BPTFrame.hpp:122-126 | every node of a subtree other than its root has a smaller id and a father inside the same subtree |
| BPTFrame.SubtreeNests | include/tsc/bpt/BPTFrame.hpp:122-126 | the subtree of a node inside another node's subtree is contained in it |
| BPTFrame.SharedNodeNests | include/tsc/bpt/BPTFrame.hpp:122-126 | two subtrees that share a node are nested one in the other |
| BPTFrame.ChildrenDisjoint | include/tsc/bpt/BPTFrame.hpp:122-126 | the subtrees of the two children of an inner node are disjoint |
| BPTFrame.LeafSetIsLeaves | include/tsc/bpt/BPTFrame.hpp:122-123 | the leaves collected below a node are exactly the nodes of its subtree that are leaves |
| BPTFrame.PruneIsCut | include/tsc/bpt/BPTFrame.hpp:115-130 | the nodes `prune` inserts are a cut: nodes below the root, none nested in another, whose subtrees cover every leaf |
| BPTFrame.PruneExtremes | include/tsc/bpt/BPTFrame.hpp:115-130 | a criterion that never holds makes `prune` return every leaf; one that holds at the root makes it return the root alone |
| BPTFrame.QueueAppend | include/tsc/bpt/BPTFrame.hpp:117-127 | what the breadth-first queue still has to emit is the sum of what its two halves have to emit |
| BPTFrame.Prune | include/tsc/bpt/BPTFrame.hpp:115-130 | `prune` returns `out` together with the cut its criterion defines |
| BPTFrame.ExpandKeepsCut | include/tsc/bpt/BPTFrame.hpp:139-144 | replacing a node of a cut by its two children keeps a cut |
| BPTFrame.ExpandNonNested | include/tsc/bpt/BPTFrame.hpp:139-144 | replacing a node of a cut by its two children keeps the set non-nested and below the root |
| BPTFrame.ReplaceBySubtrees | include/tsc/bpt/BPTFrame.hpp:139-144 | replacing a member of a non-nested set by two disjoint subtrees of its own keeps the set non-nested |
| BPTFrame.LeafCut | include/tsc/bpt/BPTFrame.hpp:136-146 | a cut made only of leaves is the set of every leaf below the root |
| BPTFrame.LeafSubtree | include/tsc/bpt/BPTFrame.hpp:139-140 | the subtree of a leaf is the leaf alone |
| BPTFrame.MoveLeaf | include/tsc/bpt/BPTFrame.hpp:139-140 | moving a remaining leaf to `out` keeps remaining and moved nodes a frontier of the tree |
| BPTFrame.Expand | include/tsc/bpt/BPTFrame.hpp:141-144 | replacing a remaining inner node by its children keeps remaining and moved nodes a frontier of the tree |
| BPTFrame.Largest | include/tsc/bpt/BPTFrame.hpp:134-137 | `*remaining.begin()` under `pnode_later` is the remaining node with the largest id |
| BPTFrame.WaitingStart | include/tsc/bpt/BPTFrame.hpp:134-135 | before the first step only the root remains and nothing has been moved |
| BPTFrame.UnderWaiting | include/tsc/bpt/BPTFrame.hpp:136-145 | every node below the current threshold lies under a remaining node |
| BPTFrame.ChildInSubtree | include/tsc/bpt/BPTFrame.hpp:142-143 | a child of a node lies in that node's subtree |
| BPTFrame.NoneBetween | include/tsc/bpt/BPTFrame.hpp:137 | between the largest remaining node and the threshold there is no other node of the tree |
| BPTFrame.TakeLargest | include/tsc/bpt/BPTFrame.hpp:137-144 | taking out the largest remaining node replaces it by its children when it has some and moves it to `out` otherwise, and lowers the threshold to it |
| BPTFrame.NRegsPrune | include/tsc/bpt/BPTFrame.hpp:132-148 | `NRegs_prune` returns `out` plus a cut that is every leaf or has at least `regs` nodes, and equals the cut defined by taking nodes out in decreasing id order |
| BPTFrame.TakeOut | include/tsc/bpt/BPTFrame.hpp:137-144 | one loop step keeps the pruning state and moves the node to `out` exactly when it is a leaf |
| BPTFrame.PruneStep | include/tsc/bpt/BPTFrame.hpp:136-144 | a loop step lowers the threshold to the node taken out and does not change where the loop stops |
| BPTFrame.PruneLeaf | include/tsc/bpt/BPTFrame.hpp:139-140 | a leaf taken out is moved to `out` and the pruning state holds at the new threshold |
| BPTFrame.PruneInner | include/tsc/bpt/BPTFrame.hpp:141-144 | an inner node taken out is replaced by its two children and the pruning state holds at the new threshold |
| BPTFrame.PruneStops | include/tsc/bpt/BPTFrame.hpp:136-146 | where the loop stops, the remaining and moved nodes make up the cut its id order defines |
| BPTFrame.FrontierStart | include/tsc/bpt/BPTFrame.hpp:134-135 | the root alone is a frontier of its tree |
| BPTFrame.FrontierEnd | include/tsc/bpt/BPTFrame.hpp:136-146 | when the loop stops, remaining plus moved nodes are a cut that is every leaf (nothing remains) or has at least `regs` nodes |
| BPTDataSource.AccessOrder | include/tsc/bpt/BPTDataSource.hpp:48-83 | `access<Dims>` subscripts the coordinates in an order that is a permutation of the dimensions and its own inverse |
| BPTDataSource.AccessRoundTrip | include/tsc/bpt/BPTDataSource.hpp:48-83 | reading `access<Dims>`'s index tuple in access order gives the leaf's coordinates back, so distinct coordinates reach distinct cells |
| BPTDataSource.PlaceBijective | include/tsc/bpt/BPTDataSource.hpp:48-83 | a leaf inside the grid has its cell inside the multi_array, and two leaves share a cell only when their coordinates agree |
| BPTDataSource.Largest | include/tsc/bpt/BPTDataSource.hpp:169 | the last pruned node the ordered set visits is its largest |
| BPTDataSource.PaintedLeaf | include/tsc/bpt/BPTDataSource.hpp:166-177 | after the set-based populateLeaves, with non-nested pruned nodes, a leaf below pruned node p holds func(p) |
| BPTDataSource.PaintedElsewhere | include/tsc/bpt/BPTDataSource.hpp:166-177 | the set-based populateLeaves leaves every cell of no leaf below a pruned node unchanged |
| BPTDataSource.Climb | include/tsc/bpt/BPTDataSource.hpp:161 | the climb from a leaf ends at a node of the arena |
| BPTDataSource.ClimbFindsCover | include/tsc/bpt/BPTDataSource.hpp:161 | from a node below a pruned node that no other pruned node overlaps, the climb stops exactly at that pruned node |
| BPTDataSource.ClimbEnds | include/tsc/bpt/BPTDataSource.hpp:161 | the climb stops at a pruned node or at a node without a father, and that node's subtree contains the start |
| BPTDataSource.WrittenLeaf | include/tsc/bpt/BPTDataSource.hpp:157-164 | after the leaf-iterator populateLeaves, a listed leaf's cell holds func of the climb from that leaf |
| BPTDataSource.WrittenElsewhere | include/tsc/bpt/BPTDataSource.hpp:157-164 | the leaf-iterator populateLeaves leaves every cell of no listed leaf unchanged |
| BPTDataSource.UncoveredCell | include/tsc/bpt/BPTDataSource.hpp:157-177 | when the list names every leaf below the root, a cell of no listed leaf is the cell of no leaf below a pruned node of a cut |
| BPTDataSource.PopulatesAgree | include/tsc/bpt/BPTDataSource.hpp:157-177 | with a cut as the pruned set and a list naming every leaf below the root, the two populateLeaves produce the same grid |
| BPTDataSource.FitsReady | include/tsc/bpt/BPTDataSource.hpp:92-95 | leaves whose coordinates lie inside the extents have cells inside the resized array |
| BPTDataSource.DistinctCoordinatesOwnCells | include/tsc/bpt/BPTDataSource.hpp:48-83 | leaves at distinct coordinates inside the grid write distinct cells |
| BPTDataSource.Index3 | include/tsc/bpt/BPTDataSource.hpp:131 | `_leaves[i][j][k]` lies inside the row-major array |
| BPTDataSource.Index3IsLinear | include/tsc/bpt/BPTDataSource.hpp:66-73 | subscripting `[i][j][k]` reaches the cell the row-major layout of the tuple (i, j, k) gives |
| BPTDataSource.SliceIndex | include/tsc/bpt/BPTDataSource.hpp:131 | `data[j][k]` lies inside the two-dimensional result grid |
| BPTDataSource.SliceIndexInjective | include/tsc/bpt/BPTDataSource.hpp:131 | distinct `[j][k]` reach distinct cells of the result grid |
| BPTDataSource.Changes | include/tsc/bpt/BPTDataSource.hpp:128-131 | a cell counts at most one change per consecutive slice pair |
| BPTDataSource.NoChangesIffConstant | include/tsc/bpt/BPTDataSource.hpp:128-131 | no change is counted at [j][k] exactly when every slice holds the first slice's value there |
| BPTDataSource.SliceRow | include/tsc/bpt/BPTDataSource.hpp:143-144 | row j of a slice holds the cells `[slice][j][k]` in order of k |
| BPTDataSource.NewSubnodesConstant | include/tsc/bpt/BPTDataSource.hpp:144-146 | with every region of c subnodes, the sum adds c per newly inserted region |
| BPTDataSource.NewCount | include/tsc/bpt/BPTDataSource.hpp:144-146 | a scanned region is inserted and counted exactly when it is neither in the set nor seen earlier in the scan |
| BPTDataSource.RegionsAverage | include/tsc/bpt/BPTDataSource.hpp:150 | the average is undefined (a division by zero) exactly when the grown set is empty |
| BPTDataSource.RegionsAverageConstant | include/tsc/bpt/BPTDataSource.hpp:140-151 | starting from no regions, a slice whose regions have c subnodes each averages c |
| BPTDataSource.DataSource.FromPruned | include/tsc/bpt/BPTDataSource.hpp:99-108 | the pruned-set constructor sizes the grid to the product of the first Dims extents and paints every leaf below each pruned node with func of that node |
| BPTDataSource.DataSource.FromLeaves | include/tsc/bpt/BPTDataSource.hpp:88-97 | the leaf-range constructor sizes the grid to the product of the first Dims extents and writes each listed leaf's cell with func of its climb |
| BPTDataSource.DataSource.NumElements | include/tsc/bpt/BPTDataSource.hpp:110-116 | `begin`..`end` spans every cell: their number is the product of the extents |
| BPTDataSource.DataSource.SliceChanges | include/tsc/bpt/BPTDataSource.hpp:119-136 | each `[j][k]` of the result counts the consecutive slice pairs that differ there |
| BPTDataSource.DataSource.AddSliceChanges | include/tsc/bpt/BPTDataSource.hpp:129-133 | one pass of the outer loop increments exactly the `[j][k]` where slices i and i + 1 differ |
| BPTDataSource.DataSource.PopulateFromLeaves | include/tsc/bpt/BPTDataSource.hpp:157-164 | the leaf-iterator populateLeaves writes the grid its leaf-by-leaf specification gives |
| BPTDataSource.DataSource.PopulateFromSet | include/tsc/bpt/BPTDataSource.hpp:166-177 | the set-based populateLeaves writes the grid its pruned-node-by-pruned-node specification gives |
| BPTDataSource.DataSource.StampLeaves | include/tsc/bpt/BPTDataSource.hpp:172-175 | the inner loop writes the value into exactly the cells of the collected leaves |
| BPTDataSource.Smallest | include/tsc/bpt/BPTDataSource.hpp:169 | the next pruned node the ordered set visits is the smallest not yet visited |
| BPTDataSource.CellsOfAdd | include/tsc/bpt/BPTDataSource.hpp:173-175 | one more leaf adds exactly its own cell to the cells written |
| BPTDataSource.NextPainted | include/tsc/bpt/BPTDataSource.hpp:169-176 | painting the next pruned node, larger than all done so far, extends the painting by one step |
| BPTDataSource.RegionsInSlice | include/tsc/bpt/BPTDataSource.hpp:139-151 | getRegionsInSlice grows the caller's set by the slice's regions and returns the new regions' subnodes over the size of the grown set |
| BPTDataSource.ScanRow | include/tsc/bpt/BPTDataSource.hpp:143-148 | the inner loop over one row adds that row's regions to the set and the new ones' subnodes to the sum |
| BPTDataSource.ScanStep | include/tsc/bpt/BPTDataSource.hpp:144-147 | one cell of the scan inserts its region and adds its subnodes exactly when it is new |
| BPTDataSource.ClimbLoop | include/tsc/bpt/BPTDataSource.hpp:160-161 | the `while` climb ends at the node its recursive specification gives |
| BPTDataSource.AddLeaves | include/tsc/bpt/BPTDataSource.hpp:179-188 | addLeaves inserts exactly the leaves of the subtree into the set |
| CheckingPolicy.Test | include/tsc/policies/CheckingPolicy.hpp:41-51 | a check passes only when its argument holds; the Full policy passes the argument through (lines 89-107) and the Null policy always answers false |
| CheckingPolicy.Assert | include/tsc/policies/CheckingPolicy.hpp:109-121 | an assertion fails exactly under the Full policy on a false argument |
| CheckingPolicy.SizeMatches | include/tsc/policies/CheckingPolicy.hpp:124-131 | a length_error exactly under the Full policy when the data length differs from the product of the dimensions |
| CheckingPolicy.SizeMatches1 | include/tsc/policies/CheckingPolicy.hpp:133-138 | a length_error exactly under the Full policy when the data length differs from the one dimension |
| CheckingPolicy.SizeMatches2 | include/tsc/policies/CheckingPolicy.hpp:140-145 | a length_error exactly under the Full policy when the data length differs from the product of the two dimensions |
| CheckingPolicy.SizeMatches3 | include/tsc/policies/CheckingPolicy.hpp:147-152 | a length_error exactly under the Full policy when the data length differs from the product of the three dimensions |
| CheckingPolicy.DimensionsEqual | include/tsc/policies/CheckingPolicy.hpp:154-159 | a runtime_error exactly under the Full policy when the two dimensions differ |
| CheckingPolicy.PointerIsNotNull | include/tsc/policies/CheckingPolicy.hpp:162-167 | a runtime_error exactly under the Full policy on a null pointer |
| CheckingPolicy.IoStateOk | include/tsc/policies/CheckingPolicy.hpp:170-174 | an ios_failure exactly under the Full policy when the stream's fail flag is set |
| Storage.NativeStorage.constructor | include/tsc/policies/Storage.hpp:131-136 | the static balance starts at zero with no object created |
| Storage.NativeStorage.Create | include/tsc/policies/Storage.hpp:69-120 | every `create` overload makes one new live object and raises the balance by exactly one |
| Storage.NativeStorage.Remove | include/tsc/policies/Storage.hpp:122-125 | `remove` lowers the balance by one whatever the pointer; DeleteRemovalPolicy (26-32) deletes the object, NoRemovalPolicy (37-42) keeps it |
| Positions.Position.Coords | include/tsc/data/Position.hpp:108-111 | a position holds exactly NumDims coordinates |
| Positions.Position.X | include/tsc/data/Position.hpp:35-38 | `Position(x)` makes a one-dimensional position holding x |
| Positions.Position.XY | include/tsc/data/Position.hpp:40-44 | `Position(x, y)` makes a two-dimensional position holding x then y |
| Positions.Position.XYZ | include/tsc/data/Position.hpp:46-51 | `Position(x, y, z)` makes a three-dimensional position holding x, y, z |
| Positions.Position.FromPointer | include/tsc/data/Position.hpp:53-57 | the pointer constructor copies the first NumDims values in order |
| Positions.Position.GetNumberOfDimensions | include/tsc/data/Position.hpp:76-78 | the number of dimensions is NumDims |
| Positions.Position.GetX | include/tsc/data/Position.hpp:60-62 | getX reads coordinate 0 |
| Positions.Position.GetY | include/tsc/data/Position.hpp:64-68 | getY reads coordinate 1, or 0 below two dimensions |
| Positions.Position.GetZ | include/tsc/data/Position.hpp:70-74 | getZ reads coordinate 2, or 0 below three dimensions |
| Positions.Position.GetDim | include/tsc/data/Position.hpp:84-87 | getDim throws invalid_argument exactly when d is not below NumDims, and otherwise reads coordinate d |
| Positions.Position.SetX | include/tsc/data/Position.hpp:89-91 | setX writes coordinate 0 and nothing else |
| Positions.Position.SetDim | include/tsc/data/Position.hpp:93-96 | setDim throws invalid_argument exactly when d is not below NumDims, changing nothing; otherwise it writes coordinate d only, which getDim then reads back |
| Positions.Position.SetY | include/tsc/data/Position.hpp:98-101 | setY writes coordinate 1 only, which getY then reads back |
| Positions.Position.SetZ | include/tsc/data/Position.hpp:103-106 | setZ writes coordinate 2 only, which getZ then reads back |
| Positions.ShorthandsAgree | include/tsc/data/Position.hpp:60-87 | getX, getY and getZ agree with getDim wherever the dimension exists, and getY/getZ answer 0 exactly where getDim fails |
| PositionCounters.NumberOfCols | include/tsc/io/PositionCounter.hpp:57-62 | the second extent, or 1 below two dimensions |
| PositionCounters.PositionCounter.Rows | include/tsc/io/PositionCounter.hpp:28-31 | the one-dimensional counter starts at zero with its row extent |
| PositionCounters.PositionCounter.RowsCols | include/tsc/io/PositionCounter.hpp:33-37 | the two-dimensional counter starts at zero with its row and column extents |
| PositionCounters.PositionCounter.EndOf | include/tsc/io/PositionCounter.hpp:40-44 | the end counter stands at rows · cols, past every element |
| PositionCounters.PositionCounter.RowsColsSlices | include/tsc/io/PositionCounter.hpp:46-51 | the three-dimensional counter starts at zero with its three extents |
| PositionCounters.PositionCounter.GetNumberOfRows | include/tsc/io/PositionCounter.hpp:53-55 | the number of rows is the first extent |
| PositionCounters.PositionCounter.GetNumberOfSlices | include/tsc/io/PositionCounter.hpp:64-69 | the third extent, or 1 below three dimensions |
| PositionCounters.PositionCounter.Increment | include/tsc/io/PositionCounter.hpp:80-82 | increment raises the count by exactly one |
| PositionCounters.CounterPosition | include/tsc/io/PositionCounter.hpp:71-77 | with row and column taken against the number of columns, the row and column of a count inside the stream lie in the grid, recombine into the count, and are the position ImageData's iterator visits and the row-major position vector of the count |
| PositionCounters.IncrementFollowsRowMajor | include/tsc/io/PositionCounter.hpp:80-82 | each increment before the end moves to the next element in row-major order |
| PositionCounters.CounterAsWrittenBreaks | include/tsc/io/PositionCounter.hpp:71-77 | dividing by the row count misplaces elements of every non-square stream: with 3 rows of 2 columns count 3 is reported at column 0 instead of 1, with 2 rows of 3 columns count 5 is reported on row 2, past the last row |
| PositionCounters.PositionCounter.GetRow | include/tsc/io/PositionCounter.hpp:71-73 | getRow, with the column count as divisor (as intended; as written it divides by the row count, see Findings): the count lies in the row's span of columns |
| PositionCounters.PositionCounter.GetCol | include/tsc/io/PositionCounter.hpp:75-77 | getCol, with the column count as modulus (as intended; as written the modulus is the row count, see Findings): the column is below the column count and the count minus it is a whole number of rows |
| GridIndex.PosVector | include/tsc/bpt/DenseWRAGGenerator.hpp:117-126 | getPosVector gives one coordinate per dimension |
| GridIndex.Shift | include/tsc/bpt/DenseWRAGGenerator.hpp:112 | a position moved by an offset has one coordinate per dimension |
| GridIndex.LinearBounds | include/tsc/bpt/DenseWRAGGenerator.hpp:128-138 | the linear index of an in-bounds position names a cell of the grid |
| GridIndex.PosVectorInBounds | include/tsc/bpt/DenseWRAGGenerator.hpp:117-126 | getPosVector gives in-bounds coordinates for every cell |
| GridIndex.LinearOfPosVector | include/tsc/bpt/DenseWRAGGenerator.hpp:117-138 | getLinearIndex undoes getPosVector on every cell |
| GridIndex.PosVectorOfLinear | include/tsc/bpt/DenseWRAGGenerator.hpp:117-138 | getPosVector undoes getLinearIndex on every in-bounds position |
| GridIndex.LinearShift | include/tsc/bpt/DenseWRAGGenerator.hpp:151 | the linear index of a position moved by an offset is the position's index plus the offset's index, which is how generateWRAG finds a neighbour |
| GridIndex.NeighborCell | include/tsc/bpt/DenseWRAGGenerator.hpp:149-151 | for a valid neighbour offset, `i + getLinearIndex(offset)` is a cell of the grid and it is the cell at the moved position |
| GridIndex.SetTotal | include/tsc/bpt/DenseWRAGGenerator.hpp:713-717 | setTotal is the product of the dimensions; with no dimension `at(0)` throws |
| GridIndex.ValidPosition | include/tsc/bpt/DenseWRAGGenerator.hpp:103-107 | validPosition holds exactly when every coordinate is below its dimension |
| GridIndex.IsValidNeighbor | include/tsc/bpt/DenseWRAGGenerator.hpp:109-115 | validNeighbor holds exactly when the moved position is inside the grid in every dimension |
| GridIndex.PosVectorStep | include/tsc/bpt/DenseWRAGGenerator.hpp:120-124 | one step of getPosVector divides the cell count by the dimension and splits off that coordinate |
| GridIndex.GetPosVector | include/tsc/bpt/DenseWRAGGenerator.hpp:117-126 | the loop of getPosVector computes the row-major coordinates of the index |
| GridIndex.GetLinearIndex | include/tsc/bpt/DenseWRAGGenerator.hpp:128-138 | getLinearIndex throws on a vector of another length than the dimensions and otherwise computes the row-major index |
| DenseWRAGGenerator.Leaves | include/tsc/bpt/DenseWRAGGenerator.hpp:61-62 | the constructors create one parentless, childless leaf per input, in input order, with no dissimilarity |
| DenseWRAGGenerator.GeneratedSnoc | include/tsc/bpt/DenseWRAGGenerator.hpp:152-156 | creating one more dissimilarity extends the arena by its key and the node sets by its insertions |
| DenseWRAGGenerator.InsertedShape | include/tsc/bpt/DenseWRAGGenerator.hpp:153-156 | inserting dissimilarities changes no father, child or model |
| DenseWRAGGenerator.InsertedSets | include/tsc/bpt/DenseWRAGGenerator.hpp:153-156 | a node ends up with its own dissimilarities plus every created one that was inserted into it, and no other |
| DenseWRAGGenerator.CreatedEdges | include/tsc/bpt/DenseWRAGGenerator.hpp:152 | the arena gains exactly the consecutive new keys, each holding the dissimilarity from its cell to the neighbour measured on their models, and keeps every older entry |
| DenseWRAGGenerator.Forward | include/tsc/bpt/DenseWRAGGenerator.hpp:727-736 | the offsets kept for a symmetric measure are some of the given ones |
| DenseWRAGGenerator.ForwardMembers | include/tsc/bpt/DenseWRAGGenerator.hpp:727-736 | an offset is kept exactly when it is one of the given ones and its linear index is positive |
| DenseWRAGGenerator.ForwardAll | include/tsc/bpt/DenseWRAGGenerator.hpp:727-736 | offsets that all point forward are all kept |
| DenseWRAGGenerator.ForwardNone | include/tsc/bpt/DenseWRAGGenerator.hpp:727-736 | offsets none of which points forward are all erased |
| DenseWRAGGenerator.ForwardStep | include/tsc/bpt/DenseWRAGGenerator.hpp:729-734 | one more step of the erase loop keeps the offset exactly when it points forward |
| DenseWRAGGenerator.ForwardConcat | include/tsc/bpt/DenseWRAGGenerator.hpp:727-736 | the erase distributes over concatenation of offset lists |
| DenseWRAGGenerator.Target | include/tsc/bpt/DenseWRAGGenerator.hpp:149-151 | an offset with a valid neighbour reaches the cell `i + getLinearIndex(offset)`, inside the grid, at the moved position |
| DenseWRAGGenerator.CellLinks | include/tsc/bpt/DenseWRAGGenerator.hpp:148-158 | every link of a cell joins two cells of the grid |
| DenseWRAGGenerator.CellLinksPrefix | include/tsc/bpt/DenseWRAGGenerator.hpp:148-158 | one more offset adds its own link exactly when its neighbour is valid |
| DenseWRAGGenerator.WragLinks | include/tsc/bpt/DenseWRAGGenerator.hpp:147-160 | every link generateWRAG creates joins two cells of the grid |
| DenseWRAGGenerator.CellLinksSound | include/tsc/bpt/DenseWRAGGenerator.hpp:148-158 | every link of a cell leaves that cell through one of the offsets to a neighbour inside the grid |
| DenseWRAGGenerator.WragLinksSound | include/tsc/bpt/DenseWRAGGenerator.hpp:147-160 | soundness: every link created joins a cell to the neighbour one of the offsets reaches inside the grid |
| DenseWRAGGenerator.WragLinkCell | include/tsc/bpt/DenseWRAGGenerator.hpp:147-160 | every created link is a link of some visited cell |
| DenseWRAGGenerator.CellLinksComplete | include/tsc/bpt/DenseWRAGGenerator.hpp:148-158 | a cell gets a link for every offset with a valid neighbour |
| DenseWRAGGenerator.WragLinksComplete | include/tsc/bpt/DenseWRAGGenerator.hpp:147-160 | completeness: every cell gets a link to the cell each offset with a valid neighbour reaches |
| DenseWRAGGenerator.WragLinksContain | include/tsc/bpt/DenseWRAGGenerator.hpp:147-160 | every link of a visited cell is among the created links |
| DenseWRAGGenerator.WragLinksContainBelow | include/tsc/bpt/DenseWRAGGenerator.hpp:147-160 | every link of a cell before the last visited one is among the created links |
| DenseWRAGGenerator.WragCellAt | include/tsc/bpt/DenseWRAGGenerator.hpp:147-160 | the links of the last visited cell come after those of the cells before it |
| DenseWRAGGenerator.WragPrefixAt | include/tsc/bpt/DenseWRAGGenerator.hpp:147-160 | visiting one more cell keeps the earlier links in place |
| DenseWRAGGenerator.ForwardLinksAscend | include/tsc/bpt/DenseWRAGGenerator.hpp:722-736 | with a symmetric measure every created link goes from a cell to a later cell, so no pair is joined from both ends |
| DenseWRAGGenerator.Stencil8Forward | include/tsc/bpt/DenseWRAGGenerator.hpp:164-177 | on a grid with at least two columns, the symmetric 8-connectivity keeps exactly the east, south-west, south and south-east offsets |
| DenseWRAGGenerator.Generator.Init | include/tsc/bpt/DenseWRAGGenerator.hpp:707-711 | a generator starts with its dimensions, cell count and leaves, and no dissimilarity yet |
| DenseWRAGGenerator.Generator.New | include/tsc/bpt/DenseWRAGGenerator.hpp:56-64 | no dimension makes `at(0)` throw before any leaf is made; otherwise one leaf is created per input and a length_error is raised exactly when the input count differs from the product of the dimensions |
| DenseWRAGGenerator.Generator.New1D | include/tsc/bpt/DenseWRAGGenerator.hpp:66-74 | one leaf per input; a length_error exactly when the input count differs from rows |
| DenseWRAGGenerator.Generator.New2D | include/tsc/bpt/DenseWRAGGenerator.hpp:76-85 | one leaf per input; a length_error exactly when the input count differs from rows · cols |
| DenseWRAGGenerator.Generator.New3D | include/tsc/bpt/DenseWRAGGenerator.hpp:87-97 | one leaf per input, with the slices as the slowest dimension; a length_error exactly when the input count differs from slices · rows · cols |
| DenseWRAGGenerator.Generator.CheckNeighborhood | include/tsc/bpt/DenseWRAGGenerator.hpp:719-738 | a first offset of the wrong length throws; for a symmetric measure exactly the forward offsets are kept; otherwise the neighbourhood is unchanged |
| DenseWRAGGenerator.Generator.AddLink | include/tsc/bpt/DenseWRAGGenerator.hpp:152-156 | one created dissimilarity under the next key, inserted into the cell's set and, for a symmetric measure, into the neighbour's |
| DenseWRAGGenerator.Generator.VisitOffset | include/tsc/bpt/DenseWRAGGenerator.hpp:148-158 | one pass of the inner loop creates the offset's link exactly when its neighbour is valid |
| DenseWRAGGenerator.Generator.GenerateCell | include/tsc/bpt/DenseWRAGGenerator.hpp:148-158 | the inner loop creates exactly the links of the cell, in offset order |
| DenseWRAGGenerator.Generator.GenerateCells | include/tsc/bpt/DenseWRAGGenerator.hpp:147-160 | the outer loop creates exactly the links of every cell, cell by cell |
| DenseWRAGGenerator.Generator.ApplyLinks | include/tsc/bpt/DenseWRAGGenerator.hpp:152-156 | creating a list of links adds one dissimilarity per link to the arena and inserts each into its sets |
| DenseWRAGGenerator.Generator.GenerateWRAG | include/tsc/bpt/DenseWRAGGenerator.hpp:141-161 | generateWRAG fails, changing nothing, exactly when the first offset has the wrong length; otherwise it creates exactly the links of every cell over the kept offsets and inserts them into the cell's set and, for a symmetric measure, the neighbour's |
| DenseWRAGGenerator.Generator.Generate2D8 | include/tsc/bpt/DenseWRAGGenerator.hpp:163-177 | the 8-connectivity generation fails exactly on a grid that is not two-dimensional, and otherwise creates the links of generateWRAG over the eight surrounding offsets |
| Connectivity10.AtBound | include/tsc/bpt/DenseWRAGGenerator.hpp:191 | every cell (k, i, j) of the volume has an index below the number of cells |
| Connectivity10.AtSteps | include/tsc/bpt/DenseWRAGGenerator.hpp:195-223 | the east, south, south-east, south-west and future neighbours lie at +1, +C, +C+1, +C-1 and +R·C from the cell's index |
| Connectivity10.Pair | include/tsc/bpt/DenseWRAGGenerator.hpp:194-199 | an in-slice neighbour gets one dissimilarity in both sets for a symmetric measure (194-199) and one in each direction, each in its source's set, otherwise (322-329) |
| Connectivity10.Behind | include/tsc/bpt/DenseWRAGGenerator.hpp:222-227 | the cell behind in the next slice gets one dissimilarity in both sets whatever the measure (also 358-363), and none in the last slice |
| Connectivity10.FitsConcat | include/tsc/bpt/DenseWRAGGenerator.hpp:186-312 | the loops' link lists stay inside the volume when concatenated |
| Connectivity10.PairsFit | include/tsc/bpt/DenseWRAGGenerator.hpp:194-220 | links to neighbours inside the volume stay inside it |
| Connectivity10.CellLinks3Fit | include/tsc/bpt/DenseWRAGGenerator.hpp:194-227 | the links of one visited cell stay inside the volume |
| Connectivity10.MainCell | include/tsc/bpt/DenseWRAGGenerator.hpp:189-228 | one pass of the main loop links an interior cell inside the volume |
| Connectivity10.MainRow | include/tsc/bpt/DenseWRAGGenerator.hpp:190-227 | the main loop over one row links inside the volume |
| Connectivity10.MainRows | include/tsc/bpt/DenseWRAGGenerator.hpp:189-229 | the main loop over every row but the last links inside the volume |
| Connectivity10.LeftCell | include/tsc/bpt/DenseWRAGGenerator.hpp:232-263 | one pass of the left-line loop links column 0 inside the volume |
| Connectivity10.LeftLine | include/tsc/bpt/DenseWRAGGenerator.hpp:232-263 | the left-line loop links inside the volume |
| Connectivity10.RightCell | include/tsc/bpt/DenseWRAGGenerator.hpp:266-291 | one pass of the right-line loop links column C-1 inside the volume |
| Connectivity10.RightLine | include/tsc/bpt/DenseWRAGGenerator.hpp:266-291 | the right-line loop links inside the volume |
| Connectivity10.BottomCell | include/tsc/bpt/DenseWRAGGenerator.hpp:294-312 | one pass of the bottom-line loop links an interior column of the last row inside the volume |
| Connectivity10.BottomLine | include/tsc/bpt/DenseWRAGGenerator.hpp:294-312 | the bottom-line loop links inside the volume |
| Connectivity10.SliceLinks | include/tsc/bpt/DenseWRAGGenerator.hpp:187-313 | the four loops of one slice link inside the volume |
| Connectivity10.FrontSlices | include/tsc/bpt/DenseWRAGGenerator.hpp:186-463 | the slices before the last, with their links to the next slice, link inside the volume |
| Connectivity10.Links3D10 | include/tsc/bpt/DenseWRAGGenerator.hpp:181-684 | every link generateWRAG_3D_Connectivity10 creates joins two cells of the volume |
| Connectivity10.Stencil10 | include/tsc/bpt/DenseWRAGGenerator.hpp:181-184 | the 10-connectivity has ten three-dimensional offsets |
| Connectivity10.Linear3 | include/tsc/bpt/DenseWRAGGenerator.hpp:128-138 | the linear index of a three-dimensional offset is slices·R·C + rows·C + columns |
| Connectivity10.Product3 | include/tsc/bpt/DenseWRAGGenerator.hpp:713-717 | the total of the grid [S, R, C] is S·R·C |
| Connectivity10.PosVector3 | include/tsc/bpt/DenseWRAGGenerator.hpp:117-126 | cell (k, i, j) has coordinates [k, i, j] |
| Connectivity10.Stencil10Signs | include/tsc/bpt/DenseWRAGGenerator.hpp:727-736 | with slices of at least one row and two columns, the five backward offsets have a non-positive linear index and the five forward ones a positive one |
| Connectivity10.Forward10 | include/tsc/bpt/DenseWRAGGenerator.hpp:194-223 | the loops visit five three-dimensional offsets |
| Connectivity10.Stencil10Forward | include/tsc/bpt/DenseWRAGGenerator.hpp:727-736 | for a symmetric measure the generic erase keeps exactly the east, south-west, south, south-east and future offsets the loops visit |
| Connectivity10.AtInjective | include/tsc/bpt/DenseWRAGGenerator.hpp:191 | distinct cells have distinct indices |
| Connectivity10.ClearConcat | include/tsc/bpt/DenseWRAGGenerator.hpp:186-684 | link lists clear of a cell stay clear when concatenated |
| Connectivity10.PairsClear | include/tsc/bpt/DenseWRAGGenerator.hpp:194-220 | forward links from another cell are clear of a given cell |
| Connectivity10.CellClear | include/tsc/bpt/DenseWRAGGenerator.hpp:189-312 | a cell the loops visit is not a bottom corner, and its forward links stay clear of the corner |
| Connectivity10.MainRowClear | include/tsc/bpt/DenseWRAGGenerator.hpp:190-227 | the main loop over one row creates no link from a bottom corner |
| Connectivity10.MainRowsClear | include/tsc/bpt/DenseWRAGGenerator.hpp:189-229 | the main loop creates no link from a bottom corner |
| Connectivity10.LeftLineClear | include/tsc/bpt/DenseWRAGGenerator.hpp:232-263 | the left-line loop creates no link from a bottom corner |
| Connectivity10.RightLineClear | include/tsc/bpt/DenseWRAGGenerator.hpp:266-291 | the right-line loop creates no link from a bottom corner |
| Connectivity10.BottomLineClear | include/tsc/bpt/DenseWRAGGenerator.hpp:294-312 | the bottom-line loop creates no link from a bottom corner |
| Connectivity10.SliceClear | include/tsc/bpt/DenseWRAGGenerator.hpp:187-313 | the loops of a slice create no link from a bottom corner |
| Connectivity10.FrontSlicesClear | include/tsc/bpt/DenseWRAGGenerator.hpp:186-463 | the slices before the last create no link from a bottom corner when none of them does |
| Connectivity10.FrontSlicesStep | include/tsc/bpt/DenseWRAGGenerator.hpp:186-463 | one more front slice appends that slice's links |
| Connectivity10.AsWrittenSkipsCorners | include/tsc/bpt/DenseWRAGGenerator.hpp:181-563 | with a symmetric measure the loops as written create no link from either bottom corner of any slice |
| Connectivity10.OffsetLinear | include/tsc/bpt/DenseWRAGGenerator.hpp:151 | the offset between two cells moves the index by their difference |
| Connectivity10.OffsetReaches | include/tsc/bpt/DenseWRAGGenerator.hpp:149-151 | the offset between two cells of the volume is a valid neighbour and reaches the second cell |
| Connectivity10.Connectivity10Complete | include/tsc/bpt/DenseWRAGGenerator.hpp:141-161 | the generic generation over the ten offsets joins every cell to its east, south-west, south, south-east and behind neighbours |
| Connectivity10.CornerEastMissing | include/tsc/bpt/DenseWRAGGenerator.hpp:294-312 | the bottom-left cell of a slice and its east neighbour are joined by no link the loops as written create |
| Connectivity10.CornerBehindMissing | include/tsc/bpt/DenseWRAGGenerator.hpp:186-463 | the two bottom corners of a slice with a slice behind it are joined to no cell behind them by the loops as written |
| Connectivity10.ClearExcludes | include/tsc/bpt/DenseWRAGGenerator.hpp:186-684 | links clear of a cell contain no link out of it |
| Connectivity10.Generate3D10AsWritten | include/tsc/bpt/DenseWRAGGenerator.hpp:180-684 | generateWRAG_3D_Connectivity10 as written creates the links of the four loops of every slice, one dissimilarity each, inserted into their sets |
| Connectivity10.Generate3D10 | include/tsc/bpt/DenseWRAGGenerator.hpp:180-684 | the intended 10-connectivity fails exactly on a grid that is not three-dimensional and otherwise creates the links generateWRAG gives over the ten offsets, which join every cell to each of its forward neighbours |
| Images.CellInside | include/tsc/image/ImageData.hpp:147-158 | the k-th position of the row-first walk lies inside the image and recombines into k |
| Images.CellOrder | include/tsc/image/ImageData.hpp:160-163 | `<` orders walk positions exactly as the walk visits them, the end position last |
| Images.CellDistinct | include/tsc/image/ImageData.hpp:167-170 | `!=` tells distinct walk positions apart, so a walk from begin meets end only after the last pixel |
| Images.ImageData.FromRows | include/tsc/image/ImageData.hpp:35 | the vector-of-rows constructor takes the rows as given |
| Images.ImageData.Filled | include/tsc/image/ImageData.hpp:44-46 | `ImageData(rows, cols, value)` makes rows rows of cols copies of value |
| Images.ImageData.GetRows | include/tsc/image/ImageData.hpp:72-74 | getRows is the number of rows |
| Images.ImageData.GetCols | include/tsc/image/ImageData.hpp:76-78 | getCols is the length of row 0, and `at(0)` throws out_of_range on an image with no rows |
| Images.ImageData.At | include/tsc/image/ImageData.hpp:80-90 | `operator()(row, col)` and getPixelValue throw out_of_range exactly when the row or column is outside the image, and otherwise read that pixel |
| Images.ImageData.SetPixel | include/tsc/image/ImageData.hpp:84-86 | a write through the returned reference is checked like a read, changes that one pixel only, and is read back |
| Images.ImageData.Begin | include/tsc/image/ImageData.hpp:237-239 | begin is an iterator at (0, 0) of this image |
| Images.ImageData.End | include/tsc/image/ImageData.hpp:241-243 | end is an iterator at (cols, rows) of this image; getCols throws on an image with no rows |
| Images.ImageIterator.At | include/tsc/image/ImageData.hpp:115-116 | the iterator constructor stands at the given column and row of its image |
| Images.ImageIterator.Increment | include/tsc/image/ImageData.hpp:147-158 | prefix `++` moves to the next column, else to column 0 of the next row, else to the end position (cols, rows); on a rectangular image that is the next position of the row-first walk |
| Images.CellStep | include/tsc/image/ImageData.hpp:147-158 | one step of prefix `++` from the k-th walk position lands on the (k+1)-th, and stays at the end |
| Images.Transformed | include/tsc/image/ImageData.hpp:60-70 | transforming the inputs keeps one value per input |
| Images.FromInput | include/tsc/image/ImageData.hpp:60-70 | the iterator-and-transform constructor builds rows rows, row i holding inputs i·cols .. (i+1)·cols − 1 through the transform |
| Images.FromInputPlain | include/tsc/image/ImageData.hpp:48-58 | the iterator constructor builds rows rows, row i holding inputs i·cols .. (i+1)·cols − 1 |
| Images.ReadBackInOrder | include/tsc/image/ImageData.hpp:48-70 | walking an image built from an input with the row-first iterator reads the input back in order: the k-th pixel is the k-th input, transformed |
| Sources.NextInside | include/tsc/io/SourceCutter.hpp:86-92 | the cutter iterator's skip loop stops at the first inner element inside the window, or at the inner end |
| Sources.CutterYieldsWindow | include/tsc/io/SourceCutter.hpp:56-92 | started at the first inside element, the cutter yields exactly the window's elements, in the inner source's order |
| Sources.RemainingShrinks | include/tsc/io/SourceCutter.hpp:56-65 | a later resting position has fewer elements left to yield, so the walk reaches end |
| Sources.SourceCutter.constructor | include/tsc/io/SourceCutter.hpp:36-37 | the cutter keeps its source and the window (startRow, startCol, height, width) |
| Sources.SourceCutter.GetRows | include/tsc/io/SourceCutter.hpp:99-101 | getRows is the window's height |
| Sources.SourceCutter.GetCols | include/tsc/io/SourceCutter.hpp:103-105 | getCols is the window's width |
| Sources.SourceCutter.Begin | include/tsc/io/SourceCutter.hpp:107-109 | begin wraps the inner begin, moved on to the first element inside the window |
| Sources.SourceCutter.End | include/tsc/io/SourceCutter.hpp:111-113 | end wraps the inner end |
| Sources.CutterIterator.constructor | include/tsc/io/SourceCutter.hpp:86-92 | the protected constructor skips forward while the inner element lies outside the window and the inner end is not reached |
| Sources.CutterIterator.Increment | include/tsc/io/SourceCutter.hpp:56-65 | prefix `++` does nothing at the end, and otherwise yields the current element and moves to the next one inside the window |
| Sources.CutterIterator.GetRow | include/tsc/io/SourceCutter.hpp:75-77 | getRow is the inner row relative to the window's first row, and lies inside the window's height |
| Sources.CutterIterator.GetCol | include/tsc/io/SourceCutter.hpp:79-81 | getCol is the inner column relative to the window's first column, and lies inside the window's width |
| Sources.CutterIterator.Equals | include/tsc/io/SourceCutter.hpp:67-73 | two resting iterators over the same cutter are equal exactly when they have the same elements left to yield |
| Sources.FlattenSplit | include/tsc/io/SourceComposer.hpp:57-63 | the concatenation of the sources splits at any source boundary |
| Sources.ComposerReadsConcatenation | include/tsc/io/SourceComposer.hpp:47-49 | the element a composer iterator reads is the one at its ordinal in the concatenation of the sources |
| Sources.ComposerEndOrdinal | include/tsc/io/SourceComposer.hpp:92-94 | end is one past the last element of the concatenation |
| Sources.OrdinalNextSource | include/tsc/io/SourceComposer.hpp:59-62 | the next source's begin is the same place in the concatenation as the current source's end |
| Sources.OrdinalInjective | include/tsc/io/SourceComposer.hpp:66-72 | distinct readable positions, or end, have distinct ordinals |
| Sources.OrdinalMono | include/tsc/io/SourceComposer.hpp:57-63 | later sources start later in the concatenation |
| Sources.SourceComposer.constructor | include/tsc/io/SourceComposer.hpp:37 | the composer keeps the given sources |
| Sources.SourceComposer.GetRows | include/tsc/io/SourceComposer.hpp:103-105 | getRows comes from the first source |
| Sources.SourceComposer.GetCols | include/tsc/io/SourceComposer.hpp:107-109 | getCols comes from the first source |
| Sources.SourceComposer.GetSlices | include/tsc/io/SourceComposer.hpp:111-113 | one slice per source |
| Sources.SourceComposer.Begin | include/tsc/io/SourceComposer.hpp:115-117 | begin is the first source's begin, slice 0, the start of the concatenation |
| Sources.SourceComposer.End | include/tsc/io/SourceComposer.hpp:119-121 | end is the last source's end, slice count − 1, one past the concatenation |
| Sources.ComposerIterator.constructor | include/tsc/io/SourceComposer.hpp:87-94 | an iterator stands at the given source and position |
| Sources.ComposerIterator.Increment | include/tsc/io/SourceComposer.hpp:57-63 | prefix `++` takes one inner step and, at the end of a source that is not the last, moves to the next source's begin; with no empty source that is one step along the concatenation |
| Sources.ComposerIterator.GetSlice | include/tsc/io/SourceComposer.hpp:82-84 | getSlice is the index of the current source |
| Sources.ComposerIterator.Current | include/tsc/io/SourceComposer.hpp:47-49 | `*it` passes through to the inner iterator: the element at the iterator's place in the concatenation |
| Sources.ComposerIterator.Equals | include/tsc/io/SourceComposer.hpp:66-72 | between readable positions or end, two iterators are equal exactly when they stand at the same place in the concatenation |
| Images.ImageIterator.GetRow | include/tsc/image/ImageData.hpp:125-127 | getRow is the row the iterator stands on |
| Images.ImageIterator.GetCol | include/tsc/image/ImageData.hpp:129-131 | getCol is the column the iterator stands on |
| Images.ImageIterator.Deref | include/tsc/image/ImageData.hpp:120-122 | `*it` is the pixel at (getRow, getCol), the one the image's checked `(row, col)` read returns there |
| Sources.CutterIterator.Deref | include/tsc/io/SourceCutter.hpp:46-48 | `*it` is the inner element's value, which lies inside the window and is the next value the cutter yields |
| Matrices.IsSquareShape | include/tsc/data/matrix/Matrix.hpp:32-35 | a class has square shape only where a specialisation says so, and then its row and column counts agree |
| Matrices.IsHermitianShape | include/tsc/data/matrix/Matrix.hpp:37-40 | a class has Hermitian shape only where a specialisation says so, and such a class is also square |
| Matrices.PronicEven | include/tsc/data/matrix/HermitianMatrix.hpp:76 | r² − r is even, so the accessors' `(row*row - row)/2` is exact |
| Matrices.RowStartClosed | include/tsc/data/matrix/HermitianMatrix.hpp:76 | row r of packed storage starts at r·n − (r² − r)/2, the accessors' closed form |
| Matrices.RowStartMono | include/tsc/data/matrix/HermitianMatrix.hpp:76 | later rows start later in packed storage |
| Matrices.PackedSizeIsRowStart | include/tsc/data/matrix/HermitianMatrix.hpp:56-59 | the rows of packed storage fill the allocated (n² − n)/2 + n elements exactly |
| Matrices.PackedIndex | include/tsc/data/matrix/HermitianMatrix.hpp:73-83 | the slot of (row, col), row ≤ col < n, lies in row `row`'s stretch and inside the storage |
| Matrices.PackedRow | include/tsc/data/matrix/HermitianMatrix.hpp:73-83 | every slot of packed storage lies in the stretch of exactly one row |
| Matrices.PackedPosition | include/tsc/data/matrix/HermitianMatrix.hpp:73-83 | every slot of packed storage holds some upper-triangle position |
| Matrices.PackedIndexInjective | include/tsc/data/matrix/HermitianMatrix.hpp:73-83 | distinct upper-triangle positions have distinct slots |
| Matrices.SquareIndex | include/tsc/data/matrix/SquareMatrix.hpp:52-62 | SquareMatrix stores (row, col) column-major, inside its n·n elements |
| Matrices.DenseIndexAsWrittenBreaks | include/tsc/data/matrix/DenseMatrix.hpp:51-61 | as written, `col*_cols + row` stores (2,0) and (0,1) of a 3×2 matrix in the same slot and puts (0,2) of a 1×3 matrix past its three elements |
| Matrices.DenseIndex | include/tsc/data/matrix/DenseMatrix.hpp:51-61 | the intended column-major slot `col*rows + row` lies inside the rows·cols elements and agrees with the written one on square matrices |
| Matrices.Slot | include/tsc/data/matrix/Matrix.hpp:103-109 | every position a class owns occupies a slot of its storage |
| Matrices.PositionOf | include/tsc/data/matrix/Matrix.hpp:103-109 | every slot of the storage holds an owned position |
| Matrices.ColumnMajorPosition | include/tsc/data/matrix/SquareMatrix.hpp:55 | a column-major slot splits into a row and a column inside the matrix |
| Matrices.ColumnMajorSplit | include/tsc/data/matrix/SquareMatrix.hpp:55 | a slot below rows·cols splits into a row below rows and a column below cols |
| Matrices.SlotRoundTrip | include/tsc/data/matrix/Matrix.hpp:103-109 | each class's layout is a bijection between its owned positions and its storage slots |
| Matrices.NumRows | include/tsc/data/matrix/DenseMatrix.hpp:43-45 | getRows is the row count: DenseMatrix divides its size by the column count, the square classes take the side their storage has (SquareMatrix.hpp:40-46, HermitianMatrix.hpp:61-67) |
| Matrices.Resolved | include/tsc/data/matrix/HermitianMatrix.hpp:73-83 | a read below the diagonal of a Hermitian matrix resolves to the mirrored position, which is stored |
| Matrices.WriteSlot | include/tsc/data/matrix/Matrix.hpp:107-109 | the writable `operator()` returns a reference into the storage |
| Matrices.ReadAfterWrite | include/tsc/data/matrix/Matrix.hpp:103-109 | a write through the reference returned by `operator()` is read back at the same position |
| Matrices.ReadElsewhere | include/tsc/data/matrix/Matrix.hpp:103-109 | a write through the reference leaves every read that resolves to another position unchanged |
| Matrices.PackedHermitian | include/tsc/data/matrix/HermitianMatrix.hpp:170-174 | a conjugating Hermitian matrix reads Hermitian: off the diagonal, (row, col) is the conjugate of (col, row) |
| Matrices.PackedSymmetric | include/tsc/data/matrix/HermitianMatrix.hpp:73-77 | the generic variable-size Hermitian matrix reads symmetric |
| Matrices.Traverse | include/tsc/data/matrix/Matrix.hpp:111-126 | for_each_elem visits the upper triangle of a Hermitian-shaped matrix and every element of any other, and rewrites every stored element exactly once through the functor |
| Matrices.Traverse2 | include/tsc/data/matrix/Matrix.hpp:128-143 | the binary for_each_elem combines every stored element exactly once with the element of b at the same position |
| Matrices.Matrix.DenseMatrix | include/tsc/data/matrix/DenseMatrix.hpp:39-41 | DenseMatrix(rows, cols) holds rows·cols default elements and remembers cols |
| Matrices.Matrix.SquareMatrix | include/tsc/data/matrix/SquareMatrix.hpp:35-38 | SquareMatrix(rows, cols) asserts rows == cols and holds rows·cols default elements |
| Matrices.Matrix.HermitianMatrix | include/tsc/data/matrix/HermitianMatrix.hpp:56-59 | HermitianMatrix(rows, cols) asserts rows == cols and holds (rows·cols − rows)/2 + rows default elements |
| Matrices.Matrix.ConjugatingHermitian | include/tsc/data/matrix/HermitianMatrix.hpp:153-156 | the complex and fixed-size Hermitian matrices hold the same packed storage and read through conjugation (also 102-104, 191-193, 241-243) |
| Matrices.Matrix.Copy | include/tsc/data/matrix/Matrix.hpp:256 | the copy constructor copies layout and elements |
| Matrices.Matrix.GetRows | include/tsc/data/matrix/Matrix.hpp:95-97 | getRows is the class's row count |
| Matrices.Matrix.GetCols | include/tsc/data/matrix/Matrix.hpp:99-101 | getCols is the class's column count |
| Matrices.Matrix.GetSize | include/tsc/data/matrix/HermitianMatrix.hpp:61-63 | getSize of the square classes is the side n whose storage the matrix has, also for SquareMatrix's square root (SquareMatrix.hpp:40-42) |
| Matrices.Matrix.Set | include/tsc/data/matrix/Matrix.hpp:107-109 | `m(row, col) = v` writes the resolved slot only; the value is read back and every read resolving elsewhere is unchanged |
| Matrices.Matrix.ForEach | include/tsc/data/matrix/Matrix.hpp:111-126 | for_each_elem rewrites every stored element through the functor |
| Matrices.Matrix.ForEach2 | include/tsc/data/matrix/Matrix.hpp:128-143 | the binary for_each_elem combines every stored element with b's element in the same slot |
| Matrices.Compound | include/tsc/data/matrix/Matrix.hpp:205-248 | `=`, `+=`, `-=`, `*=`, `/=` with a scalar combine every stored element with it |
| Matrices.CompoundMatrix | include/tsc/data/matrix/Matrix.hpp:210-253 | the same operators with a matrix of the same class act elementwise, so `*=` is the elementwise product |
| Matrices.Combined | include/tsc/data/matrix/Matrix.hpp:255-278 | `*`, `/`, `+`, `-` with a scalar return a combined copy and leave the matrix unchanged |
| Matrices.CombinedMatrix | include/tsc/data/matrix/Matrix.hpp:270-283 | `+` and `-` with a matrix return the elementwise sum or difference as a copy |
| Matrices.BlockReadAsWrittenLeaks | include/tsc/data/matrix/BlockDiagonalMatrix.hpp:77-81 | as written, the guard `abs(row-col) > SubMatrixSize` lets (s−1, s) and (0, s), which lie outside every block, read block 0's entries (s−1, 0) and (0, 0) instead of zero |
| Matrices.BlockReadAgreesInside | include/tsc/data/matrix/BlockDiagonalMatrix.hpp:77-81 | inside a diagonal block the written read and the intended read agree |
| Matrices.BlockHermitian | include/tsc/data/matrix/BlockDiagonalMatrix.hpp:128-136 | with conjugating blocks the intended read is Hermitian off the diagonal, zero entries included |
| Matrices.BlockDiagonal.constructor | include/tsc/data/matrix/BlockDiagonalMatrix.hpp:55-59 | BlockDiagonalMatrix(rows, cols) asserts rows == cols and that the block size divides rows, and holds rows/s default blocks |
| Matrices.BlockDiagonal.GetSubMatrix | include/tsc/data/matrix/BlockDiagonalMatrix.hpp:90-98 | getSubMatrix(i) asserts i is below the number of blocks and returns a block of packed size |
| Matrices.BlockDiagonal.Set | include/tsc/data/matrix/BlockDiagonalMatrix.hpp:83-88 | `m(row, col) = v` inside a diagonal block, on or above its diagonal, writes that block's slot only, and the value is read back |
| Matrices.BlockDiagonal.ForEach | include/tsc/data/matrix/BlockDiagonalMatrix.hpp:100-105 | for_each_elem rewrites every element of every block through the functor |
| Matrices.BlockDiagonal.ForEach2 | include/tsc/data/matrix/BlockDiagonalMatrix.hpp:107-112 | the binary for_each_elem combines block i with b's block i, element by element |
| Matrices.Matrix.Get | include/tsc/data/matrix/HermitianMatrix.hpp:118-122 | the const `m(row, col)` reads the slot of the owned position (row, col) resolves to, conjugated when a conjugating Hermitian variant mirrors a position below the diagonal; the dense and square classes read their column-major slot (SquareMatrix.hpp:52-56) |
| Matrices.BlockDiagonal.GetSize | include/tsc/data/matrix/BlockDiagonalMatrix.hpp:61-63 | getSize is a whole number of blocks: divided by the block size it gives the number of blocks, with no remainder |
| Matrices.BlockDiagonal.GetNumSubMatrices | include/tsc/data/matrix/BlockDiagonalMatrix.hpp:65-67 | the number of blocks times the block size is getSize |
| Matrices.BlockDiagonal.Get | include/tsc/data/matrix/BlockDiagonalMatrix.hpp:77-81 | the const `m(row, col)` is zero across blocks, and inside a block agrees with the read as written |
| Matrices.BlockReadGuards | include/tsc/data/matrix/BlockDiagonalMatrix.hpp:77-81 | the intended block read is zero across blocks and agrees with the read as written inside a block |
| RegionModel.SubnodesModel.Default | include/tsc/bpt/models/RegionModel.hpp:51 | the default region covers one leaf |
| RegionModel.SubnodesModel.constructor | include/tsc/bpt/models/RegionModel.hpp:53 | a region built from a count covers that many leaves |
| RegionModel.SubnodesModel.GetSubnodes | include/tsc/bpt/models/RegionModel.hpp:55-57 | the count read is the count stored |
| RegionModel.SubnodesModel.SetSubnodes | include/tsc/bpt/models/RegionModel.hpp:58-60 | after setting n, reading the count gives n |
| RegionModel.SubnodesModel.MergeInto | include/tsc/bpt/models/RegionModel.hpp:64-66 | the output's count is the sum of the operands' old counts, and an operand that is not the output keeps its count |
| RegionModel.FromPosition | include/tsc/bpt/models/RegionModel.hpp:101-129 | the positioned constructors keep the position given and one subnode unless a count is given; the number of dimensions is the position's length |
| RegionModel.DivTimes | include/tsc/bpt/models/RegionModel.hpp:135-137 | dividing by a nonzero count and multiplying back by it cancel |
| RegionModel.WeightedMeanBetween | include/tsc/bpt/models/RegionModel.hpp:135-137 | a subnode-weighted mean lies between its two values and is the other value when one weight is zero |
| RegionModel.WeightedMeanUndo | include/tsc/bpt/models/RegionModel.hpp:135-137 | removing the second value's weighted share from a weighted mean gives the first value back |
| RegionModel.Merge | include/tsc/bpt/models/RegionModel.hpp:131-160 | the merged count is the sum of the counts and each merged coordinate times the merged count is the counts-weighted sum of the operands' coordinates |
| RegionModel.MergeBetween | include/tsc/bpt/models/RegionModel.hpp:131-160 | every merged coordinate lies between the operands' coordinates |
| RegionModel.MergeCommutes | include/tsc/bpt/models/RegionModel.hpp:131-160 | merging a with b gives the same region as merging b with a |
| VectorModels.FromPixel | include/tsc/bpt/models/VectorModel.hpp:51-58 | a model built from a pixel covers one subnode, holds the pixel's coordinates in dimension order and a copy of its values |
| VectorModels.Elem | include/tsc/bpt/models/VectorModel.hpp:90-92 | element i is read exactly when i is in range, and out_of_range otherwise |
| VectorModels.Dim | include/tsc/bpt/models/VectorModel.hpp:68-70 | coordinate n is read exactly when n is in range, and out_of_range otherwise |
| VectorModels.Scale | include/tsc/bpt/models/VectorModel.hpp:94-99 | every element is multiplied by the factor; the coordinates, the count and the length do not change |
| VectorModels.Add | include/tsc/bpt/models/VectorModel.hpp:101-106 | every element gets the other model's element at the same index added; the coordinates, the count and the length do not change |
| VectorModels.MeanOf | include/tsc/bpt/models/VectorModel.hpp:112-118 | elementwise weighted mean over the first vector's length |
| VectorModels.Merge | include/tsc/bpt/models/VectorModel.hpp:109-120 | counts add, lengths are kept, and every element and coordinate times the merged count is the counts-weighted sum of the operands' |
| VectorModels.UnmeanOf | include/tsc/bpt/models/VectorModel.hpp:129-132 | elementwise inverse mean (m·n − y·nb)/(n − nb) over m's length |
| VectorModels.UnmergeAsWritten | include/tsc/bpt/models/VectorModel.hpp:122-134 | the count is the difference, the elements are the inverse means, and the coordinate list has the copied coordinates followed by as many pushed ones |
| VectorModels.Unmerge | include/tsc/bpt/models/VectorModel.hpp:122-134 | the count is the difference, lengths are kept, and every element and coordinate weighted by the remaining count plus b's weighted share is the merged weighted value |
| VectorModels.UnmeanTimes | include/tsc/bpt/models/VectorModel.hpp:129-132 | each inverse mean weighted by the remaining count plus b's share is the merged weighted value |
| VectorModels.UnmergeMerge | include/tsc/bpt/models/VectorModel.hpp:109-134 | unmerging b from the merge of a and b gives a back when a covers a subnode |
| VectorModels.UnmeanOfMean | include/tsc/bpt/models/VectorModel.hpp:112-132 | the inverse mean of a weighted mean recovers the first vector |
| VectorModels.UnmergeAsWrittenDoublesPosition | include/tsc/bpt/models/VectorModel.hpp:122-128 | the as-written round trip restores the count and the vector but doubles the coordinate list, so it never gives a back when a has a coordinate |
| VectorModels.Diff | include/tsc/bpt/models/VectorModel.hpp:178 | elementwise difference over the first vector's length |
| VectorModels.SumSquaresNonNegative | include/tsc/bpt/models/VectorModel.hpp:156-165 | a sum of squares is non-negative and zero on an all-zero vector |
| VectorModels.Norm2 | include/tsc/bpt/models/VectorModel.hpp:156-165 | the loop returns the sum of squared elements, which is non-negative and zero on an all-zero vector |
| VectorModels.Dist2 | include/tsc/bpt/models/VectorModel.hpp:167-181 | the loop fails with out_of_range exactly when b is shorter than a, and otherwise returns the sum of squared differences |
| VectorModels.Dist2Metric | include/tsc/bpt/models/VectorModel.hpp:167-181 | the squared distance is non-negative, symmetric, and zero from a model to itself |
| VectorModels.SquaresOfNegation | include/tsc/bpt/models/VectorModel.hpp:167-181 | negating every difference leaves its sum of squares unchanged |
| Homogeneity.FromBase | include/tsc/bpt/models/AddHomogeneity.hpp:53-66 | construction wraps the given model with a total sum of squares of zero |
| Homogeneity.SpreadSign | include/tsc/bpt/models/AddHomogeneity.hpp:71-73 | the between-group term is non-negative when dist2 is, and positive for a positive distance between two nonempty regions |
| Homogeneity.JointSumOfSquares | include/tsc/bpt/models/AddHomogeneity.hpp:108-122 | the joint TSS is both TSS plus the between-group term, at least their sum when dist2 is non-negative |
| Homogeneity.Merge | include/tsc/bpt/models/AddHomogeneity.hpp:68-84 | the wrapped models are merged and the stored TSS is the joint TSS, non-negative when both TSS and dist2 are |
| Homogeneity.UnmergeAsWritten | include/tsc/bpt/models/AddHomogeneity.hpp:86-102 | the wrapped model is unmerged and the TSS is t − t_b plus the between-group term of the result and b |
| Homogeneity.Unmerge | include/tsc/bpt/models/AddHomogeneity.hpp:86-102 | the wrapped model is unmerged and the result's TSS plus b's TSS plus their between-group term is the merged TSS |
| Homogeneity.UnmergeMerge | include/tsc/bpt/models/AddHomogeneity.hpp:68-102 | when the wrapped model's unmerge undoes its merge, unmerge undoes merge on the decorated model, TSS included |
| Homogeneity.UnmergeAsWrittenOvercounts | include/tsc/bpt/models/AddHomogeneity.hpp:90-99 | the as-written round trip restores the wrapped model but returns a TSS too large by twice the between-group term, so it misses a for nonempty regions at a positive distance |
| Homogeneity.InitializeToZero | include/tsc/bpt/models/AddHomogeneity.hpp:124-127 | the TSS and the wrapped model are both reset |
| LogDetAverage.FromBase | include/tsc/bpt/models/AddLogDetAverage.hpp:55-58 | construction stores the absolute value of the wrapped model's log-determinant |
| LogDetAverage.JointLogDetAverage | include/tsc/bpt/models/AddLogDetAverage.hpp:100-108 | the joint average times the total count is the counts-weighted sum of the averages, and lies between them |
| LogDetAverage.Merge | include/tsc/bpt/models/AddLogDetAverage.hpp:70-82 | the wrapped models are merged and the joint average is stored |
| LogDetAverage.Unmerge | include/tsc/bpt/models/AddLogDetAverage.hpp:84-98 | the wrapped model is unmerged and the result's average weighted by the remaining count plus b's weighted average is the merged weighted average |
| LogDetAverage.UnmergeMerge | include/tsc/bpt/models/AddLogDetAverage.hpp:70-98 | when the wrapped model's merge adds counts and its unmerge undoes its merge, unmerge undoes merge on the decorated model |
| LogDetAverage.InitializeToZero | include/tsc/bpt/models/AddLogDetAverage.hpp:110-113 | the average and the wrapped model are both reset |

## Left out

- Logging, progress display and timing (include/tsc/log/, ProgressDisplay): side channels with no effect on the result.
- BPTConstructor.Constructor.Select: the source logs an already merged endpoint or an endpoint missing from the alive set, then carries on (BPTConstructor.hpp:116-131). Here each one ends the run with an error result. Endpoints are ids, so the NULL endpoint check has no counterpart. Select also stops, with Dangling, on a pool holding a released dissimilarity, because the pool's order needs every pooled value; the source would read freed memory there.
- BPTConstructor.Constructor.Visit: a neighbour whose set does not hold the visited dissimilarity is logged and relinking carries on (BPTConstructor.hpp:150,181). Here it ends the run with NotInNeighborhood. With a symmetric measure this never happens (NeighbourErase.SymmetricEraseRemovesLink). With an asymmetric measure it happens at the first relink (see Findings), so the model does not follow an asymmetric run past that point.
- BPTConstructor.Constructor.GetBinaryPartitionForest: the merge loop's per-step sets are ordered by pointer in the source. The model walks them in an arbitrary order, and the invariants are proved for every order. The dissimilarity measure is an opaque function carrying its symmetry flag; the concrete measures (floating point, Armadillo) are not modelled. Its own contract speaks of the whole run; the exact neighbours and dissimilarity values of each merge are stated per turn, by Iterate's contract, and are not collected over the run.
- BPTConstructor.Constructor.FromSet: requires every leaf to hold a dissimilarity, because the source reads `*begin()` of each leaf's set. The iterator constructor (BPTConstructor.hpp:83-90) does the same over a sequence and is folded into this one.
- BPTReconstructor.Reconstructor.GetBinaryPartitionForest: the source logs a failed read, an empty slot or an already merged node and carries on (BPTReconstructor.hpp:98-126). Here each one ends the replay with an error result (Eof, Missing, AlreadyMerged).
- BPTReconstructor.SavedRunReplays: covers a construction that reached `numTrees`. A construction that stopped earlier because its pool emptied saves fewer pairs than the replay reads, and the replay then ends with Eof.
- BPTNode.NodeStore: the static `next_id` counter is the arena's length. The actual `delete` of removed nodes is not modelled; removal is the order in which nodes leave the arena.
- Dissimilarity: the setters `setA`, `setB` and `setDissimilarityValue` are record updates of the immutable `Diss` value.
- DenseWRAGGenerator.Generator: the size-only `validPosition(Size)` overload, the unused `_getLinearIndex_NoCheck` (DenseWRAGGenerator.hpp:740-748), the progress display and the `begin`/`end`/`getData` accessors are not modelled.
- Connectivity10.Generate3D10AsWritten: requires three dimensions, at least one row and at least two columns. The source reads three extents without a check and counts down from them in unsigned arithmetic, which wraps otherwise.
- BPTDataSource.DataSource.PopulateFromSet: visits the pruned nodes in ascending id order; the source walks a set ordered by pointer.
- BPTDataSource.DataSource.SliceChanges: requires a first extent above zero; otherwise `extents[0] − 1` wraps and the source reads outside the grid.
- BPTDataSource.RegionsAverage: the division by an empty set's size (NaN in the source) is returned as None.
- BPTFrame.Prune: the prune criterion is an opaque predicate. PruneCriteria.h (decibel thresholds) is not part of this model.
- SavingPolicy: only the merge-sequence policy is modelled. SaveMergedNodeModel and SaveMergedNodeHomogeneity write floating-point data files. The file name accessors and the default name "BPT.msq" are file-system plumbing.
- Averaging.Average: requires a non-empty range, since `average` reads the first element before testing for emptiness. The division by zero on one element (inf/NaN in the source) is returned as None.
- Averaging.AverageUnaryMeasure: the division by zero on an empty range is returned as None.
- BoxCarFilter.BoxCarFilter2D: requires filter sizes of at least 1, and half-widths below the image extents. With a zero size the source divides by zero, and with a wider filter its mirrored index leaves the row. Each model is a single real; the region-model element type is not modelled. The 3-D filter `boxCarFilter3DFullInterp` is not modelled.
- BinaryIO.BinaryFileIterator.Reading: the value a read leaves on a short read depends on what `current` held before. The model takes that value to be zeros on the first read. The stream itself is a byte sequence plus a good flag.
- BinaryIO.FileWithSizeReader: opening, seeking and the file size come from a byte sequence that stands for the file's contents.
- Images.ImageData: the postfix `++` (ImageData.hpp:133-145) and `operator==`, which assigns `_father` instead of comparing (ImageData.hpp:164-166), are not modelled. Also not modelled: the pointer constructor (37-42), `pixel_iterator` (174-230), and `getData`/`setData`/`operator[]`, which hand out the underlying vectors.
- Sources.ComposerIterator.Equals: compares the source index together with the inner position. In the source the inner iterators of two different sources are not comparable. The postfix `++` operators of both iterators are not modelled.
- Matrices: `log_det` (HermitianMatrix.hpp:315-340, BlockDiagonalMatrix.hpp:152-158) calls Armadillo. GetMinDimSize and NormTraits are type-level helpers. `HermitianMatrix::getSize` computes n with `sqrt`; the model keeps n.
- Matrices.BlockDiagonal.Set: requires row and col to lie in one diagonal block, on or above its diagonal. The source's writable `operator()` (BlockDiagonalMatrix.hpp:83-88) asserts only abs(row − col) ≤ s, and then the block's own row ≤ col (HermitianMatrix.hpp:124-128). So as written, (0, s) passes both asserts and overwrites block 0's diagonal entry (0, 0), the write-side twin of the read finding on BlockDiagonalMatrix.hpp:79-80. The model keeps the intended guard.
- Matrices.Compound: division by a zero scalar (inf/NaN in the source) is excluded by a requires, and so are the zero divisors of Matrices.CompoundMatrix and Matrices.Combined.
- RegionModel.Merge: requires a positive total count; with two empty regions the source divides by zero.
- VectorModels.Merge: requires a positive total count, and requires `b` to be at least as long as this model, since the source indexes it unchecked.
- VectorModels.UnmergeAsWritten: requires this model to cover more subnodes than b. Otherwise the unsigned difference is zero (a division by zero) or wraps.
- LogDetAverage.Unmerge: requires this model to cover more subnodes than b, for the same reason. `log_det` is an opaque function.
- Homogeneity.Merge: `dist2`, `merge`, `unmerge` and the subnode count of the wrapped model are parameters (BaseOps). The complex-matrix region models are not modelled.
- Storage.NativeStorage: `new` and `delete` are modelled as appending to an arena of objects and taking the id out of its live set.
- Accessors.SuffixProducts: the products of extents that `prepare_dims` stores, and the offsets Accessors.LinearIndex computes from them, are unbounded integers. Their `size_t` wrap above 2^64 is not modelled.
- CheckingPolicy.SizeMatches: the product of the dimensions is an unbounded integer, so a product that wraps in `size_t` is not modelled.
- Fixed-width arithmetic: `size_t` products of extents are unbounded integers, except in the header check and in the reconstructor's `2L − 1` table size, where the wrap is written out.
- Floating point: `double` and `float` are exact reals throughout, so rounding is not modelled.

## Findings

| source | as written | input that shows it | evidently intended | confidence | as-written member | corrected member |
|---|---|---|---|---|---|---|
| include/tsc/data/matrix/DenseMatrix.hpp:53-59 | `operator()` stores (row, col) at `col*_cols + row`, scaling the column by the column count | a 3×2 matrix stores (2,0) and (0,1) in slot 2; (0,2) of a 1×3 matrix goes to slot 6 of 3 | column-major `col*_rows + row`, as SquareMatrix does | not executed | Matrices.DenseIndexAsWritten, Matrices.DenseIndexAsWrittenBreaks | Matrices.DenseIndex |
| include/tsc/data/matrix/BlockDiagonalMatrix.hpp:79-80 | the const `operator()` returns zero only when abs(row − col) > subMatrixSize | with blocks of size 2, (1,2) reads block 0's entry (1,0) and (0,2) reads block 0's entry (0,0), though both lie outside every block | zero whenever row and col fall in different blocks | not executed | Matrices.BlockReadAsWritten, Matrices.BlockReadAsWrittenLeaks | Matrices.BlockRead, Matrices.BlockHermitian |
| include/tsc/util/Algorithms.h:27-33 | `average` sums all n elements but divides by `elems`, which counts only the n − 1 after the first | [c, c] averages to 2c; a single element divides by zero | divide by n | not executed | Averaging.AverageAsWritten, Averaging.AverageOfConstantOvershoots | Averaging.AverageCorrected, Averaging.MeanOfConstant |
| include/tsc/util/filtering/BoxCarFiltering.h:46-60 | the centre test `ck != j` compares the mirrored index, so an offset that mirrors onto the centre is skipped as well | a 1 × 5 filter over the constant 1 × 3 image [c, c, c] leaves the middle cell at 3c/5 | skip only the offset k = 0, whose sample the cell already holds | not executed | BoxCarFilter.BoxCarFilter2D, BoxCarFilter.AsWrittenLosesMirroredSamples | BoxCarFilter.ConstantImagePreserved |
| include/tsc/io/PositionCounter.hpp:71-77 | `getRow` divides by, and `getCol` takes the remainder of, the first extent, which is the number of rows | 3 rows of 2 columns: count 3 (row 1, column 1) is reported as row 1, column 0; 2 rows of 3 columns: count 5 is reported as row 2 | divide by the number of columns | not executed | PositionCounters.RowAsWritten, PositionCounters.ColAsWritten, PositionCounters.CounterAsWrittenBreaks | PositionCounters.CounterPosition |
| include/tsc/io/FileWithSizeReader.hpp:58-71 | the header fields are read as `int` and multiplied as `size_t` with no sign check, so negative fields wrap | a header of two −1 fields followed by one byte of char data passes the check | reject negative fields | not executed | BinaryIO.HeaderCheckAsWritten, BinaryIO.HeaderCheckAsWrittenAcceptsNegative | BinaryIO.FileWithSizeReader.ReadSize, BinaryIO.HeaderRoundTrip |
| include/tsc/bpt/models/AddHomogeneity.hpp:90-99 | `unmerge` adds the between-group term dist2·n_r·n_b/(n_r + n_b) to t − t_b | any two nonempty regions a, b whose dist2 is D > 0: unmerge(merge(a, b), b) has TSS t_a + 2·D·n_a·n_b/(n_a + n_b), where n_a and n_b are the region sizes, instead of t_a | subtract the term, undoing what `merge` added | not executed | Homogeneity.UnmergeAsWritten, Homogeneity.UnmergeAsWrittenOvercounts | Homogeneity.Unmerge, Homogeneity.UnmergeMerge |
| include/tsc/bpt/models/VectorModel.hpp:126-127 | `unmerge` pushes each recomputed coordinate after the copied ones | a with one coordinate: unmerge(merge(a, b), b) has two coordinates, the first being the merged mean | overwrite `tmp._position[i]`, as `merge` does | not executed | VectorModels.UnmergeAsWritten, VectorModels.UnmergeAsWrittenDoublesPosition | VectorModels.Unmerge, VectorModels.UnmergeMerge |
| include/tsc/bpt/DenseWRAGGenerator.hpp:294-312 | the bottom-row loop of every slice runs over j = 1 … C − 2, and no other loop covers the bottom corners | any grid with C ≥ 2: cell (k, R − 1, 0) is not joined to its east neighbour, and neither bottom corner is joined to the cell behind it | join every cell to its east, south-west, south, south-east and behind neighbours | not executed | Connectivity10.Generate3D10AsWritten, Connectivity10.CornerEastMissing, Connectivity10.CornerBehindMissing | Connectivity10.Generate3D10, Connectivity10.Connectivity10Complete |
| include/tsc/bpt/BPTConstructor.hpp:149-181 | the neighbour's set is erased of the merged node's own dissimilarity; with an asymmetric measure the neighbour holds the separate reverse dissimilarity, so nothing is erased and its link to the merged node stays | node 0 holding (0, 1) and node 1 holding (1, 0): erasing (0, 1) from node 1's set removes nothing | remove the neighbour's dissimilarities that lead to the merged node | not executed | NeighbourErase.EraseAsWritten, NeighbourErase.AsymmetricEraseKeepsLink | NeighbourErase.EraseLinksTo, NeighbourErase.SymmetricEraseRemovesLink |
