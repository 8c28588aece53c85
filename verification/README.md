# Ydrasil tooling and benchmark kernels: a verified model

This project models the parts of the Ydrasil repository that compute something intricate, and proves what they are for.
Each module stands for one component; methods follow the loops and branches of the code they model, and lemmas say what
the results mean.

* **RTL structure analysis** (`Digraphs`, `Tarjan`, `Condensation`, `Dags`, `LongestPaths`, `Endpoints`,
  `EndpointPairs`, `SignalDepths`, `SignalEndpoints`, `SignalPairs`, `SimplePaths`, `ExpressionDepth`). Strongly
  connected components, the condensed graph, longest paths with parent witnesses, farthest endpoints of each kind,
  source-to-endpoint paths, the bounded walk inside a component, and the depth estimate for expressions. The layers
  compose: Kahn's queue drains because Tarjan's components are emitted in order, and depths, endpoint distances and
  best paths are maxima over signal paths because the condensation is exact.
* **CoreMark list kernel**. Cells are heap objects and the methods relink them in place (`ListCells`, `MergeSort`,
  `ListBench`, `ListInit`, `ListRuns`). The comparison functions write while they compare, so a sort is stated over keys
  that become final when they are first looked at (`MergeOrder`). What searches, turns and sorts do to an order, whatever
  its elements are, is `ListOrders`; `ListChecksum` is the checksum as a function of it. `ListPromise` says when a list
  comes back, `ListPositions` and `ListIndices` when one built from size and seed does, `ListProfile` does so for the
  seeds of the profile run.
* **CoreMark CRC** (`Crc`). Words are lists of bits, lowest first; the register is shown to hold a polynomial remainder.
* **CoreMark state machine** (`StateScanner`, `StateBuffer`). The scanner against a grammar, the two corruption passes and
  the buffer generator.
* **Dividers** (`Divider`). The non-restoring and the radix-4 simulator against truncated division.
* **Attitude frames** (`AttitudeParser`). The MS601M parser over polls of clock and receiver.
* **Regression scheduler** (`SeedRuns`, `SeedStages`, `SeedScheduler`). Runs are event sequences; the two loops produce
  only allowed ones, and every turn of a loop does what its wake says. What a wait brings, when signals arrive and which
  random numbers are drawn are parameters, and every contract holds for every cut-off of a run.
* **Cycle counter** (`CycleCounter`). The high/low/high read against any monotone counter.
* **Rank correlation** (`Ranking`, `RankCorrelation`). Over the reals, with the square root as a parameter.

`Arithmetic`, `ByteLogic` and `Collections` hold what several modules share.

## Where the code and its description differ

* The benchmark's header comment promises that the list is back in its original state after a call. The code achieves
  this exactly when `ListBench.ComesBack` holds of list and arguments (`ListBench.BenchList`), and for a list built from
  size and seed in every call of a run, whatever the kernels return, exactly when `ListPositions.BuiltComesBack` holds of
  size, seed and number of searches (`ListInit.BuiltRunIff`). Indices that are all different are enough, and with seeds
  0 and 0x3415 they are, up to 321 cells. With the profile seed 8 they are in every block below 840 bytes, its blocks of
  400 and 666 bytes included. From 840 to 1639 bytes two cells clash; the profile run keeps its list there exactly when
  the size modulo 16 is 4 to 9 (`ListProfile.ProfileRunIff`), 840 bytes included, and loses it with its first call in
  a block of 920 bytes (`ListProfile.ProfileRunLoses`). Sizes are bytes divided by 20, less 2.
* One of the four "scientific" words, `-87e+832`, is invalid for the scanner, because an exponent needs a point before it.
* An explicit divider width may be too narrow for the operands; the code then returns a saturated quotient instead of an
  error (`Divider.NonRestoringDivision` states when).
* The first fill of `command_run` does not look at the stop flag, so it submits all its jobs even after a signal. The
  main loop and the fill of `command_continuous` look before each submission, but a signal may still come between the
  look and the submission. Outside the first fill at most one job follows a request, and only such a one
  (`SeedRuns.AtMostOneLate`, `SeedScheduler.RunSeeds`, `SeedScheduler.CommandContinuous`, `SeedScheduler.SignalInGap`).
* A stray `0x55` before a frame makes the parser lose that frame (`AttitudeParser.StrayHeadLosesFrame`); when exactly a
  frame is what a call returns is `AttitudeParser.FrameIsReadIff`.
* The depth estimate flattens a reduction applied directly to the same reduction and counts it once. That keeps the value
  exactly when the reduction is idempotent (`ExpressionDepth.NestedIff`); the XNOR reduction, which inverts a single
  bit, is not (`ExpressionDepth.NestedXnorDiffers`).
* The comment in `core_bench_list` speaks of a checksum over the list's data from the found item on; the code folds the
  head's data word once per remaining cell (`ListBench.RemoveAndUndo`, `ListChecksum.FoldedIsRun`).

## Model

| member | source | states |
|---|---|---|
| Tarjan.Components | syn/analyze_rtl_structure.py:531-565 | for every finite graph the walk terminates; the components are non-empty, repetition-free and mutually disjoint, together hold exactly the nodes of the graph, two nodes share one exactly when each reaches the other, and no edge leads to a component emitted later |
| Tarjan.Search.constructor | syn/analyze_rtl_structure.py:532-537 | the walk starts with no number given, an empty stack and no component |
| Tarjan.Search.Enter | syn/analyze_rtl_structure.py:541-545 | a node gets the next number, is stacked, and its lowlink is its number; the invariant of the walk is kept |
| Tarjan.Search.Lower | syn/analyze_rtl_structure.py:549-551 | lowering a lowlink changes that lowlink only |
| Tarjan.Search.Visit | syn/analyze_rtl_structure.py:539-560 | a visit only adds: numbers, lowlinks and components from before stay; afterwards either everything numbered from the node upwards is emitted, or the node is still stacked and reaches a stacked node below itself, and its lowlink bounds every edge that leaves the visited part downwards |
| Tarjan.Search.Leave | syn/analyze_rtl_structure.py:552-560 | leaving a node restores the caller's invariant whether or not the node was the root of a component |
| Tarjan.Search.PopComponent | syn/analyze_rtl_structure.py:553-559 | the stack is cut back to below the node, and the popped nodes are the cut-off part in reverse |
| Tarjan.Search.EmitComponent | syn/analyze_rtl_structure.py:552-560 | at a root, the stack segment from the node upwards becomes one component and leaves the stack; components emitted before stay a prefix |
| Tarjan.SegmentIsStrong | syn/analyze_rtl_structure.py:552-560 | the segment above a root is strongly connected: every member reaches every other |
| Tarjan.SegmentIsClosed | syn/analyze_rtl_structure.py:552-560 | no edge leaves the segment above a root except into components already emitted |
| Tarjan.ReachGoesEarlier | syn/analyze_rtl_structure.py:552-565 | reachability never leads from a component to one emitted later |
| Tarjan.TogetherIffMutual | syn/analyze_rtl_structure.py:531-565 | in any list of components of this kind, sharing one is the same as reaching each other |
| Tarjan.EverythingIsEmitted | syn/analyze_rtl_structure.py:562-565 | when the outer loop ends, every node, key or mere target, is in some component |
| Tarjan.NodesAreReachable | syn/analyze_rtl_structure.py:562-565 | the nodes the partition covers are exactly those some key of the graph reaches |
| Condensation.IndexComponents | syn/analyze_rtl_structure.py:903-906 | every signal is mapped to the number of the one component that holds it |
| Condensation.Condense | syn/analyze_rtl_structure.py:976-985 | the numbered graph has exactly one edge for each pair of components that some signal edge crosses, its edges lead to smaller numbers, and the in-degrees count them |
| Condensation.CondenseSource | syn/analyze_rtl_structure.py:980-985 | handling one source represents all its crossing edges, invents none and keeps the in-degrees exact |
| Condensation.AddDagEdge | syn/analyze_rtl_structure.py:983-985 | adding a new edge and counting it keeps every in-degree exact |
| LongestPaths.Kahn | syn/analyze_rtl_structure.py:998-1013 | on any such graph every component is dequeued once, before all its targets, and the depths are longest-path lengths with parent chains that attain them |
| LongestPaths.CountEdge | syn/analyze_rtl_structure.py:1011-1013 | an in-degree is positive while an edge into the component is unrelaxed, and counting one edge down keeps every in-degree equal to the number of unrelaxed edges |
| LongestPaths.DrainedIsComplete | syn/analyze_rtl_structure.py:1002-1013 | when the queue runs empty no component is missing; this is where the order of Tarjan's components is needed |
| LongestPaths.PathIsBounded | syn/analyze_rtl_structure.py:1005-1010 | no path into a component costs more than its depth |
| LongestPaths.ChainIsPath | syn/analyze_rtl_structure.py:1005-1010 | following the recorded parents gives a real path whose costs add up to exactly the depth |
| LongestPaths.RelaxedIsDeepest | syn/analyze_rtl_structure.py:998-1013 | relaxing every edge once in this order makes every depth the maximum over all paths |
| LongestPaths.UpstreamPath | syn/analyze_rtl_structure.py:2528-2531 | the parent walk, reversed, is the parent chain in path order |
| SignalDepths.AddEdgeKeepsWeighted | syn/analyze_rtl_structure.py:631-634 | adding an edge adds that edge and no other, gives it the largest of the new weight, its earlier one and 0, leaves all other weights alone, and keeps exactly one non-negative weight per edge between known signals |
| SignalDepths.RemovalKeepsWeighted | syn/analyze_rtl_structure.py:887-895 | so does removing loop variables, and exactly the edges between signals that stay remain |
| SignalDepths.CostIsNonNegative | syn/analyze_rtl_structure.py:987-996 | no component edge has a negative cost |
| SignalDepths.ChargesByComponent | syn/analyze_rtl_structure.py:987-996 | two signals share a component exactly when they reach each other, and a component holds a register exactly when some register and the signal reach each other: so what an edge costs is stated by registers, reachability and weights alone, 0 on a loop or out of one with a register, its weight otherwise |
| SignalDepths.HopIsPaid | syn/analyze_rtl_structure.py:987-996 | what one signal edge costs across components is at most the cost of the component edge; inside a component it costs nothing |
| SignalDepths.SomeHopAttains | syn/analyze_rtl_structure.py:987-996 | each component edge costs exactly what some signal edge across it costs |
| SignalDepths.SignalPathIsBounded | syn/analyze_rtl_structure.py:976-1013 | no signal path, through any components, costs more than the depth reported for its end |
| SignalDepths.SignalPathAttains | syn/analyze_rtl_structure.py:976-1013 | some signal path costs exactly the depth reported for its end |
| SignalDepths.ReportedDepthIsLongestPath | syn/analyze_rtl_structure.py:976-1013 | the depth reported for a signal is the maximum cost over all signal paths that end in it, where costs are those of the edges as above |
| SignalEndpoints.SignalPathGivesDagPath | syn/analyze_rtl_structure.py:976-996 | every signal path runs through a path of components that costs at least as much |
| SignalEndpoints.DagPathGivesSignalPath | syn/analyze_rtl_structure.py:976-996 | every path of components carries, between any two signals of its end components, a signal path that costs at least as much |
| SignalEndpoints.SinkEndsPaths | syn/analyze_rtl_structure.py:1105-1117 | a component has no outgoing edge, and so counts as a sink, exactly when everything its signals reach reaches them back |
| SignalEndpoints.EndIsBounded | syn/analyze_rtl_structure.py:1092-1131 | no signal path to an endpoint of a kind costs more than the distance recorded for its start and that kind |
| SignalEndpoints.EndIsAttained | syn/analyze_rtl_structure.py:1092-1131 | a recorded distance other than -1 is the cost of some signal path to an endpoint of the kind |
| SignalEndpoints.ReportedDistanceIsFarthestEnd | syn/analyze_rtl_structure.py:1092-1131 | for all five kinds the recorded distance is -1 when no signal path leads to an endpoint of the kind, and otherwise the maximum cost over all that do |
| SignalEndpoints.MissingEndpointIsUnreachable | syn/analyze_rtl_structure.py:1092-1131 | so -1 says exactly that no endpoint of the kind is reachable from the signal |
| SignalEndpoints.Analyse | syn/analyze_rtl_structure.py:897-1131 | the composed pass on any weighted design: the depth of every signal is the maximum over the signal paths that end in it, and its distance to every kind of endpoint the maximum over the signal paths that lead to one |
| Endpoints.SettleOne | syn/analyze_rtl_structure.py:1119-1128 | the best of a component is the maximum over its own terminal mark and every settled target plus edge cost, with -1 for nothing reachable |
| Endpoints.SettleComponent | syn/analyze_rtl_structure.py:1118-1131 | settling one component in reverse order settles its tables for all five endpoint kinds and no others |
| Endpoints.SuccessorsAreLater | syn/analyze_rtl_structure.py:1105-1121 | in reverse topological order all targets of a component are settled before it |
| Endpoints.PathToTerminal | syn/analyze_rtl_structure.py:1118-1131 | no path to a terminal of the kind costs more than the recorded depth |
| Endpoints.WalkAttains | syn/analyze_rtl_structure.py:1129-1131 | following the recorded next components ends at a terminal of the kind at a total cost equal to the depth |
| Endpoints.SettledIsFarthest | syn/analyze_rtl_structure.py:1092-1131 | a depth is -1 exactly when no terminal of the kind is reachable, and otherwise the maximum path cost to one |
| Endpoints.EndpointDepths | syn/analyze_rtl_structure.py:1092-1131 | the pass makes this true for every kind and every component |
| EndpointPairs.Launch | syn/analyze_rtl_structure.py:2510-2514 | every component with a source starts at 0, and is credited to the first source inside it |
| EndpointPairs.RelaxFrom | syn/analyze_rtl_structure.py:2515-2523 | relaxing the edges of one component keeps depth, parent and source records justified and bounds them by every relaxed edge |
| EndpointPairs.Relax | syn/analyze_rtl_structure.py:2510-2523 | after the pass exactly the components reachable from a source have a depth, each attained by a parent chain from a source |
| EndpointPairs.ReachedBounds | syn/analyze_rtl_structure.py:2515-2523 | no path from a source costs more than the recorded depth |
| EndpointPairs.ReachedChain | syn/analyze_rtl_structure.py:2528-2533 | the parent chain is a path that begins in a source component and costs exactly the recorded depth |
| EndpointPairs.BestEndpointPath | syn/analyze_rtl_structure.py:2504-2552 | there is a result exactly when some component of a source reaches one of a target; its path leads from the component of the source named to that of the destination named, each the first of its list in that component, its depth is that path's cost, and no connecting path costs more |
| SignalPairs.BestSignalPath | syn/analyze_rtl_structure.py:2504-2552 | over signals: there is a result exactly when some signal path leads from a source to a target; one between the source and the destination named costs the reported depth, and none from any source to any target costs more |
| SimplePaths.BoundedInternalDepth | syn/analyze_rtl_structure.py:1133-1173 | the walk always ends; its result is the weight of some simple path over value edges inside the component (0 for no members); the states it expanded are at most max(10000, 4096 n) many, and all there are unless they are exactly that many; and it is the maximum whenever simple paths have no more than that many ends and visited sets and equal end and visited set imply equal weight |
| SimplePaths.EveryLapIsSeen | syn/analyze_rtl_structure.py:1158-1172 | when the stack runs empty, the end and visited set of every simple path have been seen |
| SimplePaths.StateCount | syn/analyze_rtl_structure.py:1156-1163 | at most n * 2^(n-1) states exist |
| SimplePaths.SurveyIsComplete | syn/analyze_rtl_structure.py:1157-1172 | within that limit nothing is missed, not even by a walk that stopped at it |
| SimplePaths.BudgetSuffices | syn/analyze_rtl_structure.py:1157-1158 | components of up to twelve members are within the limit, whatever their edges |
| SimplePaths.EqualWeightsDetermine | syn/analyze_rtl_structure.py:1161-1172 | equal internal weights make the weight depend on end and visited set only, so the dropped score does no harm |
| ExpressionDepth.EstimateIsCostliestRoute | syn/analyze_rtl_structure.py:386-405 | the estimate is the cost of the costliest route from the root to an input, where a chain of n operands charges the least k >= 1 with n <= 2^k and any other operator its own cost: no route costs more, and some route exactly as much |
| ExpressionDepth.BalanceDepth | syn/analyze_rtl_structure.py:386-405 | the rebalanced tree is no deeper than the estimate |
| ExpressionDepth.BalanceMeaning | syn/analyze_rtl_structure.py:376-405 | rebalancing keeps the value under every assignment, for every associative interpretation of the operators in which nested reductions collapse |
| ExpressionDepth.BalanceKeepsOperands | syn/analyze_rtl_structure.py:376-383 | rebalancing keeps the operand sequence of every chain: flattening the rebalanced chain gives the rebalanced operands in order |
| ExpressionDepth.BalanceReassociates | syn/analyze_rtl_structure.py:376-405 | the rebalanced tree differs from the expression only in how its chains are associated and in nested reductions counted once, at every level |
| ExpressionDepth.ReassociationMeaning | syn/analyze_rtl_structure.py:376-405 | no two trees that differ only in that have different values, under any assignment and any such interpretation |
| ExpressionDepth.EstimateIsAchievable | syn/analyze_rtl_structure.py:386-405 | for every expression one and the same reassociation, the rebalanced tree, is no deeper than the estimate, and has the same value under every associative interpretation in which the reductions applied directly to themselves are idempotent |
| ExpressionDepth.NestedIff | syn/analyze_rtl_structure.py:376-383 | for a reduction applied to itself that is exactly the condition: counting it once keeps the value if and only if it is idempotent |
| ExpressionDepth.NestedXnorDiffers | syn/analyze_rtl_structure.py:376-383 | a nested XNOR reduction, which negates a single bit twice, has another value than the single one it is counted as |
| ExpressionDepth.ChainFitsDepth | syn/analyze_rtl_structure.py:376-383 | however a chain is associated, a tree of depth d combines at most 2^d of its operands |
| ExpressionDepth.LeafChainEstimateIsLeast | syn/analyze_rtl_structure.py:401-404 | on a chain of plain inputs the estimate is exactly ceil(log2 n) and no association of the same operands is shallower |
| ExpressionDepth.OperandsFold | syn/analyze_rtl_structure.py:376-383 | folding the flattened operands gives the value of the nested chain |
| ExpressionDepth.LanesAreAssociative | syn/analyze_rtl_structure.py:401-404 | AND, OR, XOR and XNOR are associative bit by bit, as the flattening assumes |
| Crc.CrcU8 | sw/coremark/core_util.c:164-188 | the eight-step loop is the shift register run over the byte's bits, lowest first |
| Crc.CrcU16 | sw/coremark/core_util.c:189-195 | the 16-bit form is the same register run over all sixteen bits, lowest first |
| Crc.CrcU32 | sw/coremark/core_util.c:196-202 | the 32-bit form is the same register run over all 32 bits, lowest first |
| Crc.StepAt | sw/coremark/core_util.c:172-186 | bit by bit, one step shifts down and feeds the outgoing difference back into bits 0, 13 and 15 |
| Crc.LowBitsDenote | sw/coremark/core_util.c:189-202 | the bits a number is fed in as denote the number, lowest first |
| Crc.RunLinear | sw/coremark/core_util.c:164-188 | the CRC is linear over exclusive or in message and start register together |
| Crc.RunBijective | sw/coremark/core_util.c:164-188 | for a fixed message the map on registers is a bijection, with an explicit inverse |
| Crc.BurstsAreDetected | sw/coremark/core_util.c:164-207 | equal-length messages that differ only inside a window of at most 16 consecutive bits never have the same CRC |
| Crc.CrcIsRemainder | sw/coremark/core_util.c:164-188 | register * x^n + message * x^16 equals quotient * (x^16 + x^15 + x^2 + 1) plus the final register |
| Crc.RemainderIsUnique | sw/coremark/core_util.c:164-188 | quotient and remainder of that division are determined, so the CRC is the remainder |
| ListCells.FieldsAre | sw/coremark/core_list_join.c:69-114 | the fields of a data word: upper byte, flag in bit 7, seven-bit value, and that a word stands for a kernel exactly when the flag is clear and the lowest three bits are 0 or 1 |
| ListCells.CalcFunc | sw/coremark/core_list_join.c:69-114 | the first call returns and caches the seven-bit value of the operation selected, run with the data type of bits 3 to 6 twice, at least 0x22 for the state machine, keeps the upper byte, folds the raw result into the running CRC and records it when it is the kernel's first that is not zero; every later call returns the cached value and changes nothing |
| ListCells.CmpComplex | sw/coremark/core_list_join.c:120-126 | the sign of the result orders the cached values; upper bytes stay, and words already cached stay entirely |
| ListCells.CmpIdx | sw/coremark/core_list_join.c:133-142 | the result orders the indices; called without results, both lower bytes are rebuilt from the upper ones, with results the data words stay |
| ListCells.Compare | sw/coremark/core_list_join.c:69-142 | either comparison settles both items for good, leaves settled items alone, orders them by their keys, and never changes the key an item has or is destined to have |
| MergeSort.Mergesort | sw/coremark/core_list_join.c:499-595 | for every non-empty list and either comparison the sort ends with a null-terminated list of exactly the same cells, ordered by the keys they had at the start, ties in original order, every key settled when there are at least two cells, index and upper byte of every cell untouched |
| MergeSort.PassesIsCeilLog2 | sw/coremark/core_list_join.c:505-591 | the number of passes is the least k >= 1 with n <= 2^k |
| MergeSort.MergePass | sw/coremark/core_list_join.c:507-583 | one pass turns runs of length insize into runs of length 2 * insize over the same cells |
| MergeSort.MergeNext | sw/coremark/core_list_join.c:515-581 | one merge step appends one longer sorted run and leaves the rest of the input linked as it was |
| MergeSort.StepAlong | sw/coremark/core_list_join.c:518-527 | stepping along finds the end of the next run, at most insize cells on |
| MergeSort.MergeRuns | sw/coremark/core_list_join.c:529-577 | merging two runs appends their cells in key order, the left one first on ties |
| MergeSort.Choose | sw/coremark/core_list_join.c:536-565 | the four cases of the choice take the left head exactly when it may come first |
| MergeSort.Take | sw/coremark/core_list_join.c:539-576 | taking a head appends it to the output and unlinks it from its run |
| MergeSort.InsizeStaysSmall | sw/coremark/core_list_join.c:589-590 | the doubled run length stays below the length of the list while a further pass is needed |
| MergeOrder.MergedIsRun | sw/coremark/core_list_join.c:529-577 | the merge of two runs that are sorted stably, with keys fixed only as comparisons look at them, is sorted stably |
| MergeOrder.OneAscendingOrder | sw/coremark/core_list_join.c:499-595 | cells with settled keys have only one stable ascending arrangement |
| ListBench.Find | sw/coremark/core_list_join.c:434-449 | the result is the first cell with the index asked for, or with the lower data byte when the index is negative, and null when there is none |
| ListBench.Reverse | sw/coremark/core_list_join.c:464-476 | the list afterwards is exactly the list before, backwards |
| ListBench.Remove | sw/coremark/core_list_join.c:376-389 | the removed item moves to the unlinked cell, its successor's item takes its place, and the rest stays linked in order |
| ListBench.UndoRemove | sw/coremark/core_list_join.c:407-419 | items are swapped back and the cell is linked in again |
| ListBench.RemoveAndUndo | sw/coremark/core_list_join.c:207-221 | removing the second cell, searching, folding the checksum and undoing restores every link and every item; the checksum has the head's word folded in once for every cell from the one found on |
| ListBench.Relink | sw/coremark/core_list_join.c:188-196 | the found cell's successor moves to just behind the head; without a successor nothing changes |
| ListBench.FindAndTurn | sw/coremark/core_list_join.c:173-199 | one search reverses the list and, when there is a first match behind the head, moves that cell's new successor up, and adds its share to the sum: four and a data bit on a hit, a data bit less one on a miss; indices and data words stay |
| ListBench.Searches | sw/coremark/core_list_join.c:165-199 | the arrangement after any number of searches, and the sum they add up, are those determined by indices, lower data bytes, the index searched for, which wraps at sixteen bits, and the number of searches; nothing but links changes |
| ListBench.SortKeeping | sw/coremark/core_list_join.c:499-595 | either sort keeps, for every cell, its item, its index, its upper byte and the key it started with |
| ListBench.BenchList | sw/coremark/core_list_join.c:158-235 | one call ends with the list as it was, arrangement and data words, if and only if ComesBack holds of what it is given: the bytes of every data word are alike, and the cells stand by index, those of the same index by destined value when the list is sorted by value first, and otherwise as the searches arrange them; in any case the list ends in that order, with the upper byte of every data word twice, and the checksum returned is that of ChecksumOf |
| ListBench.ChecksumIsDetermined | sw/coremark/core_list_join.c:158-235 | list, indices, data words and arguments admit one checksum only |
| ListChecksum.BitsAdded | sw/coremark/core_list_join.c:178-199 | a hit adds 1 exactly when bits 0 and 9 of the word found are set, a miss exactly when bit 8 is |
| ListChecksum.IdxAfterIs | sw/coremark/core_list_join.c:173-199 | n searches from an index that is not negative on look for that index and those after it, until 0x7fff is followed by -0x8000, which stays |
| ListChecksum.FoldedIsRun | sw/coremark/core_list_join.c:211-230 | folding one word n times is one run of the CRC register over n copies of it |
| ListBench.RestoredIff | sw/coremark/core_list_join.c:204-223 | after the last sort the list is restored if and only if its indices ascended, with ties as the arrangement before that sort has them, and both bytes of every data word were alike |
| ListBench.StrictListsComeBack | sw/coremark/core_list_join.c:158-235 | strictly ascending indices and equal bytes meet the condition for every call |
| ListPromise.EveryKernelIff | sw/coremark/core_list_join.c:158-235 | whatever the kernels return, a call gives the list back if and only if AlwaysComesBack holds, a condition on the list, the index searched for and the number of searches |
| ListPromise.RunComesBackIff | sw/coremark/core_main.c:63-71 | both calls of an iteration, the one for index 1 and the one for index -1, give the list back whatever the kernels return if and only if RunComesBack holds, a condition on the list and the number of searches |
| ListPromise.OneSearchTurnsTies | sw/coremark/core_list_join.c:173-199 | in a list with ascending indices, searching once for index 0 turns cells of the same index round, wherever that index is found, or not |
| ListPromise.TiesDoNotComeBack | sw/coremark/core_list_join.c:158-235 | so with two cells of the same index that call does not give the list back, whatever the kernels return |
| ListPromise.EveryCallIff | sw/coremark/core_list_join.c:158-235 | beyond the calls of a run: a list comes back from every call there is, with every kernel, if and only if its indices ascend strictly and the bytes of every data word are alike |
| ListInit.InsertNew | sw/coremark/core_list_join.c:335-360 | a new cell with the given item goes right behind the head, or nothing changes when the block is full |
| ListInit.Fill | sw/coremark/core_list_join.c:268-296 | a block of size n yields n - 1 cells: the head with index 0, the tail item last, and between them the words inserted, the last one first |
| ListInit.AssignIndices | sw/coremark/core_list_join.c:297-315 | every cell between the ends gets its index: in order for the first fifth, mixed after that; data words stay |
| ListInit.InitList | sw/coremark/core_list_join.c:250-326 | the list is as IsBuilt says: a rearrangement of the positions filled, each cell with the index and data word of its position, sorted by index, ties in the order of the positions |
| ListInit.BuiltIsStrictIff | sw/coremark/core_list_join.c:297-326 | a built list's indices ascend strictly if and only if the indices given to the positions are all different |
| ListInit.BuiltRunIff | sw/coremark/core_list_join.c:158-326 | a list built from size and seed comes back from every call of a run, whatever the kernels return, if and only if BuiltComesBack holds of size, seed and number of searches |
| ListInit.BuiltListsComeBackIff | sw/coremark/core_list_join.c:158-326 | a built list comes back from every call there is if and only if the indices given to the positions are all different |
| ListPositions.DistinctComesBack | sw/coremark/core_list_join.c:158-326 | indices that are all different are enough, however often a run searches |
| ListPositions.PositionOrderIsUnique | sw/coremark/core_list_join.c:297-326 | size and seed determine the order in which the positions are listed |
| ListPositions.SomeOrder | sw/coremark/core_list_join.c:297-326 | and there is one for every size and seed |
| ListOrders.ComesBackRenamed | sw/coremark/core_list_join.c:158-235 | whether a list comes back depends on the indices and data words of its cells only, so it can be asked of positions |
| ListIndices.MixedBits | sw/coremark/core_list_join.c:297-315 | bit by bit, a mixed index is fourteen bits of the counter mixed with the seed, with three bits of the next counter or'ed in from bit 8 on |
| ListIndices.DataBits | sw/coremark/core_list_join.c:282-296 | bit by bit, both bytes of an inserted word are the lowest three bits of the counter and four of the counter mixed with the seed |
| ListIndices.DistinctIff | sw/coremark/core_list_join.c:297-315 | the indices are all different if and only if there are at most 321 cells and no mixed index has its upper bits clear and its lower byte among the ordered indices or on the head's |
| ListIndices.LargeClashes | sw/coremark/core_list_join.c:297-315 | with more cells two mixed indices 256 apart are equal, whatever the seed |
| ListIndices.ShippedSeedsDiffer | sw/coremark/core_list_join.c:297-315 | with seeds 0 and 0x3415 they are all different exactly up to 321 cells |
| ListIndices.ProfileSeedDistinctIff | sw/coremark/core_list_join.c:297-315 | with the profile seed 8 they are all different if and only if there are at most 321 cells and the number of cells plus one, divided by 40, is even: always below 40, never from 40 to 79 |
| ListProfile.ProfileRunIff | sw/coremark/core_main.c:51-73 | from 40 to 79 two positions always clash, and the profile run with its eight searches nevertheless keeps its list, whatever the kernels return, if and only if the size modulo 16 is 4 to 9 |
| ListProfile.ByValueIff | sw/coremark/core_list_join.c:158-235 | the call for index 1 keeps the clashing cells in order exactly for those sizes, however often it searches |
| ListProfile.EightSearchesKeep | sw/coremark/core_list_join.c:158-235 | the call for index -1 with eight searches keeps them in order unless the size modulo 16 is 10 |
| ListRuns.BenchOnce | sw/coremark/core_main.c:63-71 | a call whose condition holds leaves the caller's pointer heading the same list, with the same records and data, and returns the checksum of that call |
| ListRuns.Iterate | sw/coremark/core_main.c:51-73 | so does any number of iterations of two calls each, as long as each call's condition holds; every call returns its own checksum, which is folded into what the call left of the running CRC, the value after the first two calls kept apart |
| ListRuns.IterationsAreAlike | sw/coremark/core_main.c:61-71 | so every iteration returns the checksums of the first, wherever the kernels return the same |
| ListRuns.NextCall | sw/coremark/core_main.c:63-71 | a call after any number of calls that gave the list back does so too if and only if its own condition holds |
| ListRuns.BuildAndIterate | sw/coremark/core_main.c:51-73 | from a block that meets BuiltComesBack, any number of iterations with any kernels ends with the list as it was built: the same cells in the same order, every index and data word that of its position |
| ListRuns.LoseBuilt | sw/coremark/core_list_join.c:158-235 | a call whose condition does not hold loses a built list: the same cells, with their indices and data words, come in another order |
| ListProfile.ProfileRunLoses | sw/coremark/core_main.c:63-71 | the profile run over a block of 920 bytes loses its list with its first call, whatever the kernels return and however often it searches |
| Divider.NonRestoringDivision | verif/model/div_sim.py:22-141 | refused exactly for a zero divisor, a negative operand in unsigned mode, or a fixed width that is not positive, and for the first of these that applies; otherwise the width is the one asked for or the smallest that holds both operands, and the sign in signed mode, the shift is the difference of the operands' bit lengths in that width, quotient * divisor + remainder == dividend with the signs of both, every recorded iteration accounts for the dividend, the iterations number at most the width, and the result is truncated division if and only if abs(dividend) < abs(divisor) << (shift + 1); when it is not, the quotient is saturated at 2^(shift+1) - 1 |
| Divider.CheckedIff | verif/model/div_sim.py:31-45 | the same for the argument checks alone |
| Divider.ShiftIs | verif/model/div_sim.py:47-49 | the shift is what the operands' bit lengths say |
| Divider.BitLengthIff | verif/model/div_sim.py:5-14 | the bit length is the least number of bits that hold the number |
| Divider.DivideLoop | verif/model/div_sim.py:90-119 | on absolute values the loop and the final correction compute quotient and remainder of Euclidean division, saturating when the alignment is too small; between iterations the partial remainder stays within the shifted divisor |
| Divider.NextRegisters | verif/model/div_sim.py:91-104 | whether it adds or subtracts, an iteration leaves the true partial remainder minus the shifted divisor, and sets the quotient bit exactly when that is not negative |
| Divider.AmpleWidthFits | verif/model/div_sim.py:36-49 | an automatic width, or one that holds both operands, always meets the condition |
| Divider.EveryWidthIsTooNarrowSometimes | verif/model/div_sim.py:42-49 | for every fixed width and divisor some dividend does not meet it |
| Divider.NarrowWidthCounterexample | verif/model/div_sim.py:42-49 | 7 divided by 1 in one bit does not meet it |
| Divider.TruncatedIsUnique | verif/model/div_sim.py:121-127 | truncated quotient and remainder are determined by the operands |
| Divider.SignsPutBack | verif/model/div_sim.py:121-127 | putting the signs back keeps the division identity and makes the result truncated exactly when the absolute remainder is below the absolute divisor |
| Divider.SrtRadix4Division | verif/model/div_sim.py:144-221 | refused for the same reasons; otherwise the same width and truncated division at every width; every quotient digit is the exact one, so the clamp to 3 never takes effect, and there is one digit per two dividend bits |
| Divider.DigitsOf | verif/model/div_sim.py:169-180 | the digits are base-4 digits, most significant first, and denote the dividend |
| Divider.DigitLoop | verif/model/div_sim.py:182-191 | quotient times divisor plus remainder equals the number read so far, the remainder below the divisor |
| Divider.BothDividers | verif/model/div_sim.py:22-221 | the two dividers agree if and only if the width is enough for the first, and always for an ample width |
| StateScanner.RunIffGrammar | sw/coremark/core_state.c:216-330 | the machine ends in a state exactly on the words of that state's format, given by a grammar without reference to the machine; invalid words are those of no format |
| StateScanner.CharactersAre | sw/coremark/core_state.c:197-330 | digits are 0 to 9, signs + and -, exponents e and E |
| StateScanner.Advance | sw/coremark/core_state.c:234-326 | the switch moves to the next state and bumps exactly the counters of the transition |
| StateScanner.CountByte | sw/coremark/core_state.c:234-326 | after each byte every transition counter is what the word so far accounts for: each state counts once when it is left, and an invalid first byte or exponent byte counts as invalid |
| StateScanner.Transition | sw/coremark/core_state.c:216-330 | one call reads at least one byte, ends with a comma, before a zero, or at the first byte after which no format fits, reports the format of the word read, and adds exactly that word's counts |
| StateScanner.Scan | sw/coremark/core_state.c:65-76 | the calls cover the buffer up to its first zero, the final counters grow by the number of calls per state, the transition counters by the sum over the words read |
| StateScanner.CallsSkipNoZero | sw/coremark/core_state.c:65-76 | no call reads past a zero and every call advances, so the scan ends at the first zero |
| StateScanner.CallIsUnique | sw/coremark/core_state.c:216-330 | start and buffer determine where a call ends and what it reports |
| StateScanner.ScanIsUnique | sw/coremark/core_state.c:65-76 | a buffer has exactly one scan |
| StateScanner.OccurrencesOfAll | sw/coremark/core_state.c:65-76 | the final counters of all states add up to the number of calls |
| StateScanner.StartCounter | sw/coremark/core_state.c:237-258 | the start counter plus the number of calls that begin at a comma is the number of calls |
| StateScanner.CommaEndsACall | sw/coremark/core_state.c:225-229 | every comma before the first zero ends a call, so no word can spoil the next |
| StateBuffer.Corrupt | sw/coremark/core_state.c:77-83 | the pass flips exactly the bytes at multiples of the step inside the block, commas excepted |
| StateBuffer.RestoredIff | sw/coremark/core_state.c:77-103 | corrupting and undoing restores the buffer if and only if every touched byte is a comma, or both masks agree and the byte is not the one the mask turns into a comma |
| StateBuffer.EqualMasks | sw/coremark/core_state.c:77-103 | with equal non-zero masks s that is: no touched byte equals comma xor s; with mask 0 it always restores |
| StateBuffer.BenchState | sw/coremark/core_state.c:45-111 | the counters are those of the scan of the buffer plus those of the scan of the corrupted buffer, the buffer is corrupted and undone, and the result is the CRC register run over all counters |
| StateBuffer.CountersInOrder | sw/coremark/core_state.c:105-109 | of these the k-th 64 bits denote final and transition counter of the k-th state, in the order start, invalid, S1, S2, int, float, exponent, scientific |
| StateBuffer.InitState | sw/coremark/core_state.c:139-195 | the buffer is the words of consecutive seeds, each with a comma, as many as leave two zero bytes (one in a block of one byte), then zeros |
| StateBuffer.GeneratedIsRestored | sw/coremark/core_state.c:77-195 | every generated buffer of every size is restored under every step for the shipped seeds |
| StateBuffer.GeneratedStaysTerminated | sw/coremark/core_state.c:77-90 | with at least two bytes and steps of at least two the corrupted buffer still has a zero, so the second scan stays inside |
| StateBuffer.OneByteBufferOverruns | sw/coremark/core_state.c:77-90 | a one-byte buffer keeps a zero only under mask 0 |
| StateBuffer.PatternIs | sw/coremark/core_state.c:113-186 | the lowest three bits of the seed choose the kind of a word and the next two the word, as the texts stand in the code |
| StateBuffer.PatternForm | sw/coremark/core_state.c:113-127 | integer and float words are scanned as such, three of the four scientific words too; -87e+832 has no point and is invalid like the four error words |
| StateBuffer.GeneratedWordIsScanned | sw/coremark/core_state.c:68-195 | scanning the generated buffer, one call starts at every word and reports its form, and ends with its comma when the form is valid |
| AttitudeParser.ReadAttitude | sw/app/driver/atk_ms601m.c:40-132 | an argument error exactly for a null result or a zero timeout; OK means that the bytes polled in time up to some poll end in the first frame accepted, and that roll, pitch and yaw are what its first, second and third pair of data bytes carry, low byte first, in tenths of a degree cut off toward zero; a timeout means that the time was up and no frame had been accepted; the result is written only on OK |
| AttitudeParser.FrameBytes | sw/app/driver/atk_ms601m.c:69-123 | a frame is 55 55 01 L, L data bytes with 6 <= L <= 28, and the sum of all these modulo 256 |
| AttitudeParser.InTimeIff | sw/app/driver/atk_ms601m.c:57-58 | a poll is in time exactly when less time than the timeout has passed, wherever the clock wraps |
| AttitudeParser.Switch | sw/app/driver/atk_ms601m.c:69-130 | the switch on buffer, index and checksum follows the parser, and the data index never leaves the buffer |
| AttitudeParser.HeldStep | sw/app/driver/atk_ms601m.c:69-130 | each byte extends the frame in hand, starts a new one, or leaves nothing in hand; bounds and checksum stay consistent |
| AttitudeParser.RunIsConsistent | sw/app/driver/atk_ms601m.c:69-130 | after every byte stream the frame in hand is a suffix of the stream, its checksum is right and its data fit the buffer |
| AttitudeParser.AcceptedEndsInFrame | sw/app/driver/atk_ms601m.c:110-123 | an accepted stream ends in a complete attitude frame |
| AttitudeParser.FrameIsAccepted | sw/app/driver/atk_ms601m.c:69-123 | a complete frame that starts in a state that takes a head byte for a start is what the call returns, unless an earlier frame ended before or on its first byte |
| AttitudeParser.FrameIsReadIff | sw/app/driver/atk_ms601m.c:69-123 | a complete frame is what the call returns, with its own data, if and only if the bytes before it leave the parser in such a state and no frame was accepted in them or on the next head byte |
| AttitudeParser.OpenFrameEndsCall | sw/app/driver/atk_ms601m.c:69-123 | a call in which a complete frame starts in such a state returns with its last byte, or no later than on its first byte |
| AttitudeParser.TimeoutMissesNone | sw/app/driver/atk_ms601m.c:69-132 | so no complete frame within the bytes of a call that times out started in such a state |
| AttitudeParser.QuietThenFrame | sw/app/driver/atk_ms601m.c:69-123 | after any bytes free of 0x55 a complete frame is what the call returns |
| AttitudeParser.StrayHeadLosesFrame | sw/app/driver/atk_ms601m.c:76-92 | one stray head byte before a frame loses the frame, whatever its data; when the data hold no head byte nothing is accepted at all |
| AttitudeParser.TenthDegreesBounds | sw/app/driver/atk_ms601m.c:25-28 | the angle lies in -1800..1799 and is the measured one cut off toward zero |
| AttitudeParser.LeI16RoundTrip | sw/app/driver/atk_ms601m.c:20-23 | reading back a little-endian value gives the value |
| SeedRuns.AlwaysAtMostJobs | verif/riscv-dv/ydrasil_regression.py:739-768 | at no moment of a run are more than `jobs` jobs in flight |
| SeedRuns.StopEndsSubmission | verif/riscv-dv/ydrasil_regression.py:763-768 | nothing is submitted once a stop has been seen |
| SeedRuns.LateIffAfterRequest | verif/riscv-dv/ydrasil_regression.py:739-768 | some job counts as late if and only if one is submitted after a signal has asked for a stop |
| SeedRuns.AtMostOneLate | verif/riscv-dv/ydrasil_regression.py:763-768 | where the flag is looked at before each submission at most one job is late: one exactly when a signal came between a look and the submission that followed, none otherwise |
| SeedRuns.EachRecordedOnce | verif/riscv-dv/ydrasil_regression.py:754-756 | every submitted job is recorded exactly once unless it is still in flight, and then not at all, stop or no stop |
| SeedRuns.RowsAndFlights | verif/riscv-dv/ydrasil_regression.py:739-768 | rows and jobs in flight add up to the jobs submitted |
| SeedRuns.LandedIsRecorded | verif/riscv-dv/ydrasil_regression.py:754-756 | every job no longer in flight has a row |
| SeedRuns.RowsAreSubmitted | verif/riscv-dv/ydrasil_regression.py:754-756 | every row belongs to a submitted job |
| SeedScheduler.Land | verif/riscv-dv/ydrasil_regression.py:754-757 | finished jobs leave the flight table, and each has one new row with the status it returned, in whatever order they come |
| SeedScheduler.TakeWake | verif/riscv-dv/ydrasil_regression.py:748-762 | exactly the finished jobs in flight land; the stop flag is set afterwards exactly if it was, or a signal came during the wait, or the stop file is there, or a merge was due and failed; a merge is due when some job landed and the batch is full, and the count starts again |
| SeedScheduler.StoredKeys | verif/riscv-dv/ydrasil_regression.py:726-731 | the result table gains exactly the seeds of the rows |
| SeedScheduler.FirstFill | verif/riscv-dv/ydrasil_regression.py:739-745 | the first fill submits min(jobs, pending) jobs whenever a signal arrives; those after the signal are late; the stop flag is set exactly if a signal came |
| SeedScheduler.FillUp | verif/riscv-dv/ydrasil_regression.py:763-768 | a later fill submits until the pool is full, no seed is left, or a look finds the flag set, and nothing but new jobs enter the pool |
| SeedStages.FillIsDetermined | verif/riscv-dv/ydrasil_regression.py:763-768 | so signals and free places determine how many it submits and how it leaves the flag |
| SeedScheduler.InVainFrom | verif/riscv-dv/ydrasil_regression.py:739-745 | these are all submissions of the fill from the first one on before which a signal has come |
| SeedScheduler.RunSeeds | verif/riscv-dv/ydrasil_regression.py:736-768 | the run goes from stage to stage as the wakes say, the first one after the first fill, until the wakes run out or nothing is in flight; every run is a run of the event system over a prefix of the pending seeds in order; if it is over and was not stopped, all pending seeds were submitted and recorded; those late are the ones the first fill submits after the signal and, exactly when a signal falls between a later look at the flag and its submission, one more |
| SeedStages.StopEndsRun | verif/riscv-dv/ydrasil_regression.py:748-768 | from the first wake on that finds the stop file, a signal or a failing merge the flag is set and nothing is submitted |
| SeedScheduler.SignalInFirstFill | verif/riscv-dv/ydrasil_regression.py:739-745 | a run in which a job is submitted after a request in the first fill |
| SeedScheduler.SignalInGap | verif/riscv-dv/ydrasil_regression.py:763-768 | a run in which the one job of a later fill is submitted after a request that came behind the look |
| SeedScheduler.UnstoppedRunCoversRange | verif/riscv-dv/ydrasil_regression.py:682-768 | such a run leaves a result for every seed of the range, and every job finished exactly once |
| SeedScheduler.CommandRun | verif/riscv-dv/ydrasil_regression.py:674-785 | the same from the arguments, the pending seeds being those of the range in ascending order: seeds with results are skipped unless a rerun is asked for, no earlier result is lost, and late jobs are counted as above |
| SeedScheduler.OpenHistory | verif/riscv-dv/ydrasil_regression.py:343-386 | opening adds what the cache and earlier results know, keeps existing failure rows, gives new ones the last failing status found, and leaves every failure in the history |
| SeedScheduler.ReserveRandomSeed | verif/riscv-dv/ydrasil_regression.py:389-400 | the seed reserved is the first drawn that the history does not know, and is added to it |
| SeedScheduler.RememberedKeys | verif/riscv-dv/ydrasil_regression.py:403-411 | failures are never forgotten, every failing row enters, and nothing enters but failing or replayed seeds |
| SeedScheduler.Refill | verif/riscv-dv/ydrasil_regression.py:916-951 | filling submits permanent seeds first, then the draws that are new, in order and none left out, until the pool is full, a stop is seen or the draws end; flag and stop file are looked at before each submission |
| SeedScheduler.CommandContinuous | verif/riscv-dv/ydrasil_regression.py:788-951 | the run goes from stage to stage as above; permanent failures are replayed in order, then come the draws that are new, and the history gains just these; all submitted seeds are distinct; the failure table stays within the history and only grows; one job is late exactly when a signal falls between a look and its submission, for instance while the fresh seed is stored, and otherwise none; the run ends only after a stop |
| SeedScheduler.FailuresStayKnown | verif/riscv-dv/ydrasil_regression.py:403-411 | the failure table stays a subset of the history |
| SeedScheduler.FreshIsFresh | verif/riscv-dv/ydrasil_regression.py:389-400 | a fresh seed is none of the replayed ones, none in flight, and none that failed before |
| CycleCounter.ReadMonitorCycles | sw/apps/rtthread-coremark/core_portme.c:43-57 | the loop ends with the first iteration that reads the same high word twice, every retry was paid for by a carry, and unless the counter came around a full turn within that iteration the result is the 64-bit count at its low read and no carry fell between its reads |
| CycleCounter.RateBoundSettles | sw/apps/rtthread-coremark/core_portme.c:49-54 | when the count advances by no more than (k - 1) * 2^32 over the first k iterations, one of them is such an iteration, so a bound on the rate makes the loop end |
| CycleCounter.RetriesAreBounded | sw/apps/rtthread-coremark/core_portme.c:49-54 | and then there are fewer than k retries: at most one with two iterations in 2^32 cycles |
| CycleCounter.SameHighMeansNoCarry | sw/apps/rtthread-coremark/core_portme.c:49-54 | equal high words before and after mean that the high word was the same in between, unless the counter came around a full turn |
| CycleCounter.SingleLookTears | sw/apps/rtthread-coremark/core_portme.c:49-54 | without the second look a carry between the reads makes the value wrong by exactly 2^32 |
| Ranking.Rank | syn/compare_rtl_vivado.py:534-547 | element i gets (number of smaller) + (number of equal + 1)/2 |
| Ranking.BlockRank | syn/compare_rtl_vivado.py:538-546 | the average of the positions of a block of ties is that rank |
| Ranking.RanksAddUp | syn/compare_rtl_vivado.py:534-547 | ranks add up to n(n + 1)/2 whatever the ties |
| Ranking.RanksOrderValues | syn/compare_rtl_vivado.py:534-547 | ranks order the values, and only equal values share a rank |
| Ranking.IncreasingKeepsRanks | syn/compare_rtl_vivado.py:534-547 | strictly increasing maps keep all ranks |
| Ranking.DecreasingTurnsRanks | syn/compare_rtl_vivado.py:534-547 | strictly decreasing maps turn rank r into n + 1 - r |
| RankCorrelation.Spearman | syn/compare_rtl_vivado.py:550-560 | no value for fewer than three pairs; otherwise the coefficient of the ranks, which lies in [-1, 1] |
| RankCorrelation.CauchySchwarz | syn/compare_rtl_vivado.py:555-560 | the square of the numerator is at most the product of the sums of squares |
| RankCorrelation.CoefficientInRange | syn/compare_rtl_vivado.py:555-560 | the coefficient of any two columns lies in [-1, 1], with 0 when a denominator is 0 |
| RankCorrelation.RescalingKeepsCoefficient | syn/compare_rtl_vivado.py:550-560 | strictly increasing changes of scale of either column do not change the coefficient |
| RankCorrelation.IncreasingCorrelatesPerfectly | syn/compare_rtl_vivado.py:550-560 | a strictly increasing function of a column correlates to 1, or 0 when the column does not vary |
| RankCorrelation.DecreasingCorrelatesInversely | syn/compare_rtl_vivado.py:550-560 | a strictly decreasing one correlates to -1, or 0 |
| RankCorrelation.NoSpreadIffTied | syn/compare_rtl_vivado.py:555-560 | a column's denominator is zero exactly when all its values are tied |

## Left out

- Tarjan.Search.Visit: does not model Python's recursion limit, which bounds the size of graphs the tool can take.
- Tarjan.Components: the order in which sets and dictionaries are walked is left open; the results hold for every order.
- SignalEndpoints.Analyse: starts from signals, weighted edges, register sets and endpoint sets; decoding netlists, guard
  and reset analysis, cycle classification and the reports built from the results are not modelled. The single forward
  endpoint chosen by priority is left out in favour of the independent pass for every kind.
- SimplePaths.BoundedInternalDepth: beyond the limit, or when laps of the same end and visited set weigh differently, only
  "the weight of some simple path" holds, because the walk is cut off and its visited state drops the score; the sorted
  walking order is left open.
- ExpressionDepth.EstimateIsAchievable: operator costs outside the associative kinds are given numbers, and the rounded
  floating-point logarithm is replaced by the exact least k with n <= 2^k. A binary operator has two operands.
- SignalPairs.BestSignalPath: the owners and display names of the path are not modelled, nor are the filters by which
  its source and target sets are chosen.
- Crc.CrcU16: the signed variant crc16 only reinterprets its argument and has no member of its own.
- ListCells.CalcFunc: the results of the two benchmark kernels are arbitrary 16-bit values.
- ListBench.BenchList: 32-bit counters are unbounded, where MergeSort.InsizeStaysSmall shows the run length cannot
  overflow; a list has at least three cells, as every built one has.
- MergeSort.Mergesort: the empty list, which the benchmark never sorts, is a precondition.
- ListProfile.ProfileRunIff: for the seeds of the profile run and the sizes at which their indices clash first; larger
  ones have BuiltComesBack only. Sizes are below 0x8000, where 16-bit counters do not wrap.
- ListInit.InitList: items are allocated instead of being carved from a memory block; blocks too small for a tail item,
  on which the code dereferences a null pointer, are a precondition.
- StateScanner.Scan: counters are unbounded; the checksum takes their lower 32 bits, as the code's counters would wrap.
- StateBuffer.BenchState: that both scans meet a zero is a precondition; the lemmas say when generated buffers meet it.
- Divider.NonRestoringDivision: the display-only entry before the first iteration and the action texts are left out.
- AttitudeParser.ReadAttitude: the UART is a sequence of polls; resetting it and the delay between polls are not modelled.
- SeedScheduler.RunSeeds: workers do not raise, and directories, coverage merging and summaries are left out except that a
  failed merge asks for a stop. Signals fall at the moments of SeedStages.Moment: during a wait, before or after a
  look.
- SeedScheduler.ReserveRandomSeed: the random source is a given sequence of draws; when it ends the call is still drawing.
- CycleCounter.ReadMonitorCycles: that some iteration reads the same high word twice, without which the loop would not
  end, is a precondition.
- Ranking.Rank: floating-point rounding and values that do not compare are left out; sorting is by insertion.
- RankCorrelation.Spearman: the square root is any function with the property of one.
- Matrix kernels, trace converters, report writers, the simulator's window, display and bus drivers, shell commands and
  command assembly would add only plain members.
