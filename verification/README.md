# Verified models of Masa's planning and trace-analysis logic

This project models the parts of the Masa repository whose correctness is not
visible from reading one function, and proves what they promise:

- **Oracle planner** (`OraclePlan`, `Overhead`, `Calibrator`, `CallGraph`,
  `OracleValidator`, `OraclePlanner`): configurations are validated and parsed,
  execution plans are drawn, hints of remaining work are attached, and measured
  overhead is spread over later plans. The random draws and samples are
  arbitrary values, so every statement holds for every outcome.
- **Cycle check** (`CycleCheck`): the iterative three-colour search with its
  explicit stacks and overwritten parent pointers, from the edge list to the
  reported cycle.
- **Sequence mining** (`Alignment`, `Precedence`, `Layering`, `Timeline`,
  `Depths`): the alignment by dynamic programming, the precedence relation and
  its layering, the placement of timeline instances, and the breadth-first
  layers of the fallback layout.
- **Conditional variants** (`Fanout`, `VariantSpec`, `Variants`): grouping of
  sibling spans, and the counts by which variants of callers and callees are related.
- **Connection pool** (`Pool`): every interleaving of the atomic and locked steps.
- **Smaller cores** (`Csv`, `Flags`): trace rows against section 2 of RFC 4180,
  and the closure of policy flags under implication.

`Graphs`, `Names`, `Collections` and `Reals` hold shared definitions.

Code that works step by step is a method with loops, proved against a
specification; the laws of the specification are lemmas. Pure code is functions.
Objects with mutable fields are classes (`Calibrator.OnlineOverheadCalibrator`,
`OraclePlanner.OraclePlanner`).

Where the code and its intent differ, the code is modelled:

- The pool compares the value before its increment with `>`, so the limit that
  holds under races is one more than `max_size`. It counts the items that hold
  capacity; discarded items that are still to be dropped are not among them, and
  not bounded (`DiscardedUnbounded`). `BoundIsReached` gives a run that reaches that
  limit, and `LimitKeptExactly` shows that `max_size` itself is kept only when it
  is zero. It is kept when reservations do not overlap (`SeparateRunsKeepRoom`), and
  always if the load and the increment were one step (`AtomicRunsStayWithinLimit`).
- A service id that ends in a colon survives validation but is split in the wrong
  place, and planning a call of it fails. `ParseUndoesFormat` says exactly which
  names are read back, and `SafeNamesExactly` exactly which lists of names make
  every accepted configuration one whose calls are defined.
- A text field with a carriage return and nothing else special is printed without
  quotes. `LineRoundTrip` says exactly which rows read back.
- Exclusive flag groups are checked on the flags as given, not on the implied
  ones. `ClashReportedExactly` says which clashes are reported,
  `CheckIsCompleteExactly` for which matrices none is missed, namely when none is
  missed for any pair of flags, and `ImpliedClashUnreported` that the matrix of the
  repository is not one of them.
- The 0.7 threshold excludes precedence cycles of two children always, and of three
  unless enough traces lack one of them (`ThreeCycleBound`, with equality possible
  by `ThreeCycleExists`). Children that are in every trace can form cycles of four
  and more, of any length (`PresentCycleExactly`).

## Model

| member | source | states |
|---|---|---|
| `CycleCheck.ReadEdges` | trace-analysis/cycle_check.py:67-92 | The adjacency built from the rows is closed under successors, holds exactly the kept edges, and has an entry for exactly the nodes that some kept edge touches |
| `CycleCheck.KeptExactly` | trace-analysis/cycle_check.py:70-87 | Edges are exactly the rows with both names, without loops at a node if those are ignored |
| `CycleCheck.SelfLoopIsCycle` | trace-analysis/cycle_check.py:70-87 | A node that calls itself is a cycle exactly when loops are not ignored |
| `CycleCheck.EnterWhite` | trace-analysis/cycle_check.py:113-127 | Entering a white node keeps the whole search invariant: path, colours, finishing ranks, parent chain and iterator positions |
| `CycleCheck.TakeNeighbor` | trace-analysis/cycle_check.py:128-134 | Taking a neighbour that is not grey keeps the invariant, although it overwrites that neighbour's parent pointer |
| `CycleCheck.FinishNode` | trace-analysis/cycle_check.py:135-139 | Finishing a node ranks it above all of its successors and keeps the invariant |
| `CycleCheck.BackEdgeCycle` | trace-analysis/cycle_check.py:144-162 | An edge from the end of the path to a grey node closes a simple cycle |
| `CycleCheck.Reconstruct` | trace-analysis/cycle_check.py:150-162 | Following parents from the top yields the cycle that was closed, or nothing when none was; the length guard never trips |
| `CycleCheck.CheckTop` | trace-analysis/cycle_check.py:144-162 | The grey check reports a cycle exactly when an edge closed one, so a grey top that only resumes its iteration is harmless |
| `CycleCheck.FindCycle` | trace-analysis/cycle_check.py:95-170 | A cycle is reported exactly when the graph has one, and what is reported is a simple cycle that ends where it begins |
| `CycleCheck.CheckEdgeList` | trace-analysis/cycle_check.py:196-220 | From the rows to the verdict: a cycle is reported exactly when the kept rows form one |
| `Alignment.BestIsUpperBound` | trace-analysis/quickcheck.py:983-1006 | No alignment of two prefixes scores more than the recurrence gives |
| `Alignment.FillTables` | trace-analysis/quickcheck.py:966-1006 | Every cell of both tables holds the best score and the direction that attains it |
| `Alignment.FollowTraceback` | trace-analysis/quickcheck.py:1009-1034 | Following the directions yields an alignment with the score of the last cell |
| `Alignment.AlignSequencePair` | trace-analysis/quickcheck.py:950-1034 | The result has equal lengths, no column of two gaps, gives back both inputs without the gaps, and no alignment scores more |
| `Alignment.MatchScoreLaws` | trace-analysis/quickcheck.py:950-965 | A match scores the share of children common to both stages: symmetric, 1 exactly for equal non-empty stages, 0 exactly for disjoint ones |
| `Alignment.GapsCostHalf` | trace-analysis/quickcheck.py:966-1006 | The score of every alignment is its matches minus one half per gap, and the number of gaps follows from its length |
| `Alignment.BestWithItself` | trace-analysis/quickcheck.py:966-1034 | Without empty stages the only best alignment of a sequence with itself has no gaps |
| `Precedence.CountTraces` | trace-analysis/quickcheck.py:1115-1140 | The counting loops compute, for all children and pairs, the numbers of traces in which they appear, appear together, and appear in order |
| `Precedence.RatioThreshold` | trace-analysis/quickcheck.py:1149-1155 | The two float conditions of an edge amount to ten ordered co-occurrences in at least seven tenths of all |
| `Precedence.BuildEdges` | trace-analysis/quickcheck.py:1145-1155 | The edges built from the tables are exactly the precedence relation of the traces, with its ratios as weights |
| `Precedence.ThreeCycleBound` | trace-analysis/quickcheck.py:1109-1155 | In a three-cycle the traces with all three children are at most three times as many as those with exactly two, and there are some of the latter |
| `Precedence.NoShortCycle` | trace-analysis/quickcheck.py:1109-1155 | No precedence cycle has two edges, and none has three when its children are in every trace |
| `Precedence.PresentCycleExactly` | trace-analysis/quickcheck.py:1109-1155 | Children that are in every trace can form a cycle, each preceding the next, exactly when they are four or more |
| `Precedence.ThreeCycleExists` | trace-analysis/quickcheck.py:1109-1155 | The bound is sharp: with three traces of two children each, the rotations of all three may be added up to three times, giving nine traces, before the three-cycle disappears |
| `Layering.Initialize` | trace-analysis/quickcheck.py:1157-1167 | The tables start with every in-degree equal to the number of predecessors |
| `Layering.WeakestEdge` | trace-analysis/quickcheck.py:1172-1180 | An edge of least weight between remaining nodes, or none only when no edge joins remaining nodes |
| `Layering.BreakStep` | trace-analysis/quickcheck.py:1171-1189 | When no in-degree is zero a weakest edge exists and is deleted; the invariant is kept and the fallback never runs |
| `Layering.DeleteEdge` | trace-analysis/quickcheck.py:1184-1188 | Deleting an edge lowers one in-degree by exactly one, so the clamp does not act |
| `Layering.PlaceLayer` | trace-analysis/quickcheck.py:1191-1198 | Placing all nodes of in-degree zero keeps every in-degree equal to the number of surviving predecessors still remaining; no clamp acts |
| `Layering.LevelIsLongest` | trace-analysis/quickcheck.py:1169-1198 | A level with a predecessor one level below is the length of the longest path that ends there |
| `Layering.Layer` | trace-analysis/quickcheck.py:1157-1198 | The tables do no more than a game on the graph: place all nodes without remaining predecessors, or when there are none break a weakest edge between remaining nodes. The layers partition the nodes; surviving edges lead to strictly later layers; no edge is deleted exactly when there is no cycle, and then levels are longest path lengths |
| `Layering.Aggregate` | trace-analysis/quickcheck.py:1085-1210 | The whole aggregation: the stages are the layers that the game on the precedence relation leads to; every child that appears is in exactly one, with the share of the parent's traces that it appears in, which is a probability when the parent is counted in at least all the traces |
| `Layering.RatesAreProbabilities` | trace-analysis/quickcheck.py:1198-1208 | When the parent is counted in at least all the traces, what is reported lies above 0 and at most at 1, and is 1 exactly for a child of all of them |
| `Timeline.MakeInstance` | trace-analysis/quickcheck.py:2486-2513 | The instance tree repeats each method's stages except below the depth limit or a repeated method, and no key is used twice |
| `Timeline.ChainsEnd` | trace-analysis/quickcheck.py:2489-2518 | A chain of calls has at most 51 instances and repeats no method but at its end; only there is an instance cut short, every other makes all the calls of its method |
| `Timeline.AssignIntervals` | trace-analysis/quickcheck.py:2550-2579 | Every interval is at least as wide as its span, so the width clamp never acts, and the stages of an instance tile its interval in proportion to their spans |
| `Timeline.SpanIsLeast` | trace-analysis/quickcheck.py:2519-2541 | No placement in which instances and stages are at least 1 wide, stages take turns and calls lie in their stage makes an instance narrower than its span |
| `Timeline.TiledFits` | trace-analysis/quickcheck.py:2543-2580 | The assigned intervals are such a placement |
| `Timeline.LayoutNode` | trace-analysis/quickcheck.py:2591-2608 | The result is the height of the subtree, and the children of every stage are stacked without gaps from the row below their parent |
| `Timeline.Nested` | trace-analysis/quickcheck.py:2550-2579 | Everything below an instance lies within its interval and is at least 1 wide |
| `Timeline.RowsBelow` | trace-analysis/quickcheck.py:2591-2608 | A subtree takes up exactly the rows from its root to its height, and only the root is on the first |
| `Timeline.NoCollision` | trace-analysis/quickcheck.py:2550-2608 | Two different instances of a tree on one row have intervals without a common inner point |
| `Timeline.PlaceForest` | trace-analysis/quickcheck.py:2581-2613 | Roots stand side by side with a gap of one half and below each other, each wide enough for its span |
| `Timeline.RootsAreLeast` | trace-analysis/quickcheck.py:2519-2587 | Every root is drawn as narrow as any such placement allows |
| `Timeline.RootsSideBySide` | trace-analysis/quickcheck.py:2581-2587 | The first root begins at 0 and every later one half a unit after the one before has ended |
| `Timeline.DrawTimeline` | trace-analysis/quickcheck.py:2486-2613 | For any roots and sequences, no two instances of the whole drawing collide |
| `Depths.ChooseRoots` | trace-analysis/quickcheck.py:516-522 | The roots are exactly the nodes of least in-degree; there is a root if there is a node |
| `Depths.InDegreeCounts` | trace-analysis/quickcheck.py:516-522 | A graph without edges has no predecessors, and a new edge adds one to its end only |
| `Depths.PushSuccessors` | trace-analysis/quickcheck.py:529-539 | Visiting a node and appending its unvisited successors keeps the queue sorted over two layers, its entries walk lengths, and every successor of a visited node covered |
| `Depths.WalksAreLonger` | trace-analysis/quickcheck.py:525-539 | Once the queue is empty no walk from a root is shorter than the depth of its end |
| `Depths.Search` | trace-analysis/quickcheck.py:525-539 | Exactly the reachable nodes get a depth, and it is the distance from the nearest root |
| `Depths.AssignDepths` | trace-analysis/quickcheck.py:516-552 | Reachable nodes are at their distance; nodes left over are unreachable from all roots, so the second pass puts them at 0 |
| `Depths.AcyclicMeansReachable` | trace-analysis/quickcheck.py:516-552 | In an acyclic graph every node is reachable from a node without predecessors, so nothing is left over |
| `Fanout.GroupFanout` | trace-analysis/conditional_variants.py:383-399 | The loop computes the groups that the laws below are about |
| `Fanout.OverlapExactly` | trace-analysis/conditional_variants.py:371-380 | Two spans overlap exactly when both last, they meet, and their common stretch is at least the threshold's part of one of the two durations |
| `Fanout.InsideTogether` | trace-analysis/conditional_variants.py:371-399 | Of two neighbours in start order, one inside the other, both are in one group at every threshold up to 1 |
| `Fanout.NeighboursTogether` | trace-analysis/conditional_variants.py:383-399 | Neighbours in start order that overlap are in one group |
| `Fanout.ThresholdJoins` | trace-analysis/conditional_variants.py:371-399 | Children that share a group still share one when the threshold is lowered |
| `Fanout.StartOrder` | trace-analysis/conditional_variants.py:387 | Children are taken by start, then end, then method, then rpc id |
| `Fanout.MemberOrder` | trace-analysis/conditional_variants.py:395-399 | Within a group members stand by method, then rpc id |
| `Names.NameOrder` | trace-analysis/conditional_variants.py:387 | Names are compared like words: an extension comes later, otherwise the first difference decides |
| `Fanout.GroupsPartition` | trace-analysis/conditional_variants.py:383-399 | The groups partition the children |
| `Fanout.GroupsIgnoreOrder` | trace-analysis/conditional_variants.py:383-403 | With distinct rpc ids the groups, and so the signature, do not depend on the order of the input |
| `Fanout.GroupsChained` | trace-analysis/conditional_variants.py:388-396 | Every member of a group but the first overlaps an earlier member |
| `Fanout.GroupsInOrder` | trace-analysis/conditional_variants.py:387-399 | In start order the groups, put one after the other, are the children |
| `Fanout.GroupsBroken` | trace-analysis/conditional_variants.py:391-396 | The next group begins only with a child that overlaps none of the group before |
| `Fanout.GroupsDetermined` | trace-analysis/conditional_variants.py:387-399 | Order, chaining and breaks leave only one way to group a list of children |
| `Fanout.GroupsAreComponents` | trace-analysis/conditional_variants.py:371-403 | At threshold 0 with positive durations two children share a reported group exactly when overlaps link them, and earlier groups end before later ones start |
| `VariantSpec.MethodIsNotUser` | trace-analysis/conditional_variants.py:88-89 | A method name is service, two colons and interface, and never the artificial caller USER |
| `VariantSpec.ParentRpcId` | trace-analysis/conditional_variants.py:92-104 | A parent id is what stands before the last dot; so it is a proper prefix, and parent links cannot form a cycle |
| `VariantSpec.AnyListingWillDo` | trace-analysis/conditional_variants.py:475-479 | The stages of a set of siblings are the same however they are listed, so every span has one signature |
| `Variants.BuildForest` | trace-analysis/conditional_variants.py:454-467 | Every span is listed exactly once: below its parent, among the roots, or dropped because its parent is missing |
| `Variants.SignSpans` | trace-analysis/conditional_variants.py:472-481 | Every span gets the stages and the signature of its children, every variant is counted once per span that shows it, and the counts stay in balance with the transitions still to be counted |
| `Variants.AddTransitionCounts` | trace-analysis/conditional_variants.py:406-428 | Every slot counter grows by exactly the signature of the callee in that slot, if there is one; hence every slot of the variant gets one callee and every callee is counted once; the skip for a child without signature never happens |
| `Variants.CountRoots` | trace-analysis/conditional_variants.py:483-494 | A trace with roots counts one USER variant and its callees; a trace without roots changes nothing |
| `Variants.ParentCounted` | trace-analysis/conditional_variants.py:496-505 | Counting one caller settles its own occurrence and those of its children, and nothing else |
| `Variants.CountTrace` | trace-analysis/conditional_variants.py:496-505 | The counters grow by exactly what all spans contribute, and afterwards only spans with a missing parent are unaccounted for |
| `Variants.SettleOrphans` | trace-analysis/conditional_variants.py:465-467 | Spans that no caller accounts for are dropped, each counted once under its method and signature |
| `Variants.AnalyzeService` | trace-analysis/conditional_variants.py:431-505 | The counts are exactly those of the traces: every variant once per span and root list that shows it, every slot with the signatures of the callees in it. Conservation: the callee counts of every slot add up to the count of its variant, and the inflow of every variant is its count less the dropped spans that show it, which are exactly those with a missing parent; none are dropped when missing parents count as roots |
| `Variants.AnalyzeTrace` | trace-analysis/conditional_variants.py:446-505 | One trace adds exactly its variants, its transitions and its dropped spans, and conservation is kept |
| `Variants.CalleeVariantKnown` | trace-analysis/conditional_variants.py:539-556 | Every callee signature counted in a slot is a variant of the slot's target |
| `VariantSpec.SignatureOrder` | trace-analysis/conditional_variants.py:527-536 | Signatures are compared at the first stage that differs, and stages at the first name that differs |
| `Variants.AssignVariantIds` | trace-analysis/conditional_variants.py:527-536 | Every variant has an id of its own; ids count from 1, the larger count has the smaller id, and equal counts go by signature |
| `Variants.VariantDistribution` | trace-analysis/conditional_variants.py:539-556 | No callee variant is reported as unknown, each keeps its own count and its share of the total, and the shares add up to one |
| `Variants.PayloadSequence` | trace-analysis/conditional_variants.py:576-600 | The second enumeration of slots, from the signature alone, finds each slot counted exactly as often as its variant |
| `OraclePlan.EstFits` | apps/synthbench/src/oracle.rs:86-101 | Wrapping and saturating 64-bit arithmetic is exact for a plan exactly when its total is below 2 to the 64 |
| `OraclePlan.SumsWrap` | apps/synthbench/src/oracle.rs:86-101 | In general the sum over steps is taken modulo 2 to the 64, and the two additions to it stop at the largest word |
| `OraclePlan.TotalsIgnoreHints` | apps/synthbench/src/oracle.rs:71-101 | Neither total depends on the hints |
| `OraclePlan.HintsUnique` | apps/synthbench/src/oracle.rs:278-297 | Correct hints are determined by the rest of the plan |
| `OraclePlan.HintedStepsOk` | apps/synthbench/src/oracle.rs:278-297 | The backward pass makes every hint equal to the call's own total and to local work plus the largest totals of the later steps |
| `OraclePlan.RefreshHints` | apps/synthbench/src/oracle.rs:372-379 | Hints are correct at every depth and nothing but hints has changed |
| `OraclePlan.RefreshAgain` | apps/synthbench/src/oracle.rs:372-379 | Plans with correct hints, refreshed or fresh, are fixed points |
| `Overhead.LinearEst` | apps/synthbench/src/oracle.rs:86-101 | On a linear plan the estimated total is all local work plus all overheads |
| `Overhead.LinearActual` | apps/synthbench/src/oracle.rs:71-84 | The actual total of a linear plan is all its local work |
| `Overhead.OverheadShift` | apps/synthbench/src/oracle.rs:71-101 | Plans that differ only in overheads have equal actual totals, and on linear plans estimates that differ by the overheads |
| `Overhead.BranchCostsLess` | apps/synthbench/src/oracle.rs:71-101 | No choice of one call per step, at every depth, costs more than the estimate of the plan |
| `Overhead.HeaviestBranch` | apps/synthbench/src/oracle.rs:71-101 | Some such choice costs as much, so the estimate is the cost of the heaviest branch |
| `Overhead.CountIsFlatLength` | apps/synthbench/src/oracle.rs:406-412 | Calls are counted once each, as the preorder walk meets them |
| `Overhead.AddOverheadToLastCall` | apps/synthbench/src/oracle.rs:381-393 | Only the last call in preorder changes, by exactly the overhead; without calls nothing does |
| `Overhead.AddOverheadInner` | apps/synthbench/src/oracle.rs:414-430 | In preorder the first calls get one more than the rest, until the remainder is used up |
| `Overhead.SumBump` | apps/synthbench/src/oracle.rs:414-430 | The shares add up to the per-call share times the number of calls plus the remainder |
| `Overhead.AddOverheadUniformly` | apps/synthbench/src/oracle.rs:395-404 | Shares differ by at most one and add up to exactly the overhead; without calls nothing changes |
| `Calibrator.AverageBetween` | apps/synthbench/src/oracle.rs:334-369 | Stored and rounded overhead stay between the least and the greatest clipped sample |
| `Calibrator.AverageRespectsMaximum` | apps/synthbench/src/oracle.rs:339-369 | What is reported never exceeds a configured maximum, also after rounding |
| `Calibrator.ClipLaws` | apps/synthbench/src/oracle.rs:339-343 | Samples count as they are up to a configured maximum, and as that maximum beyond it |
| `Calibrator.RoundNearest` | apps/synthbench/src/oracle.rs:361-369 | The reported value is the nearest natural, halves rounded up |
| `Calibrator.AverageMoves` | apps/synthbench/src/oracle.rs:339-358 | The first sample is taken as it is; a later one is blended in with weight alpha, the old average keeping one minus alpha |
| `Calibrator.ExtremeFactors` | apps/synthbench/src/oracle.rs:339-358 | A factor of one or more keeps only the last sample; the factor is zero, and nothing is recorded, exactly when it is configured as zero or less |
| `Calibrator.ErrorShrinks` | apps/synthbench/src/oracle.rs:353-358 | Under a constant sample the error is multiplied by one minus alpha per step |
| `Calibrator.ReportedOverheadSettles` | apps/synthbench/src/oracle.rs:353-369 | After finitely many equal samples the reported overhead is that sample for good |
| `Calibrator.OnlineOverheadCalibrator.Record` | apps/synthbench/src/oracle.rs:334-359 | The stored map stays the average of all samples recorded so far per entry point; other entry points are untouched |
| `Calibrator.OnlineOverheadCalibrator.Apply` | apps/synthbench/src/oracle.rs:313-332 | Actual work is unchanged, hints stay correct, the overheads are raised as the placement says, and a linear plan with calls rises by exactly the current overhead |
| `Calibrator.OnlineOverheadCalibrator.ReportedBetween` | apps/synthbench/src/oracle.rs:361-369 | The overhead put on new plans lies within the range of the clipped samples of its entry point |
| `Calibrator.OnlineOverheadCalibrator.RecordLatency` | apps/synthbench/src/oracle.rs:194-202 | A finished request records what it took beyond the actual work of its plan, never less than nothing |
| `Calibrator.ExcessLaws` | apps/synthbench/src/oracle.rs:194-202 | The observed overhead and the actual work add up to the latency, unless it was shorter |
| `CallGraph.FormatUndoesParse` | apps/synthbench/src/config.rs:135-147 | Formatting a parsed target gives the text back |
| `CallGraph.ParseUndoesFormat` | apps/synthbench/src/config.rs:135-155 | Parsing a formatted target gives it back exactly when neither name holds a separator and the service id does not end in a colon |
| `CallGraph.MisleadingName` | apps/synthbench/src/config.rs:135-155 | A service id with a trailing colon is parsed as another target |
| `CallGraph.ValidateCallGraph` | apps/synthbench/src/config.rs:150-203 | Accepts exactly the configurations with entry points named a or b whose targets, everywhere, are defined |
| `CallGraph.ParseCallSequences` | apps/synthbench/src/config.rs:206-246 | Succeeds exactly when the configuration is valid and every target parses, and then every entry point and every definition is its raw form parsed |
| `CallGraph.ParseUnique` | apps/synthbench/src/config.rs:206-246 | A configuration has one parse |
| `CallGraph.TableKeys` | apps/synthbench/src/oracle.rs:165-171 | The table of methods holds exactly the methods that have a definition |
| `CallGraph.LastDefinitionWins` | apps/synthbench/src/oracle.rs:165-171 | For a method that is defined several times the table holds the last definition |
| `OracleValidator.ValidateAcyclic` | apps/synthbench/src/oracle.rs:482-516 | Success ranks everything reachable and restores the visiting set; failure names a method that lies on a cycle, or a missing method |
| `OracleValidator.ValidateAllAcyclic` | apps/synthbench/src/oracle.rs:450-456 | Succeeds exactly when the call graph has no cycle and every called method is defined |
| `OracleValidator.ValidateSequenceShape` | apps/synthbench/src/oracle.rs:459-480 | Accepts exactly steps of at most one call with probabilities between 0 and 1 |
| `OracleValidator.ValidateSupportedCallGraph` | apps/synthbench/src/oracle.rs:432-457 | Accepts exactly the configurations in which every definition, replaced or not, has a linear shape, and the table of methods has no cycle and no missing method |
| `OraclePlanner.PlanMethod` | apps/synthbench/src/oracle.rs:204-233 | The visiting set is restored on success, the plan follows the method with correct hints, and in a ranked graph planning cannot fail |
| `OraclePlanner.ShouldMakeCall` | apps/synthbench/src/oracle.rs:274-276 | A call is made exactly when a number drawn from 0 up to 1 lies below its probability |
| `OraclePlanner.PlanSequence` | apps/synthbench/src/oracle.rs:235-271 | Every planned step is empty or plans the step's first call, and makes it exactly when the number drawn lies below its probability; the result is linear with correct hints |
| `OraclePlanner.DefaultOverhead` | apps/synthbench/src/config.rs:59-75 | Without configuration a method has no overhead, and raising the default raises every method's |
| `OraclePlanner.ServiceOverhead` | apps/synthbench/src/config.rs:59-75 | Raising the entry of a service raises exactly the overheads of its methods |
| `OraclePlanner.MethodOverhead` | apps/synthbench/src/config.rs:59-75 | Raising the entry of a method raises its overhead and that of no other method whose name is read back |
| `OraclePlanner.DrawnEstimate` | apps/synthbench/src/oracle.rs:204-271 | The estimate of a drawn plan exceeds its actual work by the configured overheads of the calls it makes |
| `OraclePlanner.OraclePlanner.PlanEntryPoint` | apps/synthbench/src/oracle.rs:181-192 | Fails only for unknown entry points or missing targets; the plan has correct hints and exceeds a freshly drawn one by the current overhead |
| `OraclePlanner.ParsedTargetsDefined` | apps/synthbench/src/config.rs:150-240 | With safe names every parsed target of a valid configuration is a defined method |
| `OraclePlanner.WellNamedIsSafe` | apps/synthbench/src/config.rs:135-155 | Names that are all read back unchanged are safe |
| `OraclePlanner.SafeNamesExactly` | apps/synthbench/src/config.rs:135-240 | Every accepted configuration with the given method names has all first calls of its entry points defined exactly when each name, formatted, parses as one of the names or not at all |
| `OraclePlanner.MisreadCallAccepted` | apps/synthbench/src/config.rs:135-155 | Otherwise a configuration with that name passes validation and loading, and a sure call of it has no plan |
| `OraclePlanner.TrailingColonIsUnsafe` | apps/synthbench/src/config.rs:135-155 | A service id with a trailing colon makes such a name |
| `OraclePlanner.Load` | apps/synthbench/src/oracle.rs:159-179 | A planner is made exactly when the configuration is valid, parses, and its parse is supported; it holds the parsed entry points and the table of methods |
| `OraclePlanner.PlanAnyEntryPoint` | apps/synthbench/src/oracle.rs:159-192 | Acceptance is decided exactly by those conditions; every entry point of an accepted configuration with safe names is planned without error, whatever is drawn, and a first plan follows the parsed call graph |
| `Pool.NextKeepsInv` | apps/app-utils/src/pool.rs:35-106 | Every step keeps the accounting of `size`, the bound and the separation of items, and no subtraction underflows |
| `Pool.RunsAreSafe` | apps/app-utils/src/pool.rs:35-182 | The same over every interleaving from any good state, whatever the relaxed loads observe |
| `Pool.PoolIsSafe` | apps/app-utils/src/pool.rs:25-182 | From an empty pool `size` is idle items plus reservations, the items that hold capacity stay within one above the limit, and no item is idle twice, owned twice, or both |
| `Pool.BoundIsReached` | apps/app-utils/src/pool.rs:49-63 | For every positive limit a run with accurate loads reaches one item above it |
| `Pool.LimitKeptExactly` | apps/app-utils/src/pool.rs:35-182 | All runs keep the limit itself exactly when it is zero |
| `Pool.DiscardedUnbounded` | apps/app-utils/src/pool.rs:150-182 | Discarded items give their capacity back before they are dropped, so any number of them can exist at once, for every positive limit |
| `Pool.SeparateRunsKeepRoom` | apps/app-utils/src/pool.rs:35-106 | When loads are accurate and nobody loads between another's load and reservation, every run keeps `size` and the items that hold capacity within the limit itself |
| `Pool.SeparatePoolKeepsLimit` | apps/app-utils/src/pool.rs:35-106 | In particular from an empty pool, as for callers that come one after the other |
| `Pool.OneWay` | apps/app-utils/src/pool.rs:35-85 | A caller without an item has exactly one next step in every place, in the order of the code |
| `Pool.CallAlone` | apps/app-utils/src/pool.rs:35-85 | An uninterrupted call takes the item that has been idle longest, or makes one if there is room, or waits |
| `Pool.WaiterServed` | apps/app-utils/src/pool.rs:72-85 | A waiting caller takes the item that has been idle longest as soon as it sees one |
| `Pool.UnluckyCall` | apps/app-utils/src/pool.rs:49-63 | A reservation past the limit is taken back and the caller waits |
| `Pool.GuardDropped` | apps/app-utils/src/pool.rs:87-106 | A dropped guard puts its item behind the idle ones; a discarded one gives up capacity and item |
| `Pool.AtomicRunsStayWithinLimit` | apps/app-utils/src/pool.rs:49-63 | With load and increment as one step the limit itself is kept |
| `Pool.AtomicPoolKeepsLimit` | apps/app-utils/src/pool.rs:49-63 | So with one step the pool keeps its limit from the start |
| `Csv.ToCsvRow` | apps/app-utils/src/load_gen.rs:351-385 | The row is the ten generic fields and the expected number of metrics between commas; a record with too many metrics is refused |
| `Csv.DecimalValue` | apps/app-utils/src/load_gen.rs:352-364 | Printed numbers denote the number printed |
| `Csv.DecimalDigits` | apps/app-utils/src/load_gen.rs:352-364 | Numbers are printed in digits only, without leading zeros |
| `Csv.ReadEscaped` | apps/app-utils/src/load_gen.rs:387-393 | An escaped field is read back unchanged unless it holds a carriage return and nothing that would quote it |
| `Csv.QuotedExactly` | apps/app-utils/src/load_gen.rs:387-393 | A quoted field is read in exactly one way: its text with quotes doubled, up to a quote that no quote follows |
| `Csv.RawFieldRoundTrip` | apps/app-utils/src/load_gen.rs:352-354 | The unescaped first field is read back exactly when it holds nothing special |
| `Csv.LineRoundTrip` | apps/app-utils/src/load_gen.rs:351-393 | A row decodes to its 10 + n values exactly when `api` is plain and no text field has a bare carriage return |
| `Csv.RecordRoundTrip` | apps/app-utils/src/load_gen.rs:351-393 | A row that is read back gives every value of its record in its place, and empty metrics behind |
| `Flags.ExpandImpliedFlags` | scripts/validate_policy_matrix.py:64-76 | Terminates with the least superset that is closed under implication |
| `Flags.ClosureLaws` | scripts/validate_policy_matrix.py:64-76 | The expansion is unique, monotone and idempotent |
| `Flags.ClosureOfSingles` | scripts/validate_policy_matrix.py:64-76 | Whatever a set of flags implies is implied by one of them |
| `Flags.ValidateComboList` | scripts/validate_policy_matrix.py:133-160 | Errors are exactly the unknown flags and the exclusive groups chosen twice; an unsatisfied implication is never reported |
| `Flags.ClashReportedExactly` | scripts/validate_policy_matrix.py:154-160 | A group is reported exactly when two flags of the combination as given are in it, whatever the flags imply |
| `Flags.AcceptedExactly` | scripts/validate_policy_matrix.py:141-160 | Nothing is reported about a combination exactly when its flags are known and no two of them, as given, share a group |
| `Flags.PairsDecideClash` | scripts/validate_policy_matrix.py:133-160 | A combination is free of clashes by implication exactly when each pair of its flags is |
| `Flags.CheckIsCompleteExactly` | scripts/validate_policy_matrix.py:133-160 | For a matrix the check misses no clash of any combination exactly when it misses none of a pair of flags |
| `Flags.ImpliedClashUnreported` | policy_matrix.toml:1-39 | With the flags, implications and groups of this matrix the combination of `sched_fifo` and `sched_mt` is accepted, although `sched_mt` implies `sched_slo`, which excludes `sched_fifo` |

## Left out

- `clamp_child_spans` (conditional_variants.py:352-368): it does not keep children within parents in general. Span times at grouping are arbitrary, so the results hold for whatever it leaves.
- Progress and fairness of pool waiters, and factories that are cancelled: safety only. `size` is unbounded, so overflow of the counter is not modelled.
- `Pool.RunsAreSafe`: a relaxed load may observe any value; the memory model itself is not part of this model.
- Work in microseconds is a natural number. `OraclePlan.EstFits` and `OraclePlan.SumsWrap` cover the estimated totals in 64 bits; saturation of the other sums, where a total does not fit, is not modelled.
- Ratios, averages and timeline positions are exact reals: float rounding and NaN are not modelled.
- Plan trees and visiting sets are passed and returned as values where the source changes them through a mutable borrow; a borrow has no aliases, so only the update in place is lost. The same holds for the dictionaries of the Python scripts.
- `OraclePlanner.PlanMethod`: latency distributions and the random generator are replaced by arbitrary values.
- `CallGraph.ParseCallSequences`: services are flattened to one list of methods with their service ids. Error values carry the offending names, not the message texts.
- `OracleValidator.ValidateSupportedCallGraph`: hash maps are visited in any order, so which of several errors is reported is not stated.
- `Layering.Layer`: among several weakest edges any may be deleted, where the source takes the first in insertion order. No claim is made that a deleted edge lies on a cycle.
- `Layering.Aggregate`: an empty list of sequences and its early return coincide with the general case.
- `Timeline.MakeInstance`: the children of a stage are given in drawing order; sorting them by probability, the table of computed spans and the guard against re-entry are omitted, since spans of a finite tree are a function of it. Display insets, labels and figure sizes are omitted.
- `Depths.AssignDepths`: the shortest-path query of the graph library is a parameter that answers correctly. The Graphviz layout and the positions within a layer are omitted.
- `VariantSpec.ParentRpcId`: missing values and the stripping of blanks, which happen while spans are read, are omitted.
- `Variants.AssignVariantIds`: ids are numbers, without their three-digit text. The occurrence counts per method and the probabilities of variants derived from them are omitted.
- `Variants.AnalyzeService`: statistics of rows and traces are omitted.
- `CycleCheck.ReadEdges`: opening the file, the header, delimiter sniffing and the stripping of blanks are omitted; rows are pairs of names.
- `Csv.ReadEscaped`: text data is any character but a comma, a quote, a carriage return and a line feed, where RFC 4180 lists printable ASCII only.
- `Flags.ValidateComboList`: combinations are sets of flags; splitting them at commas, the message texts and the order of messages are omitted.
- Plan and hint headers, metadata, network connections, the experiment runner, plotting, pandas loading and percentiles: plumbing over libraries.
- `simulate_work`, strong types, `policy.py` and `bench_compare.py`: they would only add easy members.
