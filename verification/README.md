# Verified core of GQLite

GQLite is an embedded graph database. This project models the self-contained algorithms inside it in Dafny and proves
what they are for: the assignment solver, the A* walk over the in-memory graph, the script compiler with its stack
machine, the geohash neighbour tables, the Unicode converters, the argument scanner, the virtual network with the HNSW
degree bound on top of it, and the codecs of keys, binaries and posting lists.

| file | module | models |
|---|---|---|
| Basics.dfy | Basics | shared types |
| Hungarian.dfy | Assignment | `HungorianAlgorithm::solve` and its helpers |
| HungarianLimits.dfy | AssignmentLimits | when the solver ends and when it finds an assignment |
| GraphModel.dfy | GraphModel | the graph: nodes, edges, `visit`, `neighbors` |
| AStarWalk.dfy | AStarWalk | `GAStarWalk`, `stand`, `IAStarHeuristic` |
| SortedLists.dfy | SortedLists | sorted containers: insertion, removal, intersection |
| VirtualNetwork.dfy | VirtualNetwork | node and edge updates and look-ups |
| Hnsw.dfy | Hnsw | linking and degree clipping of the vector index |
| GValue.dfy, GCompiler.dfy, GMachine.dfy, GCorrect.dfy | same names | script values, code generation, the machine, and the correctness of the one with respect to the other |
| GScopes.dfy, GScript.dfy | same names | which scripts compile; scripts end to end, and numeric ones against real arithmetic |
| GeoHash.dfy | GeoHash | `getNeighbor` and its tables |
| Transcoding.dfy, ConvertUtf.dfy, ConvertUtfLaws.dfy, ConvertUtfErrors.dfy | same names | the six converters: their common loop, their characters, their laws, and where they stop at an error |
| Getopt.dfy | Getopt | `getopt` with permuted arguments |
| Base64.dfy, EdgeId.dfy, PostingList.dfy | same names | base64 text, packed edge keys, posting lists |

Code that changes state is a class or a method on arrays and is proved against a function of its inputs; what the code
promises is then proved about that function. Doubles are `real`, and an infinite matrix entry is a constructor of its
own. Code units of the converters are bit vectors. Where the source leaves its behaviour undefined (an index of -1, a
null pointer minus a pointer, a read past a buffer) a model returns `None`, reports an error of its own, or requires
what the caller has to ensure. There is one exception: a sum or difference of ints that leaves their range, undefined in
C++, is `Wrap32`, two's complement wrap-around, as common compilers produce it.

## Where the code and its promises differ

Each of these is a lemma.

- The assignment solver does not always end. It ends on every input of a size exactly for sizes up to six
  (`EndsExactlyUpToSix`). The inputs are all matrices whose entries are whole multiples of some unit, as all doubles are.
  Up to six every row and column keeps a zero through all rounds (`RoundStaysFull`), so every round strikes both axes,
  and such rounds cannot go on longer than the total lasts (`BothAxesEnds`, which holds for every size). From seven on
  `EndlessFromSeven` has an input of each size on which the solver runs for ever, because a round that strikes every
  column but one and no row is undone by the next (`ColumnRoundIsUndone`, `TwoCycleNeverStops`). Among runs of these
  two kinds of rounds, of every size, exactly those end that strike both axes in every round (`EndsExactlyOnBothAxes`).
  Open is, from size seven on, what becomes of a round that strikes fewer columns and no row, or rows and no column.
- It need not find an assignment when it ends, since the greedy cover may strike more lines than needed; the source then
  advances an iterator past the end of an empty list. It finds one on every input of a size exactly for sizes up to
  three (`FindsExactlyUpToThree`); from four on `UnmatchedFromFour` has an input of each size on which it stops at once
  with none. For a single input of any size, it finds one exactly if the zeros of some matrix it passes through admit
  one, and the first of these stops it (`MatchesExactly`, `FirstAssignableStops`); if those of the reduced input do, one
  pass is enough (`ReducedAssignable`). A matching that is returned is always a cheapest one (`Solve`).
- A node at which a one-way edge ends is listed as its own neighbour (`NeighborsExactly`).
- `stand` ignores the node it is asked for (`Walker.Stand`), and the walk's loop condition compares the visited nodes
  with the number of nodes and edges together.
- In the script compiler an initialiser that names the variable it declares reads a slot that is not on the stack yet.
  `DeclaredSlots` states that names sit in their own slots exactly if the new name is not among them;
  `SelfReferenceReadsStaleSlot` is a program that goes wrong.
- The two code generators build different constants. On a numeric expression they compute the same number, or fail
  alike, for the expression and all its parts exactly if no integer sum or difference overflows (`AgreeExactly`).
- An exception in a script leaves its frame counted. When a later script succeeds, the machine is not done: the code
  that failed goes on behind the point where it failed, with the script's result for its stack (`RunsOwnCodeExactly`: a
  script runs its own code only, exactly if no frame was counted or it fails itself). `CountedFrameAnswers` shows that
  the answer can be that of the earlier script. When 64 frames are counted, the exception for that leaves `interpret`.
- `isLegalUTF8` gives the second byte after the leads ED and F4 no lower bound. `LegalExactly` says what it accepts,
  `IllegalAccepted` gives a family of malformed strings that are converted without an error, and `AcceptsExactly`
  with `AcceptedIsWellFormed` says on which strings success means well-formed. The header of the converters promises
  an error for every illegal sequence.
- The header of the converters promises that the source pointer is left at the illegal value. The four decoders keep
  that always (`DecodersPointAtFault8`, `DecodersPointAtFault16`). The encoders from UTF-32 go on past a value above
  0x10FFFF and report it at the end: a call that reports an illegal value keeps the promise exactly if it took no such
  value, and all calls on a source keep it exactly if none stands before its first surrogate, or none at all with the
  lenient flag (`EncodersPointAtFault`; `LargeIsPassedOver` has an input). The lenient encoder to UTF-16 reports no
  such value at all, though the header promises an error for each (`EncodersReport`). A call that fills its target
  forgets that it passed one (`FreshRestart`).
- `getopt` called again after it returned -1 reads what followed "--" as options (`NextAfterEnd`).
- `deleteEdge` of an unknown edge makes records for it and for node 0 (`Network.DeleteEdge`).
- An edge key keeps only the remainder by sixteen of a long first endpoint: `SameKeyExactly`.
- An empty id that is inserted first is lost from a posting list: `KeptExactly`. Splitting undoes merging exactly for
  lists that do not end in an empty string: `SplitUndoesMerge`.

## Model

| member | source | states |
|---|---|---|
| Assignment.SortIndexesSorts | src/operand/algorithms/Hungarian.cpp:34-41 | the index list is a permutation of the indexes in stable descending order |
| Assignment.FirstIsLargest | src/operand/algorithms/Hungarian.cpp:135-141 | the index the solver takes is the smallest one of a largest count |
| Assignment.ReduceKeeps | src/operand/algorithms/Hungarian.cpp:102-108 | reduction leaves no negative entry, puts a zero in every row and column, and only subtracts a row plus a column potential |
| Assignment.PickIsLive | src/operand/algorithms/Hungarian.cpp:140-156 | while a zero is left, the line picked is one that still holds a zero, so the covering loop ends |
| Assignment.CoverIsProper | src/operand/algorithms/Hungarian.cpp:121-161 | the covering loop strikes no line twice, and at its end every zero lies on a struck line |
| Assignment.CountZeros | src/operand/algorithms/Hungarian.cpp:122-133 | the loops count the zeros of every row and column |
| Assignment.StrikePicked | src/operand/algorithms/Hungarian.cpp:134-157 | one pass strikes the picked line in all four work matrices |
| Assignment.CoverZeros | src/operand/algorithms/Hungarian.cpp:116-161 | the loop ends, and its work matrices record exactly the struck lines and their crossings |
| Assignment.UncoveredCell | src/operand/algorithms/Hungarian.cpp:162-168 | fewer than n distinct lines leave a cell uncovered, so the minimum is taken over something |
| Assignment.MinimumIsPositive | src/operand/algorithms/Hungarian.cpp:168-168 | the minimum of a round is strictly positive and finite |
| Assignment.LargestIsMostCrossings | src/operand/algorithms/Hungarian.cpp:169-183 | the largest entry of the crossing matrix is 2 exactly if rows and columns were both struck, else 1 |
| Assignment.NextMatrix | src/operand/algorithms/Hungarian.cpp:168-188 | the matrix assembled from the work matrices is the adjustment of the old one by the least uncovered entry |
| Assignment.AdjustIsShift | src/operand/algorithms/Hungarian.cpp:176-188 | entry by entry, the adjustment is a row shift plus a column shift |
| Assignment.RoundKeeps | src/operand/algorithms/Hungarian.cpp:112-192 | a round keeps the matrix free of negative entries, keeps a zero, and differs by a row plus a column potential |
| Assignment.FullLinesStrikeBothAxes | src/operand/algorithms/Hungarian.cpp:112-167 | while every row and column holds a zero, fewer than n lines are not all rows or all columns |
| Assignment.RoundDropsTotal | src/operand/algorithms/Hungarian.cpp:168-188 | when both were struck the matrix total drops by exactly minimum * n * (n - lines) |
| Assignment.FindNew | src/operand/algorithms/Hungarian.cpp:48-71 | the search succeeds exactly if the zeros of the remaining rows admit an assignment to distinct unused columns, and pushes one, in row order |
| Assignment.ZeroAssignmentIsCheapest | src/operand/algorithms/Hungarian.cpp:102-205 | weak duality: a zero assignment of a shifted non-negative matrix is a cheapest permutation of the input |
| Assignment.SumAtSameElements | src/operand/algorithms/Hungarian.cpp:102-192 | a column potential adds the same to every permutation |
| Assignment.PassesKeep | src/operand/algorithms/Hungarian.cpp:112-192 | after any number of rounds the matrix is non-negative and the input shifted by potentials |
| Assignment.CompletedIsCheapest | src/operand/algorithms/Hungarian.cpp:197-200 | the pairs of a completed search are a cheapest permutation in row order |
| Assignment.Solve | src/operand/algorithms/Hungarian.cpp:80-205 | for every square input and number of rounds: when it stops, what it matches, and that a match is a cheapest permutation |
| Assignment.SolveWeight | src/operand/algorithms/Hungarian.cpp:207-217 | the weight is the least total of all permutations whenever there is a match |
| Assignment.ColumnRoundIsUndone | src/operand/algorithms/Hungarian.cpp:162-192 | a round that strikes all columns but one and no row is undone by the next |
| Assignment.TwoCycleNeverStops | src/operand/algorithms/Hungarian.cpp:112-192 | two rounds that undo each other go on for ever |
| AssignmentLimits.AssignmentStopsRound | src/operand/algorithms/Hungarian.cpp:162-167 | zeros that admit an assignment need at least n lines, so the round breaks out |
| AssignmentLimits.FirstAssignableStops | src/operand/algorithms/Hungarian.cpp:112-200 | the first matrix of a run whose zeros admit an assignment stops it |
| AssignmentLimits.MatchesExactly | src/operand/algorithms/Hungarian.cpp:112-200 | a run finds an assignment exactly if the zeros of some matrix it passes through admit one |
| AssignmentLimits.ReducedAssignable | src/operand/algorithms/Hungarian.cpp:102-200 | if the zeros of the reduced input admit an assignment, one pass gives a cheapest permutation |
| AssignmentLimits.RoundDropsUnits | src/operand/algorithms/Hungarian.cpp:168-188 | a round that strikes both axes takes at least n units off the total |
| AssignmentLimits.BothAxesEnds | src/operand/algorithms/Hungarian.cpp:112-192 | for every size, rounds that strike both axes end once n units a round exceed the total |
| AssignmentLimits.EndsExactlyOnBothAxes | src/operand/algorithms/Hungarian.cpp:112-192 | for every size, runs whose rounds strike both axes, or all columns but one and no row, end exactly if all strike both axes |
| AssignmentLimits.PickIsFullest | src/operand/algorithms/Hungarian.cpp:134-157 | the picked line holds the most zeros, and a row is picked only if it holds more than every column |
| AssignmentLimits.LosingColumnNeedsSeven | src/operand/algorithms/Hungarian.cpp:112-188 | a struck column all of whose zeros are crossed again exists only from size seven on |
| AssignmentLimits.LosingRowNeedsSeven | src/operand/algorithms/Hungarian.cpp:112-188 | so does such a row |
| AssignmentLimits.RoundStaysFull | src/operand/algorithms/Hungarian.cpp:112-192 | up to size six a round leaves a zero in every row and column |
| AssignmentLimits.EndsUpToSix | src/operand/algorithms/Hungarian.cpp:102-205 | up to size six the solver ends on every input |
| AssignmentLimits.PaddedCover | src/operand/algorithms/Hungarian.cpp:121-161 | a grid of zeros set into a larger one with a diagonal is covered like the smaller one, then along the diagonal |
| AssignmentLimits.EndlessFromSeven | src/operand/algorithms/Hungarian.cpp:102-192 | from size seven on there is an input on which the solver is still running after any number of rounds |
| AssignmentLimits.EndsExactlyUpToSix | src/operand/algorithms/Hungarian.cpp:80-205 | the solver ends on all inputs of a size exactly if the size is at most six |
| AssignmentLimits.CrossCover | src/operand/algorithms/Hungarian.cpp:121-161 | zeros in the shape of a cross are covered by its two lines |
| AssignmentLimits.StopsAssignable | src/operand/algorithms/Hungarian.cpp:162-200 | up to size three the zeros a run stops on admit an assignment |
| AssignmentLimits.StopsAtOnce | src/operand/algorithms/Hungarian.cpp:102-200 | on sizes one and two the first pass stops, with an assignment |
| AssignmentLimits.UnmatchedFromFour | src/operand/algorithms/Hungarian.cpp:102-200 | from size four on there is an input on which the solver stops at once where no zero assignment exists |
| AssignmentLimits.FindsExactlyUpToThree | src/operand/algorithms/Hungarian.cpp:80-205 | the solver finds an assignment for all inputs of a size exactly if the size is at most three |
| GraphModel.GMap.Visit | include/base/parallel/GraphModel.h:59-66 | sets the visit mark of a known node and nothing else |
| GraphModel.OffersExactly | include/base/parallel/GraphModel.h:101-110 | what a list of edges gives: the end of each undeleted edge, or its start where it is two-way and ends at the node |
| GraphModel.GMap.Neighbors | include/base/parallel/GraphModel.h:96-121 | adds exactly those ends of the undeleted edges of a layer; reports failure exactly if the set stays empty, and then holds every other node |
| AStarWalk.Heuristic.Success | include/walk/AStarWalk.h:116-122 | stores the path exactly if it ends at the target |
| AStarWalk.Walker.Stand | src/walk/AStarWalk.cpp:4-12 | the queue starts at the smallest node whatever node is asked for, and the walk's invariant holds |
| AStarWalk.CostPlusHeuristicRises | include/walk/AStarWalk.h:64-67 | with a consistent heuristic, cost plus heuristic never falls along a walk |
| AStarWalk.TopIsCheapest | include/walk/AStarWalk.h:47-48 | the path on top of the queue is a cheapest walk to its last node, if that is not closed |
| AStarWalk.PopKeepsInvariant | include/walk/AStarWalk.h:49-76 | a pop and its pushes keep the queued paths simple, correctly priced and closed on the frontier |
| AStarWalk.PopKeepsFrontier | include/walk/AStarWalk.h:49-76 | every open neighbour of a closed node stays queued at a best price through closed nodes |
| AStarWalk.ExtendedIsQueued | include/walk/AStarWalk.h:59-69 | a path extended to an open neighbour is again simple and correctly priced |
| AStarWalk.QueuedIsShort | include/walk/AStarWalk.h:54-70 | a queued path holds at most every node, and one less while it can grow |
| AStarWalk.ExtensionsWeighLess | include/walk/AStarWalk.h:42-77 | replacing a path by all its extensions lowers a weighted sum over path lengths |
| AStarWalk.PushingEnds | include/walk/AStarWalk.h:58-76 | after the pushes the invariant holds and the queue weighs less, although duplicates are expanded again |
| AStarWalk.ReachableTargetWaits | include/walk/AStarWalk.h:77-77 | the queue is not empty as long as the target can be reached |
| AStarWalk.NothingWaits | include/walk/AStarWalk.h:77-78 | when the loop ends, no walk leads from the start to the target |
| AStarWalk.Walker.PushNeighbor | include/walk/AStarWalk.h:62-74 | pushes exactly the extended path, or reports a node that is not loaded |
| AStarWalk.Walker.Expand | include/walk/AStarWalk.h:49-76 | closes the node, keeps the invariant and lowers the queue's weight; fails only if an edge leads out of the graph |
| AStarWalk.WalksArePaths | include/walk/AStarWalk.h:58-60 | in a network whose lists agree with its edges, the walks of the search are those along live edges, with their directions |
| AStarWalk.Walker.Walk | include/walk/AStarWalk.h:40-79 | ends on every graph; a stop gives a simple path from start to target along the edges, cheapest if the heuristic is consistent; a result of 0 means that no path along the edges leads there |
| SortedLists.InsertedIsSorted | include/gutil.h:79-86 | insertion keeps a list strictly sorted and adds exactly the element |
| SortedLists.AddUniqueDataAndSort | include/gutil.h:79-86 | the container ends up as the sorted insertion says, and the result reports presence |
| SortedLists.FilteredIsSorted | src/VirtualNetwork.cpp:96-98 | removal keeps a list strictly sorted |
| SortedLists.Intersect | src/VirtualNetwork.cpp:173-173 | the intersection of sorted lists is sorted and holds exactly the common elements |
| VirtualNetwork.EnteringKeepsIndex | src/VirtualNetwork.cpp:72-86 | entering an edge keeps the lists in agreement with the live edges exactly if its id is fresh or already stands for that edge |
| VirtualNetwork.TwoWayKeepsIndex | src/VirtualNetwork.cpp:66-70 | making an edge two-way keeps them in agreement |
| VirtualNetwork.DroppingKeepsIndex | src/VirtualNetwork.cpp:90-116 | dropping or marking an edge keeps them in agreement |
| VirtualNetwork.SharedJoins | src/VirtualNetwork.cpp:167-177 | for distinct nodes, the edges in both lists are exactly the live ones joining them |
| VirtualNetwork.NeighborsExactly | src/VirtualNetwork.cpp:130-133 | the neighbours are exactly the nodes to which a live edge of the layer leads: along it, back along a two-way one, or from the end of a one-way one to itself |
| VirtualNetwork.Network.Neighbors | src/VirtualNetwork.cpp:130-133 | the call adds exactly these |
| VirtualNetwork.Network.AddNode | src/VirtualNetwork.cpp:17-39 | adds an unconnected node unless it is known; the lists stay in agreement |
| VirtualNetwork.Network.AddEdge | src/VirtualNetwork.cpp:59-88 | all three outcomes, the fields of the record that is left, and that the lists stay in agreement exactly for a reverse edge or a storable id |
| VirtualNetwork.Network.EraseEdgeFrom | src/VirtualNetwork.cpp:93-103 | takes the edge out of the one list of the node that holds it |
| VirtualNetwork.Network.DeleteEdge | src/VirtualNetwork.cpp:90-116 | takes the edge out of every list and out of the live edges, and makes the blank records the source makes of an unknown one; the fields of the record where it is kept; the lists stay in agreement |
| VirtualNetwork.Network.GetEdgeID | src/VirtualNetwork.cpp:167-177 | finds a live edge joining two distinct nodes exactly if there is one: the smallest id on the highest layer |
| VirtualNetwork.Network.NeighborEdges | src/VirtualNetwork.cpp:135-140 | gives exactly the live edges of the node on that layer |
| Hnsw.LinkedBothWays | src/VirtualNetwork.cpp:65-71 | being linked is symmetric where every edge is two-way |
| Hnsw.FreshIsLinked | src/operand/query/HNSW.cpp:251-252 | right after the first insertion the reverse one finds the nodes linked, so it only makes the edge two-way |
| Hnsw.ClippedHasRoom | src/operand/query/HNSW.cpp:330-351 | a clipped node has room for one more edge, and no other degree grows |
| Hnsw.Index.ClipEdgeThenKeepNeighborSize | src/operand/query/HNSW.cpp:330-351 | a full node loses exactly one edge, of maximal stored distance; otherwise nothing changes |
| Hnsw.Index.Link | src/operand/query/HNSW.cpp:251-252 | the two insertions leave one two-way edge, or nothing new if the nodes were linked |
| Hnsw.Index.Connect | src/operand/query/HNSW.cpp:248-252 | clipping both ends and linking keeps every degree below M; of the edges exactly a farthest one at each full end is gone, and exactly the new two-way edge is there unless the nodes were joined still |
| Hnsw.Index.Insert | src/operand/query/HNSW.cpp:376-389 | inserting a node with any choice of neighbours on any layers keeps the index valid and joins it to the choices one after the other; afterwards it is joined to the last choice of every layer, every new edge is one of its own, and the other layers are as they were |
| Hnsw.ConnectedMeans | src/operand/query/HNSW.cpp:248-252 | what one joining leaves: the nodes joined, other layers unchanged, no other new edge |
| Hnsw.LinkingMeans | src/operand/query/HNSW.cpp:246-254 | the same for a sequence of joinings |
| Hnsw.DegreeBelowM | src/operand/query/HNSW.cpp:235-254 | in a valid index every node has at most M - 1 live edges on every layer |
| GCompiler.Chunk.Push | include/base/gvm/Chunk.h:41-43 | appends a byte, and fails exactly when the code array is full |
| GCompiler.Chunk.AddConstant | include/base/gvm/Chunk.h:61-61 | appends a constant and gives its position |
| GCompiler.Compiler.EmitByte | src/base/gvm/Compiler.cpp:19-21 | emits one byte and changes nothing else |
| GCompiler.Compiler.EmitBytes | include/base/gvm/Compiler.h:34-38 | emits its bytes in order |
| GValue.NumbersMean | src/base/gvm/Value.cpp:63-333 | on numbers the operators are those of real arithmetic, and division by zero throws |
| GValue.OverflowMeans | src/base/gvm/Value.cpp:99-109 | where ints overflow, the result differs from the true one by 2^32 |
| GValue.StringsMean | src/base/gvm/Value.cpp:68-76 | strings are concatenated in order, and every other operator on them throws |
| GValue.BooleansMean | src/base/gvm/Value.cpp:112-121 | on booleans + - * are or, exclusive or and and; division throws |
| GValue.FailuresMean | src/base/gvm/Value.cpp:63-333 | for which operands a runtime_error and for which a bad_cast is thrown |
| GCompiler.Compiler.ResolveLocal | src/base/gvm/Compiler.cpp:5-16 | finds the innermost local of a name, and whether it is uninitialised |
| GCompiler.Compiler.GetNamed | src/base/gvm/Compiler.cpp:23-38 | emits the load of a resolved name |
| GCompiler.Compiler.Declare | src/base/gvm/Compiler.cpp:40-61 | declares a local, or throws on a double declaration in one scope or on too many |
| GCompiler.Compiler.VisitInit | src/base/lang/visitor/VariantVisitor.cpp:4-33 | generates the code of an initialiser |
| GCompiler.Compiler.VisitResult | src/base/lang/visitor/ByteCodeVisitor.cpp:40-66 | generates the code of a returned expression |
| GCompiler.Compiler.LeaveScope | src/base/lang/visitor/ByteCodeVisitor.cpp:31-36 | pops exactly the locals deeper than the scope |
| GCompiler.Compiler.VisitBlock | src/base/lang/visitor/ByteCodeVisitor.cpp:28-38 | generates the code of a block |
| GCompiler.Compiler.VisitLet | src/base/lang/visitor/ByteCodeVisitor.cpp:47-58 | generates the code of a declaration |
| GCompiler.Compiler.VisitStmts | src/base/lang/visitor/ByteCodeVisitor.cpp:28-38 | generates the code of a statement list |
| GCompiler.Compiler.VisitScript | src/base/lang/visitor/ByteCodeVisitor.cpp:21-38 | generates the code of a whole script |
| GMachine.Step | src/base/gvm/GVM.cpp:197-287 | one instruction moves forward inside the code and keeps the stack inside its memory |
| GMachine.InstructionsMean | include/base/gvm/Chunk.h:13-33 | the instructions by the bytes of the enumeration, and what each does to the stack |
| GMachine.StepsCompose | src/base/gvm/GVM.cpp:197-287 | runs of the machine compose |
| GMachine.RunsOwnCodeExactly | src/base/gvm/GVM.cpp:224-242 | a script runs its own code only, and so ends as that does, exactly if no frame was counted before or it fails |
| GMachine.CountedFrameAnswers | src/base/gvm/GVM.cpp:224-242 | whatever a script returns, a counted frame that stopped before returning a constant of its own returns that |
| GMachine.ReturningFrameHandsOn | src/base/gvm/GVM.cpp:224-242 | a counted frame that stopped right before its return hands the result on |
| GMachine.GVM.Instruction | src/base/gvm/GVM.cpp:197-287 | one case of the switch does what the step function says |
| GMachine.GVM.Run | src/base/gvm/GVM.cpp:184-294 | for any counted frames, the instruction loop ends and leaves the memory, stack top, result and counted frames of the unwinding |
| GMachine.GVM.Interpret | src/base/gvm/GVM.cpp:152-182 | for any counted frames, a call adds a frame for the code on the stack [function], unwinds, and empties the stack after an exception; with all frames counted it throws |
| GCorrect.ResolveFinds | src/base/gvm/Compiler.cpp:5-16 | where locals and variables correspond, a name resolves to the slot of its innermost declaration |
| GCorrect.DeclaredSlots | src/base/lang/visitor/ByteCodeVisitor.cpp:47-58 | with a name declared on top, the names of its initialiser sit in their own slots exactly if it is not one of them |
| GCorrect.RunInit | src/base/lang/visitor/VariantVisitor.cpp:4-33 | the code of an initialiser pushes exactly its value, or fails as its evaluation does |
| GCorrect.RunResult | src/base/lang/visitor/ByteCodeVisitor.cpp:40-66 | the code of a returned expression pushes exactly its value, or fails as its evaluation does |
| GCorrect.RunLet | src/base/lang/visitor/ByteCodeVisitor.cpp:47-58 | a declaration extends the stack by the value of its variable |
| GCorrect.PopRestores | src/base/lang/visitor/ByteCodeVisitor.cpp:31-36 | leaving a scope restores the locals of the scope around it |
| GCorrect.RunPops | src/base/lang/visitor/ByteCodeVisitor.cpp:33-36 | block exit pops exactly the block's variables |
| GCorrect.StmtScopes | src/base/lang/visitor/ByteCodeVisitor.cpp:28-38 | compiling a statement keeps the depth and the outer locals; a block leaves the locals as they were |
| GCorrect.RunBlock | src/base/lang/visitor/ByteCodeVisitor.cpp:28-38 | a block runs its statements and drops what they declared |
| GCorrect.RunStmt | src/base/lang/visitor/ByteCodeVisitor.cpp:28-58 | a statement takes the stack [function] followed by the values in scope to the same for the scope after it |
| GCorrect.RunStmts | src/base/lang/visitor/ByteCodeVisitor.cpp:28-58 | so does a statement list, and the stack has that form at every statement boundary inside it |
| GCorrect.ScriptRuns | src/base/gvm/GVM.cpp:152-294 | every compiled script returns its source-level result or fails as the source does, with the stack correspondence at every statement boundary |
| GCorrect.SelfReferenceReadsStaleSlot | src/base/lang/visitor/ByteCodeVisitor.cpp:47-58 | a program whose initialiser names its own variable pushes what lies above the stack |
| GCorrect.ApplyAgrees | src/base/gvm/Value.cpp:63-333 | on numbers, integer and double operands give the same result unless an integer sum or difference overflows |
| GCorrect.VisitorsAgree | src/base/lang/visitor/VariantVisitor.cpp:34-57 | the two code generators evaluate a numeric expression to the same number, or fail alike, if no integer sum or difference overflows |
| GCorrect.AgreeExactly | src/base/lang/visitor/VariantVisitor.cpp:34-57 | they agree on a numeric expression and all its parts exactly if no integer sum or difference overflows |
| GScopes.DeclarationFails | src/base/gvm/Compiler.cpp:41-61 | when a declaration throws: a local of the innermost scope has the name, or there are 255 |
| GScopes.NameBytes | src/base/gvm/Compiler.cpp:22-39 | the bytes of a name: the slot of the innermost local of that name, or the global of index -1 |
| GScopes.CompilesExactly | src/base/lang/visitor/ByteCodeVisitor.cpp:21-58 | exactly which scripts compile, counted from the syntax: declarations, depth and bytes |
| GScript.LiteralMeans | src/base/lang/visitor/VariantVisitor.cpp:34-57 | what a literal loads: an initialiser keeps an int, a returned one is a double |
| GScript.NumberIsEval | src/base/lang/visitor/VariantVisitor.cpp:4-33 | initialisers have the numbers of an evaluator in real arithmetic |
| GScript.ArithmeticIsEval | src/base/gvm/GVM.cpp:152-294 | a numeric script returns its number, and fails exactly where arithmetic divides by zero |
| GScript.ArithmeticStack | src/base/gvm/GVM.cpp:152-294 | at its end the stack holds the function and the numbers of the variables |
| GScript.TextsAreEval | src/base/gvm/Value.cpp:68-76 | sums of string literals are what stands there from left to right |
| GScript.RunScript | src/base/gvm/GVM.cpp:152-182 | compiling and interpreting a script end to end gives its error, or with no frame counted its result, for a numeric script the number of arithmetic, or otherwise what the counted frames make of that |
| GeoHash.FirstIndex | src/Type/Hash.cpp:67-75 | the first position of a character, or -1 exactly if it does not occur |
| GeoHash.IndexChar | src/Type/Hash.cpp:67-75 | the loop finds that position |
| GeoHash.AlphabetIsDistinct | src/Type/Hash.cpp:18-18 | the alphabet ascends, so its characters are distinct |
| GeoHash.TablesStepBack | src/Type/Hash.cpp:78-87 | all eight neighbour tables: each entry is the character whose code lies one step back along one axis |
| GeoHash.BordersAreRims | src/Type/Hash.cpp:88-89 | all eight border strings: a character is in one exactly if its step wraps |
| GeoHash.LookupSteps | src/Type/Hash.cpp:90-101 | so looking a character up in a table steps its code, and the border test detects the wrap |
| GeoHash.EdgeOfRefined | src/Type/Hash.cpp:96-98 | a cell is on the world edge exactly if its parent is and the last character's step wraps |
| GeoHash.StepOfRefined | src/Type/Hash.cpp:96-102 | stepping the last character, with a carry into the parent when it wraps, steps the de-interleaved cell |
| GeoHash.NeighborIsNextCell | src/Type/Hash.cpp:77-104 | for every hash of any length: no neighbour exactly on the world edge, else the hash of the same length whose cell is one step away |
| GeoHash.CellsTellHashesApart | src/Type/Hash.cpp:77-104 | hashes of one length with the same cell are equal |
| GeoHash.OppositeRestores | src/Type/Hash.cpp:77-104 | stepping back in the opposite direction restores the hash |
| Transcoding.RunIsWhole | tool/ConvertUTF.cpp:62-107 | a call whose target does not fill up does what one with unlimited room does |
| Transcoding.RunRestarts | tool/ConvertUTF.cpp:410-459 | after a full target, going on with more room gives what one call with all the room gives |
| Transcoding.FreshRestart | tool/ConvertUTF.cpp:410-459 | so does a fresh call, except that an illegal unit passed over before is not reported again |
| ConvertUtf.TrailingBits | tool/ConvertUTF.cpp:175-184 | the table of trailing bytes, by the bits of the lead byte |
| ConvertUtf.LegalExactly | tool/ConvertUTF.cpp:296-319 | `isLegalUTF8` accepts exactly the well-formed sequences and those with a loose second byte |
| ConvertUtf.LegalIsScalar | tool/ConvertUTF.cpp:337-393 | everything it accepts decodes to a scalar value |
| ConvertUtf.LooseIsNotEncoding | tool/ConvertUTF.cpp:304-311 | a loose sequence is not the encoding of the character it decodes to |
| ConvertUtf.FoldedIsPayload | tool/ConvertUTF.cpp:350-362 | subtracting the magic offset leaves the bits of the bytes put together |
| ConvertUtf.EncodedIsWellFormed | tool/ConvertUTF.cpp:430-454 | the bytes of a scalar value are a well-formed sequence of section 4 of RFC 3629 |
| ConvertUtf.EncodedDecodes | tool/ConvertUTF.cpp:410-521 | decoding the bytes of a character gives the character |
| ConvertUtf.DecodedEncodes | tool/ConvertUTF.cpp:410-521 | encoding the character of a well-formed sequence gives the sequence |
| ConvertUtf.PairRoundTrip | tool/ConvertUTF.cpp:95-101 | a surrogate pair of section 2.1 of RFC 2781 stands for its character |
| ConvertUtf.UnitsRoundTrip | tool/ConvertUTF.cpp:121-131 | the character of a surrogate pair has that pair |
| ConvertUtf.Read16Bounded | tool/ConvertUTF.cpp:119-146 | what is read from UTF-16 is at most 0x10FFFF, and a scalar value when strict |
| ConvertUtf.Fetch16 | tool/ConvertUTF.cpp:119-146 | reads one character or stops, as the specification of the step says |
| ConvertUtf.Fetch8 | tool/ConvertUTF.cpp:343-363 | reads one character or stops, as the specification of the step says |
| ConvertUtf.Spread | tool/ConvertUTF.cpp:447-453 | writing from the last byte to the first puts the bytes of the character and nothing else |
| ConvertUtf.FrontIsBytes | tool/ConvertUTF.cpp:447-453 | the masked and shifted bytes are those of section 3 of RFC 3629 |
| ConvertUtf.ConvertUtf32ToUtf16 | tool/ConvertUTF.cpp:62-107 | source and target positions, the target's contents and the result, for every input, room and flag |
| ConvertUtf.ConvertUtf16ToUtf32 | tool/ConvertUTF.cpp:111-164 | the same |
| ConvertUtf.ConvertUtf16ToUtf8 | tool/ConvertUTF.cpp:215-281 | the same |
| ConvertUtf.ConvertUtf8ToUtf16 | tool/ConvertUTF.cpp:337-406 | the same |
| ConvertUtf.ConvertUtf32ToUtf8 | tool/ConvertUTF.cpp:410-459 | the same |
| ConvertUtf.ConvertUtf8ToUtf32 | tool/ConvertUTF.cpp:463-521 | the same |
| ConvertUtfLaws.EncodesTo8 | tool/ConvertUTF.cpp:410-459 | UTF-32 to UTF-8 encodes every sequence of scalar values |
| ConvertUtfLaws.DecodesFrom8 | tool/ConvertUTF.cpp:463-521 | and UTF-8 to UTF-32 gives it back |
| ConvertUtfLaws.EncodesTo16 | tool/ConvertUTF.cpp:62-107 | UTF-32 to UTF-16 encodes every sequence of scalar values |
| ConvertUtfLaws.DecodesFrom16 | tool/ConvertUTF.cpp:111-164 | and UTF-16 to UTF-32 gives it back |
| ConvertUtfLaws.EncodedIsWellFormed8 | tool/ConvertUTF.cpp:410-459 | the UTF-8 written is well-formed |
| ConvertUtfLaws.EncodedIsWellFormed16 | tool/ConvertUTF.cpp:62-107 | the UTF-16 written is well-formed |
| ConvertUtfLaws.RoundTrip8 | tool/ConvertUTF.cpp:410-521 | UTF-8 to UTF-32 and back is the identity on every well-formed byte string |
| ConvertUtfLaws.RoundTrip16 | tool/ConvertUTF.cpp:62-164 | UTF-16 to UTF-32 and back is the identity on every well-formed string |
| ConvertUtfLaws.DirectTo16 | tool/ConvertUTF.cpp:337-406 | UTF-8 to UTF-16 does what going through UTF-32 does, on every byte string |
| ConvertUtfLaws.DirectTo8 | tool/ConvertUTF.cpp:215-281 | UTF-16 to UTF-8 does what going through UTF-32 does, on every string |
| ConvertUtfLaws.LenientEncodes8 | tool/ConvertUTF.cpp:410-459 | the lenient converter to UTF-8 writes surrogates like any other values |
| ConvertUtfLaws.UnitsAreKept | tool/ConvertUTF.cpp:111-164 | converting UTF-16 to UTF-32 keeps every unit, and when lenient takes all but a high surrogate at the end |
| ConvertUtfLaws.AcceptsExactly | tool/ConvertUTF.cpp:463-521 | decoding succeeds exactly on well-formed and loose sequences |
| ConvertUtfLaws.AcceptedIsWellFormed | tool/ConvertUTF.cpp:296-319 | an accepted string is well-formed exactly if none of its characters is loose |
| ConvertUtfLaws.IllegalAccepted | tool/ConvertUTF.cpp:304-311 | malformed strings that are accepted |
| ConvertUtfErrors.EncoderStops | tool/ConvertUTF.cpp:62-107 | how far a converter from UTF-32 comes and what it reports, for every source, room and flag |
| ConvertUtfErrors.PointsAtFaultExactly | tool/ConvertUTF.h:70-74 | a call that reports an illegal value leaves the source at the first one exactly if it took no value above 0x10FFFF |
| ConvertUtfErrors.PromiseKeptExactly | tool/ConvertUTF.h:70-74 | all calls on a source do so exactly if it has no such value before its first surrogate, or none at all when surrogates are let through |
| ConvertUtfErrors.EncodersPointAtFault | tool/ConvertUTF.h:70-74 | both, for the converters from UTF-32 |
| ConvertUtfErrors.LargeIsPassedOver | tool/ConvertUTF.cpp:87-92 | a source on which they do not |
| ConvertUtfErrors.EncodersReport | tool/ConvertUTF.cpp:410-459 | an illegal value is reported at a surrogate, or at the end of the source exactly if a value above 0x10FFFF was taken; never by the lenient converter to UTF-16 |
| ConvertUtfErrors.LargeAreReplaced | tool/ConvertUTF.cpp:436-440 | every source is converted to UTF-8 as if U+FFFD stood for each value above 0x10FFFF |
| ConvertUtfErrors.LargeAreLeftOut | tool/ConvertUTF.cpp:87-92 | every source is converted to UTF-16, when strict, as if it had none |
| ConvertUtfErrors.AllAreReplaced | tool/ConvertUTF.cpp:82-96 | every source is converted to UTF-16, when lenient, as if U+FFFD stood for each surrogate and each value above 0x10FFFF |
| ConvertUtfErrors.LenientWrites | tool/ConvertUTF.cpp:82-96 | so with room enough the UTF-16 of those scalar values is written |
| ConvertUtfErrors.ConvertersAreTight | tool/ConvertUTF.cpp:62-521 | each character asks for the room of what it writes |
| ConvertUtfErrors.FullTarget | tool/ConvertUTF.cpp:62-521 | a call reports a full target only where the next character does not fit |
| ConvertUtfErrors.FullBeforeIllegal | tool/ConvertUTF.cpp:74-80 | with no room left the converter to UTF-16 reports the full target even at an illegal value, the one to UTF-8 the value |
| ConvertUtfErrors.IllegalBeforeFull | tool/ConvertUTF.cpp:337-521 | with no room left the decoders report an illegal value |
| ConvertUtfErrors.DecodersPointAtFault8 | tool/ConvertUTF.cpp:337-521 | the converters from UTF-8 leave the source at a malformed sequence and take none |
| ConvertUtfErrors.DecodersPointAtFault16 | tool/ConvertUTF.cpp:111-281 | the converters from UTF-16 leave it at an unpaired surrogate, and when strict take none |
| Getopt.MyIndex | tool/getopt.c:125-135 | the position of a character in a string, or its length |
| Getopt.LetterStands | tool/getopt.c:569-757 | one option character by the option string itself: unknown, or at its first place there without a colon, with one or with two behind it |
| Getopt.NextGives | tool/getopt.c:339-414 | what a call gives, by the option string: the elements without option syntax are passed by up to the end or "--" |
| Getopt.ReadingHolds | tool/getopt.c:315-760 | a whole reading by the option string: the reports, and which elements are options, skipped or the rest |
| Getopt.Rotate | tool/getopt.c:161-211 | the segments A and B of A ++ B end up as B ++ A for all lengths, and the rest is untouched |
| Getopt.ShortBottom | tool/getopt.c:179-194 | swapping a short first segment to the far end leaves a smaller exchange to do |
| Getopt.ShortTop | tool/getopt.c:195-210 | swapping a short second segment to the near end leaves a smaller exchange to do |
| Getopt.Scanner.Exchange | tool/getopt.c:161-218 | moves the window to where the non-options now lie, and keeps both segments' contents |
| Getopt.Scanner.Initialize | tool/getopt.c:223-257 | a scan starts with an empty window at element 1 |
| Getopt.Scanner.Normalize | tool/getopt.c:343-348 | after -1 the window shrinks to nothing at `optind`, and a scan of what stands there begins |
| Getopt.Scanner.GatherOptions | tool/getopt.c:352-358 | the options done so far come to stand before the window |
| Getopt.Scanner.SkipNonoptions | tool/getopt.c:350-366 | the window grows by exactly the non-options up to the next option, and the scan's invariant holds |
| Getopt.Scanner.EndOptions | tool/getopt.c:373-384 | "--" joins the options, everything after it the rest, and the array is sorted |
| Getopt.Scanner.Advance | tool/getopt.c:339-414 | finds the next option element, or ends the scan with the array sorted |
| Getopt.Scanner.Decode | tool/getopt.c:569-759 | decodes one option character with its argument or error |
| Getopt.Scanner.NextLetter | tool/getopt.c:569-759 | and keeps the scan's invariant |
| Getopt.Scanner.Getopt | tool/getopt.c:315-760 | one call returns the next report of a single reading of the arguments, and leaves what that reading leaves; a call after -1 begins a reading at `optind` |
| Getopt.Scanner.GetAll | tool/l2lite.cpp:36-36 | a caller's loop ends, sees exactly the reports of that reading, and leaves options, then non-options and the rest |
| Getopt.LetterProgresses | tool/getopt.c:569-759 | the elements a decoded character takes join the options |
| Getopt.NextReports | tool/getopt.c:315-760 | a call's report is the first of those that remain, and less remains |
| Getopt.SortedKeepsOrder | tool/getopt.c:315-415 | options and non-options keep their order, and the rest is the end of the arguments |
| Getopt.SortedKeepsElements | tool/getopt.c:315-415 | sorting loses and adds no element |
| Getopt.SkippedAreNonoptions | tool/getopt.c:337-365 | only non-options are skipped |
| Getopt.ScanningPermutes | tool/getopt.c:315-415 | between any two calls the array is a permutation of the original one |
| Getopt.EndedPermutes | tool/getopt.c:389-396 | when -1 is returned, the options with their arguments stand before optind and the non-options and the rest after it, each in the original order |
| Getopt.NextAfterEnd | tool/getopt.c:339-396 | a call after -1 reads what followed "--" as options again, and returns -1 exactly if a reading of that would |
| Base64.RegroupedIsSextets | src/Type/Binary.cpp:28-31 | the masks and shifts give the four sextets of the 24-bit number |
| Base64.UnpackedIsOctets | src/Type/Binary.cpp:76-78 | and back |
| Base64.PaddingIsZero | src/Type/Binary.cpp:86-100 | the index 64 of a missing character leaves the bytes before it as zero does |
| Base64.EncodedIsEncoding | src/Type/Binary.cpp:11-57 | the text follows section 4 of RFC 4648 |
| Base64.EncodingIsUnique | src/Type/Binary.cpp:11-57 | and is the only one that does |
| Base64.Base64Encode | src/Type/Binary.cpp:11-57 | the loops build that text |
| Base64.Base64Decode | src/Type/Binary.cpp:59-105 | the loops decode the text before the first '=', and fail exactly on a character outside the alphabet |
| Base64.EncodedIsCString | src/Type/Binary.cpp:11-57 | the text holds no NUL |
| Base64.RoundTrip | src/Type/Binary.cpp:11-105 | decoding the encoding gives back every byte sequence |
| EdgeId.MakeEdgeId | src/gutil.cpp:198-222 | the fields and the value buffer of a key |
| EdgeId.InfoBits | include/gutil.h:45-50 | the bits of the first byte, field by field |
| EdgeId.NumberBytes | src/gutil.cpp:212-219 | an integer endpoint takes eight bytes, lowest first |
| EdgeId.TextBytes | src/gutil.cpp:206-218 | a string endpoint takes its own bytes |
| EdgeId.KeyLayout | src/gutil.cpp:198-236 | the printed key byte by byte |
| EdgeId.StringRoundTrip | src/gutil.cpp:229-246 | parsing a printed key gives the key |
| EdgeId.ValueRoundTrip | src/gutil.cpp:311-318 | an endpoint is read back from memory with its type |
| EdgeId.KeyRoundTrip | src/gutil.cpp:198-246 | making, printing, parsing and splitting gives the direction, the second endpoint and what is kept of the first |
| EdgeId.KeptExactly | include/gutil.h:49-49 | all of the first endpoint is kept exactly if it has at most fifteen bytes |
| EdgeId.SameKeyExactly | src/gutil.cpp:198-236 | two edges have the same key exactly if they agree in direction, second endpoint and what is kept of the first |
| EdgeId.KeysTellEdgesApart | src/gutil.cpp:198-236 | with short first endpoints distinct edges have distinct keys |
| PostingList.SplitAll | src/gutil.cpp:96-113 | the loop splits a string at its delimiters, without a last empty part |
| PostingList.Merge | src/gutil.cpp:115-122 | the loop joins strings with a delimiter between them |
| PostingList.SplitOfMerged | src/gutil.cpp:96-122 | splitting what was merged gives the list without an empty string at its end |
| PostingList.SplitUndoesMerge | src/gutil.cpp:96-122 | so it gives the list exactly if that does not end in an empty string |
| PostingList.MergedOfSplit | src/gutil.cpp:96-122 | merging what was split gives the string without a delimiter at its end |
| PostingList.MergedGrows | src/gutil.cpp:115-122 | joining one string more puts the delimiter and the string behind |
| PostingList.BelowIsLexical | include/gutil.h:80-80 | the order of strings is the one by first difference, a start of a string coming before it |
| PostingList.BelowIsOrder | include/gutil.h:80-80 | the order of strings is a strict total order |
| PostingList.Index.UpsetIndex | src/plan/mutate/UpsetPlan.cpp:158-172 | one insertion replaces the stored bytes of one value by the merge of the list with the id before the first one that is not smaller |
| PostingList.UpsertedSplits | src/plan/mutate/UpsetPlan.cpp:158-172 | the stored bytes then split to the sorted list with the id inserted |
| PostingList.StoredSplits | src/plan/mutate/UpsetPlan.cpp:158-172 | after any insertions they split to a strictly sorted list of exactly the ids kept |
| PostingList.KeptExactly | src/plan/mutate/UpsetPlan.cpp:158-172 | every non-empty id is kept, an empty one exactly if it comes at some time after another |
| PostingList.StoredIsAllIds | src/plan/mutate/UpsetPlan.cpp:158-172 | with non-empty ids, the stored bytes are exactly the ids inserted, ascending by first difference, with a NUL between them |

## Left out

- EndsExactlyUpToSix, FindsExactlyUpToThree: decide sizes; for a single input of a larger size, whether the solver ends and whether it finds an assignment is stated by its run (`EndsExactlyOnBothAxes`, `MatchesExactly`) and, before the call, by `ReducedAssignable` in one direction.
- Solve: takes the number of rounds as a parameter, because the source's outer loop need not end; the input is square and not empty, as the code assumes.
- Walker.Walk: the order in which a priority queue gives equal entries is left open; the visitor callback and the unused heuristic cache are not modelled. Cost and heuristic are parameters, with non-negative costs.
- Heuristic.Success: the breadth-first heuristic, whose step counter is not an edge cost.
- Network.AddNode: the memory limit and the detaching of nodes; attributes and JSON payloads, of which one number is kept.
- Index.Insert: the choice of neighbours and the layers are parameters, so recall and result order are not stated; M is any number of at least 2 (the source uses 16); the disk and the cache.
- ScriptRuns: scripts of nested blocks, declarations with initialisers that do not name the declared variable, and a returned expression over literals; more than 256 constants, whose index is cut to a byte, are excluded (`CompilesExactly` includes them), and code over 1024 bytes or a scope depth over 127 is an error of the model where the source writes or counts past its bounds.
- GVM.Run: calls, globals and literals beyond int are reported as not modelled. A counted frame keeps its code and constants, where the source keeps a pointer to a function that must still exist.
- RunScript: an int overflow makes a script no numeric one in the sense of its last clause, which then says nothing; `EvalScript` still does.
- Scanner.Getopt: a caller that leaves the variables alone except for setting optind to zero; plain option strings, without a leading '-' or '+' and without "W;"; long options; printed messages.
- Scanner.Decode: is one method of the source's one function, which is divided at its comments.
- ConvertUtf.Spread: is the loop that the source's note calls its unrolled switch; the five- and six-byte cases of the reading switch cannot be reached past `isLegalUTF8` and are not written out.
- Base64Encode: masks and shifts are written with division and remainder.
- MakeEdgeId: the value is a sequence of bytes rather than memory to be released, integers are stored lowest byte first, and the bit fields are laid out from the lowest bit as common compilers do; a value that does not fit its buffer is excluded.
- Index.UpsetIndex: the store is a map, and ids hold no NUL; the overloads with integer ids.
- AddUniqueDataAndSort: searches one by one where the library halves the range.
- The storage engine over libmdbx, transactions, schemas and their JSON, and compression: input and output or foreign libraries.
- The lexer and the grammar; the model starts from the syntax tree.
- Assignments to existing names, bare expression statements and native calls in scripts, which leave extra values on the stack.
- `deleteNode`, whose loop body is commented out, and edge comparison by `operator <`.
- `GeoHash::encode`, which always runs five steps; the decision tree, entropy and line editing.
