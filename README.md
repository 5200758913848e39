# A verified model of the CombBLAS bipartite maximum-matching core

This project models three parts of the CombBLAS / KDT repository in Dafny and
proves properties about them:

- **The distributed bipartite matching engine**
  (`CombBLAS/MaximumMatching/BPMaximumMatching.cpp`):
  - the `VertexType` fringe label and its order;
  - the command-line option scan `GetOptions`;
  - `PermMat`, which turns `mateCol2Row` into the boolean matching matrix Mbool;
  - the phase controller `maximumMatching` with its layered alternating-tree search;
  - the augmenting walk `Augment`.

  The engine runs on one address space. The mate arrays are `array<Int64>`, and `Augment` and the controller update them in place. Each sparse fringe vector is a `seq<Option<Vertex>>` value. The CombBLAS library steps of the layer loop are specified functions: min-select `SpMV`, the `EWiseApply` filters, `Invert`, `FilterByVal` and `Set`.
- **The int64 operator objects of pyCombBLAS** (`Python/pyCombBLAS/pyOperations.cpp`):
  - every unary and binary operator;
  - `set` and `safemultinv`;
  - the glue operators `bind1st`/`bind2nd`, `compose1`/`compose2` and `not1`/`not2`.

  These are two datatypes of operator descriptions.
  - `Apply` and `Apply2` evaluate them with C++ int64 semantics: wrap-around modulo 2^64, and division and remainder truncated toward zero.
  - `Defined` and `Defined2` say where C++ defines the result.
- **The index logic of KDT's `DiGraph`** (`kdt/DiGraph.py`):
  - the constructor's bound checks;
  - `nvert`;
  - `__getitem__` and `subgraph`;
  - `fullyConnected`;
  - the dimension checks of `+`, `*` and `/`.

  A graph is its two vertex counts and its list of (source, destination, weight) edges. Python exceptions are `Failure` values. `GetItem`, `Subgraph` and the lemmas about them use the corrected key conversion of line 150 (see "## Findings"); `GetItemAsWritten` is the lookup as written, under which `subgraph(0, 0.0)` raises AttributeError.

Modules and files:

| file | module | content |
|---|---|---|
| wrappers.dfy | Wrappers | `Option`, `Result` |
| machine.dfy | Machine | `Int64`, `Int16`, two's-complement `Wrap` |
| mates.dfy | Mates | consistency of `mateRow2Col`/`mateCol2Row`, the `-1` count `Assigned` |
| forest.dfy | Forest | the alternating trees a search builds (ghost `depth`, `rootOf`) |
| vertex.dfy | Labels | `VertexType`, its `<` and `==`, the min-select reduction |
| primitives.dfy | Primitives | min-select SpMV, `Invert`, `Set`, `getnnz` |
| search.dfy | Search | seeding, the layer loop, and the invariant it keeps |
| augment.dfy | Augmentation | `Augment` |
| permmat.dfy | PermMatrix | `PermMat` |
| matching.dfy | Matching | `maximumMatching` |
| options.dfy | Options | `GetOptions` |
| operations.dfy | Operations | pyOperations |
| digraph.dfy | DiGraphs | DiGraph |

Inputs outside the model are parameters:
- the graph is an `nrow x ncol` boolean matrix;
- the command line is a sequence of strings;
- the process grid is the `procsPerRow`, `procsPerCol` and `roffset` arguments of `PermMat`.

## Model

All paths are relative to the repository root. `BPMaximumMatching.cpp` is `CombBLAS/MaximumMatching/BPMaximumMatching.cpp`.

| member | source | states |
|---|---|---|
| Machine.Wrap | Python/pyCombBLAS/pyOperations.cpp:92-94 | the int64 result of an integer is congruent to it modulo 2^64, and equals it when it fits |
| Labels.LessIsLexicographic | CombBLAS/MaximumMatching/BPMaximumMatching.cpp:43-47 | `<` is the lexicographic order on (prob, parent) |
| Labels.LessIrreflexive | CombBLAS/MaximumMatching/BPMaximumMatching.cpp:43-47 | no label is below itself |
| Labels.LessTransitive | CombBLAS/MaximumMatching/BPMaximumMatching.cpp:43-47 | `<` is transitive |
| Labels.LessTotalOnKey | CombBLAS/MaximumMatching/BPMaximumMatching.cpp:43-47 | two labels are ordered one way or the other, or agree on (prob, parent) |
| Labels.EqualIgnoresRootAndProb | CombBLAS/MaximumMatching/BPMaximumMatching.cpp:48 | `==` holds whatever the root and prob |
| Labels.EqualDoesNotImplyUnordered | CombBLAS/MaximumMatching/BPMaximumMatching.cpp:43-48 | two `==` labels can still be ordered by `<`, since `==` ignores prob |
| Labels.MinLabel | CombBLAS/MaximumMatching/BPMaximumMatching.cpp:838 | the semiring add returns one of its arguments, and neither argument is below it |
| Labels.MinLabelCommutes | CombBLAS/MaximumMatching/BPMaximumMatching.cpp:838 | the reduction is commutative up to (prob, parent) |
| Labels.MinLabelAssociates | CombBLAS/MaximumMatching/BPMaximumMatching.cpp:838 | the reduction is associative up to (prob, parent) |
| Labels.FoldMin | CombBLAS/MaximumMatching/BPMaximumMatching.cpp:838 | reducing a non-empty list gives a member that no member is below |
| Labels.FoldMinOrderIndependent | CombBLAS/MaximumMatching/BPMaximumMatching.cpp:838 | any rearrangement of the contributions reduces to the same (prob, parent) |
| Mates.Assigned | CombBLAS/MaximumMatching/BPMaximumMatching.cpp:918 | `Count(leaf != -1)` is at most the length, and is 0 exactly when every entry is -1 |
| Mates.AssignedUpdate | CombBLAS/MaximumMatching/BPMaximumMatching.cpp:732-736 | overwriting one entry changes the count by the difference of the two indicators |
| Mates.FreeRowIsPending | CombBLAS/MaximumMatching/BPMaximumMatching.cpp:721-722 | starting the walk at a free row leaves the matching consistent except at that row |
| Mates.AugmentStep | CombBLAS/MaximumMatching/BPMaximumMatching.cpp:725-738 | matching row to col and taking col's old partner as the next row keeps the arrays consistent except at the next row |
| Mates.AssignedMonotone | CombBLAS/MaximumMatching/BPMaximumMatching.cpp:852-855 | filling -1 entries never lowers the count, and filling one raises it |
| Primitives.Nnz | CombBLAS/MaximumMatching/BPMaximumMatching.cpp:824 | `getnnz` is at most the length, and is 0 exactly when the vector is empty |
| Primitives.RowMin | CombBLAS/MaximumMatching/BPMaximumMatching.cpp:838 | a row's SpMV entry is absent exactly when no fringe column is adjacent; otherwise it is an adjacent column's label that no other adjacent label is below |
| Primitives.RowMinSingle | CombBLAS/MaximumMatching/BPMaximumMatching.cpp:907 | a row with one nonzero, at column j0, selects exactly x[j0] |
| Primitives.RowMinEmpty | CombBLAS/MaximumMatching/BPMaximumMatching.cpp:838 | a row with no nonzero selects nothing |
| Primitives.LastWith | CombBLAS/MaximumMatching/BPMaximumMatching.cpp:873 | finds the last index holding x, or reports that none does |
| Primitives.InvertSwaps | CombBLAS/MaximumMatching/BPMaximumMatching.cpp:873 | `Invert` has entry x -> r only if the input has r -> x, and has none at x exactly when no input entry has value x |
| Primitives.InvertNonEmpty | CombBLAS/MaximumMatching/BPMaximumMatching.cpp:873 | inverting a non-empty vector with in-range values gives a non-empty vector |
| Search.SeedLabels | CombBLAS/MaximumMatching/BPMaximumMatching.cpp:816-821 | column c is in the first fringe exactly when it is unmatched, labelled (c, c) |
| Search.SeedCountsUnmatched | CombBLAS/MaximumMatching/BPMaximumMatching.cpp:816-824 | `numUnmatchedCol` is ncol minus the matched columns |
| Search.RowStep | CombBLAS/MaximumMatching/BPMaximumMatching.cpp:838-849 | every surviving row of the row fringe is unclaimed, and carries the label of an adjacent fringe column |
| Search.DiscovererIsSmallestColumn | CombBLAS/MaximumMatching/BPMaximumMatching.cpp:838 | a row's discoverer is adjacent, in the fringe, and the smallest such column |
| Search.ClaimStep | CombBLAS/MaximumMatching/BPMaximumMatching.cpp:846-855 | a row is written only while its parent is -1; it receives `label.parent`; the forest grows by one layer |
| Search.LeafStep | CombBLAS/MaximumMatching/BPMaximumMatching.cpp:858-878 | after `Invert`/`Set`, every leaves[root] entry is a free row claimed in that root's tree; an entry changes only where temp1 has one; when free rows were reached, every root in the fresh temp1 has that leaf, and every root that reached a free row in this layer now has one of those rows as its leaf |
| Search.PruneStep | CombBLAS/MaximumMatching/BPMaximumMatching.cpp:886-898 | the relabelled, pruned fringe holds only matched, newly claimed rows labelled (mate, root), with roots still lacking a leaf |
| Search.Hop | CombBLAS/MaximumMatching/BPMaximumMatching.cpp:907 | SpMV with Mbool moves each row's label to the column matched to it |
| Search.HopStep | CombBLAS/MaximumMatching/BPMaximumMatching.cpp:905-908 | the next column fringe satisfies the fringe invariant at the next layer |
| Search.ClaimLayer | CombBLAS/MaximumMatching/BPMaximumMatching.cpp:838-878 | one layer's SpMV, claim and leaf update grow the forest by one layer and keep every leaves entry a free row claimed in its root's tree |
| Search.PruneLayer | CombBLAS/MaximumMatching/BPMaximumMatching.cpp:886-909 | after pruning, the state is searched; a non-empty pruned fringe claimed more rows and satisfies the search invariant at the next layer |
| Search.Layer | CombBLAS/MaximumMatching/BPMaximumMatching.cpp:832-912 | one pass of the layer loop keeps the search invariant, never loses a claimed row, and claims more rows whenever it asks for another layer |
| Search.Progress | CombBLAS/MaximumMatching/BPMaximumMatching.cpp:852-909 | the claimed-row count never falls, and rises whenever the pruned fringe is non-empty |
| Search.StateIsSearched | CombBLAS/MaximumMatching/BPMaximumMatching.cpp:832-913 | the loop invariant yields the forest and leaves that `Augment` needs |
| Search.LayeredSearch | CombBLAS/MaximumMatching/BPMaximumMatching.cpp:807-913 | see below |
| Search.LeavesAllocatedByRows | CombBLAS/MaximumMatching/BPMaximumMatching.cpp:809-874 | on a 1 x 2 graph, the inverted vector has an entry beyond nrow entries |
| Search.LeavesByColumnsFit | CombBLAS/MaximumMatching/BPMaximumMatching.cpp:873-874 | a vector inverted over ncol fits a leaves vector of ncol entries |
| Augmentation.WalkStep | CombBLAS/MaximumMatching/BPMaximumMatching.cpp:725-738 | one step of the walk keeps the walk invariant; the next row is -1 or strictly shallower in the same tree |
| Augmentation.ChainInTree | CombBLAS/MaximumMatching/BPMaximumMatching.cpp:720-740 | the walk's chain from a claimed row stays in that row's tree and climbs it. Each next row is the old partner of the current row's discoverer, and the chain ends at a row discovered by the unmatched root column |
| Augmentation.WalkChain | CombBLAS/MaximumMatching/BPMaximumMatching.cpp:725-738 | one step consumes the head of the chain; the rest, read after the discoverer is rematched, starts at the next row; a walk that stops has reached the root column |
| Augmentation.ChainFrame | CombBLAS/MaximumMatching/BPMaximumMatching.cpp:725-738 | rewriting a column that no row of the chain was discovered by leaves the chain unchanged |
| Augmentation.FlipRowsMeaning | CombBLAS/MaximumMatching/BPMaximumMatching.cpp:735-737 | after flipping a chain, a row holds its discoverer if it is on the chain and is unchanged otherwise |
| Augmentation.FlipColsFrame | CombBLAS/MaximumMatching/BPMaximumMatching.cpp:731-733 | flipping a chain leaves unchanged every column that discovered no row of the chain |
| Augmentation.PathStep | CombBLAS/MaximumMatching/BPMaximumMatching.cpp:722-739 | one walk step keeps the walk state, the count, what remains of the chain, and the leaf and root facts |
| Augmentation.WalksCompose | CombBLAS/MaximumMatching/BPMaximumMatching.cpp:718-741 | after the walk of leaf i, the remaining walks are those of the later leaves, and every leaf up to i has its row and root column matched |
| Augmentation.AugStep | CombBLAS/MaximumMatching/BPMaximumMatching.cpp:718-741 | the walk of leaf i, as AugmentPath specifies it, moves the loop state from i to i + 1 |
| Augmentation.WalkLeaf | CombBLAS/MaximumMatching/BPMaximumMatching.cpp:718-741 | one iteration of the loop over the leaves keeps the loop state |
| Augmentation.LeafDone | CombBLAS/MaximumMatching/BPMaximumMatching.cpp:718-741 | after the walk of leaf i, the leaves above i are still free rows, and the matched-column count has grown by one exactly when leaf i is a row; only discoverer edges have entered the matching |
| Augmentation.AugmentPath | CombBLAS/MaximumMatching/BPMaximumMatching.cpp:720-740 | see below |
| Augmentation.Augment | CombBLAS/MaximumMatching/BPMaximumMatching.cpp:690-750 | see below |
| PermMatrix.RowRecInRange | CombBLAS/MaximumMatching/BPMaximumMatching.cpp:173-176 | `rowrec` is in [0, procsPerRow - 1], and `rowrec * n_perproccol + colid == ri[i]` |
| PermMatrix.ColIdInBlock | CombBLAS/MaximumMatching/BPMaximumMatching.cpp:173-228 | on a square grid, colid is below the receiving block's `local_ncol` |
| PermMatrix.Bucket | CombBLAS/MaximumMatching/BPMaximumMatching.cpp:169-179 | bucket b holds exactly the kept entries with rowrec b, in increasing order |
| PermMatrix.BucketsPartition | CombBLAS/MaximumMatching/BPMaximumMatching.cpp:169-179 | the bucket sizes add up to the number of kept entries |
| PermMatrix.BucketSizes | CombBLAS/MaximumMatching/BPMaximumMatching.cpp:169-188 | the row and column buckets of each rowrec have the same size, that of the kept entries sent there |
| PermMatrix.PackedFits | CombBLAS/MaximumMatching/BPMaximumMatching.cpp:183-201 | the send counts add up to the number of kept entries, which is at most the local vector's length `locvec` |
| PermMatrix.SortIntoBuckets | CombBLAS/MaximumMatching/BPMaximumMatching.cpp:169-179 | each bucket holds `i + roffset` and `ri[i] - rowrec * n_perproccol` for exactly its entries, in order |
| PermMatrix.Counts | CombBLAS/MaximumMatching/BPMaximumMatching.cpp:183-194 | `sendcnt[b]` is bucket b's size, and `sdispls` is its exclusive prefix sum |
| PermMatrix.BucketsFit | CombBLAS/MaximumMatching/BPMaximumMatching.cpp:192-206 | the bucket ranges of senddata are disjoint, ordered, and inside `locvec` |
| PermMatrix.Pack | CombBLAS/MaximumMatching/BPMaximumMatching.cpp:202-213 | every bucket is copied to `senddata[sdispls[b] ..]` in order |
| PermMatrix.PermMat | CombBLAS/MaximumMatching/BPMaximumMatching.cpp:146-238 | the sent rows and columns are the kept entries, bucketed by rowrec in order, with counts and prefix-sum displacements |
| PermMatrix.PackedFromParts | CombBLAS/MaximumMatching/BPMaximumMatching.cpp:202-214 | buckets, counts and copies together give the packed layout |
| PermMatrix.DeliveredAreEntries | CombBLAS/MaximumMatching/BPMaximumMatching.cpp:207-220 | every delivered tuple (row, col) comes from a kept entry, with `b * n + col == ri[row - roffset]` |
| PermMatrix.EntriesAreDelivered | CombBLAS/MaximumMatching/BPMaximumMatching.cpp:169-220 | every kept entry is delivered as one tuple |
| PermMatrix.OneProcessMatrix | CombBLAS/MaximumMatching/BPMaximumMatching.cpp:139-233 | on one process, A[k][j] holds exactly when ri[k] == j |
| Matching.BuildMbool | CombBLAS/MaximumMatching/BPMaximumMatching.cpp:800 | Mbool[c][r] holds exactly when column c is matched to row r |
| Matching.AugmentKeepsEdges | CombBLAS/MaximumMatching/BPMaximumMatching.cpp:852-923 | rows rematched to their discoverer still use graph edges |
| Matching.MaximumMatching | CombBLAS/MaximumMatching/BPMaximumMatching.cpp:769-925 | see below |
| Options.ContainsFinds | CombBLAS/MaximumMatching/BPMaximumMatching.cpp:381-394 | `find` succeeds exactly when the keyword occurs at or after the start position |
| Options.GetOptions | CombBLAS/MaximumMatching/BPMaximumMatching.cpp:374-396 | see below |
| Options.KeywordInLastArgument | CombBLAS/MaximumMatching/BPMaximumMatching.cpp:376-380 | a keyword given as an argument occurs in the joined string |
| Options.KeywordAcrossArguments | CombBLAS/MaximumMatching/BPMaximumMatching.cpp:376-380 | "k" followed by "s" is read as "ks", since arguments are joined without separators |
| Operations.TruncDivMod | Python/pyCombBLAS/pyOperations.cpp:95-96 | see below |
| Operations.DivInRange | Python/pyCombBLAS/pyOperations.cpp:95-96 | where C++ defines them, int64 quotient and remainder are int64 values |
| Operations.Unsigned | Python/pyCombBLAS/pyOperations.cpp:101-103 | an int64's bit pattern is below 2^64 and congruent to it |
| Operations.Signed | Python/pyCombBLAS/pyOperations.cpp:101-103 | the int64 of a bit pattern has that pattern |
| Operations.SignedUnsigned | Python/pyCombBLAS/pyOperations.cpp:101-103 | reading back an int64's pattern gives the int64 |
| Operations.Bits | Python/pyCombBLAS/pyOperations.cpp:101-103 | a k-bit bitwise result is below 2^k |
| Operations.BitsCommute | Python/pyCombBLAS/pyOperations.cpp:101-103 | bitwise combination does not depend on operand order |
| Operations.XorTwice | Python/pyCombBLAS/pyOperations.cpp:103 | xor with b twice gives back any k-bit a |
| Operations.AndAllOnes | Python/pyCombBLAS/pyOperations.cpp:101 | and with all k bits set keeps any k-bit a |
| Operations.OrZero | Python/pyCombBLAS/pyOperations.cpp:102 | or with 0 keeps any k-bit a |
| Operations.SetIgnoresArgument | Python/pyCombBLAS/pyOperations.cpp:37-52 | `set(v)` returns v whatever its argument |
| Operations.NegateLaw | Python/pyCombBLAS/pyOperations.cpp:29 | `negate(x) == -x` away from INT64_MIN; applied twice it gives x back; at INT64_MIN it wraps to INT64_MIN |
| Operations.AbsLaw | Python/pyCombBLAS/pyOperations.cpp:32 | `abs(x)` is x for x >= 0 and -x otherwise, never negative (x != INT64_MIN) |
| Operations.LogicalNotLaw | Python/pyCombBLAS/pyOperations.cpp:31 | `logical_not(x)` is 1 exactly when x == 0, else 0 |
| Operations.BitwiseNotLaw | Python/pyCombBLAS/pyOperations.cpp:30 | `~~x == x` and `x + ~x == -1` |
| Operations.SafeMultInvLaw | Python/pyCombBLAS/pyOperations.cpp:54-66 | the int64 maximum at 0; otherwise the truncated 1/x, which is 1, -1 or 0 |
| Operations.ArithmeticWraps | Python/pyCombBLAS/pyOperations.cpp:92-94 | `+`, `-`, `*` are exact when the result fits; `+`, `-` are always congruent modulo 2^64 |
| Operations.DivModLaw | Python/pyCombBLAS/pyOperations.cpp:95-96 | `(x / y) * y + x % y == x`, and the remainder takes the dividend's sign |
| Operations.DivTruncatesTowardZero | Python/pyCombBLAS/pyOperations.cpp:95-96 | -7 / 2 is -3 and -7 % 2 is -1 |
| Operations.MaxMinLaw | Python/pyCombBLAS/pyOperations.cpp:98-99 | `max` is an argument no smaller than either; `min` is an argument no larger than either |
| Operations.XorCancels | Python/pyCombBLAS/pyOperations.cpp:103 | `(x ^ y) ^ y == x` |
| Operations.BitwiseIdentities | Python/pyCombBLAS/pyOperations.cpp:101-102 | `x & -1 == x` and `x \| 0 == x` |
| Operations.BitwiseCommutes | Python/pyCombBLAS/pyOperations.cpp:101-103 | `&`, `\|`, `^` are commutative |
| Operations.BitwiseSymmetric | Python/pyCombBLAS/pyOperations.cpp:101-103 | the 64-bit bitwise combination of two words does not depend on operand order |
| Operations.ComparisonsAreZeroOne | Python/pyCombBLAS/pyOperations.cpp:104-113 | see below |
| Operations.BindLaw | Python/pyCombBLAS/pyOperations.cpp:122-150 | `bind1st(op, v)(x) == op(v, x)` and `bind2nd(op, v)(x) == op(x, v)`, defined exactly where op is |
| Operations.ComposeLaw | Python/pyCombBLAS/pyOperations.cpp:156-194 | `compose1(f, g)(x) == f(g(x))` and `compose2(f, g1, g2)(x) == f(g1(x), g2(x))` |
| Operations.ComposeIdentity | Python/pyCombBLAS/pyOperations.cpp:156-173 | `identity` is a unit of `compose1` on both sides |
| Operations.NotLaw | Python/pyCombBLAS/pyOperations.cpp:199-236 | `not1(f)(x)` is 1 exactly when f(x) == 0; `not2(f)(x, y)` is 1 exactly when f(x, y) == 0 |
| Operations.DoubleNot1 | Python/pyCombBLAS/pyOperations.cpp:199-217 | `not1(not1(f))` maps f's result to 0/1, and is f when f is 0/1-valued |
| Operations.DoubleNot2 | Python/pyCombBLAS/pyOperations.cpp:220-236 | `not2(not2(f))` maps f's result to 0/1, and is f when f is 0/1-valued |
| Operations.NotIsComposedLogicalNot | Python/pyCombBLAS/pyOperations.cpp:199-217 | `not1(f)` is `compose1(logical_not, f)` |
| DiGraphs.MaxOf | kdt/DiGraph.py:59 | `max()` of a non-empty vector of doubles is one of its entries, and no entry is above it; it serves both the constructor's range checks and the key bounds |
| DiGraphs.ExceedsIff | kdt/DiGraph.py:59-62 | `v.max() > bound` holds exactly when some entry is above the bound |
| DiGraphs.ConstructorChecks | kdt/DiGraph.py:55-72 | see below |
| DiGraphs.NegativeIndexAccepted | kdt/DiGraph.py:59-62 | an edge from vertex -1 passes the checks |
| DiGraphs.NVertLaw | kdt/DiGraph.py:490-496 | `nvert` is a scalar exactly for square graphs, else the pair; two graphs' `nvert` agree exactly when both counts agree |
| DiGraphs.WrapIfScalar | kdt/DiGraph.py:146-149 | the converted key is never a scalar |
| DiGraphs.MinOf | kdt/DiGraph.py:162 | `min()` is an entry, and no entry is below it |
| DiGraphs.Bounds | kdt/DiGraph.py:154-175 | an accepted key addresses a possibly empty interval: mn <= mx + 1 |
| DiGraphs.TupleArity | kdt/DiGraph.py:137-143 | a tuple key of neither one nor two parts raises KeyError('Too many indices') |
| DiGraphs.RangeCheck | kdt/DiGraph.py:162-164 | a vector key passes exactly when it is a run a, a+1, ..., and then addresses a .. a+len-1; any other vector key raises KeyError('Vector first/second index not a range') |
| DiGraphs.TruncOfInt | kdt/DiGraph.py:162 | `int()` of an integral float is that integer |
| DiGraphs.FullSliceIsWholeDimension | kdt/DiGraph.py:154-171 | `:` addresses 0 .. nrow-1 in the first dimension and 0 .. ncol-1 in the second |
| DiGraphs.ScalarKeyAddressesOne | kdt/DiGraph.py:146-164 | an integer key n addresses exactly vertex n |
| DiGraphs.Select | kdt/DiGraph.py:176-180 | every selected edge lies in the shifted box |
| DiGraphs.SelectKeeps | kdt/DiGraph.py:176-180 | see below |
| DiGraphs.RebuildSelection | kdt/DiGraph.py:176-181 | the constructor rebuilds the selected edges unchanged, because they fit the new sizes |
| DiGraphs.LookupIsSelection | kdt/DiGraph.py:176-181 | a lookup with accepted keys is the selection, sized (mx0-mn0+1) x (mx1-mn1+1) |
| DiGraphs.LookupSelects | kdt/DiGraph.py:176-181 | see below |
| DiGraphs.NonTupleKeyBothDimensions | kdt/DiGraph.py:144-145 | `g[k] == g[k, k]` |
| DiGraphs.SubgraphDefault | kdt/DiGraph.py:620-623 | `subgraph(ndx1)` is `g[ndx1]` |
| DiGraphs.SecondKeyAsWritten | kdt/DiGraph.py:150-153 | as written, the second key is converted only when it is a Python int |
| DiGraphs.FloatSecondKeyFails | kdt/DiGraph.py:150-153 | as written, `g[0, 0.0]` and `g[0, 0L]` raise AttributeError |
| DiGraphs.SecondKeyAnyScalar | kdt/DiGraph.py:146-153 | with the second key converted like the first, int, long and float keys of one value address the same vertex |
| DiGraphs.FullyConnectedShape | kdt/DiGraph.py:335-341 | an n x m graph with n*m unit edges, edge k being (k mod n, k div n); m defaults to n |
| DiGraphs.FullyConnectedCovers | kdt/DiGraph.py:335-341 | in an edge list laid out as fullyConnected's (edge k is (k mod n, k div n)), every (a, b) with a < n and b < m occurs exactly once, at position b*n + a |
| DiGraphs.DivBound | kdt/DiGraph.py:337-338 | for k < n*m, k div n < m, so the column index fits |
| DiGraphs.IndexOfPair | kdt/DiGraph.py:337-338 | (b*n + a) mod n == a and (b*n + a) div n == b |
| DiGraphs.CombineChecks | kdt/DiGraph.py:76-108 | see below |

The rows marked "see below" are these longer contracts:

- **Search.LayeredSearch** — after one phase's search:
  - the claimed rows form alternating trees;
  - each tree is rooted at an unmatched column;
  - every claimed row has a graph edge to its recorded discoverer;
  - every leaves[root] entry is a free row of that root's tree;
  - temp1 keeps its length;
  - the search ran at most nrow + 1 layers.
- **Augmentation.AugmentPath** — walking from one leaf:
  - keeps the mate arrays mutually consistent;
  - adds exactly one matched pair for a real leaf, none for -1;
  - changes only rows of that leaf's tree;
  - leaves the arrays equal to `FlipRows`/`FlipCols` of the chain `Chain` from the leaf: each row of the chain is matched to its discoverer and each discoverer to that row, in walk order. By Augmentation.FlipRowsMeaning and Augmentation.FlipColsFrame, no other row or column changes. Augmentation.ChainInTree shows the chain is the alternating path from the leaf up to its root column;
  - matches the leaf to its discoverer and leaves root column x matched.
- **Augmentation.Augment** — walking every leaf of vertex-disjoint trees:
  - keeps the arrays consistent;
  - adds one matched pair per leaf;
  - only gives rows their discoverer, and columns a row they discovered;
  - leaves the arrays equal to `FlipAll` of the leaves: the walks of the leaves in order, each over the arrays the walks before it left;
  - matches every leaf row to its discoverer, and every root column that has a leaf.
- **Matching.MaximumMatching**:
  - the matching stays consistent and inside the graph;
  - every phase but the last adds at least one pair, so the matched count rises by at least phases - 1;
  - the loop runs between 1 and ncol + 1 - (initially matched) phases;
  - the last `numUnmatchedCol` counts the columns still unmatched.
- **Options.GetOptions**:
  - each of diropt, prune and graft ends true exactly when it was true or its keyword occurs in the joined arguments;
  - init is greedy, else ks, else dmd, else none, by keyword occurrence.
- **Operations.TruncDivMod**:
  - C++ `/` and `%` satisfy `q * y + r == x`;
  - `|r| < |y|` and r has x's sign;
  - `|q| <= |x|`.
- **Operations.ComparisonsAreZeroOne** — the logical and comparison operators, and `not2`, return 0 or 1. Each returns 1 exactly when its relation holds; in particular `logical_xor` returns 1 exactly when one argument is nonzero.
- **DiGraphs.ConstructorChecks**:
  - the constructor succeeds exactly when every first index is below nv1 and every second index below nv2;
  - an oversized first index raises KeyError('at least one first index greater than #vertices');
  - otherwise an oversized second index raises KeyError('at least one second index greater than #vertices');
  - on success, the sizes and the edges are as given.
- **DiGraphs.SelectKeeps** — an edge is selected exactly when it is the shift of an original edge inside the box.
- **DiGraphs.LookupSelects** — `g[key]` keeps exactly the edges with `mn0 <= i <= mx0` and `mn1 <= j <= mx1`, shifted by (mn0, mn1) with unchanged weights. The result has (mx0-mn0+1) x (mx1-mn1+1) vertices.
- **DiGraphs.CombineChecks**:
  - two graphs are added, multiplied or divided exactly when their counts agree, otherwise IndexError;
  - the result has the same `nvert`;
  - a number cannot be added (NotImplementedError) but can multiply or divide.

## Left out

- MPI and OpenMP are not modelled:
  - the one-sided windows, locks and `MPI_Fetch_and_op` in `Augment` are left out, and the walks run one after another in one address space;
  - the `MPI_Alltoall(v)` exchanges of `PermMat` are modelled as sending the packed buffers unchanged;
  - threading is left out.
- The CombBLAS library is represented only by specification functions, not by its code. `SpMV` with `Select2ndMinSR` is the minimum label over a row's fringe neighbours. `EWiseApply` filters are per-index maps. `Invert` keeps the last source index for a repeated value (the library's choice is not visible). `Set` and `Count` are dense updates and counts.
- Matching.MaximumMatching: only one process runs, so Mbool is `PermMat` on a 1 x 1 grid. The contract proves termination, consistency and progress. It does not prove that the final matching is maximum (that no augmenting path remains).
- Search.LayeredSearch: does not prove that the search finds every free row reachable by an alternating path, nor that the paths are shortest.
- PermMatrix.ColIdInBlock: stated for a square process grid (`procsPerRow == procsPerCol`), which the engine's sqrt(p) layout assumes. The final-block `local_ncol` of a non-square grid is not related to rowrec.
- PermMatrix.Counts: `sendcnt` and `sdispls` are C `int`. Counts above 2^31 - 1 would overflow; the model uses unbounded integers there.
- The driver, `main`, `removeIsolated`, timing and statistics printing are left out. They are I/O, random permutations and floating point.
- The `Augment1`, `prune` and `PermMat1` code paths are left out, because the engine does not call them.
- The options `diropt`, `prune`, `graft` and `init` are parsed by `GetOptions` but never passed to `maximumMatching`, so they do not affect the model.
- `Symmetricize` is a library `+=` and is left out.
- Operations.Apply: signed overflow of `+`, `-`, `*`, `negate` and `abs` is undefined in C++. The model wraps modulo 2^64 as two's-complement hardware does.
- Operations.Apply: divisions by zero and INT64_MIN / -1 are outside `Defined2`, and nothing is claimed about them.
- DiGraphs.New: stores edges as given. Summing the weights of duplicate edges happens in the library and is not modelled. A negative vertex count, and index and weight vectors of different lengths, are left to the library; the model requires equal lengths.
- DiGraphs.New: ParVec entries are doubles. Edge endpoints are integers in the model, while index keys are reals.
- DiGraphs.New: the library's `max()` of an empty index vector is not visible. The model takes the range checks of lines 59-62 and 68-71 to pass on empty i and j. So success for a graph with no edges, such as `fullyConnected(3, 0)` in DiGraphs.FullyConnectedShape, or a lookup whose selection is empty, rests on that choice.
- DiGraphs.GetItem: a ParVec key must be non-empty. The library's `min()` and `max()` of an empty ParVec are not part of the model.
- DiGraphs.Combine: only numbers and DiGraphs are modelled as right operands. The edge values of the combined graph come from the library; the model returns only the result's `nvert`.
- The floating-point, I/O and library-reduction members of DiGraph are left out: `pageRank`, `_approxBC`, `normalizeEdgeWeights`, `degree`, `sum`, `max`, `min`, `load`, `save`, `genGraph500Edges`, `__repr__`, `bfsTree`, `isBfsTree`, `neighbors` and `pathsHop`. `twoDTorus` depends on `Graph._sub2ind`, which is not part of this model.
- `CombBLAS/Applications/FilteredBFS.cpp`, `CombBLAS/ReleaseTests/Roofline.cpp` and `kdt/pyCombBLAS/pyOperationsObj.cpp` are not part of this model. They are benchmark drivers, and wrappers around Python callables.

## Findings

| source | as written | input that shows it | evidently intended | confidence | as-written member | corrected member |
|---|---|---|---|---|---|---|
| CombBLAS/MaximumMatching/BPMaximumMatching.cpp:809 | `leaves` is allocated with nrow entries. `leaves.Set(temp1)` fills it from `Invert(ncol)`, indexed by root column (873-874). | A 1 x 2 graph with the single edge (row 0, column 1) and nothing matched. The first layer gives temp1 an entry at column 1, beyond the single entry of leaves. | `leaves` has ncol entries, one per root column. | not executed; medium: on square inputs the sizes coincide | Search.LeavesAllocatedByRows | Search.LayeredSearch |
| kdt/DiGraph.py:150 | `type(key1) == int or type(key0) == long or type(key0) == float` tests key0, which line 146 has already turned into a ParVec. A long or float second key is never converted, and line 173 then calls `.min()` on it. | `g[0, 0.0]` or `g[0, 0L]` raises AttributeError. | Test key1's own type, as line 146 does for key0. | not executed; high | DiGraphs.FloatSecondKeyFails | DiGraphs.SecondKeyAnyScalar |
