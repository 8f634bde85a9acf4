# go-csp search engine in Dafny

This project models the engine of `csp.go`, a small constraint solver. It solves
one problem: eight variables A..H take values in 1..4 under eighteen fixed
constraints. It searches by layered backtracking. A `Root` holds four top-level
nodes and a depth counter. Each `Node` binds one variable, owns a list of children
and carries a `Tombstone` that marks a dead end. One pass of the search prunes,
then expands. Pruning lists every root-to-leaf path and marks the leaf of each path
that fails the constraint checker. Expanding gives every live leaf four children,
one per domain value, for the next variable. There are two variable orderings:
the natural one, A..H, and a heuristic one, H, F, G, D, E, C, A, B. Each has its
own letter table and its own depth-indexed checker.

Modules, in dependency order:

- `Constraints` (constraints.dfy): the letter tables, `AbsoluteValue`, and both
  checkers. The checkers are pure functions on the values of a path, switching on
  its length. The file also proves how the two tables relate.
- `Tree` (tree.dfy): variables and nodes, plus the expansion. `AddVariableLayer`
  and `RecursivelyAddVariableLayer` are methods with loops, proved against the
  specification functions `WithLayer` and `Grow`.
- `Traversal` (traversal.dfy): path enumeration (`Paths`, with the method
  `CollectPaths` for the recursive closure). Also marking the k-th leaf, pruning
  a subtree, and how expansion changes the paths.
- `Forest` (forest.dfy): the class `Root`, with an `array` of four optional nodes
  and the `depth` field. Its methods `PopulateRoot`, `GeneratePaths`, `Prune`,
  `IncreaseSearchDepth` and `GenerateTree` update the root in place. Each states
  its new state as a function of the old one.
- `Search` (search.dfy): the driver that `main` runs for each ordering, and the
  report filters. The proof compares every stage with a reference tree `Ideal`,
  built straight from the checker. It shows that the finished search is sound
  and complete.
- `Dedup` (dedup.dfy): the in-place `RemoveDuplicates` and the sequence
  function it computes.

Both orderings use one method: an `Ordering` parameter picks the letter table and
the checker. This replaces the duplicated `...WithHeuristic` functions.

How the orderings relate. The heuristic table lacks one natural constraint,
A != B. Its only check on B is |F - B| = 1. Over all integers the heuristic
table is therefore strictly weaker: every full assignment the natural table
accepts, reordered, is accepted by the heuristic table
(`NaturalImpliesHeuristic`), and `TablesDifferOutsideDomain` gives an integer
assignment where the converse fails. Over the domain 1..4, the remaining
constraints already force A != B, so both tables accept exactly the same complete
assignments (`TablesAgreeOnDomain`). `SameSolutions` states the same fact from
the heuristic side: a heuristic-order assignment in 1..4 passes every heuristic
check exactly when the same variables, put back in A..H order by `Unreorder`,
pass every natural check. Since `Search.Search` reports as valid exactly the
assignments that pass every check, both orderings find the same solutions, up to
the order of the variables.

## Model

| member | source | states |
|---|---|---|
| Constraints.LetterAt | csp.go:11-31 | depths 1..8 map to a one-letter name; any other depth gives "" (a missing map key) |
| Constraints.HeuristicPositionsMatchLetters | csp.go:22-31 | position k of the heuristic ordering binds the same letter as natural position HeuristicPositions[k] |
| Constraints.AbsoluteValue | csp.go:357-362 | the result is non-negative and equals a or -a |
| Constraints.CheckConstraints | csp.go:208-274 | the natural checker passes every length it has no case for (1, 3, above 8) and at length 2 fails exactly when A = B; NaturalChecks gives the full table |
| Constraints.CheckConstraintsUsingSelectionHeuristic | csp.go:290-354 | the heuristic checker passes every length it has no case for (1, above 8) and at length 2 fails exactly when H = F; HeuristicChecks gives the full table |
| Constraints.UncheckedLengthsPass | csp.go:208-354 | lengths with no case pass: 1, 3 and above 8 for the natural checker; 1 and above 8 for the heuristic one |
| Constraints.PairCheckAgrees | csp.go:211-214 | at length 2 both checkers fail exactly when the first two values are equal |
| Constraints.SingleValuePasses | csp.go:208-354 | a path of one node passes under either ordering |
| Constraints.AllPassExtend | csp.go:121-129 | if every proper prefix passes and the whole assignment passes, then every prefix passes |
| Constraints.AllPassPrefix | csp.go:121-129 | every prefix of an assignment whose prefixes all pass has the same property |
| Constraints.Reorder | csp.go:276-288 | rewrites an A..H assignment in the order H, F, G, D, E, C, A, B, position by position |
| Constraints.NaturalChecks | csp.go:208-274 | every prefix passes the natural checker iff all eighteen natural constraints hold |
| Constraints.HeuristicChecks | csp.go:290-354 | every prefix of the reordered assignment passes the heuristic checker iff seventeen constraints hold, stated on A..H |
| Constraints.NaturalImpliesHeuristic | csp.go:208-354 | a full assignment the natural table accepts, reordered, is accepted by the heuristic table |
| Constraints.HeuristicLacksOnlyAB | csp.go:208-354 | the natural table accepts exactly what the heuristic table accepts and also has A != B |
| Constraints.TablesDifferOutsideDomain | csp.go:211-214 | over the integers the converse fails: (0,0,0,4,2,1,-1,0) meets every heuristic check but has A = B |
| Constraints.TablesAgreeOnDomain | csp.go:208-354 | over values in 1..4, both tables accept exactly the same full assignments |
| Constraints.Unreorder | csp.go:276-288 | the inverse of Reorder: it puts a heuristic-order assignment back into A..H order |
| Constraints.SameSolutions | csp.go:208-354 | over values in 1..4, a heuristic-order assignment passes every heuristic check exactly when its A..H form passes every natural check |
| Tree.NewNode | csp.go:51-59 | a new node is a live childless node with the given letter and value 0 |
| Tree.IsFrontier | csp.go:153 | the test the recursive expansion makes: a node with no children whose tombstone is not set |
| Tree.MarkTombstone | csp.go:70-72 | the tombstone becomes true; the variable and children stay as they were |
| Tree.MarkTombstoneIdempotent | csp.go:70-72 | marking twice is the same as marking once |
| Tree.Layer | csp.go:142-148 | exactly four live, childless children with the given letter and values 1, 2, 3, 4, in that order |
| Tree.WithLayer | csp.go:142-148 | the node keeps its variable, its tombstone and its old children, followed by the four new children for values 1..4 |
| Tree.AddVariableLayer | csp.go:142-148 | the loop appends the layer one child per step, ending at WithLayer |
| Tree.Grow | csp.go:151-161 | expansion keeps each node's variable and tombstone |
| Tree.GrowSkipsTombstone | csp.go:152-154 | a tombstoned leaf never gains children through the recursive expansion |
| Tree.RecursivelyAddVariableLayer | csp.go:151-161 | the recursive method computes Grow |
| Tree.ExpandTopAgreesWhenLive | csp.go:171-177 | top-level expansion equals the recursive rule for a live node; a tombstoned childless top-level node still gains four children |
| Tree.ExpandTop | csp.go:171-176 | the top-level dispatch keeps the node's variable and tombstone, never drops children, and gives a childless node exactly the four-child layer whether or not it is dead |
| Traversal.MarkLast | csp.go:126 | only the last entry's tombstone changes, to true; the values stay the same |
| Traversal.Paths | csp.go:93-110 | exactly one path per leaf, dead or alive |
| Traversal.PathsIn | csp.go:103-108 | a child list has as many paths as its leaves |
| Traversal.PathsExtendPrefix | csp.go:97-106 | each path below a node is the prefix followed by the node and more entries |
| Traversal.PathsInExtendPrefix | csp.go:103-106 | each path of a child list extends the prefix |
| Traversal.PathsInMember | csp.go:103-107 | a path of a child list is a path of one of the children |
| Traversal.PathsInIncludes | csp.go:103-107 | every path of every child is a path of the child list |
| Traversal.PathsAreBranches | csp.go:93-110 | every enumerated path is the prefix followed by a branch: consecutive entries are parent and child, from the node down to a leaf |
| Traversal.BranchesArePaths | csp.go:93-110 | every such branch is enumerated |
| Traversal.CollectPaths | csp.go:93-110 | the recursive closure appends exactly the node's paths, in depth-first, left-to-right order |
| Traversal.MarkLeaf | csp.go:126 | marking a leaf keeps the node's variable and number of children |
| Traversal.MarkLeafPaths | csp.go:126 | marking the k-th leaf sets the tombstone at the end of the k-th path and changes no other path |
| Traversal.MarkLeafShape | csp.go:126 | marking a leaf changes no variable and no structure |
| Traversal.LeafCountOfShape | csp.go:121-129 | the leaf count depends only on the shape |
| Traversal.PathsDetermineTree | csp.go:121-129 | a tree is determined by its shape together with its paths |
| Traversal.PruneTree | csp.go:121-129 | pruning keeps every node's variable and number of children |
| Traversal.PrunePaths | csp.go:124-128 | pruning keeps the number of paths |
| Traversal.PruneOne | csp.go:125-127 | one round of the prune loop keeps the path's length, values and every entry but the last; the last node ends dead exactly when it was dead or the path fails the checker |
| Traversal.PruneTreePaths | csp.go:121-129 | after pruning, each path is the old path, with the last node marked exactly when the checker rejects the path |
| Traversal.PruneTreeShape | csp.go:121-129 | pruning changes nothing but leaf tombstones |
| Traversal.PruneTreeIdempotent | csp.go:121-129 | a second prune of an unchanged tree marks nothing new |
| Traversal.GrowTreePaths | csp.go:151-161 | expansion replaces each path to a live leaf by its four one-step extensions with values 1..4 and keeps every other path |
| Forest.ForestPaths | csp.go:111-115 | the tree has one path per leaf: slot 0's paths first, then slot 1's, and so on |
| Forest.ForestMember | csp.go:111-115 | every path lies below an occupied slot and starts at that slot's top-level node |
| Forest.ForestIncludes | csp.go:111-115 | every path below every occupied slot is a path of the tree |
| Forest.ForestPathsAreBranches | csp.go:88-116 | the paths are exactly the branches of the occupied slots' nodes, so empty slots add nothing |
| Forest.Locate | csp.go:126 | the k-th leaf lies in an occupied slot, at an ordinal equal to k minus the leaves of the earlier slots |
| Forest.ForestMarkPaths | csp.go:126 | marking the k-th leaf of the tree marks the end of the k-th path and changes no other path |
| Forest.ForestMarkShape | csp.go:126 | marking a leaf leaves the shape of the tree unchanged |
| Forest.ForestDetermine | csp.go:121-129 | the four slots are determined by their shape together with their paths |
| Forest.PruneForest | csp.go:121-129 | pruning keeps the number of slots |
| Forest.PruneForestPaths | csp.go:121-129 | the paths after pruning are the old paths, each one marked at its end exactly when it fails |
| Forest.PruneForestShape | csp.go:121-129 | pruning changes only leaf tombstones |
| Forest.PruneForestIdempotent | csp.go:121-129 | pruning twice is the same as pruning once |
| Forest.PrunedUpToStep | csp.go:124-128 | round i of the loop replaces the i-th path, still unpruned, by its pruned form |
| Forest.PruneStep | csp.go:124-128 | marking the i-th leaf exactly when the i-th path fails advances the prune loop by one round and keeps the shape |
| Forest.ExpandForest | csp.go:171-177 | every top-level node is expanded, and every slot stays occupied |
| Forest.Root.constructor | csp.go:423 | a zero root has four empty slots and depth 0 |
| Forest.Root.PopulateRoot | csp.go:62-68 | slot i holds a fresh live childless node with the given letter and value i + 1 |
| Forest.Root.GeneratePaths | csp.go:88-116 | returns exactly ForestPaths of the four slots |
| Forest.Root.MarkPathLeaf | csp.go:126 | sets the tombstone of the last node of the k-th path, and nothing else |
| Forest.Root.Prune | csp.go:121-139 | the loop over a snapshot of the paths leaves the tree equal to PruneForest of the old tree |
| Forest.Root.IncreaseSearchDepth | csp.go:165-193 | at depth 8 it does nothing; otherwise depth goes up by exactly 1 and every top-level node is expanded with the ordering's letter for the new depth |
| Forest.Root.GenerateTree | csp.go:76-84 | one prune, then one expansion |
| Search.Ideal | csp.go:76-79 | the reference node for a partial assignment: it carries the ordering's letter for its level and the assignment's last value |
| Search.IdealForest | csp.go:33-36 | the reference root has all four slots occupied |
| Search.IdealStart | csp.go:423-425 | the populated root at depth 1 is the reference tree of depth 1 |
| Search.IdealPrune | csp.go:121-129 | pruning a reference subtree checks its deepest level and changes nothing else |
| Search.IdealForestPrune | csp.go:121-129 | pruning turns the unchecked reference tree into the checked one |
| Search.IdealGrow | csp.go:151-161 | expanding a checked reference subtree gives the unchecked one a level deeper |
| Search.IdealGrowInner | csp.go:151-161 | the same, for a passing node above the deepest level |
| Search.IdealGrowLeaf | csp.go:142-154 | the same, for a passing node at the deepest level, which gains the layer |
| Search.IdealForestGrow | csp.go:165-178 | the top-level expansion does the same for the whole root |
| Search.IdealPathsSound | csp.go:427-429 | every path of a reference subtree is labelled level by level and stays in the domain; its proper prefixes pass; it ends short of the deepest level only where it fails; its leaf is dead exactly when checked and failing |
| Search.IdealPathsSoundBelow | csp.go:427-429 | the same facts, for a path through a child |
| Search.IdealLeafPath | csp.go:427-429 | the same facts, for a path that ends at the node itself |
| Search.IdealPathsComplete | csp.go:427-429 | every domain assignment whose proper prefixes pass is the value sequence of some path |
| Search.IdealForestSound | csp.go:427-429 | the soundness facts for every path of the reference root |
| Search.IdealForestComplete | csp.go:427-429 | the completeness fact for the reference root |
| Search.LastLetterOnlyAtEight | csp.go:11-31 | the letters of each table are distinct, so only depth 8 carries the last letter (H, or B for the heuristic table) |
| Search.ValidPaths | csp.go:383-409 | the valid-path report keeps exactly the paths ending in a live node with the ordering's last letter (H or B) |
| Search.IsValidPath | csp.go:387 | the filter of the valid-path report: a non-empty path that ends in a live node carrying the ordering's last letter (H, or B at csp.go:401) |
| Search.Dead | csp.go:415 | the test of the invalid-path report: the path's last node is tombstoned |
| Search.CountInvalid | csp.go:411-420 | the invalid-path count is at most the number of paths |
| Search.CountInvalidSnoc | csp.go:413-418 | the counting loop adds one exactly for each dead path it meets |
| Search.CountInvalidCounts | csp.go:411-420 | the invalid-path count equals the number of positions holding a path whose last node is dead |
| Search.ReportsAddUp | csp.go:383-420 | when a path is valid exactly when its leaf is alive, the two reports cover every path exactly once |
| Search.FinishedPath | csp.go:427-432 | in the finished tree, a leaf is dead iff its path fails, and a path is valid iff it has length 8 and all its prefixes pass |
| Search.FinishedTree | csp.go:383-432 | over the paths of the finished tree: every path is labelled and in the domain; a leaf is dead iff its path fails; a path is valid iff it binds all eight variables and every prefix passes; every live leaf ends a path of length 8; every passing assignment in 1..4 appears as a valid path; the two reports add up to the number of paths |
| Search.Search | csp.go:422-443 | after eight passes the depth is 8 and the enumerated paths are those of the checked reference tree of depth 8, with every property of FinishedTree |
| Dedup.Dedup | csp.go:370-381 | no longer than the input, with the same elements |
| Dedup.DedupDistinct | csp.go:370-381 | the result has no duplicates |
| Dedup.DedupFirstOccurrences | csp.go:370-381 | the result is a subsequence in the same relative order, each element taken at its first occurrence |
| Dedup.DedupOfDistinct | csp.go:370-381 | input without repetitions is unchanged |
| Dedup.DedupIdempotent | csp.go:370-381 | removing duplicates twice is the same as once |
| Dedup.RemoveDuplicates | csp.go:370-381 | the in-place compaction with write index j leaves Dedup of the input in the first len cells |

## Left out

- Printing: `PrintValidPaths`, `PrintValidPathsWithHeuristic`, `ReportInvalidPaths` and `String` write to standard output. Only their filters are modelled (`IsValidPath`, `ValidPaths`, `CountInvalid`).
- `main` is modelled only as the pattern of calls it makes (`Search.Search`, once per ordering). It has no output.
- `NewVariable` is the datatype constructor `Variable(letter, value)`. It has no contract of its own.
- Pointer identity and aliasing: nodes are values, and each in-place update returns the updated node. `paths[i][len-1].MarkTombstone()` reaches the leaf through a pointer. The model marks the i-th leaf in left-to-right order instead. `ForestMarkPaths` proves this is the leaf that ends the i-th path.
- The `root == nil` test in `IncreaseSearchDepth`: a Dafny method is never called on a null object.
- A nil top-level slot makes the expansion dereference a nil pointer and panic. `IncreaseSearchDepth` and `GenerateTree` require every slot to be occupied instead (unless the depth is already 8). `GeneratePaths` handles empty slots as the code does.
- A nil child inside a `Children` slice is never created by the engine, so it is not modelled. A nil and an empty `Children` slice are both the empty sequence.
- `maximumDepth` is declared but never read. The code hard-codes 8, and so does the model.
- Constraints.AbsoluteValue: does not model 64-bit wrap-around at the most negative `int`. The engine only passes differences of values in 1..4, where no wrap-around can happen. Go's `int` is likewise modelled as an unbounded integer everywhere else.
- Dedup.RemoveDuplicates: the slice re-cut `*nodes = (*nodes)[:j]` is modelled as returning the new length. The cells after it are left unspecified. The `map[*Node]bool` becomes a set of elements compared with `==`.
- Memory and running time (4^depth growth, repeated full enumeration) are not modelled.
