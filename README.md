# mattools, modelled in Dafny

mattools is a small suite of command-line tools for square distance matrices
in PHYLIP format, as produced by sequence-comparison programs. A matrix has a
list of names, `size * size` row-major values and, optionally, as many
coverages. The tools share a `matrix` class with iterators over all cells and
over the strict lower triangle, and a helper that lists the names two matrices
share. On top of it they:

- reformat and validate matrices (`mat format`), parse and print PHYLIP text;
- build a neighbour-joining tree (`mat nj`) and give each inner branch a
  quartet support value (exhaustive or sampled four-point tests);
- subtract matrices (`diff`, `mat diff`) and combine two matrices
  (`combine`);
- measure how far two or more matrices are apart (`compare`, `mat compare`:
  the measures `p1`, `p2`, `rel` and `delta2`);
- run a Mantel test between two matrices (`mantel`, `mat mantel`): lower-
  triangle mean and standard deviation, normalisation, the statistic, random
  row/column permutations and the p-value;
- select the rows whose names match a pattern (`mat grep`).

The model works on a value type `Matrices.Matrix` (names, flat values,
optional coverages). Algorithms that the program runs as loops over buffers
are `method`s over `array`/`array2` working copies or loops over sequences, each
proved equal to a specification function; the properties the tools promise
are lemmas about those functions. C `double` results that can be `0/0` are the
datatype `Wrappers.Double = Num(v) | NaN`; operations the program ends with
`errx` or an exception return `Option`/`Result`. Where `normalize` divides
by a standard deviation of 0, the Mantel statistics are computed over
`Floats.Float`, a double with both infinities and NaN and IEEE 754's rules
for them. Square roots are not taken:
a standard deviation is a parameter characterised by its square, and
`p2`/`rmsd` are modelled by their radicands.

Modules: `Wrappers`, `Names` (string order, sorting, `common_names`,
`make_index_map`), `Matrices` (the matrix class and `sample2`), `Cursors`
(the square and lower-triangle iterators), `NeighborJoining`, `Quartets`,
`MatFormat`, `Phylip`, `Diff`, `MatDiff`, `Combine`, `Compare`, `MatCompare`,
`Floats` (the special values of doubles), `Mantel`, `MatMantel`, `Grep`.

## Model

| member | source | states |
|---|---|---|
| Wrappers.Quotient | src/compare.cxx:27-42 | a sum divided by a pair count is NaN exactly when the count is 0, and otherwise times the count gives the sum back |
| Wrappers.QuotientIsShare | src/nj.cxx:488 | a part divided by a whole it does not exceed lies in [0, 1] and is 0 when the part is 0 |
| Names.LessTrichotomy | src/matrix.h:527-531 | the string order `std::sort` and `std::set_intersection` use is a strict total order: exactly one of a<b, b<a, a==b |
| Names.Insert | src/matrix.h:527 | inserting a name into a sorted list keeps it sorted and adds exactly that name to its multiset |
| Names.Sort | src/matrix.h:527-528 | sorting a name list gives a sorted permutation of it |
| Names.SortMembers | src/matrix.h:527-528 | sorting neither adds nor loses a name |
| Names.IntersectSound | src/matrix.h:529-531 | every name the intersection emits is in both ranges, and it is no longer than either |
| Names.IntersectSorted | src/matrix.h:529-531 | intersecting a sorted range gives a sorted range |
| Names.IntersectComplete | src/matrix.h:529-531 | a name present in both sorted ranges is emitted |
| Names.IntersectSymmetric | src/matrix.h:529-531 | the merge walk gives the same result with its two ranges swapped |
| Names.CommonNames | src/matrix.h:521-534 | `common_names` is sorted, holds exactly the names both lists contain, and is no longer than either list |
| Names.CommonNamesSymmetric | src/matrix.h:521-534 | `common_names(a, b) == common_names(b, a)` |
| Names.IntersectUnique | src/matrix.h:529-531 | without repeats in one input the intersection has no repeats |
| Names.SortUnique | src/matrix.h:527 | sorting a list without repeats leaves none |
| Names.UniqueCount | src/matrix.h:42-44 | in a list without repeats every name occurs at most once |
| Names.CommonNamesUnique | src/matrix.h:521-534 | the common names of a list without repeats have no repeats |
| Names.LastIndex | src/matrix.h:42-44 | the index a name map keeps for a present name is a position holding that name |
| Names.LastIndexIsLast | src/matrix.h:42-44 | no later position holds the name, since the last assignment to `ret[container[i]]` wins |
| Names.FirstIndex | src/matrix.h:232-237 | the first position holding a present name (where `sample2`'s loops first meet it) |
| Names.IndexMapLast | src/matrix.h:37-46 | the keys of `make_index_map` are exactly the listed names, each mapped to its last index |
| Names.IndexMapUnique | src/matrix.h:37-46 | with unique names the index map inverts the list |
| Names.MakeIndexMap | src/matrix.h:37-46 | the loop `ret[container[i]] = i` builds that map |
| Names.IndexMapBounds | src/matrix.h:37-46 | a listed name is a key of the index map and its index lies inside the list |
| Names.KeepPresentMembers | src/mat-compare.cxx:44-71 | the names of `self` found in `other`'s index map are exactly the shared names, in `self` order |
| Names.KeepPresentMembersMap | src/mat-compare.cxx:44-71 | the same for any map: the kept names are those of `self` that are keys |
| Names.KeepPresentUnique | src/mat-compare.cxx:44-71 | keeping the present names of a list without repeats leaves none |
| Names.SelfOrderCommon | src/mat-compare.cxx:44-71 | the self-ordered common names are no more than `self`'s and are exactly the shared ones |
| Names.CommonInSelfOrder | src/mat-compare.cxx:44-71 | the filtering loop over `self`'s names computes them |
| Names.Prefix | src/mat-format.cxx:143-145 | the first `n` bytes of a name, or all of it when shorter: what `a.compare(0, 10, b, 0, 10)` compares, and what the `%-10.10s` column and the 100-byte buffer of `to_string` (src/matrix.cxx:46-58) keep |
| Matrices.NewMatrix | src/matrix.h:69-71 | the two-argument constructor: a valid matrix with the given names and values and no coverages |
| Matrices.NewMatrixWithCoverages | src/matrix.h:79-89 | the three-argument constructor keeps values and coverages |
| Matrices.Row | src/matrix.h:128-161 | `row(i)` .. `row_end(i)` is exactly row `i`: cell `j` of it is `entry(i, j)` |
| Matrices.CovEntry | src/matrix.h:197-207 | `cov_entry` throws ("no coverages.", here None) exactly when there are no coverages, and otherwise reads the coverage at `i*size+j` |
| Matrices.EntryByName | src/matrix.h:91-99 | `entry(a, b)` fails (`out_of_range`) exactly when a name is absent, and otherwise reads the cell at the last indices of the two names |
| Matrices.LookupThroughMap | src/matrix.h:91-99 | reading `entry(i, j)` at the indices the name map gives equals reading by name |
| Matrices.Project | src/matrix.h:223-241 | `sample2` gives a valid matrix named by the list, without coverages, whose cell (p,q) is `self.entry(list[p], list[q])` for the last positions of their names and 0 otherwise |
| Matrices.ProjectByName | src/matrix.h:223-241 | every pair of listed names reads in the sample what it reads in `self` |
| Matrices.ProjectOwnNames | src/matrix.h:223-241 | sampling a matrix onto its own unique names in their order gives the matrix back |
| Matrices.Sample2 | src/matrix.h:223-241 | the nested loops of `sample2` fail exactly when a listed name is absent and otherwise build the projection |
| Cursors.BeforeTransitive | src/matrix.h:421-430 | the iterator order is transitive |
| Cursors.BeforeTrichotomy | src/matrix.h:421-430 | the iterator order is a strict total order on positions |
| Cursors.SquareNext | src/matrix.h:256-263 | `next` moves one column right, or to column 0 of the next row at the end of a row |
| Cursors.SquareWalk | src/matrix.h:256-263 | the k-th step of the square walk from `begin` is the cell at row-major position k |
| Cursors.SquareWalkEnds | src/matrix.h:256-283 | for size > 0 the walk from `begin` meets `end` after exactly size*size steps |
| Cursors.SquareEmpty | src/matrix.h:275-283 | over an empty matrix `begin == end` |
| Cursors.SquareWalkIncreasing | src/matrix.h:256-263 | the square walk is strictly increasing in iterator order, so it never revisits a cell |
| Cursors.SquarePrevWithinRow | src/matrix.h:265-273 | within a row `prev` undoes `next` |
| Cursors.SquarePrevOvershoots | src/matrix.h:265-273 | across a row break `prev` lands on column `size`, outside the matrix (see Findings) |
| Cursors.SquarePrevFixedInverts | src/matrix.h:256-273 | with the last column `size-1`, `prev` and `next` invert each other on every cell |
| Cursors.SquareCursor.Begin | src/matrix.h:275-278 | `begin(size)` stands at (0,0) |
| Cursors.SquareCursor.End | src/matrix.h:280-283 | `end(size)` stands at (size,0) |
| Cursors.SquareCursor.Next | src/matrix.h:256-263 | the iterator object advances by `next` |
| Cursors.SquareCursor.Prev | src/matrix.h:265-273 | the iterator object steps back by `prev` as written |
| Cursors.TriangleIsHalfProduct | src/matrix.h:299-326 | the number of strict-lower cells above row n is n(n-1)/2 |
| Cursors.TriangleMono | src/matrix.h:299-326 | that number grows with n |
| Cursors.LowerNext | src/matrix.h:299-306 | `next` in the lower triangle moves right, or to column 0 of the next row on reaching the diagonal |
| Cursors.LowerWalk | src/matrix.h:299-321 | the k-th step from `begin` = (1,0) is the k-th strict-lower cell in row-major order |
| Cursors.TrianglePosInjective | src/matrix.h:299-306 | distinct strict-lower cells have distinct walk positions |
| Cursors.LowerWalkVisits | src/matrix.h:299-321 | every strict-lower cell is visited, at step Triangle(i)+j |
| Cursors.LowerWalkEnds | src/matrix.h:299-326 | for size >= 1 the walk stays in the matrix and meets `end` = (size,0) after exactly size(size-1)/2 steps |
| Cursors.LowerWalkMissesEmptyEnd | src/matrix.h:318-326 | for size 0, `end` = (0,0) lies before `begin` and the walk never meets it (see Findings) |
| Cursors.LowerWalkEndsFixed | src/matrix.h:318-326 | with the end moved to `begin` for size < 2, every size takes size(size-1)/2 steps |
| Cursors.LowerPrevInverts | src/matrix.h:299-316 | `prev` undoes `next` on every strict-lower cell |
| Cursors.LowerNextInverts | src/matrix.h:299-316 | `next` undoes `prev` on every strict-lower cell other than `begin` |
| Cursors.LowerWalkIncreasing | src/matrix.h:299-306 | the lower-triangle walk is strictly increasing in iterator order |
| Cursors.LowerCursor.Begin | src/matrix.h:318-321 | `begin(size)` stands at (1,0) |
| Cursors.LowerCursor.End | src/matrix.h:323-326 | `end(size)` stands at (size,0) |
| Cursors.LowerCursor.Next | src/matrix.h:299-306 | the iterator object advances by `next` |
| Cursors.LowerCursor.Prev | src/matrix.h:308-316 | the iterator object steps back by `prev` |
| NeighborJoining.LeavesInRange | src/nj.cxx:332-341 | every leaf index found below a node of a well-formed pool is a matrix row |
| NeighborJoining.LeavesStable | src/nj.cxx:176 | appending a node to the pool does not change the leaves below an existing node |
| NeighborJoining.Divergences | src/nj.cxx:143-148 | `r[i]` times `n-2` is the sum of the first `n` entries of active row `i` |
| NeighborJoining.FirstMinUnique | src/nj.cxx:150-164 | at most one pair is the first strict minimum of `M(i,j) - r[i] - r[j]` in row-major order |
| NeighborJoining.ScanMinKeepsInvariant | src/nj.cxx:153-164 | the scan, from any position where its invariant holds, ends on the first minimum |
| NeighborJoining.ScanMinIsFirstMin | src/nj.cxx:150-164 | the scan started with (0,1) kept ends on the first minimum over all off-diagonal pairs |
| NeighborJoining.Pick | src/nj.cxx:150-169 | the joined pair has `min_i < min_j < n` and is the first minimum in one of its two orders |
| NeighborJoining.Joined | src/nj.cxx:180-211 | the shrunk block is `(n-1) x (n-1)` and holds the rewritten cells |
| NeighborJoining.Join | src/nj.cxx:142-214 | one round shrinks the active block by one and adds one node to the pool |
| NeighborJoining.JoinBranchLengths | src/nj.cxx:171-174 | the new node's children are the two joined nodes and its branch lengths add up to their distance |
| NeighborJoining.JoinKeepsSymmetry | src/nj.cxx:196-211 | a symmetric active block with a zero diagonal stays so after a round |
| NeighborJoining.JoinNewRow | src/nj.cxx:180-199 | the new node's distance to every other active node is `(M(i,m) + M(j,m) - M(i,j)) / 2`, in row and column `min_i` |
| NeighborJoining.Range | src/nj.cxx:133-136 | the leaf indices `0 .. size-1` |
| NeighborJoining.JoinKeepsArena | src/nj.cxx:171-178 | a round keeps the pool well formed and binary and the active handles in range |
| NeighborJoining.LeafSets | src/nj.cxx:130-136 | the leaf sets below the active nodes, slot by slot |
| NeighborJoining.JoinLeaves | src/nj.cxx:171-178 | after a round slot `min_i` covers both joined subtrees and slot `min_j` takes what the last slot covered |
| NeighborJoining.JoinKeepsDisjoint | src/nj.cxx:171-178 | the subtrees of the active nodes stay pairwise disjoint |
| NeighborJoining.JoinKeepsCover | src/nj.cxx:171-178 | together they still cover every leaf |
| NeighborJoining.JoinKeepsPartition | src/nj.cxx:171-178 | a round keeps the leaf partition |
| NeighborJoining.Run | src/nj.cxx:142-214 | the loop ends with three active nodes after adding `n-3` nodes |
| NeighborJoining.RunKeepsPartition | src/nj.cxx:142-214 | the whole loop keeps the leaf partition |
| NeighborJoining.Rows | src/nj.cxx:139 | the working copy's active block holds the matrix entries |
| NeighborJoining.Start | src/nj.cxx:124-141 | the loop starts with every row active and a leaf per row |
| NeighborJoining.StartGood | src/nj.cxx:124-141 | the start state partitions the leaves |
| NeighborJoining.RootBranchLengths | src/nj.cxx:216-222 | the root's three branch lengths reproduce the three remaining pairwise distances |
| NeighborJoining.PoolOf | src/nj.cxx:114 | the returned pool has `2 * size` slots |
| NeighborJoining.NJ | src/nj.cxx:122-228 | `nj` returns a pool of `2 * size` slots and a root |
| NeighborJoining.NJTreeShape | src/nj.cxx:122-228 | `nj` fills `2n-3` slots, and the three subtrees of the root are disjoint and hold every leaf |
| NeighborJoining.NJPoolShape | src/nj.cxx:122-228 | the returned pool is a well-formed binary tree whose root refers to used slots |
| NeighborJoining.Tree.constructor | src/nj.cxx:106-117 | the tree object holds its size, pool and root |
| NeighborJoining.ComputeDivergences | src/nj.cxx:143-148 | the loop stores the divergence of every active row and nothing else |
| NeighborJoining.SelectPair | src/nj.cxx:150-169 | the scan and swap return the pair `Pick` describes |
| NeighborJoining.NewRow | src/nj.cxx:180-194 | `row_k` holds the new node's distances, 0 at `min_i` and the last row's value at `min_j` |
| NeighborJoining.CopyRow | src/nj.cxx:198 | the `memmove` of `row_k` replaces row `min_i` and nothing else |
| NeighborJoining.MoveRow | src/nj.cxx:199 | the `memmove` of the last row replaces row `min_j` and nothing else |
| NeighborJoining.MirrorColumn | src/nj.cxx:204-211 | a column takes the values of its row and nothing else changes |
| NeighborJoining.Rewrite | src/nj.cxx:180-211 | the working copy afterwards holds the shrunk block `Joined` |
| NeighborJoining.Round | src/nj.cxx:142-214 | one iteration on the arrays mirrors `Join` |
| NeighborJoining.Agglomerate | src/nj.cxx:142-214 | the loop on the arrays mirrors `Run` |
| NeighborJoining.Leaves0 | src/nj.cxx:124-136 | the pool starts with a leaf in each of the first `size` slots and blanks after, and every leaf is unjoined |
| NeighborJoining.BuildTree | src/nj.cxx:122-228 | `nj` on arrays builds exactly the pool and root of the specification |
| NeighborJoining.FourSpeciesPick | src/nj.cxx:143-169 | on four species at distances 2 (A,B) and 4 otherwise, the divergences are 5,5,6,6 and A,B are joined |
| NeighborJoining.FourSpecies | src/nj.cxx:122-228 | that example yields the node (A,B) with branches 1 and 1 and a root with branches 1, 2 and 2 |
| Quartets.Painted | src/nj.cxx:332-341 | `colorize` paints exactly the leaves below a handle and leaves the rest; a null handle changes nothing |
| Quartets.Colours | src/nj.cxx:310-314 | the buffer built for a quartet test has one colour per leaf |
| Quartets.ColoursExact | src/nj.cxx:310-314 | with disjoint subtrees a leaf is A, B or C exactly when it lies below that subtree, and D otherwise |
| Quartets.ProductIsMul | src/nj.cxx:389-390 | the counting product is multiplication |
| Quartets.TallyDCount | src/nj.cxx:471-482 | the innermost loop counts one quartet per D leaf and at most that many against the split |
| Quartets.TallyCCount | src/nj.cxx:468-484 | the loop over C counts `|C| * |D|` quartets |
| Quartets.TallyBCount | src/nj.cxx:465-485 | the loop over B counts `|B| * |C| * |D|` quartets |
| Quartets.TallyACount | src/nj.cxx:462-486 | `quartet_counter` is `|A| * |B| * |C| * |D|` and bounds `non_supporting_counter` |
| Quartets.Complement | src/nj.cxx:488 | `1 - x` keeps NaN and otherwise adds up with `x` to 1 |
| Quartets.FullSupportRange | src/nj.cxx:454-489 | the full support is NaN exactly when a class is empty, otherwise lies in [0, 1], and is 1 when no quartet contradicts the split |
| Quartets.SupportFull | src/nj.cxx:454-489 | the four nested loops compute that support |
| Quartets.AgainstCount | src/nj.cxx:438-449 | no more drawn quartets are against the split than were drawn |
| Quartets.SampledSupportRange | src/nj.cxx:379-452 | a sampled support is NaN only for an empty sample and lies in [0, 1] otherwise |
| Quartets.ClassSizes | src/nj.cxx:384-387 | the loop counts the leaves of each colour |
| Quartets.SupportSample | src/nj.cxx:379-452 | `support_sample`, given the drawn quartets, falls back to the full support when fewer quartets exist than asked for and otherwise scores the draws |
| Quartets.ArenaSameShape | src/nj.cxx:316 | storing supports keeps the pool well formed |
| Quartets.LeavesSameShape | src/nj.cxx:316 | storing supports does not change the leaves below any node |
| Quartets.ColoursSameShape | src/nj.cxx:316 | so the buffers later nodes build are unaffected by earlier stores |
| Quartets.Supported | src/nj.cxx:306-330 | the two support passes change only the supports of a node, and nothing of a leaf |
| Quartets.AllSupported | src/nj.cxx:343-353 | `quartet_all` keeps the tree shape and changes only the inner slots `size .. 2*size-3` |
| Quartets.RootSupported | src/nj.cxx:355-368 | at the root only the three supports change |
| Quartets.ColorizeNode | src/nj.cxx:332-341 | the traversal paints exactly the leaves below the node |
| Quartets.Colorize | src/nj.cxx:332-341 | `colorize` on arrays computes `Painted` |
| Quartets.QuartetBuffer | src/nj.cxx:310-314 | the buffer filled before `support_fn` is `Colours` |
| Quartets.QuartetLeft | src/nj.cxx:306-317 | `quartet_left` returns nothing when the left child is null or a leaf, and otherwise the support of A,B below the left child against C on the right |
| Quartets.QuartetRight | src/nj.cxx:319-330 | `quartet_right` returns nothing when the left child is null or the right child is a leaf, and otherwise the mirrored support |
| Quartets.SupportNode | src/nj.cxx:350-353 | the two passes store their supports into one slot and change nothing else |
| Quartets.QuartetAll | src/nj.cxx:343-369 | `quartet_all` leaves the pool equal to `AllSupported` and the root to `RootSupported` |
| MatFormat.CloseEnoughSelf | src/mat-format.cxx:32-34 | with a positive tolerance an entry is close to itself exactly when it is not negative |
| MatFormat.CloseEnoughNotSymmetric | src/mat-format.cxx:32-34 | `close_enough` is not symmetric: 0.5 is close to 1 at tolerance 0.5, but 1 is not close to 0.5 |
| MatFormat.CloseEnoughZero | src/mat-format.cxx:32-34 | for a tolerance in [0,1) only 0 itself is close to 0 |
| MatFormat.Clamp | src/mat-format.cxx:93-101 | the first pass leaves no negative entry and keeps the others |
| MatFormat.Cleaned | src/mat-format.cxx:93-110 | after the first two passes a cell is non-negative and the diagonal is 0 |
| MatFormat.Fixed | src/mat-format.cxx:87-127 | `fix` keeps names and coverages and replaces every entry by its fixed value |
| MatFormat.FixedEntries | src/mat-format.cxx:87-127 | a fixed matrix has no negative entry and a zero diagonal; a pair that is close enough keeps its clamped entries, any other pair gets their average in both cells |
| MatFormat.FixIdempotent | src/mat-format.cxx:87-127 | with a non-negative tolerance, fixing a fixed matrix changes nothing |
| MatFormat.ClampNegatives | src/mat-format.cxx:93-101 | the first loop clamps every cell |
| MatFormat.ZeroDiagonal | src/mat-format.cxx:104-110 | the second loop zeroes the diagonal and nothing else |
| MatFormat.AverageAsymmetric | src/mat-format.cxx:113-124 | the third loop gives every cell the value its pair decides, from the cells before the loop |
| MatFormat.Fix | src/mat-format.cxx:87-127 | the three loops on a copy compute `Fixed` |
| MatFormat.PrefixBetween | src/mat-format.cxx:143-158 | a name sorting between two names with the same ten-byte prefix has that prefix too |
| MatFormat.SortedClashAdjacent | src/mat-format.cxx:147-158 | in a sorted list, two names that compare the same imply two neighbours that do |
| MatFormat.TwoPositions | src/mat-format.cxx:147-158 | a name occurring twice occupies two positions |
| MatFormat.ClashByCount | src/mat-format.cxx:147-158 | whether two names clash depends only on the multiset of names |
| MatFormat.SortKeepsClash | src/mat-format.cxx:148-149 | sorting the names neither creates nor hides a clash |
| MatFormat.CheckNames | src/mat-format.cxx:143-158 | the neighbour check finds a duplicate (or duplicate ten-byte prefix) exactly when two names clash |
| MatFormat.NoAdjacentClash | src/mat-format.cxx:147-158 | when no two sorted neighbours clash, no two names clash |
| MatFormat.CheckZeros | src/mat-format.cxx:160-170 | the zero check fails exactly when a strict-lower entry is close to 0, and names such a cell |
| MatFormat.CheckTriangles | src/mat-format.cxx:172-188 | the triangle check fails exactly when some `d(i,j) > d(i,k)+d(j,k)` is not close enough, for `k<j<i`, and names such a triple |
| MatFormat.Validate | src/mat-format.cxx:137-191 | `validate` returns the matrix unchanged exactly when no names clash, no strict-lower entry is close to 0 and no triangle is violated; each error names an offending cell |
| MatFormat.ZeroBelowExact | src/mat-format.cxx:160-165 | for a tolerance in [0,1) only an exact zero below the diagonal aborts |
| MatFormat.Unescape | src/mat-format.cxx:57-78 | a first character other than a backslash is returned as it is |
| MatFormat.UnescapeTable | src/mat-format.cxx:62-77 | a backslash sequence gives the character of the escape table, and `?` for any other letter |
| MatFormat.SortByName | src/mat-format.cxx:42-48 | `sort` names the matrix in ascending order and every pair of names reads the same entry as before |
| MatFormat.FormatOne | src/mat-format.cxx:289-306 | `validate` switches on `fix`; with it the matrix passes exactly when the fixed matrix is valid; without `sort` the result is the fixed (or the original) matrix; with it the names are sorted and every pair of names keeps the entry the fixed (or the original) matrix has for it |
| Phylip.Limit | src/matrix.cxx:171-190 | the first line may carry `size` values; in lower-triangle layout line `i` carries `i` values, or `i+1` with the diagonal |
| Phylip.FirstBad | src/matrix.cxx:173-196 | the first line that is missing or too long, or none |
| Phylip.LineNames | src/matrix.cxx:182-192 | the names of the first `size` lines, in input order |
| Phylip.Layout | src/matrix.cxx:145-210 | a successful read gives a valid `size x size` matrix without coverages |
| Phylip.LayoutEntries | src/matrix.cxx:183-207 | its entries are what the lines supplied, mirrored in lower-triangle layout, and 0 where a line stops short |
| Phylip.LayoutOutcome | src/matrix.cxx:150-196 | size 0 is an error, too few lines a parse error; reading succeeds exactly when the size is in range and no line is bad, with the names in input order |
| Phylip.LayoutShape | src/matrix.cxx:198-207 | in lower-triangle layout the result is symmetric; in full layout it is what the lines say |
| Phylip.LayoutDiagonal | src/matrix.cxx:171-196 | without diagonal values no diagonal cell is read after the first line, so those entries are 0 |
| Phylip.PlaceRow | src/matrix.cxx:194-195 | one line's values are copied to the start of its row and nothing else changes |
| Phylip.MirrorLower | src/matrix.cxx:200-207 | the upper triangle takes the lower triangle's values |
| Phylip.PlaceLines | src/matrix.cxx:173-196 | the line loop stops at the first bad line and otherwise collects the names and fills the rows |
| Phylip.Assemble | src/matrix.cxx:145-210 | reading on arrays gives `Layout` |
| Phylip.Digit | src/matrix.cxx:53 | a decimal digit is one of '0'..'9' |
| Phylip.Decimal | src/matrix.cxx:53 | `std::to_string` of the size is digits without a leading zero |
| Phylip.DecimalRoundTrip | src/matrix.cxx:53 | the size line reads back as the size |
| Phylip.Buffered | src/matrix.cxx:48-57 | the 100-byte buffer keeps at most 99 bytes |
| Phylip.LeftJustified | src/matrix.cxx:46 | `%-10s` pads with spaces to at least ten bytes and keeps the text |
| Phylip.NameCell | src/matrix.cxx:46-58 | the name column is 10 to 99 bytes, exactly 10 when truncating, and starts with the shown part of the name |
| Phylip.CountAppend | src/matrix.cxx:56-65 | counting a character in a concatenation adds up |
| Phylip.CountZero | src/matrix.cxx:56-65 | a character is counted 0 times exactly when absent |
| Phylip.CellCount | src/matrix.cxx:61-62 | a rendered number free of a character stays free of it in the buffer |
| Phylip.RowSeparators | src/matrix.cxx:59-63 | a row carries exactly one separator per cell and no newline |
| Phylip.NameCellCount | src/matrix.cxx:57-58 | a name free of a character other than the padding gives a name column free of it |
| Phylip.LineCounts | src/matrix.cxx:57-64 | one line holds a single newline and one separator per cell |
| Phylip.BodyCounts | src/matrix.cxx:56-65 | `k` lines hold `k` newlines and `k*size` separators |
| Phylip.AllLineCounts | src/matrix.cxx:56-65 | every line holds one newline and `size` separators |
| Phylip.FormattedCounts | src/matrix.cxx:39-68 | the text is the size line plus exactly `size` lines holding `size` separators each |
| Phylip.AppendRow | src/matrix.cxx:59-63 | the cell loop appends the row's cells |
| Phylip.AppendLine | src/matrix.cxx:57-64 | one pass appends the name column, the cells and a newline |
| Phylip.AppendBody | src/matrix.cxx:56-65 | the line loop appends every row |
| Phylip.Format | src/matrix.cxx:39-68 | `format` builds `Formatted`: the size line, then one line per row |
| Diff.Difference | src/diff.cxx:26-43 | `diff` is named by the sorted common names, has no coverages, and holds the cellwise difference of the two projections |
| Diff.DifferenceByName | src/diff.cxx:26-43 | a pair of names has a cell in the result exactly when both names are in both matrices, and that cell is `self(a,b) - other(a,b)` |
| Diff.DifferenceSelf | src/diff.cxx:26-43 | a matrix differs from itself by 0 everywhere |
| Diff.DifferenceAntisymmetric | src/diff.cxx:26-43 | swapping the arguments keeps the names and negates every cell |
| Diff.StepLeft | src/diff.cxx:38 | a square walk that has not reached `end` stands on a cell inside the matrix at its row-major position |
| Diff.WalkAtEnd | src/diff.cxx:38 | a square walk standing on `end` has taken all `size*size` steps |
| Diff.Subtract | src/diff.cxx:35-40 | the three-iterator loop stores `self - other` in every cell |
| Diff.DiffMatrices | src/diff.cxx:26-43 | `diff` computes `Difference` |
| MatDiff.PairDifference | src/mat-diff.cxx:43-69 | the result is named by `self`'s names found in `other`, in `self` order, with the pair difference in every cell |
| MatDiff.PairDifferenceShape | src/mat-diff.cxx:55-66 | the result is symmetric with a zero diagonal, and above the diagonal holds `self(a,b) - other(a,b)` by name |
| MatDiff.FillRow | src/mat-diff.cxx:60-65 | the inner loop fills row `i` right of the diagonal and its mirror |
| MatDiff.DiffInSelfOrder | src/mat-diff.cxx:43-69 | `diff` computes `PairDifference` |
| Combine.Max | src/combine.cxx:77 | `std::max` is at least both arguments and one of them |
| Combine.Combined | src/combine.cxx:46-83 | the result is named by `self`'s names found in `other`, in `self` order, without coverages, with the chosen value in every cell |
| Combine.CombinedShape | src/combine.cxx:58-80 | the result is symmetric, has a zero diagonal and no coverages |
| Combine.CombinedChoice | src/combine.cxx:65-78 | with coverages on both sides the first value wins exactly when its coverage is strictly higher; otherwise the larger value wins |
| Combine.CombineSelf | src/combine.cxx:46-83 | combining a matrix with itself gives its upper triangle, mirrored |
| Combine.Pick | src/combine.cxx:64-78 | one pair, read through the index maps, gives the choice |
| Combine.FillRow | src/combine.cxx:63-79 | the inner loop fills row `i` right of the diagonal and its mirror |
| Combine.CombineMatrices | src/combine.cxx:46-83 | `combine` computes `Combined` |
| Compare.Abs | src/compare.cxx:38 | `fabs` is non-negative and is the value or its negation |
| Compare.Add | src/compare.cxx:34-39 | IEEE addition: NaN absorbs everything, infinity absorbs finite values, finite values add |
| Compare.AbsQuotient | src/compare.cxx:84-86 | `abs(d / f)` is NaN for 0/0, infinite for a non-zero value over 0, and `|d/f|` otherwise |
| Compare.Sq | src/compare.cxx:64-65 | a square is never negative |
| Compare.DifferencesSymmetric | src/compare.cxx:27-71 | the `p1` and `p2` terms do not depend on the order of their arguments |
| Compare.RelativeTermsSymmetric | src/compare.cxx:73-114 | neither do the `rel` and `delta2` terms |
| Compare.TermsNonNegative | src/compare.cxx:27-114 | no term is a negative value, and the `p1` and `p2` terms are always finite |
| Compare.DifferencesOnEqualValues | src/compare.cxx:27-71 | equal values contribute 0 to `p1` and `p2` |
| Compare.AllDifferencesOnEqualValues | src/compare.cxx:27-71 | the same for every value |
| Compare.RelativeTermsOnEqualValues | src/compare.cxx:73-114 | equal non-zero values contribute 0 to `rel` and `delta2`, and a pair of zeros contributes NaN |
| Compare.AllTermsNonNegative | src/compare.cxx:27-114 | no term is negative, for all arguments |
| Compare.AllDifferencesSymmetric | src/compare.cxx:27-71 | the `p1` and `p2` terms are symmetric for all arguments |
| Compare.AllRelativeTermsSymmetric | src/compare.cxx:73-114 | the `rel` and `delta2` terms are symmetric for all arguments |
| Compare.LowerStep | src/matrix.h:299-326 | every step of the lower-triangle walk short of its length stands on a strict-lower cell |
| Compare.WalkSumNonNegative | src/compare.cxx:37-39 | summing terms that are never negative gives a total that is never negative |
| Compare.WalkSumFinite | src/compare.cxx:37-39 | summing finite terms gives a finite total |
| Compare.WalkSumSwap | src/compare.cxx:37-39 | with a symmetric term the total does not depend on which matrix is walked first |
| Compare.WalkSumZero | src/compare.cxx:37-39 | terms that are all 0 give 0 |
| Compare.WalkSumNaN | src/compare.cxx:37-39 | one NaN term makes every later total NaN |
| Compare.SumsNonNegative | src/compare.cxx:27-114 | every sum of the four terms is never negative |
| Compare.Accumulate | src/compare.cxx:34-41 | the loop over the lower triangle with a second iterator sums the term over every strict-lower cell |
| Compare.Share | src/compare.cxx:68-70 | `dist / n` of a non-negative sum is NaN exactly for a NaN sum or 0/0, and the quotient otherwise |
| Compare.ShareOfZero | src/compare.cxx:68-70 | a total of 0 over a positive count is 0 |
| Compare.Projected | src/compare.cxx:29-32 | both projections are named by the sorted common names |
| Compare.PairCountPositive | src/compare.cxx:68 | the pair count `k(k-1)/2` is positive exactly from two names on |
| Compare.MeasuresNonNegative | src/compare.cxx:53-93 | the sums divided by the pair count are never negative |
| Compare.Rel | src/compare.cxx:73-93 | `rel` is NaN exactly when a pair gives 0/0 or fewer than two names are shared, and otherwise is never negative |
| Compare.P1Finite | src/compare.cxx:27-42 | `p1` is a finite value that is never negative |
| Compare.P2SquaredDefined | src/compare.cxx:53-71 | the mean squared difference is NaN exactly when fewer than two names are shared, and otherwise finite and not negative |
| Compare.Delta2NonNegative | src/compare.cxx:95-114 | `delta2` is never negative |
| Compare.DifferenceMeasuresSymmetric | src/compare.cxx:27-71 | `p1` and the mean squared difference are the same with the two matrices swapped |
| Compare.RelativeMeasuresSymmetric | src/compare.cxx:73-114 | `rel` and `delta2` are the same with the two matrices swapped |
| Compare.ProjectedByName | src/matrix.h:223-241 | the projection onto unique names holds the by-name values off the diagonal |
| Compare.DifferenceSumsOnSelf | src/compare.cxx:34-39 | the `p1` and `p2` sums of a matrix against itself are 0 |
| Compare.NormsOnSelf | src/compare.cxx:27-71 | a matrix is at distance 0 from itself under `p1`, and under `p2` from two names on |
| Compare.RelativeSumsOnSelf | src/compare.cxx:73-114 | without a zero distance between distinct names, the `rel` and `delta2` sums of a matrix against itself are 0 |
| Compare.RelativeMeasuresOnSelf | src/compare.cxx:73-114 | without a zero distance between distinct names, a matrix is at relative distance 0 from itself |
| Compare.NaNAtCell | src/compare.cxx:37-39 | a NaN term at any strict-lower cell makes the whole sum NaN |
| Compare.ZeroPairTerms | src/compare.cxx:84-86 | both relative terms of a pair of zeros are 0/0 |
| Compare.Delta2ZeroPair | src/compare.cxx:95-114 | a pair of shared names at distance 0 in both matrices makes `delta2` NaN |
| Compare.RelZeroPair | src/compare.cxx:73-93 | the same pair makes `rel` NaN |
| Compare.Sampled | src/compare.cxx:29-32 | the shared prologue computes the two projections |
| Compare.PairCount | src/compare.cxx:68 | the pair count is `size(size-1)/2`, and 0 for an empty list |
| Compare.P1Norm | src/compare.cxx:27-42 | `p1_norm` computes `P1` |
| Compare.P2Norm | src/compare.cxx:53-71 | `p2_norm` computes the mean squared difference, before the square root |
| Compare.RelNorm | src/compare.cxx:73-93 | `rel` computes `Rel` |
| Compare.Delta2Norm | src/compare.cxx:95-114 | `delta2` computes `Delta2` |
| MatCompare.RowSumNonNegative | src/mat-compare.cxx:62-67 | the inner loop adds up to a value that is never negative when the terms are not |
| MatCompare.PairSumNonNegative | src/mat-compare.cxx:60-68 | so does the outer loop |
| MatCompare.RowSumFinite | src/mat-compare.cxx:62-67 | finite terms give a finite row sum |
| MatCompare.PairSumFinite | src/mat-compare.cxx:60-68 | finite terms give a finite total |
| MatCompare.RowSumOnSelf | src/mat-compare.cxx:62-67 | a matrix against itself leaves the running total unchanged for a term that is 0 on equal values |
| MatCompare.PairTermByName | src/mat-compare.cxx:64-66 | reading the two cells through the index maps is reading them by name |
| MatCompare.PairSumOnSelf | src/mat-compare.cxx:60-68 | and 0 in total |
| MatCompare.P1Properties | src/mat-compare.cxx:44-71 | `p1_norm` is a finite value that is never negative, and 0 between a matrix and itself |
| MatCompare.P2Defined | src/mat-compare.cxx:82-110 | the mean squared difference is NaN exactly when a single name is shared, otherwise finite and never negative |
| MatCompare.P2Properties | src/mat-compare.cxx:82-110 | the mean squared difference is NaN exactly when a single name is shared, otherwise finite and never negative, and 0 between a matrix and itself |
| MatCompare.RelUndefined | src/mat-compare.cxx:112-142 | `rel` is NaN exactly when a pair gives 0/0 or a single name is shared |
| MatCompare.AccumulateRow | src/mat-compare.cxx:62-67 | the inner loop adds the terms of the pairs `(i, j)` with `j > i` |
| MatCompare.Accumulate | src/mat-compare.cxx:46-68 | the index maps, the self-ordered common names and the nested loops compute the sum over all pairs |
| MatCompare.P1Norm | src/mat-compare.cxx:44-71 | `p1_norm` computes `P1` |
| MatCompare.P2Norm | src/mat-compare.cxx:82-110 | `p2_norm` computes the mean squared difference, before the square root |
| MatCompare.RelNorm | src/mat-compare.cxx:112-142 | `rel` computes `Rel` |
| MatCompare.ComparisonNames | src/mat-compare.cxx:203-206 | the comparison matrix is named `M1 .. Mk` |
| MatCompare.MatrixNameInjective | src/mat-compare.cxx:204-206 | distinct numbers give distinct names |
| MatCompare.ComparisonNamesUnique | src/mat-compare.cxx:204-206 | no two input matrices get the same name |
| MatCompare.ComparisonShape | src/mat-compare.cxx:208-215 | the comparison matrix is symmetric, has a zero diagonal, and cell (i,j) for i<j holds `p2_norm(ms[j], ms[i])`, the write that stays |
| MatCompare.WrittenStep | src/mat-compare.cxx:211-213 | one iteration changes only the cells (i,j) and (j,i), to the measure of `ms[i]` against `ms[j]` |
| MatCompare.WritePair | src/mat-compare.cxx:211-213 | one iteration of the inner loop, on the array |
| MatCompare.FillComparisonRow | src/mat-compare.cxx:210-214 | the inner loop for row `i` |
| MatCompare.FillComparison | src/mat-compare.cxx:209-215 | the nested loops leave every cell equal to `ComparisonCell` |
| MatCompare.MatCompareMain | src/mat-compare.cxx:188-220 | fewer than two matrices is an error; otherwise `rel` of the first two, or with `--full` the comparison matrix of all of them |
| Mantel.LowerMean | src/mantel.cxx:40-63 | the lower-triangle average is 0/0 (NaN) for fewer than two names, and otherwise times the pair count `n(n-1)/2` gives the sum of the strict lower triangle |
| Mantel.LowerTriangleAvg | src/mantel.cxx:40-53 | the nested loops over `j < i` compute that average |
| Mantel.LowerTriangleAvgIt | src/mantel.cxx:55-63 | the accumulation over the lower-triangle iterator computes the same average |
| Mantel.DeviationSumNonNegative | src/mantel.cxx:67-72 | the sum of squared deviations is never negative |
| Mantel.DeviationSumZero | src/mantel.cxx:67-72 | the squared deviations add up to 0 exactly when every value of the walk is the average |
| Mantel.ZeroDeviationIsConstant | src/mantel.cxx:65-77 | with at least three names the standard deviation is 0 exactly when every strict-lower cell holds the average |
| Mantel.ScaledSquareZero | src/mantel.cxx:75-76 | `sd^2 (n(n-1)/2 - 1)` is 0 exactly when the non-negative `sd` is, the count being positive |
| Mantel.WalkIsLowerTriangle | src/mantel.cxx:67-72 | the lower-triangle walk sees only the average exactly when every strict-lower cell holds it |
| Mantel.LowerTriangleDeviations | src/mantel.cxx:65-77 | the accumulation of `lower_triangle_stddvt` sums `(value - avg)^2` over the strict lower triangle and is never negative |
| Mantel.Standardized | src/mantel.cxx:87-88 | the normalised value times `sd` is the value less the average |
| Mantel.Normalized | src/mantel.cxx:79-91 | `normalize` keeps names and coverages and maps every cell, the diagonal included, to `(value - avg) / sd` |
| Mantel.NormalizedValue | src/mantel.cxx:79-91 | the walk over the normalised matrix sees the shifted and scaled values |
| Mantel.ShiftStep | src/mantel.cxx:79-91 | adding one shifted, scaled value keeps the scaled running sum in step |
| Mantel.ScaledSeqSum | src/mantel.cxx:79-91 | when every value is shifted by the average and scaled, the scaled sum is the sum less the count times the average |
| Mantel.LowerSumIsSeqSum | src/mantel.cxx:55-62 | the running total of the lower-triangle walk is the sum of the values it visits |
| Mantel.StandardizedScaled | src/mantel.cxx:87-88 | standardised values, scaled back, sum to the original sum less the count times the average |
| Mantel.NormalizedMeanZero | src/mantel.cxx:79-91 | a normalised matrix has lower-triangle average 0 |
| Mantel.StandardizedSumZero | src/mantel.cxx:79-91 | values standardised against their own average sum to 0 |
| Mantel.CenteredIsZero | src/mantel.cxx:79-91 | a scaled sum of deviations from the mean is 0 |
| Mantel.RowTotalAgree | src/mantel.cxx:99-107 | pair sums of two terms that agree on every pair agree (row part) |
| Mantel.PairTotalAgree | src/mantel.cxx:99-107 | pair sums of two terms that agree on every pair agree |
| Mantel.RowTotalNonNegative | src/mantel.cxx:118-127 | a row of non-negative terms sums to a non-negative value |
| Mantel.PairTotalNonNegative | src/mantel.cxx:118-127 | all pairs of non-negative terms sum to a non-negative value |
| Mantel.RowTotalZero | src/mantel.cxx:118-127 | a row of zero terms sums to 0 |
| Mantel.PairTotalZero | src/mantel.cxx:118-127 | all pairs of zero terms sum to 0 |
| Mantel.SumPairs | src/mantel.cxx:99-107 | the `i < j` accumulator loops sum the term over every pair |
| Mantel.Z | src/mantel.cxx:93-110 | `Z` sums `self(a,b) * other(a,b)` over the pairs of sorted common names |
| Mantel.ZSymmetric | src/mantel.cxx:93-110 | `Z` does not depend on the order of its arguments |
| Mantel.MeanSquare | src/mantel.cxx:112-131 | the square of `rmsd` is NaN exactly for a single name, and otherwise never negative |
| Mantel.Rmsd | src/mantel.cxx:112-131 | `rmsd`'s loops compute that mean square |
| Mantel.RmsdZero | src/mantel.cxx:112-131 | matrices that agree on every pair of `self`'s names have `rmsd` 0 |
| Mantel.Identity | src/mantel.cxx:152-153 | `std::iota` fills the index vector with `0 .. size-1`, a permutation |
| Mantel.TrialValue | src/mantel.cxx:162-174 | a trial statistic is 0/0 exactly for a single name, and otherwise never negative |
| Mantel.Trial | src/mantel.cxx:162-174 | one trial's loops compute the mean squared difference under the index vector |
| Mantel.IdentityTrial | src/mantel.cxx:148-174 | with distinct names, the unshuffled index vector reproduces the observed statistic, NaN included |
| Mantel.CountAtLeast | src/mantel.cxx:177-180 | no more trials reach a value than there are trials |
| Mantel.AscendingCons | src/mantel.cxx:177 | a value no larger than the head of an ascending sequence can go in front |
| Mantel.InsertReal | src/mantel.cxx:177 | one insertion step keeps the sequence ascending and adds exactly the value |
| Mantel.SortReals | src/mantel.cxx:177 | `std::sort` on the trial values gives an ascending permutation |
| Mantel.InsertCount | src/mantel.cxx:177-180 | inserting a value adds one to the count it reaches |
| Mantel.SortKeepsCount | src/mantel.cxx:177-180 | sorting keeps the number of trials at least the observation |
| Mantel.LowerBound | src/mantel.cxx:178 | `std::lower_bound` splits an ascending sequence into the values below `x` and those not below it |
| Mantel.TailCount | src/mantel.cxx:178-180 | past the lower bound lie exactly the values at least `x` |
| Mantel.PValue | src/mantel.cxx:177-180 | the p-value is NaN only without trials, and otherwise lies in [0, 1] and times the trial count is the number of trials at least the observation |
| Mantel.CountNotBelowNumbers | src/mantel.cxx:177-180 | over numbers, the trials not below the observation are those at least the observation |
| Mantel.TailShare | src/mantel.cxx:177-180 | the p-value over statistics that may be NaN: NaN only without trials, otherwise in [0, 1], and times the trial count the number of trials not below the observation |
| Mantel.TailShareOfNumbers | src/mantel.cxx:177-180 | over numbers that share is the real-valued p-value |
| Mantel.TailShareOfNaN | src/mantel.cxx:177-180 | against a NaN observation every trial counts, so the share is 1 |
| Mantel.TailShareOf | src/mantel.cxx:177-180 | sort, lower bound and division compute that share, with the bound at the first trial against NaN |
| Mantel.TailFraction | src/mantel.cxx:177-180 | sort, lower bound and division compute that p-value |
| Mantel.AllAtLeast | src/mantel.cxx:177-180 | when every trial reaches the observation, all of them count |
| Mantel.AllReach | src/mantel.cxx:177-180 | then the p-value is 1 |
| Mantel.Prepared | src/mantel.cxx:137-146 | both matrices compared are named by the sorted common names; without normalising, or with a zero deviation, they are the projections themselves |
| Mantel.TrialValues | src/mantel.cxx:159-175 | `montecarlo` holds one trial value per run, in order |
| Mantel.Prepare | src/mantel.cxx:137-146 | `sample2` onto the common names, then `normalize` when asked |
| Mantel.RunTrials | src/mantel.cxx:159-175 | the run loop pushes the trial values in order |
| Mantel.MantelTest | src/mantel.cxx:133-181 | `mantel` returns the share of trials not below the observation, a number in [0, 1], from one common name on, a zero standard deviation included |
| Mantel.IdentityTrialsTie | src/mantel.cxx:148-180 | with distinct names, trials under the identity all tie with the observation, so p is 1 |
| Mantel.IdentityShufflesGiveOne | src/mantel.cxx:133-181 | if every shuffle left the index vector in order, `mantel` returns 1 |
| Mantel.SingleNameGivesOne | src/mantel.cxx:133-181 | with one common name the observation and every trial are 0/0, and `mantel` returns 1 |
| Mantel.NormalizedCell | src/mantel.cxx:79-91 | the cell `normalize` writes is an infinity or NaN (`x / 0`) exactly when the deviation is 0, and otherwise the cell of `Mantel.Normalized` |
| Mantel.FlatRmsd | src/mantel.cxx:112-131 | `rmsd`'s loops over the cells as doubles compute its mean square |
| Mantel.FlatTrialHuge | src/mantel.cxx:162-174 | with a zero deviation on either side every trial is plus infinity or NaN |
| Mantel.FlatTrialValues | src/mantel.cxx:159-175 | `montecarlo` over the cells as doubles holds one trial value per run, in order |
| Mantel.FlatRunTrials | src/mantel.cxx:159-175 | the run loop over the cells as doubles pushes those values in order |
| Mantel.FlatTrialsNotBelow | src/mantel.cxx:177-180 | with a zero deviation no trial compares below any observation |
| Mantel.FlatGivesOne | src/mantel.cxx:133-181 | normalising a projection with a constant lower triangle makes `mantel` return 1 |
| Floats.DivZero | src/mantel.cxx:87-88 | a finite value over 0 is never finite: NaN exactly for 0, plus infinity exactly for a positive value |
| Floats.Sub | src/mantel.cxx:168 | a difference is finite exactly when both operands are, then the real difference; NaN absorbs |
| Floats.Mul | src/mantel.cxx:169 | a product is finite exactly when both factors are, then the real product; NaN absorbs and an infinity times 0 is NaN |
| Floats.Add | src/mantel.cxx:169 | a sum is finite exactly when both operands are, then the real sum; NaN absorbs |
| Floats.Over | src/mantel.cxx:173-174 | dividing by a positive count keeps an infinity or NaN and otherwise gives the value that times the count is the sum |
| Floats.NeverBelow | src/mantel.cxx:178 | nothing compares below NaN, and plus infinity or NaN compares below nothing |
| Floats.SquareOfNonFinite | src/mantel.cxx:168-169 | the square of an infinity or NaN is plus infinity or NaN |
| Floats.AddPairs | src/mantel.cxx:162-171 | the `i < j` accumulator loops in doubles compute the pair sum, added in loop order |
| Floats.RowFoldAgree | src/mantel.cxx:164-171 | pair sums of two terms that agree on every pair agree (row part) |
| Floats.PairFoldAgree | src/mantel.cxx:164-171 | pair sums of two terms that agree on every pair agree |
| Floats.RowFoldHuge | src/mantel.cxx:164-171 | adding a row of huge terms to 0 or to a huge value gives a huge value, or the start when the row is empty |
| Floats.PairFoldHuge | src/mantel.cxx:164-171 | the running sum of huge terms is 0 before the first row and huge after it |
| Floats.UpperSumHuge | src/mantel.cxx:164-171 | with at least one pair a sum of huge terms is huge |
| Floats.LastPairUndefined | src/mat-mantel.cxx:264-274 | the loops add the pair `(k-2, k-1)` last, so a NaN there makes the sum NaN |
| Floats.CountNotBelow | src/mantel.cxx:177-180 | no more trials are not below the observation than there are trials |
| Floats.AllNotBelow | src/mantel.cxx:177-180 | when no trial compares below the observation, all of them count |
| Floats.Share | src/mantel.cxx:177-180 | the p-value over doubles is NaN only without trials, otherwise in [0, 1], and times the trial count the number of trials not below the observation |
| Floats.FirstBound | src/mantel.cxx:177-180 | when no trial is below the observation, `lower_bound` stops at the first trial whatever the order, and the division gives that share |
| Floats.ShareOfOne | src/mantel.cxx:177-180 | when no trial is below the observation the share is 1 |
| MatMantel.MakeRandomIndexMap | src/mat-mantel.cxx:173-188 | the shuffled vector is empty, so the map is exactly `make_index_map`'s: every listed name, mapped to its last index |
| MatMantel.NormalizeRow | src/mat-mantel.cxx:242-244 | the inner loop normalises row `i` and leaves the later rows alone |
| MatMantel.NormalizeCells | src/mat-mantel.cxx:229-248 | the nested loops over every cell of a copy compute `Mantel.Normalized` |
| MatMantel.Z | src/mat-mantel.cxx:250-277 | `Z` sums `self(a,b) * other(a,b)` over the pairs of `self`'s names that `other` has, in `self` order |
| MatMantel.KeepAll | src/mat-mantel.cxx:257-262 | filtering names against a map that holds them all keeps every name |
| MatMantel.SelfOrderOnSameNames | src/mat-mantel.cxx:257-262 | on equal name lists the filtered names are those names |
| MatMantel.ZSelfNonNegative | src/mat-mantel.cxx:250-277 | `Z(m, m)` is a sum of squares, so never negative |
| MatMantel.IdentityTrial | src/mat-mantel.cxx:301-325 | with distinct names, the unshuffled index vector reproduces `Z` |
| MatMantel.LookupOwnName | src/mat-mantel.cxx:270-271 | with distinct names, looking up the names at positions a and b finds cell (a,b) |
| MatMantel.TrialValues | src/mat-mantel.cxx:311-326 | `montecarlo` holds one sum of products per run, in order |
| MatMantel.RunTrials | src/mat-mantel.cxx:311-326 | the run loop pushes those values in order |
| MatMantel.Prepare | src/mat-mantel.cxx:282-299 | `sample2` onto the sorted common names, then the nested-loop `normalize` when asked, gives the same pair as `mantel`'s, a zero deviation included |
| MatMantel.MantelTest | src/mat-mantel.cxx:279-332 | `mantel` returns the share of trials not below `Z`, a number in [0, 1], a zero standard deviation included |
| MatMantel.IdentityTrialsTie | src/mat-mantel.cxx:301-331 | with distinct names, trials under the identity all tie with `Z`, so p is 1 |
| MatMantel.IdentityShufflesGiveOne | src/mat-mantel.cxx:279-332 | if every shuffle left the index vector in order, `mantel` returns 1 |
| MatMantel.SingleNameGivesOne | src/mat-mantel.cxx:279-332 | with one common name `Z` and every trial are 0, and `mantel` returns 1 |
| MatMantel.FlatZ | src/mat-mantel.cxx:250-277 | `Z`'s loops over the cells as doubles compute its sum of products |
| MatMantel.FlatTrialValues | src/mat-mantel.cxx:311-326 | `montecarlo` over the cells as doubles holds one sum of products per run, in order |
| MatMantel.FlatRunTrials | src/mat-mantel.cxx:311-326 | the run loop over the cells as doubles pushes those values in order |
| MatMantel.ProjectSymmetric | src/mat-mantel.cxx:293-294 | `sample2` of a symmetric matrix is symmetric |
| MatMantel.FlatCellUndefined | src/mat-mantel.cxx:229-248 | on a symmetric matrix with a zero deviation every off-diagonal cell becomes `0 / 0`, NaN |
| MatMantel.NamedOwnCell | src/mat-mantel.cxx:270-271 | with distinct names, the cell named by the names at positions a and b is cell (a,b) |
| MatMantel.FlatIdentityTrial | src/mat-mantel.cxx:301-325 | over the cells as doubles too, the unshuffled index vector reproduces `Z` |
| MatMantel.FlatZUndefined | src/mat-mantel.cxx:250-277 | on symmetric matrices with distinct names, a zero deviation on either side makes `Z` NaN |
| MatMantel.FlatIdentityTrialsTie | src/mat-mantel.cxx:301-331 | over the cells as doubles, trials under the identity all tie with `Z`, so p is 1 |
| MatMantel.FlatSymmetricGivesOne | src/mat-mantel.cxx:279-332 | on symmetric matrices with distinct names, normalising a projection with a constant lower triangle makes `mantel` return 1 |
| Grep.Filter | src/mat-grep.cxx:44-47 | keeping the accepted indices gives no more than there were |
| Grep.FilterMembers | src/mat-grep.cxx:44-47 | the kept indices are exactly the accepted ones |
| Grep.FilterAscending | src/mat-grep.cxx:44-47 | `remove_if` keeps the relative order, so ascending indices stay ascending |
| Grep.Iota | src/mat-grep.cxx:40-41 | `std::iota` fills `0 .. size-1` |
| Grep.Kept | src/mat-grep.cxx:35-51 | the kept indices ascend and are exactly the rows whose name matches the pattern (does not match, with `invert`) |
| Grep.InvertComplement | src/mat-grep.cxx:44-47 | with `invert` a row is kept exactly when it is dropped without it |
| Grep.RemoveIf | src/mat-grep.cxx:44-47 | `std::remove_if` moves the kept elements, in order, to the front and returns the end of that prefix |
| Grep.GrepIndices | src/mat-grep.cxx:35-51 | the iota-filled vector compacted by `remove_if` holds the kept indices up to the split |

## Left out

- Name widths: a name is a `string` whose every character stands for one byte of the program's `std::string`. The ten-byte prefix of `validate` (src/mat-format.cxx:143-145), the `%-10s`/`%-10.10s` name column (src/matrix.cxx:46) and the 100-byte buffer (src/matrix.cxx:57) count bytes, so the model agrees with the program on names whose characters are single bytes (ASCII). A name holding multi-byte UTF-8 characters is not modelled as its bytes: the model would compare, pad and cut it by characters. Name order is unaffected, since `std::string` compares unsigned bytes and UTF-8 byte order is code-point order.
- Floating point: every `double` is an exact real. Rounding is not modelled. NaN appears only where a count of 0 divides an empty sum (`Wrappers.Double`), and in `Compare` also as the IEEE NaN and infinity of `rel` and `delta2` (`Compare.Value`).
- Square roots: `lower_triangle_stddvt`, `p2_norm` and `rmsd` end in `std::sqrt`. The model stops at the radicand. The p-value of `mantel` is unaffected, because `sqrt` is monotone on non-negative values.
- Mantel.Normalized: `sd` is a parameter, characterised by `Mantel.IsStdDev` (its square times `n(n-1)/2 - 1` is the sum of squared deviations), rather than computed with `sqrt`.
- Mantel.MantelTest: the `std::shuffle` draws of `ProperlySeededRandomEngine` are a parameter, the sequence of index vectors the 100000 runs leave. The same holds for MatMantel.MantelTest and `std::mt19937`.
- Mantel.MantelTest: requires at least one common name. With none, `size - 1` wraps around in the trial loop. With exactly one the test runs and returns 1 (`Mantel.SingleNameGivesOne`).
- MatMantel.MantelTest: requires at least one common name, for the same wrap-around in `Z` and the trial loop. With exactly one it returns 1 (`MatMantel.SingleNameGivesOne`).
- Mantel.MantelTest: when normalising, requires at least three common names and the standard deviations of both projections, 0 included. With fewer, `lower_triangle_stddvt` divides by `n(n-1)/2 - 1 <= 0`, and the NaN or infinite entries that follow are not modelled.
- MatMantel.MantelTest: the same requirement when normalising, for the same reason.
- Mantel.Prepare: with a standard deviation of 0 the `x / 0` cells `normalize` writes are not held in a matrix of reals. The projections are kept, and `Mantel.NormalizedCell` gives those cells as doubles to the statistics. The same holds for Mantel.Prepared and MatMantel.Prepare.
- Mantel.MantelTest: with a standard deviation of 0 every trial is plus infinity or NaN, so `lower_bound` stops at the first trial whatever order `std::sort` leaves; the sort itself is not modelled on that path.
- MatMantel.MantelTest: with a standard deviation of 0 the statistics can mix NaN and both infinities, and `std::sort` then has no strict weak order. The model counts the trials that do not compare below `Z` rather than modelling the order the sort leaves. That p is 1 is proved (`MatMantel.FlatSymmetricGivesOne`) only for symmetric matrices with distinct names, where `Z` is NaN.
- Floats.Add, Floats.Sub, Floats.Mul: finite results are exact reals, without rounding and without overflow to infinity, as everywhere in the model.
- Mantel.MeanSquare: requires at least one name, since `names.size() - 1` wraps around for none. It also requires every name of `self` to be in `other`; an absent name makes `entry` throw `out_of_range`.
- Mantel.ZValue, MatMantel.ZValue, MatDiff.PairDifference, Combine.Combined, MatCompare.Accumulate: require at least one common name, for the same unsigned wrap-around of `size() - 1`.
- MatCompare.MatCompareMain: with `--full`, requires every pair of input matrices to share a name, for the same reason.
- NeighborJoining.NJ: requires at least three names. With fewer, the root reads `unjoined_nodes` past its end.
- Quartets.SupportSample: the quartets that `std::default_random_engine` draws are a parameter, required to be `sample` distinct quartets with one leaf of each class. The `memcmp` order of `std::set` is not modelled, because the count does not depend on it.
- Quartets.QuartetAll: `support_fn` (full or sampled support over the distance matrix) is a parameter. The commented-out OpenMP pragma is not modelled.
- MatFormat.Validate: the `std::isnan` check is not modelled, since the model has no NaN entries. It requires at least one name; for none, `size - 1` wraps around.
- Phylip.Layout: Boost.Spirit tokenising is a parameter, the sequence of lines each with a name and its values. Parse errors are reported by line. The number grammar, whitespace rules and reading files or standard input (`parse_tolerant`, `parse_all`) are not modelled.
- Phylip.Format: the `printf` number format is a parameter `render`. `std::to_string` of the size is modelled.
- Grep.GrepIndices: stops at the kept indices. The index-based `sample` that `grep` hands them to is not part of this model; it is declared in a header that is not included. `std::regex_search` is a predicate parameter.
- Cursors.SquareCursor.Prev and Cursors.LowerCursor.Prev: stepping back from `begin` is excluded. For the square cursor the unsigned row would wrap; for the lower cursor the row becomes 0 and the column `row - 1` wraps (src/matrix.h:313-314).
- Compare.Accumulate, Mantel.LowerTriangleAvgIt, Mantel.LowerTriangleDeviations: the walks stop at `Cursors.LowerEndFixed`. On an empty matrix the program's own `end` is never reached (see Findings).
- The `full` mode of `mat mantel` is not modelled (a test per pair of input matrices, mantel.cxx:238-260 and mat-mantel.cxx:389-411), nor `to_newick`, option parsing, `main` functions, usage texts, `warnx` messages or the debug output on `std::cout`/`std::cerr`.
- `lower_triangle_avg`, `lower_triangle_avg_it` and `lower_triangle_stddvt` in mat-mantel.cxx (lines 190-227) are line for line those of mantel.cxx. They are modelled once, by `Mantel.LowerTriangleAvg`, `Mantel.LowerTriangleAvgIt` and `Mantel.LowerTriangleDeviations`. Likewise, its `lower_tr_iterator` (lines 29-144) is `Cursors.LowerCursor`.
- mat-mantel.cxx: `make_index_map` (lines 162-171), mat-diff.cxx (lines 32-41), combine.cxx (lines 34-44) and mat-compare.cxx (lines 32-41) are copies of `Names.MakeIndexMap`.

## Findings

| source | as written | input that shows it | evidently intended | confidence | as-written member | corrected member |
|---|---|---|---|---|---|---|
| src/matrix.h:265-273 | at column 0, `prev` of the square iterator moves to column `size` of the previous row | size 2, cell (1,0): `prev` gives (0,2), which is outside the matrix; `next` of (0,1) is (1,0) | column `size - 1`, so that `prev` inverts `next` | not executed; no caller steps back | Cursors.SquarePrevOvershoots | Cursors.SquarePrevFixedInverts |
| src/matrix.h:318-326 | over an empty matrix the lower-triangle `begin` is (1,0) and `end` is (0,0), so a loop from `begin` until `end` never stops (mat-mantel.cxx:134-143 has the same iterator) | two matrices without a common name, passed to `p1_norm` in compare.cxx (or any lower-triangle loop over a size-0 matrix) | an empty walk: `end` equal to `begin` when `size < 2` | not executed | Cursors.LowerWalkMissesEmptyEnd | Cursors.LowerWalkEndsFixed |
