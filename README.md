# Verified model of a competitive-programming library core

This project models in Dafny the data structures and number-theory and
linear-algebra routines of a C++ competitive-programming library, and proves
what each of them computes:

- **Dynamic line container** (`data-structure/cht/dynamic_convex_hull_trick.cpp`).
  An ordered multiset of lines `a*x + b`, stored negated, whose thresholds
  record where each line stops being the highest. `add` repairs the hull in
  place and `get(x)` returns the least value any added line takes at `x`.
  This is the `ConvexHullTrick.LineContainer` class, with geometry in
  `LineGeometry`.
- **Lazy segment tree** (`data-structure/lazy_segment_tree.cpp`).
  Heap-indexed `node`/`lazy` vectors with `push`, recursive `update` and
  `fold`, and `operator[]`. It is instantiated with the min monoid acted on
  by addition (`MinAdd`), and is the `LazySegmentTree.LazySegTree` class.
- **Range-update Fenwick tree** (`data-structure/range_fenwick_tree.cpp`).
  Two Fenwick arrays whose combination gives prefix sums under range adds
  (`RangeFenwick`).
- **Sparse table** (`data-structure/sparse_table.cpp`), a doubling table
  folded with two overlapping windows. It is instantiated with `min`
  (`SparseTableMin`).
- **Disjoint sparse table** (`data-structure/disjoint_sparse_table.cpp`).
  Per-level suffix and prefix folds around block midpoints. It is
  instantiated with `+` (`DisjointSparseTableSum`). The order in which it
  combines elements is modelled over the free monoid of words
  (`DisjointFoldOrder`).
- **Prime utilities** (`math/prime.cpp`): 6k±1 trial division, the odd
  sieve and trial-division factorisation (`Prime`).
- **Garner's algorithm** (`math/garner.cpp`): mixed-radix Chinese
  remaindering (`Garner`). `mod_inv` is `ModArith.ModInv`.
- **Matrix utilities** (`math/matrix/matrix.cpp`): `concat`, `+=`, `-=`,
  `+`, `-`, `transpose`, `matmul`, Gauss-Jordan `rref`, `rank` and
  `solve_system`, over exact reals (`MatrixClass.Matrix`). Their
  specifications live in `MatrixAlgebra`, `RowReduction` and `Solutions`.

Each C++ class is a Dafny `class` whose methods update its fields in place.
Each loop is a `while`/`for` loop with invariants. Every operation is proved
against a specification function, or an abstract view, of the old state:

- the brute-force minimum over all added lines;
- the abstract sequence of the segment trees;
- the prefix sum of the array a Fenwick tree stands for;
- `Product`, `Transposed` and the solution set of a linear system.

Shared helpers:

- `BitOps`: powers of two, `__builtin_clz` as `Log2`/`BitLength`, and
  `i & -i` as `Low`.
- `SeqSum`: sums of integer sequences.
- `Divisibility` and `ModArith`: divisibility, congruences, `gcd`,
  `extgcd` and `mod_inv`.

## Model

| member | source | states |
|---|---|---|
| LineGeometry.Isect | data-structure/cht/dynamic_convex_hull_trick.cpp:53-57 | the threshold `update` gives a line against its right neighbour: their crossing for distinct slopes, +oo or -oo for parallel lines according to the intercepts |
| LineGeometry.SidesOfThreshold | data-structure/cht/dynamic_convex_hull_trick.cpp:48-59 | of two lines in slope order, the left one is no lower up to their threshold and the right one is no lower after it |
| LineGeometry.OuterBetween | data-structure/cht/dynamic_convex_hull_trick.cpp:24-35 | for three lines in slope order, the outer pair's threshold lies between the two adjacent thresholds |
| LineGeometry.MiddleDominated | data-structure/cht/dynamic_convex_hull_trick.cpp:58 | when `update` reports `x->p >= y->p`, the middle line is nowhere above both of its neighbours, so erasing it is safe |
| LineGeometry.LastDominated | data-structure/cht/dynamic_convex_hull_trick.cpp:53-54 | a last line whose left neighbour has threshold +oo (equal slope, lower intercept) is nowhere above that neighbour |
| ConvexHullTrick.InsertPos | data-structure/cht/dynamic_convex_hull_trick.cpp:21 | `multiset::insert` puts a line after every line of slope at most its own and before every larger slope |
| ConvexHullTrick.FirstAtLeast | data-structure/cht/dynamic_convex_hull_trick.cpp:40 | `lower_bound(x)` is the first index whose threshold is not below `x` |
| ConvexHullTrick.QuerySelectsMaximum | data-structure/cht/dynamic_convex_hull_trick.cpp:40 | in a hull (sorted, exact and strictly increasing thresholds, last one +oo) the line `lower_bound(x)` selects has the largest stored value at `x` |
| ConvexHullTrick.EnvelopeIsMinimum | data-structure/cht/dynamic_convex_hull_trick.cpp:38-41 | with every added line under the stored envelope and every stored line an added one, minus the highest stored value is the minimum over the added lines |
| ConvexHullTrick.MinValueAppend | data-structure/cht/dynamic_convex_hull_trick.cpp:19-21 | one more added line lowers the brute-force minimum to its own value where that is lower, and nowhere else |
| ConvexHullTrick.EraseDominated | data-structure/cht/dynamic_convex_hull_trick.cpp:24-35 | erasing a line that is nowhere above both neighbours leaves the envelope unchanged |
| ConvexHullTrick.InsertRaises | data-structure/cht/dynamic_convex_hull_trick.cpp:21 | inserting a line never lowers the envelope, and the new line lies under it |
| ConvexHullTrick.NoLeftEraseAfterPrune | data-structure/cht/dynamic_convex_hull_trick.cpp:24-28 | once the rightward loop has erased a line, the left check never finds the new line dominated |
| ConvexHullTrick.LeftErasedRestores | data-structure/cht/dynamic_convex_hull_trick.cpp:27-30 | when the left check erases the new line, the container is the old hull again exactly |
| ConvexHullTrick.CascadeEnd | data-structure/cht/dynamic_convex_hull_trick.cpp:31-35 | when the leftward loop stops, thresholds are exact and strictly increasing everywhere again |
| ConvexHullTrick.LineContainer.constructor | data-structure/cht/dynamic_convex_hull_trick.cpp:17 | the empty container, with nothing added |
| ConvexHullTrick.LineContainer.Update | data-structure/cht/dynamic_convex_hull_trick.cpp:48-59 | only threshold `i` changes, to the `update` value against the successor or +oo for the last line; the result says whether the successor's threshold is not above it |
| ConvexHullTrick.LineContainer.Insert | data-structure/cht/dynamic_convex_hull_trick.cpp:20-21 | the negated line is inserted after every stored line of slope at most its own and recorded in the history, and the stored (slope, intercept) keys gain exactly its key at that position; sortedness, storedness and the envelope are kept |
| ConvexHullTrick.LineContainer.EraseNext | data-structure/cht/dynamic_convex_hull_trick.cpp:24-25 | one round of the rightward loop erases one dominated line and keeps the loop invariant and the envelope |
| ConvexHullTrick.LineContainer.PruneRight | data-structure/cht/dynamic_convex_hull_trick.cpp:22-26 | the rightward loop erases a run of successors of the new line, leaves the thresholds from it on strictly increasing, and keeps the envelope |
| ConvexHullTrick.LineContainer.CheckLeft | data-structure/cht/dynamic_convex_hull_trick.cpp:27-30 | the left check establishes the leftward loop's invariant; either no key changes, or the new line is erased and the container is the old hull again exactly |
| ConvexHullTrick.LineContainer.Cascade | data-structure/cht/dynamic_convex_hull_trick.cpp:31-35 | the leftward loop erases exactly the lines at `(k, m0]` for some `k <= m0`, each other line keeping its slope and intercept in order, and leaves a valid hull (every added line under the envelope) with the same history |
| ConvexHullTrick.LineContainer.RepairAfter | data-structure/cht/dynamic_convex_hull_trick.cpp:22-35 | with a left neighbour, the three repair loops leave a valid hull whose keys are the old hull's keys less one contiguous run, with the new line's key kept in its place or erased |
| ConvexHullTrick.LineContainer.RepairFirst | data-structure/cht/dynamic_convex_hull_trick.cpp:22-35 | with the new line first, the repair leaves a valid hull whose keys are the new key followed by the old keys less a leading run |
| ConvexHullTrick.LineContainer.Add | data-structure/cht/dynamic_convex_hull_trick.cpp:19-36 | the history gains `(a, b)` and the container stays a valid hull with every stored line an added one; no stored slope or intercept changes: the stored keys are the old keys with one contiguous run `[lo, hi)` removed, plus the new line's key at `lo` unless it was erased, so the container has between 1 and one more line than before |
| ConvexHullTrick.LineContainer.Get | data-structure/cht/dynamic_convex_hull_trick.cpp:38-42 | on a non-empty container, the result is the minimum of `a*x + b` over every line ever added; nothing changes |
| MinAdd.MinAllIsMinimum | data-structure/lazy_segment_tree.cpp:8 | the fold of `M::op` from `M::id` is no larger than any element and, unless the sequence is empty, is one of them |
| MinAdd.ActCompose | data-structure/lazy_segment_tree.cpp:8 | acting twice is acting with the `O::op` of the two tags |
| MinAdd.ActMin | data-structure/lazy_segment_tree.cpp:8 | `act` distributes over `M::op` |
| MinAdd.MinWindowUnique | data-structure/lazy_segment_tree.cpp:30 | a value no larger than every element of a window and equal to one of them (or +oo when empty) is the window's minimum |
| LazySegmentTree.QueryIsMin | data-structure/lazy_segment_tree.cpp:61-68 | the answer of the recursive walk is the minimum of the elements at the offsets in `[lo, hi)` |
| LazySegmentTree.TotalIsNode | data-structure/lazy_segment_tree.cpp:58 | under the node invariant, `node[k]` with its own tag applied is the fold of its whole segment |
| LazySegmentTree.PushElem | data-structure/lazy_segment_tree.cpp:37-45 | `push` leaves every element of the segment unchanged |
| LazySegmentTree.PushQuery | data-structure/lazy_segment_tree.cpp:37-45 | `push` leaves the answer for every range unchanged |
| LazySegmentTree.QueryRetag | data-structure/lazy_segment_tree.cpp:51 | `x` more on the tag of a node adds `x` to the answer for every range under it |
| LazySegmentTree.UpdateCovered | data-structure/lazy_segment_tree.cpp:50-53 | the covered case of `update` adds `x` to every element of the segment and nothing else |
| LazySegmentTree.UpdatePartial | data-structure/lazy_segment_tree.cpp:55-58 | the recursive case of `update` keeps the invariant under `k` and adds `x` exactly to the elements in the range |
| LazySegmentTree.FoldPartial | data-structure/lazy_segment_tree.cpp:65-67 | the recursive case of `fold` returns the answer for `k` and changes no element |
| LazySegmentTree.LazySegTree.Build | data-structure/lazy_segment_tree.cpp:15-21 | `size` is the least power of two not below `|v|`, the leaves are `v` then +oo, every tag is 0 and every internal node is the op of its children |
| LazySegmentTree.LazySegTree.constructor | data-structure/lazy_segment_tree.cpp:14-22 | the abstract sequence is `v` padded with +oo up to `size` |
| LazySegmentTree.LazySegTree.Sized | data-structure/lazy_segment_tree.cpp:13 | the abstract sequence is all +oo |
| LazySegmentTree.LazySegTree.Push | data-structure/lazy_segment_tree.cpp:37-45 | the tag of `k` is 0 afterwards, composed into both children's tags and applied to `node[k]`, and nothing else changes |
| LazySegmentTree.LazySegTree.UpdateRec | data-structure/lazy_segment_tree.cpp:47-59 | the elements of the segment of `k` inside `[a, b)` gain `x`, the others do not change, nothing outside the subtree changes, and the invariant holds |
| LazySegmentTree.LazySegTree.UpdateChildren | data-structure/lazy_segment_tree.cpp:55-58 | both recursive calls and the write of `node[k]` update exactly the range and restore the invariant |
| LazySegmentTree.LazySegTree.FoldRec | data-structure/lazy_segment_tree.cpp:61-68 | the result is the minimum of the segment's elements inside `[a, b)`; no element and nothing outside the subtree changes |
| LazySegmentTree.LazySegTree.FoldChildren | data-structure/lazy_segment_tree.cpp:65-67 | the `M::op` of both recursive calls is the answer for `k` |
| LazySegmentTree.LazySegTree.Update | data-structure/lazy_segment_tree.cpp:28 | the abstract sequence becomes the old one with `x` added at every position in `[l, r)` |
| LazySegmentTree.LazySegTree.Fold | data-structure/lazy_segment_tree.cpp:30 | the result is the minimum of the elements at the positions in `[l, r)`, and the abstract sequence does not change |
| LazySegmentTree.LazySegTree.Get | data-structure/lazy_segment_tree.cpp:24-26 | the result is element `k`, or +oo outside the tree, and nothing changes |
| BitOps.Log2 | data-structure/sparse_table.cpp:26 | `31 - __builtin_clz(x)`: `2^k <= x < 2^(k+1)` |
| BitOps.BitLength | data-structure/disjoint_sparse_table.cpp:35 | `32 - __builtin_clz(x)`: `x < 2^k` and, for `x >= 1`, `2^(k-1) <= x` |
| BitOps.LowestSetBit | data-structure/range_fenwick_tree.cpp:30 | `i & -i` is the power of two that leaves an odd quotient: the lowest set bit |
| BitOps.LowCarry | data-structure/range_fenwick_tree.cpp:35 | adding the lowest set bit carries into a strictly higher bit |
| BitOps.HighestDifferingBit | data-structure/disjoint_sparse_table.cpp:35 | for `x < y`, with `k` the bit length of `x xor y`, `x` and `y` share a block of width `2^k` and lie in opposite halves |
| RangeFenwick.BumpPrefix | data-structure/range_fenwick_tree.cpp:34-36 | the private `add(data, i, x)` raises the private `sum(data, j)` by `x` exactly for `j >= i + 1` |
| RangeFenwick.RangeAddInterval | data-structure/range_fenwick_tree.cpp:17-22 | for `l <= r + 1`, the public `add` adds `x` exactly to the entries in `[l, r]` |
| RangeFenwick.PrefixIdentity | data-structure/range_fenwick_tree.cpp:14 | `sum(D, i) * (i - 1) + sum(W, i)` is the sum of the first `i` entries of the array |
| RangeFenwick.DiffOfRangeAdd | data-structure/range_fenwick_tree.cpp:18-19 | the two bumps on `data0` turn the difference sequence into that of the updated array |
| RangeFenwick.WeightedOfRangeAdd | data-structure/range_fenwick_tree.cpp:20-21 | the two bumps on `data1` turn the weighted sequence into that of the updated array |
| RangeFenwick.ZerosRepresented | data-structure/range_fenwick_tree.cpp:11 | a fresh tree of zeros represents the all-zero array |
| RangeFenwick.RangeFenwickTree.constructor | data-structure/range_fenwick_tree.cpp:11 | a tree over `n` zeros |
| RangeFenwick.RangeFenwickTree.FenwickSum | data-structure/range_fenwick_tree.cpp:28-32 | the walk by lowest set bits returns the sum of the first `i` entries of the represented sequence (0 for `i <= 0`); nothing changes |
| RangeFenwick.RangeFenwickTree.FenwickAdd | data-structure/range_fenwick_tree.cpp:34-36 | afterwards the array represents the sequence with `x` added at index `i` (nothing for `i >= n`) |
| RangeFenwick.RangeFenwickTree.AddTwice | data-structure/range_fenwick_tree.cpp:18-21 | two private adds on one array represent both bumps |
| RangeFenwick.RangeFenwickTree.Sum | data-structure/range_fenwick_tree.cpp:13-15 | the sum of the first `i` entries of the array (0 for `i <= 0`) |
| RangeFenwick.RangeFenwickTree.Add | data-structure/range_fenwick_tree.cpp:17-22 | the array gains `x` from index `l` on and loses it again from `r + 1` on |
| SparseTableMin.MinOfIsMinimum | data-structure/sparse_table.cpp:27 | the minimum of a non-empty sequence is one of its elements and no larger than any |
| SparseTableMin.MinOfCover | data-structure/sparse_table.cpp:27 | two overlapping windows covering a range have the range's minimum as the smaller of their minima |
| SparseTableMin.FoldWindows | data-structure/sparse_table.cpp:26-27 | with `i = floor(log2(r - l))` both windows of width `2^i` lie in `[l, r)` and cover it |
| SparseTableMin.LevelExists | data-structure/sparse_table.cpp:26 | the level `fold` reads is below the number of levels |
| SparseTableMin.Doubling | data-structure/sparse_table.cpp:20 | the level-`i` entry built from the two halves at level `i - 1` is the minimum of its window |
| SparseTableMin.SparseTable.constructor | data-structure/sparse_table.cpp:13-23 | for non-empty `v`, `b` is the least level count with `2^b > n`, row 0 is `v`, and every entry is the minimum of its window |
| SparseTableMin.SparseTable.FillRow | data-structure/sparse_table.cpp:19-21 | row `i` gets the minima of its windows, rows below it unchanged |
| SparseTableMin.SparseTable.FillCell | data-structure/sparse_table.cpp:20 | one more entry of row `i` is the minimum of its window |
| SparseTableMin.SparseTable.Fold | data-structure/sparse_table.cpp:25-28 | for `0 <= l < r <= n` the result is the minimum of the values in `[l, r)` |
| DisjointSparseTableSum.FoldLevel | data-structure/disjoint_sparse_table.cpp:35 | for `r - l >= 2`, the level `bitlength(l xor (r - 1))` exists and puts `l` and `r - 1` in one block on opposite sides of its midpoint |
| DisjointSparseTableSum.FillLeft | data-structure/disjoint_sparse_table.cpp:20-23 | the backward loop, with `v[j]` as the left operand, leaves the sums of `v[j..m)` from the block start up to the midpoint |
| DisjointSparseTableSum.FillRight | data-structure/disjoint_sparse_table.cpp:24-27 | the forward loop leaves the prefix sums starting at the midpoint, up to the block end or the array end |
| DisjointSparseTableSum.FillBlock | data-structure/disjoint_sparse_table.cpp:18-28 | one block extends the complete part of its level past the block |
| DisjointSparseTableSum.FillLevel | data-structure/disjoint_sparse_table.cpp:17-28 | the block loop completes level `i`, rows below unchanged |
| DisjointSparseTableSum.DisjointSparseTable.constructor | data-structure/disjoint_sparse_table.cpp:11-30 | `b` is the least level with `2^b >= n`, row 0 is `v`, and every level holds the sums around its block midpoints |
| DisjointSparseTableSum.DisjointSparseTable.Fold | data-structure/disjoint_sparse_table.cpp:32-37 | for `0 <= l <= r <= n` the result is the sum of the values in `[l, r)`, 0 for the empty range |
| DisjointFoldOrder.LeftIsFold | data-structure/disjoint_sparse_table.cpp:20-23 | with `v[j]` as the left operand, the backward loop leaves at `j` the in-order fold of `v[j..m)` for any monoid |
| DisjointFoldOrder.RightIsFold | data-structure/disjoint_sparse_table.cpp:24-27 | the forward loop leaves at `j` the in-order fold of `v[m..j]` for any monoid |
| DisjointFoldOrder.FoldInOrder | data-structure/disjoint_sparse_table.cpp:36 | on the corrected table, a query straddling a midpoint is the in-order fold of `v[l..r)` |
| DisjointFoldOrder.AsWrittenOutOfOrder | data-structure/disjoint_sparse_table.cpp:22 | with line 22 as written, `fold(0, 4)` over the words `[0], [1], [2], [3]` is `[1, 0, 2, 3]`, not their concatenation |
| Prime.SqrtBound | math/prime.cpp:18 | a number with no factor below `i` and below `i * i` is prime: the stopping rule of every trial division |
| Prime.WheelStep | math/prime.cpp:18-19 | after testing `i` and `i + 2`, the other numbers below `i + 6` have a factor 2 or 3 |
| Prime.IsPrimeTest | math/prime.cpp:13-22 | the result is true exactly when `n >= 2` and no number strictly between 1 and `n` divides it |
| Prime.ClearEvens | math/prime.cpp:30 | afterwards the entries from 2 on are true exactly for the numbers with no factor below 3 |
| Prime.Strike | math/prime.cpp:33 | for a prime `i`, clearing `i*i, i*i + 2i, ...` leaves true exactly the numbers with no factor below `i + 2` |
| Prime.SieveSkip | math/prime.cpp:32 | skipping a composite `i` keeps the table right for factors below `i + 2` |
| Prime.SieveDone | math/prime.cpp:31-35 | once `i * i` passes `n`, the true entries are exactly the primes |
| Prime.PrimeTable | math/prime.cpp:27-36 | for `n >= 1`, a table of length `n + 1` whose entry `x` is true exactly when `x` is prime |
| Prime.DivideOutAll | math/prime.cpp:53-57 | `i^cnt * rest' == rest`, `i` no longer divides `rest'`, `cnt >= 1` exactly when `i` divided `rest`, and `rest'` has no factor up to `i` |
| Prime.TrialDivisorPrime | math/prime.cpp:52 | a trial divisor that divides the remaining number is prime |
| Prime.ProductExtend | math/prime.cpp:58 | recording a new largest prime with exponent `e` multiplies the product by `p^e` |
| Prime.TrialDivide | math/prime.cpp:52-59 | one round at odd `i` keeps the factorisation state for `i + 2` |
| Prime.RecordRest | math/prime.cpp:61 | a remainder other than 1 with no factor below `i` and below `i * i` is prime and not yet a key, and is recorded with exponent 1 after every smaller key, completing a factorisation of `n` |
| Prime.PrimeFactor | math/prime.cpp:41-63 | for `n >= 1` every key is prime with exponent at least 1, the product of `p^e` is `n`, and the map is empty exactly for `n == 1` |
| ModArith.CRemFacts | math/garner.cpp:12-13 | C++ `%` is congruent to its operand, lies strictly between `-m` and `m`, and plus `m` gives the Euclidean remainder when negative |
| ModArith.ExtGcd | math/garner.cpp:3 | Bezout coefficients: `a * u + b * v == gcd(a, b)` |
| ModArith.ModInv | math/garner.cpp:12 | for `c` coprime to `m`, `r` in `[0, m)` with `c * r` congruent to 1 modulo `m` |
| ModArith.InverseOf | math/garner.cpp:12 | the Bezout coefficient of `c`, reduced modulo `m`, is the inverse |
| Garner.CrtUnique | math/garner.cpp:5-19 | two solutions in `[0, Prod(m))` of the same residues modulo pairwise coprime moduli are equal |
| Garner.Digit | math/garner.cpp:12-13 | the digit `t` lies in `[0, m[k])` and makes `consts[k] + t * coeffs[k]` congruent to `b[k]` |
| Garner.DigitSolves | math/garner.cpp:12 | the Euclidean remainder of `(b[k] - consts[k]) * inv` is such a digit |
| Garner.Propagate | math/garner.cpp:14-17 | entries up to `k` unchanged; every later entry folds in the digit and the modulus, reduced |
| Garner.RoundStep | math/garner.cpp:11-18 | one round keeps the state: digits below their moduli, the right residues, and later entries holding the product and number so far, reduced |
| Garner.Final | math/garner.cpp:19 | after the last round the entry of `mod` is `x % mod` for the solution `x` over the moduli `m` |
| Garner.Garner | math/garner.cpp:5-20 | for pairwise coprime moduli, also coprime to `mod`, the result lies in `[0, mod)` and is `x % mod` for the solution `x`, which is unique |
| MatrixAlgebra.TransposeTwice | math/matrix/matrix.cpp:56-64 | transposing twice gives the matrix back |
| MatrixAlgebra.SubUndoesAdd | math/matrix/matrix.cpp:33-51 | subtracting what was added gives the matrix back |
| MatrixAlgebra.AddComm | math/matrix/matrix.cpp:33-41 | matrix addition is commutative |
| MatrixAlgebra.ProductIdentity | math/matrix/matrix.cpp:66-77 | multiplying by the identity on the right gives the matrix back |
| MatrixAlgebra.TransposeProduct | math/matrix/matrix.cpp:56-77 | the transpose of a product is the product of the transposes in the other order |
| MatrixAlgebra.DotConcat | math/matrix/matrix.cpp:12-20 | dot products of side-by-side vectors add |
| MatrixAlgebra.DotReduce | math/matrix/matrix.cpp:95-97 | subtracting a multiple of a vector orthogonal to `x` keeps the product with `x` |
| MatrixAlgebra.Augmented | math/matrix/matrix.cpp:122-124 | `x` followed by -1 solves `[a | b]` exactly when `a x == b`, and `x` followed by 0 does exactly when `a x == 0` |
| RowReduction.SwapKernel | math/matrix/matrix.cpp:87 | exchanging two rows keeps the solutions |
| RowReduction.ScaleKernel | math/matrix/matrix.cpp:90 | dividing a row that is zero before column `j` by a nonzero `p` keeps the solutions |
| RowReduction.EliminateKernel | math/matrix/matrix.cpp:92-98 | subtracting from every other row its multiple of the pivot row keeps the solutions |
| RowReduction.NoPivot | math/matrix/matrix.cpp:85 | a column with no nonzero entry below the pivot rows keeps the echelon shape without a new pivot |
| RowReduction.SwapEchelon | math/matrix/matrix.cpp:87 | moving the found row up to the pivot position keeps the shape |
| RowReduction.ScaleEchelon | math/matrix/matrix.cpp:90 | dividing the pivot row from column `j` on keeps the shape and makes the pivot 1 |
| RowReduction.EliminateEchelon | math/matrix/matrix.cpp:92-100 | after elimination, column `j` is a pivot column with 1 in the pivot row and 0 in every other row |
| Solutions.ReadStep | math/matrix/matrix.cpp:133-139 | reading one pivot row marks its column independent, puts the row's last entry in the particular solution, and fills that column of the later basis vectors |
| Solutions.ReadDone | math/matrix/matrix.cpp:144-147 | once every pivot row is read, the particular solution followed by -1 and each free column's basis vector followed by 0 solve every row |
| Solutions.NoSolution | math/matrix/matrix.cpp:142 | a row that is zero except for a nonzero last entry admits no solution followed by -1 |
| Solutions.IdentityRows | math/matrix/matrix.cpp:128-129 | the identity matrix of order `n` |
| Solutions.ScanRow | math/matrix/matrix.cpp:132-134 | the first column from `j` on where the row holds 1, or `n` |
| Solutions.FillColumn | math/matrix/matrix.cpp:135-137 | column `j` of every later basis vector `k` becomes minus entry `k` of the row, nothing else changes |
| Solutions.CollectFree | math/matrix/matrix.cpp:144-147 | the result is the particular solution followed by the basis vectors of the dependent columns, in increasing order |
| Solutions.ReadSolutions | math/matrix/matrix.cpp:126-147 | empty exactly when no vector followed by -1 solves the echelon form; otherwise the first vector is such a solution, each later one solves the homogeneous system with 1 in its own free column and 0 in the others, and every non-pivot column is free |
| MatrixClass.Matrix.constructor | math/matrix/matrix.cpp:23 | the `m x n` zero matrix |
| MatrixClass.Matrix.FromRows | math/matrix/matrix.cpp:24-28 | the matrix whose rows are the given rectangular rows |
| MatrixClass.Matrix.Copy | math/matrix/matrix.cpp:53-54 | a fresh matrix equal to the original |
| MatrixClass.Matrix.Concat | math/matrix/matrix.cpp:12-20 | for `A.m == B.m`, an `A.m x (A.n + B.n)` matrix whose row `i` is `A[i]` followed by `B[i]` |
| MatrixClass.Matrix.AddAssign | math/matrix/matrix.cpp:33-41 | every entry becomes the sum of the old entries, even when `rhs` is this matrix; the shape is kept |
| MatrixClass.Matrix.SubAssign | math/matrix/matrix.cpp:43-51 | every entry becomes the difference of the old entries, even when `rhs` is this matrix; the shape is kept |
| MatrixClass.Matrix.Plus | math/matrix/matrix.cpp:53 | a fresh matrix holding the entrywise sum; neither operand changes |
| MatrixClass.Matrix.Minus | math/matrix/matrix.cpp:54 | a fresh matrix holding the entrywise difference; neither operand changes |
| MatrixClass.Matrix.Transpose | math/matrix/matrix.cpp:56-64 | an `n x m` matrix with entry `(i, j)` equal to entry `(j, i)` |
| MatrixClass.Matrix.MatMul | math/matrix/matrix.cpp:66-77 | for `n == B.m`, the `m x B.n` matrix with entry `(i, j)` the sum over `k` of `mat[i][k] * B[k][j]` |
| MatrixClass.Matrix.FillRow | math/matrix/matrix.cpp:70-74 | row `i` becomes the row times `B`, other rows unchanged |
| MatrixClass.Matrix.AddDot | math/matrix/matrix.cpp:71-73 | entry `(i, j)` gains the dot product of the row with column `j` of `B`, nothing else changes |
| MatrixClass.Matrix.SwapRows | math/matrix/matrix.cpp:87 | rows `i` and `p` exchanged |
| MatrixClass.Matrix.DivideRow | math/matrix/matrix.cpp:90 | row `r` divided by `p` from column `j` on, other rows unchanged |
| MatrixClass.Matrix.SubtractRow | math/matrix/matrix.cpp:94-97 | row `k` loses `v` times row `pv` from column `j` on, other rows unchanged |
| MatrixClass.Matrix.FindPivot | math/matrix/matrix.cpp:83-84 | the first row from `pivot` on with a nonzero entry in column `j`, or `m` |
| MatrixClass.Matrix.ClearColumn | math/matrix/matrix.cpp:92-98 | every row but the pivot row loses its multiple of the pivot row given by its entry in column `j` |
| MatrixClass.Matrix.ReduceColumn | math/matrix/matrix.cpp:83-100 | one column step keeps the solutions and extends the echelon shape, with a new pivot exactly when a nonzero entry was found |
| MatrixClass.Matrix.Rref | math/matrix/matrix.cpp:79-103 | a fresh matrix of the same shape in reduced row echelon form (each pivot row has leading 1, every other row 0 in that column) with the same solutions; this matrix does not change |
| MatrixClass.Matrix.Rank | math/matrix/matrix.cpp:105-118 | a value in `[0, m]`: every row of the echelon form before it has a pivot 1, the row at it (if any) is zero, and it equals the number of pivots |
| MatrixClass.Matrix.ColumnOf | math/matrix/matrix.cpp:122-123 | the `|b| x 1` matrix whose column is `b` |
| MatrixClass.AugmentedKernel | math/matrix/matrix.cpp:124 | the echelon form of `[a | b]` is solved by `x` followed by -1 exactly when `a x == b`, and by `x` followed by 0 exactly when `a x == 0` |
| MatrixClass.Matrix.SolveSystem | math/matrix/matrix.cpp:120-148 | empty exactly when `a x == b` has no solution; otherwise the first vector solves it, each further vector solves `a x == 0` with 1 in its own free column and 0 in the other free columns, so they are linearly independent |

## Left out

- `math/fft.cpp`: floating-point complex arithmetic with nothing exact to state.
- The test drivers under `test/`: stdin/stdout plumbing for headers that are not part of this model.
- Machine integer widths: every integer is unbounded. Overflow of `i * i` in `math/prime.cpp`, of the products in `math/garner.cpp`, of `x * r` in `data-structure/range_fenwick_tree.cpp`, and of `1 << b` in the sparse tables is not modelled.
- Floating point:
  - The line container's thresholds are exact reals with ±oo. `INF = max/2` and rounding of `1.0 * (...) / (...)` are not modelled.
  - The query point of `get` is an integer; the container's `T` is `int`.
- The tolerance `eq` of `math/matrix/matrix.cpp:151-152` for floating `T`. Only the exact comparison of lines 154-155 is modelled.
- The matrix element type `T` is `real` throughout. That covers `concat`, `+=`, `-=`, `transpose` and `matmul` over `int` as well; truncating integer division in `rref` over `int` is not modelled.
- `ConvexHullTrick.LineContainer.Add`: does not state that a surviving line is optimal somewhere. A front line that loses an equal-slope tie keeps threshold -oo and survives, and `get` never selects it.
- `ConvexHullTrick.LineContainer.Add`: does not state which thresholds are recomputed. It states the whole new hull through the invariant and `Get`'s result.
- Amortised running times: complexity is not part of the functional model.
- Generic monoids:
  - The lazy segment tree is instantiated with `min` over integers with +oo, acted on by `+`.
  - The sparse table is instantiated with `min`.
  - The disjoint sparse table is instantiated with `+`.
  - The disjoint sparse table's order of combination is modelled separately over the free monoid of words; see Findings.
- The commented sample instance at `data-structure/lazy_segment_tree.cpp:71-89`: with a sum monoid and `act(a, b) = a + b`, range sums over segments longer than one come out wrong.
- `data-structure/lazy_segment_tree.cpp`: the `height` member is computed by the constructor but never used; the model keeps it only as the depth of the tree.
- `math/garner.cpp`: `extgcd.cpp` is not part of this model. `mod_inv` is `ModArith.ModInv`, computed from the extended Euclidean algorithm `ModArith.ExtGcd`.
- `Garner.Garner`: requires `|b| > |m|`, because the last round reads `b[|m|]`. It also requires `mod` coprime to every modulus, because `mod_inv` needs coprime arguments in every round.
- `Prime.PrimeFactor`: requires `n >= 1`. For `n == 0` the source never terminates; for negative `n` it relies on C++ truncating division, which is not modelled.
- `Prime.PrimeTable`: requires `n >= 1`, because the source writes `prime[1]`.
- `SparseTableMin.SparseTable.constructor`: requires a non-empty `v`, because the source writes row 0 of an empty table. `Fold` requires `l < r`, because `__builtin_clz(0)` is undefined.
- The default constructors `Matrix() = default` and `DisjointSparseTable() = default` build empty objects with indeterminate fields and are not modelled.
- `MatrixClass.Matrix.FromRows`: requires non-empty rectangular rows. A ragged or empty initializer list gives an object whose `n` is meaningless, or reads `mat[0]` of an empty vector.
- `operator[]` of `Matrix` is field access to `mat` in the model.
- `MatrixClass.Matrix.SolveSystem`: does not state that the returned homogeneous vectors span every solution of `a x == 0`; it states that they solve it and are independent.
- `Solutions.ReadSolutions`: the scan of line 133 looks for an entry equal to 1, and the model proves this always stops at the row's pivot column in the echelon form.

## Findings

| source | as written | input that shows it | evidently intended | confidence | as-written member | corrected member |
|---|---|---|---|---|---|---|
| data-structure/disjoint_sparse_table.cpp:22 | `lookup[i][j] = M::op(lookup[i][j + 1], v[j])` puts `v[j]` after the elements to its right, so the left half of a block holds `v[m-1] op ... op v[j]` | a non-commutative monoid such as concatenation: `v = [0], [1], [2], [3]`, `fold(0, 4)` gives `[1, 0, 2, 3]` | `M::op(v[j], lookup[i][j + 1])`, so that `fold(l, r)` is `v[l] op ... op v[r-1]` for every monoid | medium, not executed (correct for every commutative monoid) | DisjointFoldOrder.AsWrittenOutOfOrder | DisjointFoldOrder.FoldInOrder |
