# jigsaw-puzzle-solver core, modelled in Dafny

This project models the core of the jigsaw puzzle solver `jigsolver`:
- **Pieces, boards and the puzzle.** Pieces are square colour patches. A board is a grid of cells, each an empty slot or a placed piece. The puzzle cuts an image into a board of pieces and moves the pieces into a shuffled bag.
- **Dissimilarity.** The integer squared-difference dissimilarity between two pieces, and the normalisation constant sigma computed from it.
- **Best buddies.** The best-buddy tensor computed from a compatibility tensor.
- **Segment search.** The search for the largest segment of best-buddy-joined pieces on the board, with both variants of the segmenter.
- **Pruning.** The pruning of a board down to one segment.
- **Random solver.** The baseline solver, which fills the empty cells from the bag in row-major order.

Modules, one per concept:

- `Wrappers`: `Option` and `Result`.
- `Borders`: the four sides and their value and opposite algebra.
- `Pictures`: picture validation, side extraction, the dissimilarity `diss`, and the all-zero picture of a slot.
- `Boards`: the `Piece` class; cells (`Slot` or `Placed`); the `Board` class with its grid, `shape` and the neighbour iterator.
- `Puzzles`: the `Puzzle` class with `create_from_img` and `shuffle`. The shuffle is a Fisher–Yates permutation driven by a sequence of draws.
- `Normalisation`: the sigma gap of `set_CM`.
- `PomeranzSegmenter`: `BestBuddies_matrix`, and the segmenter with at least five trials by default.
- `SegmentSearch`: `find_segment` and the trial loop. The two segmenter files share both line for line.
- `JigsolverSegmenter`: the segmenter with at most five trials by default, and `remove_all_but_segment`.
- `RandomFill`: the row-major fill of `random_solver`.

## Modelling decisions

**Pieces and cells**
- Pieces are objects. The bag and the board share them, and pruning clears a piece's placed flag in place.
- puzzle.py's `Piece` class never declares `id`, `position` or `_is_placed`, yet the segmenters read and write them. They are mutable fields here.
- A search requires every placed piece to record its own cell (`Board.PositionsAgree`) and every identity to index the tensor (`IdsFit`).
- Piece equality (`==`, `in`, `!=`) is `np.allclose` on pictures, modelled as exact picture equality. The two agree when every pixel value lies in 0..255, as in 8-bit images: `allclose` admits |a - b| <= 1e-8 + 1e-5·|b|, which is below 1 there, and integers closer than 1 are equal.
- A slot compared with a piece compares the slot's all-zero picture.

**The neighbour iterator and the tensor index**
- `Board.neighbors` yields bare cells, but both segmenters unpack `(border, neighbor)` pairs from it.
- The model yields `(side, cell)` pairs in the order top, right, bottom, left, which is what the segmenters evidently expect.
- The best-buddy tensor is indexed with the side's integer value. `find_segment` reads `BB[..., border]` with the `Border` member itself (jigsolver/pomeranz_solver/segmenter.py:52). `Border` is a plain `Enum`, not an `IntEnum`, and numpy refuses it as an index. The model uses `Value()`, which is what the code evidently means.

**Random choices become inputs**
- Random choices are inputs to the model.
- The seed cells of the segmenter trials are a sequence of coordinates.
- `np.random.shuffle` is the Fisher–Yates permutation determined by its sequence of draws: `draws[t]` is the index, at most `t`, that position `t` is swapped with, from the last position down.

**Error paths**
- An error path is a `Result` or `Option`, not a precondition:
  - the `Piece` constructor's failed assertions;
  - `max` of no segments;
  - sigma with no other piece;
  - running out of bag entries in the random solver.
- `create_from_img` on an image without three colour channels fails at its first piece, and leaves the new board all slots.

**Behaviour kept as the code has it**
- `find_segment` never appends the seed cell's own piece. It only appends neighbours.
  - The seed's piece ends up in the segment only when some neighbour's best-buddy edge leads back to it.
  - `SeedJoinsSegment` proves that on a mirrored tensor, every non-empty segment contains the seed's piece.
  - `NoEdgeNoGrowth` shows that a seed without a best-buddy edge gives an empty segment.
- `BestBuddies_matrix` only writes `BB[i, best, d]`, and its explicit mirror line is commented out. The result is mirrored all the same: `BB[i, j, d] == BB[j, i, opposite(d)]` is proved in `BestBuddiesMatrix`.
- `remove_all_but_segment` replaces a pruned cell with `Slot(i * rows + j)`. It multiplies by the number of rows, and uses that number as the slot's patch size. The model keeps this exactly.
- The two segmenters differ only in their default number of trials:
  - `max(5, rows*cols/5)` in the Pomeranz variant, so it never fails in `max`;
  - `min(5, rows*cols/5)` in the other, which runs no trial on a board of fewer than five cells and then fails in `max`.

## Model

| member | source | states |
|---|---|---|
| Borders.Border.Value | jigsolver/puzzle.py:14-17 | every side's enum value lies in 0..3 |
| Borders.Border.Opposite | jigsolver/puzzle.py:19-24 | the opposite side's value is the side's value plus two, modulo four; the `NotImplementedError` branch is unreachable |
| Borders.FromValue | jigsolver/puzzle.py:23 | `Border(v)` is the side whose value is v |
| Borders.AllBordersOrder | jigsolver/puzzle.py:14-17 | iterating `Border` visits all four sides, the k-th having value k |
| Borders.ValueRoundTrip | jigsolver/puzzle.py:14-23 | a side is recovered from its value |
| Borders.OppositeInvolution | jigsolver/puzzle.py:19-24 | `opposite` is an involution without fixed point |
| Boards.Piece.constructor | jigsolver/puzzle.py:76-82 | a piece keeps the (validated) picture it is built from and starts unplaced |
| Boards.Cell.Picture | jigsolver/puzzle.py:69-71 | the picture a cell compares by: a placed piece's own picture; for a slot of positive patch size a patch_size-square three-channel picture, and for every slot all values 0 |
| Boards.Board.constructor | jigsolver/puzzle.py:28-29 | a new board has n_rows rows of n_cols cells, all slots of the given patch size |
| Boards.Board.Shape | jigsolver/puzzle.py:46-48 | on a rectangular board with rows, the shape is the row count and the common row length |
| Boards.Board.Get | jigsolver/puzzle.py:31-33 | `board[i, j]` for in-bounds coordinates; a piece it returns is one of the board's occupants |
| Boards.Board.Set | jigsolver/puzzle.py:35-39 | afterwards cell (i, j) holds v, every other cell and the shape are unchanged, and no new occupant appears except v |
| Boards.Board.Neighbors | jigsolver/puzzle.py:50-62 | one entry per side that has a neighbour, in top, right, bottom, left order, each paired with the in-bounds cell across that side |
| Boards.NeighborDirs | jigsolver/puzzle.py:50-62 | a cell has at most four neighbours |
| Boards.NeighborDirsSpec | jigsolver/puzzle.py:50-62 | a side is listed iff the cell across it is in bounds; sides come in increasing value order; their number is four minus the grid edges the cell touches |
| Boards.CornerHasTwoNeighbors | jigsolver/puzzle.py:50-62 | on a grid of at least 2 x 2, a corner cell has exactly two neighbours |
| Boards.NeighborDirsMutual | jigsolver/puzzle.py:50-62 | if q is a neighbour of p across side b, then p is a neighbour of q across the opposite side |
| Boards.TowardsInverse | jigsolver/puzzle.py:50-62 | stepping across a side and back across its opposite returns to the start cell |
| Pictures.ValidatePicture | jigsolver/puzzle.py:77-80 | the `Piece` constructor, given a picture as nested lists, accepts it iff it is an n x n grid of three-channel pixels with n at least 1, and refuses every other picture with an error |
| Pictures.GetBorder | jigsolver/puzzle.py:88-89 | a side of an n x n piece is n three-channel pixels |
| Pictures.BorderOfRotated | jigsolver/puzzle.py:14-17 | the four slices agree with the opposite-side algebra: side b of the half-turned picture is the opposite side of the original, reversed |
| Pictures.CornersShared | jigsolver/puzzle.py:14-17 | neighbouring slices share their corner pixel (top and right, right and bottom, bottom and left, left and top) |
| Pictures.PixelSqDiff | jigsolver/puzzle.py:104-106 | the squared channel difference of two pixels is at least 0, and 0 iff the pixels are equal |
| Pictures.SqDiff | jigsolver/puzzle.py:104-106 | the summed squared difference of two edges is at least 0, and 0 iff the edges are equal |
| Pictures.PixelSqDiffSymmetric | jigsolver/puzzle.py:104-106 | the pixel difference does not depend on argument order |
| Pictures.SqDiffSymmetric | jigsolver/puzzle.py:104-106 | the edge difference does not depend on argument order |
| Pictures.EdgeDiss | jigsolver/puzzle.py:103-106 | one side's dissimilarity is at least 0 |
| Pictures.Diss | jigsolver/puzzle.py:97-107 | `diss` has exactly the four sides as keys, each mapped to that side's non-negative edge dissimilarity against the other piece's opposite side |
| Pictures.DissSymmetric | jigsolver/puzzle.py:103-106 | diss(a, b)[d] == diss(b, a)[opposite(d)]: both score the same seam |
| Pictures.DissZeroIff | jigsolver/puzzle.py:103-106 | diss(a, b)[d] is 0 exactly when side d of a equals the opposite side of b |
| Pictures.SlotPicture | jigsolver/puzzle.py:69-71 | the picture of a slot with a positive patch size is a patch_size-square picture of three-channel pixels, and every value in it is 0 |
| Puzzles.PieceGrid | jigsolver/puzzle.py:134-137 | the piece grid is the largest one of ps-sized blocks that fits: fewer than ps pixel rows and columns are cropped |
| Puzzles.Block | jigsolver/puzzle.py:137-143 | block (i, j) is ps x ps, and its pixel (r, c) is image pixel (i*ps + r, j*ps + c) |
| Puzzles.BlockValidity | jigsolver/puzzle.py:143 | a block passes the `Piece` checks exactly when the image has three channels; otherwise the check on colour values fails |
| Puzzles.BlocksTile | jigsolver/puzzle.py:136-143 | the blocks tile the cropped image: every cropped pixel (y, x) is pixel (y mod ps, x mod ps) of block (y div ps, x div ps) |
| Puzzles.FitsInGrid | jigsolver/puzzle.py:136-137 | every block of the piece grid lies within the image |
| Puzzles.Puzzle.constructor | jigsolver/puzzle.py:116-120 | a new puzzle has the given patch size and seed, an empty bag and no board |
| Puzzles.Puzzle.Shape | jigsolver/puzzle.py:122-126 | the shape exists iff there is a board with at least one row, and it is then the board's row count and row length |
| Puzzles.Puzzle.CreateFromImg | jigsolver/puzzle.py:129-144 | a new board of (height div ps) x (width div ps) cells. With three channels, each cell holds a fresh unplaced piece whose picture is its block, and no two cells hold the same piece. Otherwise, with at least one cell, the result is the colour error and the board stays all slots. The bag is unchanged |
| Puzzles.CutRow | jigsolver/puzzle.py:142-143 | one row of the cutting loop: each cell of row i gets a fresh piece of its block, the other rows are unchanged, and no piece sits in two cells; or it fails at the first block, exactly when the image lacks three channels, leaving the board unchanged |
| Puzzles.Puzzle.Shuffle | jigsolver/puzzle.py:147-154 | the board becomes a fresh all-slot board of the same shape; the bag becomes the Fisher–Yates shuffle of the old bag followed by the board's cells in row-major order, so it is a permutation of them and grows by rows x cols |
| Puzzles.RowMajorIndex | jigsolver/puzzle.py:41-44 | in row-major order, cell (i, j) of a rows x cols grid is entry i*cols + j |
| Puzzles.RowMajorLength | jigsolver/puzzle.py:41-44 | row-major order lists rows x cols cells |
| Puzzles.Shuffled | jigsolver/puzzle.py:154 | the shuffle keeps the length and is a permutation (same multiset) |
| Puzzles.ShuffledIdentity | jigsolver/puzzle.py:154 | draws that swap each position with itself leave the sequence unchanged |
| Normalisation.DissValues | jigsolver/puzzle.py:193 | `list(diss.values())` has four non-negative values |
| Normalisation.DissValuesOfDiss | jigsolver/puzzle.py:102-107 | the k-th of those values is the dictionary's value for the side with value k, since the dictionary is filled in `Border` order |
| Normalisation.Unequal | jigsolver/puzzle.py:200 | the number of pieces let through by `x != Piece` is at most the bag size |
| Normalisation.UnequalZero | jigsolver/puzzle.py:200 | the filter lets nothing through iff every picture equals the current one |
| Normalisation.Pooled | jigsolver/puzzle.py:200-203 | the flattened list holds four non-negative values per piece whose picture differs from the current one |
| Normalisation.PooledEmpty | jigsolver/puzzle.py:200-203 | the pooled list is empty iff every piece equals the current one, and it never has exactly one value |
| Normalisation.Insert | jigsolver/puzzle.py:203 | inserting into a sorted list keeps it sorted and adds exactly that value |
| Normalisation.SortAscending | jigsolver/puzzle.py:203 | `np.sort` returns a sorted permutation |
| Normalisation.Sigma | jigsolver/puzzle.py:203-209 | no values: failure (the `except` branch fails too); one value: that value; two or more: a non-negative sigma, the gap between a smallest value and a smallest value of the rest |
| Normalisation.SortedGap | jigsolver/puzzle.py:203-207 | the first two entries of a sorted permutation are a smallest value and a smallest of the rest, at distinct positions |
| Normalisation.PieceSigma | jigsolver/puzzle.py:188-209 | for piece i of a bag of equally sized pieces, sigma fails iff every piece has i's picture; otherwise it is at least 0 and is the gap between the two smallest pooled dissimilarities |
| PomeranzSegmenter.ArgMax | jigsolver/pomeranz_solver/segmenter.py:30-31 | `np.argmax` of CM[i, :, d] is the first index of a largest entry |
| PomeranzSegmenter.FirstArgmaxUnique | jigsolver/pomeranz_solver/segmenter.py:30-31 | the first argmax is unique |
| PomeranzSegmenter.BestBuddiesSymmetric | jigsolver/pomeranz_solver/segmenter.py:28-33 | i, j are best buddies on side d iff j, i are best buddies on the opposite side |
| PomeranzSegmenter.BestBuddyUnique | jigsolver/pomeranz_solver/segmenter.py:28-32 | a piece has at most one best buddy per side |
| PomeranzSegmenter.ZeroDiagonal | jigsolver/pomeranz_solver/segmenter.py:21-23 | CM[i, i, k] becomes 0 for every i and k; every other entry is unchanged |
| PomeranzSegmenter.MarkBestBuddies | jigsolver/pomeranz_solver/segmenter.py:26-32 | a fresh tensor of CM's shape holding 1 at (i, j, d) iff d is a side and i, j are mutual first argmaxes on d and opposite(d), and 0 everywhere else |
| PomeranzSegmenter.BestBuddiesMatrix | jigsolver/pomeranz_solver/segmenter.py:10-35 | with `diag`, CM's diagonal is zeroed in place and nothing else in CM changes; BB is 0/1, BB[i, j, d] == 1 iff i and j are best buddies on side d of the zeroed CM, and BB is mirrored: BB[i, j, d] == BB[j, i, opposite(d)] |
| PomeranzSegmenter.DefaultTrials | jigsolver/pomeranz_solver/segmenter.py:71-72 | a non-zero `n_iter` is kept; the falsy default becomes max(5, rows*cols div 5) |
| PomeranzSegmenter.Segmenter | jigsolver/pomeranz_solver/segmenter.py:59-87 | on a board without columns that is to run a trial, the `randint(0, 0)` error and no segments; otherwise the outcome of the number of trials chosen as above (see `SegmentSearch.RunTrials`); with the default, the search succeeds iff the board has columns, running at least five trials |
| SegmentSearch.Contains | jigsolver/puzzle.py:109-110 | `pic in segment` holds iff some piece of the segment has that picture, the `in` of `find_segment` through `Piece.__eq__` |
| SegmentSearch.ContainsAppend | jigsolver/pomeranz_solver/segmenter.py:51-53 | after `segment.append(neighbor)` a picture is in the segment iff it was before or it is the neighbour's |
| SegmentSearch.ContainsMono | jigsolver/pomeranz_solver/segmenter.py:51-55 | a picture in a segment stays in every extension of it |
| SegmentSearch.PendingShrinks | jigsolver/pomeranz_solver/segmenter.py:52-55 | appending a piece not yet in the segment strictly shrinks the set of still-unsegmented pieces on the board: why the recursion terminates |
| SegmentSearch.FindSegment | jigsolver/pomeranz_solver/segmenter.py:40-56 | Slot seed: the input comes back unchanged. Otherwise: the input is a prefix of the result, a duplicate-free input stays duplicate-free, and every best-buddy edge from the seed or from an appended piece leads to a piece of the result. Each appended piece sits on the board, joined by a best-buddy edge to the seed or to an earlier appended piece. The same code is jigsolver/segmenter.py:4-16 |
| SegmentSearch.Visit | jigsolver/pomeranz_solver/segmenter.py:51-55 | one neighbour of the loop: when it holds a piece not yet in the segment and joined by a best-buddy edge on that side, the segment is extended by that piece and whatever the walk from it appends; otherwise the segment is unchanged; either way the loop invariant is extended by one neighbour |
| SegmentSearch.NoEdgeNoGrowth | jigsolver/pomeranz_solver/segmenter.py:48-55 | a seed without a best-buddy edge produces no segment: the seed itself is never appended |
| SegmentSearch.SeedJoinsSegment | jigsolver/pomeranz_solver/segmenter.py:51-55 | with a mirrored tensor, a non-empty trial segment contains the seed cell's piece |
| SegmentSearch.FirstLongest | jigsolver/pomeranz_solver/segmenter.py:86 | `max(segments, key=len)` is the first segment of greatest length |
| SegmentSearch.Trial | jigsolver/pomeranz_solver/segmenter.py:81 | a trial from a seed cell with an empty segment gives a duplicate-free segment, empty for a Slot seed, closed under best-buddy edges, each piece attached to the seed or an earlier piece |
| SegmentSearch.NextTrial | jigsolver/pomeranz_solver/segmenter.py:74-83 | one pass of the trial loop appends one trial segment grown from the next seed, keeping the earlier ones |
| SegmentSearch.Trials | jigsolver/pomeranz_solver/segmenter.py:74-83 | n trials (none when n <= 0), trial t grown from seeds[t] |
| SegmentSearch.RunTrials | jigsolver/pomeranz_solver/segmenter.py:74-87 | no trial: the `max` error; otherwise the result is the first longest of the trial segments, at least as long as each of them |
| JigsolverSegmenter.DefaultTrials | jigsolver/segmenter.py:24-25 | a non-zero `n_iter` is kept; the falsy default is min(5, rows*cols div 5): at most 5, and 0 exactly when the board has fewer than 5 cells |
| JigsolverSegmenter.Segmenter | jigsolver/segmenter.py:19-40 | on a board without columns that is to run a trial, the `randint(0, 0)` error and no segments; otherwise the trial outcome for that number of trials; with the default, at most five segments and failure exactly when the board has fewer than five cells |
| JigsolverSegmenter.InSegment | jigsolver/segmenter.py:46 | `board[i, j] in segment`: for a placed piece, iff some piece of the segment has its picture, and in particular when the piece itself is in the segment |
| JigsolverSegmenter.PruneCell | jigsolver/segmenter.py:46-48 | cell (i, j) is pruned and only it changes; an evicted piece loses its placed flag, and no other flag, identity or position changes |
| JigsolverSegmenter.PruneRow | jigsolver/segmenter.py:45-48 | row i is pruned cell by cell, left to right |
| JigsolverSegmenter.RemoveAllButSegment | jigsolver/segmenter.py:42-48 | the shape is unchanged. Cell (i, j) keeps an occupant that is in the segment and otherwise becomes Slot(i*rows + j). Every evicted piece is no longer placed, pieces in the segment keep their flag, and identities and positions are untouched |
| RandomFill.FillCell | jigsolver/random_solver/random_solver.py:14-20 | what the fill leaves in cell (i, j): an occupied cell is unchanged, and an empty cell either stays as it was or receives an entry of the bag |
| RandomFill.SlotsBeforeOrder | jigsolver/random_solver/random_solver.py:14-20 | the counter `k` grows along row-major order: every empty cell before (i, j) is counted before it |
| RandomFill.FillDistinct | jigsolver/random_solver/random_solver.py:14-20 | two distinct empty cells receive distinct bag entries |
| RandomFill.SlotsBeforeBound | jigsolver/random_solver/random_solver.py:14-20 | an empty cell's counter value is below the number of empty cells |
| RandomFill.FillStops | jigsolver/random_solver/random_solver.py:17 | once the bag is used up at an empty cell, that cell and all later ones keep their contents |
| RandomFill.NoSlotRemains | jigsolver/random_solver/random_solver.py:14-20 | with at least as many bag entries as empty cells, all of them pieces, no slot remains |
| RandomFill.FillRow | jigsolver/random_solver/random_solver.py:15-20 | one row of the fill: the row's empty cells get the next bag entries, or the index error is reported exactly when the bag runs out |
| RandomFill.RandomSolver | jigsolver/random_solver/random_solver.py:10-20 | the bag is shuffled and then unchanged; each empty cell, in row-major order, receives the next bag entry and occupied cells are untouched; success iff the bag has at least as many entries as there are empty cells, with `k` ending at that number |

## Left out

- Display and plotting (`Puzzle.display`, the `plotsteps` branch of `random_solver`): user interface only.
- Lab colour conversion (`rgb_to_lab`, `lab_to_rgb`, the unused `lab_space` flag): foreign floating-point library calls.
- `set_CM`: the `exp`/`round` transform into probabilities, and the assembly of CM. These are floating point. CM enters `BestBuddiesMatrix` as an abstract `real` tensor, of which only comparisons matter.
- The random generator: `np.random.seed`, `randint` and `shuffle` are modelled by their outcomes (seed cells and draws given as inputs), not as a generator.
- `Puzzle.__copy__` and deep copies: object-copy plumbing.
- `Board.__iter__`: modelled only as the row-major order `RowMajor` that `shuffle` appends in.
- `create_from_img` returning `self`: the method returns only the error case.
- numpy broadcasting: differently shaped pictures compare as unequal, instead of raising or broadcasting.
- The `np.allclose` tolerance: it is modelled as exact equality, which is what it is for pixel values in 0..255. For larger values it is not (100000 and 100001 compare equal), and the model does not capture that.
- Fixed-width arithmetic in `diss`: pictures are `int64` arrays, so the sums of squared differences can wrap around for very large pixel values. The model sums unbounded integers.
- `int(rows*cols/5)` in the segmenters: computed in floating point in the source, modelled as exact integer division. They agree whenever rows*cols is below 2^53.
- The entries of the bag seen by `set_CM`:
  - Bags holding slots, or pictures of different sizes, are excluded by the precondition of `PieceSigma`, because the source's `diss` would broadcast or fail there.
  - A bag that `set_CM` refuses as empty needs no model: `PieceSigma` takes a position in the bag.
- A non-positive patch size: `CreateFromImg` requires a positive `patchSize`. A zero patch size raises in the source's `//`, and a negative one gives negative grid sizes.
- A board with no rows: `shape` fails on it, and every operation that reads the shape requires a row.
- Piece identities and positions are never set in puzzle.py or in the segmenters. The segment search requires them to agree with the board (`PositionsAgree`, `IdsFit`).
- `random_solver.py` lacks its `np` and `Slot` imports. The model follows the evident intent.
- `find_segment`'s `puzzle` argument: it is given the board, the only part it reads.
- `BestBuddiesMatrix` requires a square CM with four side slices when non-empty. `np.fill_diagonal` and the indexing would also accept an n x m x 4 tensor. But `set_CM` builds CM with one row per bag piece and one entry per bag piece in each row, so CM is always square. Best buddies and the mirror property `BB[i, j, d] == BB[j, i, opposite(d)]` only make sense when rows and columns index the same pieces.
- Python's recursion limit: `find_segment` recurses once per appended piece, so under CPython's default limit of about 1000 frames a best-buddy chain of about a thousand pieces raises `RecursionError`. `FindSegment` recurses without bound and never fails this way.
- Default arguments: `Puzzle(patch_size=100, seed=0)` and `BestBuddies_matrix(CM, diag=True)` have defaults in the source. In the model every argument is given explicitly.
- A negative patch size in `Slot.picture`: `np.zeros` raises on a negative shape, while `SlotPicture` returns the empty picture there.
- SegmentSearch.FindSegment: the contract characterises the segment (prefix, no duplicates, closed under best-buddy edges, each piece attached to an earlier one) but not the exact order in which the depth-first walk appends pieces.
- Pictures.ValidatePicture: a picture is a nested sequence, read as the nested list it would be in Python. An empty ndarray picture, such as `np.zeros((0, 0, 3))`, which the `Piece` asserts accept, cannot be represented apart from the empty list, and is rejected as not three-dimensional. Likewise `np.zeros((2, 0, 3))` is refused as not three-dimensional rather than as not square.
- Grayscale images: a two-dimensional image makes `height, width, _ = img.shape` raise in `create_from_img`. `Image` always has a channel axis, so this error cannot arise in the model.
- Float pictures: `np.array(picture, dtype=int)` truncates non-integer pixel values. The model's pixels are integers already.
- NaN in CM: when sigma is 0 and a dissimilarity is 0, `h` divides 0 by 0 and puts NaN in CM, where `np.argmax` returns the first NaN. CM is a `real` tensor in the model and cannot hold NaN.
- PomeranzSegmenter.Segmenter, JigsolverSegmenter.Segmenter: the seed cells are an input sequence long enough for the trials, not draws of `randint`.
