/**
 * jigsolver/segmenter.py: the segmenter whose default number of trials is at
 * most five, and `remove_all_but_segment`, which empties every board cell
 * whose occupant is not in the kept segment.
 */
module JigsolverSegmenter {
  import opened Wrappers
  import opened Pictures
  import opened Boards
  import opened SegmentSearch

  /**
   * The number of trials: a non-zero `n_iter` is used as given; zero (the
   * falsy default) becomes the smaller of 5 and a fifth of the cells, which
   * is zero on a board of fewer than five cells.
   */
  function DefaultTrials(rows: nat, cols: nat, nIter: int): (n: int)
    ensures nIter != 0 ==> n == nIter
    ensures nIter == 0 ==> 0 <= n <= 5 && n <= rows * cols / 5 && (n == 5 || n == rows * cols / 5)
    ensures nIter == 0 ==> (n == 0 <==> rows * cols < 5)
  {
    if nIter != 0 then nIter else if rows * cols / 5 < 5 then rows * cols / 5 else 5
  }

  /**
   * `segmenter(puzzle, BB, n_iter)` with the random seed cells given as
   * `seeds`: the first longest of the trial segments.  With the default
   * number of trials a board of fewer than five cells runs no trial, and
   * taking the longest of no segments fails.  A board without columns that
   * is to run a trial raises at the first seed draw.
   */
  method Segmenter(board: Board, bb: array3<int>, nIter: int, seeds: seq<(int, int)>)
    returns (res: Result<seq<Piece>, SearchError>, segments: seq<seq<Piece>>)
    requires SearchReady(board, bb) && SeedsFit(board, seeds)
    requires |board.grid[0]| > 0 ==> DefaultTrials(|board.grid|, |board.grid[0]|, nIter) <= |seeds|
    ensures var n := DefaultTrials(|board.grid|, |board.grid[0]|, nIter);
            if n > 0 && |board.grid[0]| == 0 then res == Failure(EmptySeedRange) && segments == []
            else Searched(board, bb, seeds, n, res, segments)
    ensures nIter == 0 ==> |segments| <= 5 && (res.Failure? <==> |board.grid| * |board.grid[0]| < 5)
  {
    var shape := board.Shape();
    var n := DefaultTrials(shape.0, shape.1, nIter);
    if n > 0 && shape.1 == 0 {
      return Failure(EmptySeedRange), [];
    }
    res, segments := RunTrials(board, bb, seeds, n);
  }

  /** `cell in segment`: a slot compares by its all-zero picture. */
  predicate InSegment(c: Cell, segment: seq<Piece>): (b: bool)
    ensures c.Placed? ==> (b <==> exists p :: p in segment && p.picture == c.piece.picture)
    ensures c.Placed? && c.piece in segment ==> b
  {
    Contains(segment, c.Picture())
  }

  /**
   * One step of `remove_all_but_segment`: cell (i, j) keeps its occupant
   * when that occupant is in the segment; otherwise the occupant (if it is a
   * piece) is marked as not placed and the cell becomes `Slot(slotSize)`.
   * `pieces` is any set of pieces that includes the board's occupants.
   */
  method PruneCell(board: Board, segment: seq<Piece>, i: int, j: int, slotSize: int, ghost pieces: set<Piece>)
    requires board.Valid() && board.InBounds(i, j) && board.Occupants() <= pieces
    modifies board, board.Occupants()
    ensures board.Valid() && |board.grid| == |old(board.grid)|
    ensures forall r :: 0 <= r < |board.grid| ==> |board.grid[r]| == |old(board.grid)[r]|
    ensures board.grid[i][j] == Pruned(old(board.grid)[i][j], segment, slotSize)
    ensures forall r, c :: board.InBounds(r, c) && (r, c) != (i, j) ==> board.grid[r][c] == old(board.grid)[r][c]
    ensures board.Occupants() <= old(board.Occupants())
    ensures forall p :: p in pieces ==> p.id == old(p.id) && p.position == old(p.position)
    ensures forall p :: p in pieces ==> p.isPlaced == (if Dropped(old(board.grid)[i][j], segment, p) then false else old(p.isPlaced))
  {
    var cell := board.Get(i, j);
    if !InSegment(cell, segment) {
      if cell.Placed? {
        cell.piece.isPlaced := false;
      }
      board.Set(i, j, Slot(slotSize));
    }
  }

  /** What a cell becomes once pruned: itself if in the segment, else a slot. */
  function Pruned(c: Cell, segment: seq<Piece>, slotSize: int): Cell {
    if InSegment(c, segment) then c else Slot(slotSize)
  }

  /** Whether pruning cell `c` clears the placed flag of `p`. */
  predicate Dropped(c: Cell, segment: seq<Piece>, p: Piece) {
    c.Placed? && c.piece == p && !InSegment(c, segment)
  }

  /**
   * The grid `g` after pruning every cell before (i, j) of the original
   * grid `grid0`: those are pruned, the rest untouched.
   */
  predicate PrunedUpTo(g: seq<seq<Cell>>, grid0: seq<seq<Cell>>, segment: seq<Piece>, i: int, j: int) {
    && |g| == |grid0| > 0
    && (forall r :: 0 <= r < |grid0| ==> |g[r]| == |grid0[r]| == |grid0[0]|)
    && forall r, c :: 0 <= r < |grid0| && 0 <= c < |grid0[0]| ==>
         g[r][c] == if Before(r, c, i, j) then Pruned(grid0[r][c], segment, r * |grid0| + c) else grid0[r][c]
  }

  /** Pruning cell (i, j) extends `PrunedUpTo` by one cell. */
  lemma PrunedStep(g: seq<seq<Cell>>, g': seq<seq<Cell>>, grid0: seq<seq<Cell>>, segment: seq<Piece>, i: int, j: int)
    requires PrunedUpTo(g, grid0, segment, i, j)
    requires 0 <= i < |grid0| && 0 <= j < |grid0[0]|
    requires |g'| == |g| && forall r :: 0 <= r < |g| ==> |g'[r]| == |g[r]|
    requires g'[i][j] == Pruned(g[i][j], segment, i * |grid0| + j)
    requires forall r, c :: 0 <= r < |g| && 0 <= c < |g[r]| && (r, c) != (i, j) ==> g'[r][c] == g[r][c]
    ensures PrunedUpTo(g', grid0, segment, i, j + 1)
  {
  }

  /** The placed flags of `pieces`, as a map. */
  ghost function Flags(pieces: set<Piece>): (f: map<Piece, bool>)
    reads pieces
    ensures f.Keys == pieces
    ensures forall p :: p in pieces ==> f[p] == p.isPlaced
  {
    map p | p in pieces :: p.isPlaced
  }

  /**
   * The placed flags `f` after pruning every cell before (i, j), from the
   * flags `f0` before: a piece of a visited cell outside the segment is no
   * longer placed, a piece in the segment keeps its flag.
   */
  predicate FlagsUpTo(grid0: seq<seq<Cell>>, segment: seq<Piece>, f0: map<Piece, bool>, f: map<Piece, bool>, i: int, j: int) {
    && f.Keys == f0.Keys
    && (forall p :: p in f && Contains(segment, p.picture) ==> f[p] == f0[p])
    && forall r, c :: 0 <= r < |grid0| && 0 <= c < |grid0[r]| && Before(r, c, i, j) && grid0[r][c].Placed? && grid0[r][c].piece in f ==>
         (Contains(segment, grid0[r][c].piece.picture) || !f[grid0[r][c].piece])
  }

  /** Pruning cell (i, j) extends `FlagsUpTo` by one cell. */
  lemma FlagsStep(grid0: seq<seq<Cell>>, segment: seq<Piece>, f0: map<Piece, bool>, f: map<Piece, bool>, f': map<Piece, bool>, i: int, j: int)
    requires FlagsUpTo(grid0, segment, f0, f, i, j)
    requires 0 <= i < |grid0| && 0 <= j < |grid0[i]|
    requires f'.Keys == f.Keys
    requires forall p :: p in f ==> f'[p] == if Dropped(grid0[i][j], segment, p) then false else f[p]
    ensures FlagsUpTo(grid0, segment, f0, f', i, j + 1)
  {
  }

  /**
   * `remove_all_but_segment(puzzle, segment)`: each cell, visited once in
   * row-major order, keeps its occupant when that occupant is in the
   * segment; otherwise the occupant's placed flag is cleared and the cell
   * becomes `Slot(i * rows + j)` (the source multiplies by the number of
   * rows, not columns).  The board keeps its shape, and pieces keep their
   * identity and position.
   */
  method RemoveAllButSegment(board: Board, segment: seq<Piece>)
    requires board.Valid() && |board.grid| > 0
    modifies board, board.Occupants()
    ensures board.Valid() && |board.grid| == |old(board.grid)|
    ensures forall i :: 0 <= i < |board.grid| ==> |board.grid[i]| == |old(board.grid)[i]|
    ensures forall i, j :: board.InBounds(i, j) ==>
              board.grid[i][j] == Pruned(old(board.grid)[i][j], segment, i * |old(board.grid)| + j)
    ensures forall p :: p in old(board.Occupants()) ==>
              p.isPlaced == (if Contains(segment, p.picture) then old(p.isPlaced) else false)
    ensures forall p :: p in old(board.Occupants()) ==> p.id == old(p.id) && p.position == old(p.position)
  {
    var shape := board.Shape();
    var rows := shape.0;
    ghost var grid0 := board.grid;
    ghost var occupants := board.Occupants();
    ghost var f0 := Flags(occupants);
    var i := 0;
    while i < rows
      invariant 0 <= i <= rows
      invariant board.Valid() && PrunedUpTo(board.grid, grid0, segment, i, 0)
      invariant board.Occupants() <= occupants
      invariant forall p :: p in occupants ==> p.id == old(p.id) && p.position == old(p.position)
      invariant FlagsUpTo(grid0, segment, f0, Flags(occupants), i, 0)
    {
      PruneRow(board, segment, i, grid0, occupants, f0);
      i := i + 1;
    }
    forall p | p in occupants && !Contains(segment, p.picture) ensures !p.isPlaced {
      var r, c :| 0 <= r < |grid0| && 0 <= c < |grid0[r]| && grid0[r][c].Placed? && grid0[r][c].piece == p;
      assert Before(r, c, rows, 0);
    }
  }

  /** The inner loop of `remove_all_but_segment`: prune row i, cell by cell. */
  method PruneRow(board: Board, segment: seq<Piece>, i: nat,
                  ghost grid0: seq<seq<Cell>>, ghost occupants: set<Piece>, ghost f0: map<Piece, bool>)
    requires i < |grid0| && board.Valid() && PrunedUpTo(board.grid, grid0, segment, i, 0)
    requires board.Occupants() <= occupants
    requires FlagsUpTo(grid0, segment, f0, Flags(occupants), i, 0)
    modifies board, occupants
    ensures board.Valid() && PrunedUpTo(board.grid, grid0, segment, i + 1, 0)
    ensures board.Occupants() <= occupants
    ensures forall p :: p in occupants ==> p.id == old(p.id) && p.position == old(p.position)
    ensures FlagsUpTo(grid0, segment, f0, Flags(occupants), i + 1, 0)
  {
    var rows, cols := |board.grid|, |board.grid[i]|;
    var j := 0;
    while j < cols
      invariant 0 <= j <= cols
      invariant board.Valid() && PrunedUpTo(board.grid, grid0, segment, i, j)
      invariant board.Occupants() <= occupants
      invariant forall p :: p in occupants ==> p.id == old(p.id) && p.position == old(p.position)
      invariant FlagsUpTo(grid0, segment, f0, Flags(occupants), i, j)
    {
      ghost var g := board.grid;
      ghost var f := Flags(occupants);
      PruneCell(board, segment, i, j, i * rows + j, occupants);
      PrunedStep(g, board.grid, grid0, segment, i, j);
      FlagsStep(grid0, segment, f0, f, Flags(occupants), i, j);
      j := j + 1;
    }
    PrunedNextRow(board.grid, grid0, segment, i);
    FlagsNextRow(grid0, segment, f0, Flags(occupants), i);
  }

  lemma PrunedNextRow(g: seq<seq<Cell>>, grid0: seq<seq<Cell>>, segment: seq<Piece>, i: nat)
    requires |grid0| > 0 && PrunedUpTo(g, grid0, segment, i, |grid0[0]|)
    ensures PrunedUpTo(g, grid0, segment, i + 1, 0)
  {
    forall r, c | 0 <= r < |grid0| && 0 <= c < |grid0[0]| ensures Before(r, c, i, |grid0[0]|) == Before(r, c, i + 1, 0) {
    }
  }

  lemma FlagsNextRow(grid0: seq<seq<Cell>>, segment: seq<Piece>, f0: map<Piece, bool>, f: map<Piece, bool>, i: nat)
    requires |grid0| > 0 && forall r :: 0 <= r < |grid0| ==> |grid0[r]| == |grid0[0]|
    requires FlagsUpTo(grid0, segment, f0, f, i, |grid0[0]|)
    ensures FlagsUpTo(grid0, segment, f0, f, i + 1, 0)
  {
    forall r, c | 0 <= r < |grid0| && 0 <= c < |grid0[r]| ensures Before(r, c, i, |grid0[0]|) == Before(r, c, i + 1, 0) {
    }
  }
}
