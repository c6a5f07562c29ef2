/**
 * jigsolver/random_solver/random_solver.py: the baseline solver shuffles the
 * bag of pieces and then walks the board in row-major order, putting the
 * next entry of the bag into every empty cell.  Running out of bag entries
 * raises an index error, modelled as a `Failure`.
 */
module RandomFill {
  import opened Wrappers
  import opened Boards
  import opened Puzzles

  /** How many of the cells are slots. */
  function SlotsIn(cells: seq<Cell>): (n: nat)
    ensures n <= |cells|
  {
    if |cells| == 0 then 0 else SlotsIn(cells[..|cells| - 1]) + (if cells[|cells| - 1].Slot? then 1 else 0)
  }

  /** How many slots the first i rows of the grid hold. */
  function SlotsInRows(g: seq<seq<Cell>>, i: nat): nat
    requires i <= |g|
  {
    if i == 0 then 0 else SlotsInRows(g, i - 1) + SlotsIn(g[i - 1])
  }

  /** How many slots come before cell (i, j) in row-major order: the value of `k` there. */
  function SlotsBefore(g: seq<seq<Cell>>, i: nat, j: nat): nat
    requires i < |g| && j <= |g[i]|
  {
    SlotsInRows(g, i) + SlotsIn(g[i][..j])
  }

  /** The number of empty cells of the grid. */
  function SlotCount(g: seq<seq<Cell>>): nat {
    SlotsInRows(g, |g|)
  }

  /**
   * What cell (i, j) holds after the fill: an empty cell receives the bag
   * entry numbered by the slots before it, when the bag has one; any other
   * cell is left as it was.
   */
  function FillCell(g: seq<seq<Cell>>, bag: seq<Cell>, i: nat, j: nat): (c: Cell)
    requires i < |g| && j < |g[i]|
    ensures g[i][j].Placed? ==> c == g[i][j]
    ensures c == g[i][j] || (g[i][j].Slot? && c in bag)
  {
    if g[i][j].Slot? && SlotsBefore(g, i, j) < |bag| then bag[SlotsBefore(g, i, j)] else g[i][j]
  }

  lemma {:induction false} SlotsInPrefix(cells: seq<Cell>, a: nat, b: nat)
    requires a < b <= |cells|
    ensures SlotsIn(cells[..a]) + (if cells[a].Slot? then 1 else 0) <= SlotsIn(cells[..b])
    decreases b
  {
    assert cells[..b][..b - 1] == cells[..b - 1];
    if a < b - 1 {
      SlotsInPrefix(cells, a, b - 1);
    }
  }

  lemma {:induction false} SlotsInRowsMono(g: seq<seq<Cell>>, a: nat, b: nat)
    requires a <= b <= |g|
    ensures SlotsInRows(g, a) <= SlotsInRows(g, b)
    decreases b
  {
    if a < b {
      SlotsInRowsMono(g, a, b - 1);
    }
  }

  /** The slots before (r, c), and (r, c) itself if a slot, come at or before the first row after it. */
  lemma SlotsBeforeRowEnd(g: seq<seq<Cell>>, r: nat, c: nat)
    requires r < |g| && c < |g[r]|
    ensures SlotsBefore(g, r, c) + (if g[r][c].Slot? then 1 else 0) <= SlotsInRows(g, r + 1)
  {
    SlotsInPrefix(g[r], c, |g[r]|);
    assert g[r][..|g[r]|] == g[r];
  }

  /**
   * Row-major order is respected: every slot before cell (i, j) is counted
   * before it, so distinct empty cells receive distinct bag entries.
   */
  lemma SlotsBeforeOrder(g: seq<seq<Cell>>, r: nat, c: nat, i: nat, j: nat)
    requires r < |g| && c < |g[r]| && i < |g| && j <= |g[i]| && Before(r, c, i, j)
    ensures SlotsBefore(g, r, c) + (if g[r][c].Slot? then 1 else 0) <= SlotsBefore(g, i, j)
  {
    if r == i {
      SlotsInPrefix(g[i], c, j);
      assert g[i][..j][..c] == g[i][..c];
      assert g[i][..j][c] == g[i][c];
      SlotsInPrefix(g[i][..j], c, j);
      assert g[i][..j][..j] == g[i][..j];
    } else {
      SlotsBeforeRowEnd(g, r, c);
      SlotsInRowsMono(g, r + 1, i);
    }
  }

  /** The slots before an empty cell number fewer than the slots of the grid. */
  lemma SlotsBeforeBound(g: seq<seq<Cell>>, r: nat, c: nat)
    requires r < |g| && c < |g[r]|
    ensures SlotsBefore(g, r, c) + (if g[r][c].Slot? then 1 else 0) <= SlotCount(g)
  {
    SlotsBeforeRowEnd(g, r, c);
    SlotsInRowsMono(g, r + 1, |g|);
  }

  /** Two distinct empty cells receive two distinct bag entries. */
  lemma FillDistinct(g: seq<seq<Cell>>, r: nat, c: nat, i: nat, j: nat)
    requires r < |g| && c < |g[r]| && i < |g| && j < |g[i]| && (r, c) != (i, j)
    requires g[r][c].Slot? && g[i][j].Slot?
    ensures SlotsBefore(g, r, c) != SlotsBefore(g, i, j)
  {
    if Before(r, c, i, j) {
      SlotsBeforeOrder(g, r, c, i, j);
    } else {
      SlotsBeforeOrder(g, i, j, r, c);
    }
  }

  /** Given at least as many bag entries as empty cells, all of them pieces, no slot remains. */
  lemma NoSlotRemains(g: seq<seq<Cell>>, bag: seq<Cell>)
    requires SlotCount(g) <= |bag| && forall k :: 0 <= k < |bag| ==> bag[k].Placed?
    ensures forall i, j :: 0 <= i < |g| && 0 <= j < |g[i]| ==> FillCell(g, bag, i, j).Placed?
  {
    forall i, j | 0 <= i < |g| && 0 <= j < |g[i]| ensures FillCell(g, bag, i, j).Placed? {
      SlotsBeforeBound(g, i, j);
    }
  }

  /** The grid `g` once the cells of `grid0` before (i, j) are filled and the rest untouched. */
  predicate FilledUpTo(g: seq<seq<Cell>>, grid0: seq<seq<Cell>>, bag: seq<Cell>, i: int, j: int) {
    && |g| == |grid0|
    && (forall r :: 0 <= r < |g| ==> |g[r]| == |grid0[r]|)
    && forall r, c :: 0 <= r < |grid0| && 0 <= c < |grid0[r]| ==>
         g[r][c] == if Before(r, c, i, j) then FillCell(grid0, bag, r, c) else grid0[r][c]
  }

  lemma FilledStep(g: seq<seq<Cell>>, g': seq<seq<Cell>>, grid0: seq<seq<Cell>>, bag: seq<Cell>, i: nat, j: nat)
    requires FilledUpTo(g, grid0, bag, i, j) && i < |grid0| && j < |grid0[i]|
    requires |g'| == |g| && forall r :: 0 <= r < |g| ==> |g'[r]| == |g[r]|
    requires g'[i][j] == FillCell(grid0, bag, i, j)
    requires forall r, c :: 0 <= r < |g| && 0 <= c < |g[r]| && (r, c) != (i, j) ==> g'[r][c] == g[r][c]
    ensures FilledUpTo(g', grid0, bag, i, j + 1)
  {
  }

  lemma FilledNextRow(g: seq<seq<Cell>>, grid0: seq<seq<Cell>>, bag: seq<Cell>, i: nat, cols: nat)
    requires FilledUpTo(g, grid0, bag, i, cols) && forall r :: 0 <= r < |grid0| ==> |grid0[r]| == cols
    ensures FilledUpTo(g, grid0, bag, i + 1, 0)
  {
    forall r, c | 0 <= r < |grid0| && 0 <= c < cols ensures Before(r, c, i, cols) == Before(r, c, i + 1, 0) {
    }
  }

  /**
   * When the bag is used up at an empty cell (i, j), the fill leaves that
   * cell and every later one as it was.
   */
  lemma FillStops(grid0: seq<seq<Cell>>, bag: seq<Cell>, i: nat, j: nat)
    requires i < |grid0| && j < |grid0[i]| && SlotsBefore(grid0, i, j) >= |bag|
    ensures forall r, c :: 0 <= r < |grid0| && 0 <= c < |grid0[r]| && !Before(r, c, i, j) ==>
              FillCell(grid0, bag, r, c) == grid0[r][c]
  {
    forall r, c | 0 <= r < |grid0| && 0 <= c < |grid0[r]| && !Before(r, c, i, j) && (r, c) != (i, j)
      ensures FillCell(grid0, bag, r, c) == grid0[r][c]
    {
      SlotsBeforeOrder(grid0, i, j, r, c);
    }
  }

  datatype FillError = BagExhausted

  /**
   * `random_solver(puzzle)`: the bag is shuffled with the given draws, then
   * each empty cell, in row-major order, receives the next bag entry; the
   * result is the number of entries used, which is the number of empty
   * cells.  When the bag has fewer entries than there are empty cells the
   * fill stops at the first empty cell it cannot serve.  Either way every
   * cell ends as `FillCell` says.
   */
  method RandomSolver(puzzle: Puzzle, draws: seq<int>) returns (res: Result<nat, FillError>)
    requires puzzle.board != null && puzzle.board.Valid() && |puzzle.board.grid| > 0
    requires |draws| == |puzzle.bag| && forall t :: 0 <= t < |draws| ==> 0 <= draws[t] <= t
    modifies puzzle, puzzle.board
    ensures puzzle.board == old(puzzle.board) && puzzle.board.Valid()
    ensures puzzle.bag == Shuffled(old(puzzle.bag), draws)
    ensures |puzzle.board.grid| == |old(puzzle.board.grid)|
    ensures forall i :: 0 <= i < |puzzle.board.grid| ==> |puzzle.board.grid[i]| == |old(puzzle.board.grid)[i]|
    ensures forall i, j :: puzzle.board.InBounds(i, j) ==>
              puzzle.board.grid[i][j] == FillCell(old(puzzle.board.grid), puzzle.bag, i, j)
    ensures res.Success? <==> SlotCount(old(puzzle.board.grid)) <= |puzzle.bag|
    ensures res.Success? ==> res.value == SlotCount(old(puzzle.board.grid))
  {
    puzzle.bag := Shuffled(puzzle.bag, draws);
    var bag := puzzle.bag;
    var b := puzzle.board;
    var shape := b.Shape();
    var rows, cols := shape.0, shape.1;
    ghost var grid0 := b.grid;
    var k := 0;
    var i := 0;
    while i < rows
      invariant 0 <= i <= rows && puzzle.board == b && puzzle.bag == bag
      invariant b.Valid() && |b.grid| == rows && FilledUpTo(b.grid, grid0, bag, i, 0)
      invariant k == SlotsInRows(grid0, i) && k <= |bag|
    {
      var exhausted;
      exhausted, k := FillRow(b, bag, i, k, grid0);
      if exhausted {
        return Failure(BagExhausted);
      }
      i := i + 1;
    }
    res := Success(k);
  }

  /**
   * The inner loop of `random_solver`: fill the empty cells of row i from
   * bag entry k on.  `exhausted` reports the index error raised at an
   * empty cell once the bag is used up.
   */
  method FillRow(b: Board, bag: seq<Cell>, i: nat, k: nat, ghost grid0: seq<seq<Cell>>)
    returns (exhausted: bool, k': nat)
    requires b.Valid() && i < |grid0| && |grid0[0]| == |grid0[i]| && forall r :: 0 <= r < |grid0| ==> |grid0[r]| == |grid0[0]|
    requires FilledUpTo(b.grid, grid0, bag, i, 0) && k == SlotsInRows(grid0, i) && k <= |bag|
    modifies b
    ensures b.Valid() && |b.grid| == |grid0| && forall r :: 0 <= r < |grid0| ==> |b.grid[r]| == |grid0[r]|
    ensures !exhausted ==> FilledUpTo(b.grid, grid0, bag, i + 1, 0) && k' == SlotsInRows(grid0, i + 1) && k' <= |bag|
    ensures exhausted ==> SlotCount(grid0) > |bag|
    ensures exhausted ==> forall r, c :: 0 <= r < |grid0| && 0 <= c < |grid0[r]| ==> b.grid[r][c] == FillCell(grid0, bag, r, c)
  {
    var cols := |b.grid[i]|;
    k' := k;
    var j := 0;
    while j < cols
      invariant 0 <= j <= cols && b.Valid()
      invariant FilledUpTo(b.grid, grid0, bag, i, j)
      invariant k' == SlotsBefore(grid0, i, j) && k' <= |bag|
    {
      assert grid0[i][..j + 1][..j] == grid0[i][..j];
      if b.Get(i, j).Slot? {
        if k' >= |bag| {
          FillStops(grid0, bag, i, j);
          SlotsBeforeBound(grid0, i, j);
          return true, k';
        }
        ghost var g := b.grid;
        b.Set(i, j, bag[k']);
        FilledStep(g, b.grid, grid0, bag, i, j);
        k' := k' + 1;
      } else {
        FilledStep(b.grid, b.grid, grid0, bag, i, j);
      }
      j := j + 1;
    }
    assert grid0[i][..j] == grid0[i];
    FilledNextRow(b.grid, grid0, bag, i, cols);
    exhausted := false;
  }
}
