/**
 * The `Puzzle` of jigsolver/puzzle.py: cutting an image into a board of
 * pieces (`create_from_img`) and moving the board's cells into the bag of
 * pieces, which is then shuffled (`shuffle`).
 *
 * The random generator is not modelled: `np.random.shuffle` is the
 * Fisher-Yates shuffle it implements, driven by the sequence of draws it
 * would make, `draws[t]` being the index, at most t, that position t is
 * swapped with.
 */
module Puzzles {
  import opened Wrappers
  import opened Pictures
  import opened Boards

  /** An image as a three-dimensional array of height x width x channels integers. */
  datatype Image = Image(height: nat, width: nat, channels: nat, pixels: seq<seq<Pixel>>) {
    predicate WellFormed() {
      |pixels| == height &&
      (forall y :: 0 <= y < height ==> |pixels[y]| == width) &&
      (forall y, x :: 0 <= y < height && 0 <= x < width ==> |pixels[y][x]| == channels)
    }
  }

  /**
   * The number of rows and columns of pieces of side `ps` cut from the
   * image: the image is cropped to the largest multiple of `ps` in each
   * direction, dropping fewer than `ps` rows and columns.
   */
  function PieceGrid(img: Image, ps: int): (g: (nat, nat))
    requires ps > 0
    ensures g.0 * ps <= img.height < (g.0 + 1) * ps
    ensures g.1 * ps <= img.width < (g.1 + 1) * ps
  {
    (img.height / ps, img.width / ps)
  }

  /** The ps x ps block of the image whose top-left pixel is (i * ps, j * ps). */
  function Block(img: Image, i: nat, j: nat, ps: nat): (q: Picture)
    requires img.WellFormed() && ps > 0
    requires (i + 1) * ps <= img.height && (j + 1) * ps <= img.width
    ensures |q| == ps && forall r :: 0 <= r < ps ==> |q[r]| == ps
    ensures forall r, c :: 0 <= r < ps && 0 <= c < ps ==> q[r][c] == img.pixels[i * ps + r][j * ps + c]
  {
    seq(ps, r requires 0 <= r < ps => seq(ps, c requires 0 <= c < ps => img.pixels[i * ps + r][j * ps + c]))
  }

  /** A block passes the `Piece` checks exactly when the image has three channels. */
  lemma BlockValidity(img: Image, i: nat, j: nat, ps: nat)
    requires img.WellFormed() && ps > 0
    requires (i + 1) * ps <= img.height && (j + 1) * ps <= img.width
    ensures ValidatePicture(Block(img, i, j, ps)) == (if img.channels == 3 then None else Some(NotThreeColours))
  {
    var q := Block(img, i, j, ps);
    assert |q[0][0]| == img.channels;
    assert Cuboid(q);
  }

  /**
   * The blocks tile the cropped image: pixel (y, x) of it is pixel
   * (y mod ps, x mod ps) of block (y div ps, x div ps).
   */
  lemma BlocksTile(img: Image, ps: nat, y: nat, x: nat)
    requires img.WellFormed() && ps > 0
    requires y < PieceGrid(img, ps).0 * ps && x < PieceGrid(img, ps).1 * ps
    ensures y < img.height && x < img.width && y % ps < ps && x % ps < ps
    ensures (y / ps + 1) * ps <= img.height && (x / ps + 1) * ps <= img.width
    ensures Block(img, y / ps, x / ps, ps)[y % ps][x % ps] == img.pixels[y][x]
  {
    var g := PieceGrid(img, ps);
    BlockIndex(y, ps, g.0);
    BlockIndex(x, ps, g.1);
  }

  /** A coordinate below n * ps lies in block y div ps, which ends within n * ps. */
  lemma BlockIndex(y: nat, ps: nat, n: nat)
    requires ps > 0 && y < n * ps
    ensures y / ps < n && (y / ps + 1) * ps <= n * ps && (y / ps) * ps + y % ps == y
  {
    assert y / ps + 1 <= n;
    LeqTimes(y / ps + 1, n, ps);
  }

  lemma LeqTimes(a: nat, b: nat, c: nat)
    requires a <= b
    ensures a * c <= b * c
  {
  }

  /** The cells of a grid in row-major order, as `Board.__iter__` lists them. */
  function RowMajor<T>(g: seq<seq<T>>): (s: seq<T>)
  {
    if |g| == 0 then [] else RowMajor(g[..|g| - 1]) + g[|g| - 1]
  }

  /** In a rectangular grid, cell (i, j) is the (i * cols + j)-th in row-major order. */
  lemma {:induction false} RowMajorIndex<T>(g: seq<seq<T>>, cols: nat, i: nat, j: nat)
    requires forall r :: 0 <= r < |g| ==> |g[r]| == cols
    requires i < |g| && j < cols
    ensures |RowMajor(g)| == |g| * cols
    ensures i * cols + j < |RowMajor(g)| && RowMajor(g)[i * cols + j] == g[i][j]
  {
    var n := |g| - 1;
    var front := g[..n];
    RowMajorLength(front, cols);
    RowMajorLength(g, cols);
    if i < n {
      RowMajorIndex(front, cols, i, j);
      assert i * cols + j < n * cols by { BlockIndex(i * cols + j, cols, n); LeqTimes(i + 1, n, cols); }
    } else {
      assert RowMajor(g) == RowMajor(front) + g[n];
    }
  }

  lemma {:induction false} RowMajorLength<T>(g: seq<seq<T>>, cols: nat)
    requires forall r :: 0 <= r < |g| ==> |g[r]| == cols
    ensures |RowMajor(g)| == |g| * cols
  {
    if |g| > 0 {
      RowMajorLength(g[..|g| - 1], cols);
    }
  }

  /**
   * What `np.random.shuffle` does to `s` with the given draws: for t from
   * the last position down to 1, swap positions t and `draws[t]`.
   */
  function Shuffled<T>(s: seq<T>, draws: seq<int>): (r: seq<T>)
    requires |draws| == |s| && forall t :: 0 <= t < |s| ==> 0 <= draws[t] <= t
    ensures |r| == |s| && multiset(r) == multiset(s)
    decreases |s|
  {
    if |s| <= 1 then s
    else
      var n := |s| - 1;
      var swapped := Swap(s, n, draws[n]);
      SplitLast(swapped);
      var front := draws[..n];
      assert forall t :: 0 <= t < n ==> front[t] == draws[t];
      var rest := Shuffled(swapped[..n], front);
      assert multiset(rest + [swapped[n]]) == multiset(rest) + multiset{swapped[n]};
      rest + [swapped[n]]
  }

  /** `s` with positions a and b exchanged. */
  function Swap<T>(s: seq<T>, a: nat, b: nat): (r: seq<T>)
    requires a < |s| && b < |s|
    ensures |r| == |s| && multiset(r) == multiset(s)
    ensures r[a] == s[b] && r[b] == s[a]
    ensures forall k :: 0 <= k < |s| && k != a && k != b ==> r[k] == s[k]
  {
    s[a := s[b]][b := s[a]]
  }

  lemma SplitLast<T>(s: seq<T>)
    requires |s| > 0
    ensures s == s[..|s| - 1] + [s[|s| - 1]]
    ensures multiset(s) == multiset(s[..|s| - 1]) + multiset{s[|s| - 1]}
  {
    assert s == s[..|s| - 1] + [s[|s| - 1]];
  }

  /** Draws that never move anything leave the sequence as it is. */
  lemma {:induction false} ShuffledIdentity<T>(s: seq<T>, draws: seq<int>)
    requires |draws| == |s| && forall t :: 0 <= t < |s| ==> draws[t] == t
    ensures Shuffled(s, draws) == s
    decreases |s|
  {
    if |s| > 1 {
      var n := |s| - 1;
      assert Swap(s, n, draws[n]) == s;
      ShuffledIdentity(s[..n], draws[..n]);
      assert Shuffled(s, draws) == Shuffled(s[..n], draws[..n]) + [s[n]];
      SplitLast(s);
    }
  }

  class Puzzle {
    const patchSize: int
    const seed: int
    var bag: seq<Cell>
    var board: Board?

    /** `Puzzle(patch_size, seed)`: an empty bag and no board. */
    constructor (patchSize: int, seed: int)
      ensures this.patchSize == patchSize && this.seed == seed
      ensures bag == [] && board == null
    {
      this.patchSize := patchSize;
      this.seed := seed;
      bag := [];
      board := null;
    }

    /**
     * `Puzzle.shape`: the board's shape, asserting there is a board.  A
     * board of no rows has no shape either (`len(self._grid[0])` fails).
     */
    function Shape(): (r: Option<(nat, nat)>)
      reads this, board
      requires board != null ==> board.Valid()
      ensures r.Some? <==> board != null && |board.grid| > 0
      ensures r.Some? ==> |board.grid| == r.value.0 && forall i :: 0 <= i < |board.grid| ==> |board.grid[i]| == r.value.1
    {
      if board == null || |board.grid| == 0 then None else Some(board.Shape())
    }

    /**
     * `create_from_img(img)`: a board of `height div ps` by `width div ps`
     * cells where cell (i, j) holds a new piece whose picture is the
     * ps x ps block at (i * ps, j * ps).  When the image does not have three
     * channels the first piece's constructor fails, leaving the new board
     * all slots; an image too small for one piece gives a board with no
     * pieces and no error.
     */
    method CreateFromImg(img: Image) returns (err: Option<PictureError>)
      requires img.WellFormed() && patchSize > 0
      modifies this
      ensures bag == old(bag) && board != null && fresh(board) && board.Valid()
      ensures |board.grid| == PieceGrid(img, patchSize).0
      ensures forall i :: 0 <= i < |board.grid| ==> |board.grid[i]| == PieceGrid(img, patchSize).1
      ensures err.Some? <==> img.channels != 3 && PieceGrid(img, patchSize).0 > 0 && PieceGrid(img, patchSize).1 > 0
      ensures err.Some? ==> err.value == NotThreeColours && forall i, j :: board.InBounds(i, j) ==> board.grid[i][j] == Slot(patchSize)
      ensures err.None? ==> forall i, j :: board.InBounds(i, j) ==>
                && board.grid[i][j].Placed?
                && fresh(board.grid[i][j].piece)
                && !board.grid[i][j].piece.isPlaced
                && Fits(img, i, j, patchSize)
                && board.grid[i][j].piece.picture == Block(img, i, j, patchSize)
      ensures DistinctPieces(board.grid)
    {
      var ps := patchSize;
      var shape := PieceGrid(img, ps);
      var nRows, nCols := shape.0, shape.1;
      var b := new Board(nRows, nCols, ps);
      board := b;
      var i := 0;
      while i < nRows
        invariant 0 <= i <= nRows
        invariant board == b && fresh(b) && b.Valid() && bag == old(bag)
        invariant i > 0 && nCols > 0 ==> img.channels == 3
        invariant CutUpTo(b.grid, img, ps, nRows, nCols, i, 0)
        invariant forall r, c :: 0 <= r < nRows && 0 <= c < nCols && Before(r, c, i, 0) ==>
                    fresh(b.grid[r][c].piece) && !b.grid[r][c].piece.isPlaced
        invariant DistinctPieces(b.grid)
      {
        err := CutRow(b, img, ps, i);
        if err.Some? {
          CutNone(b.grid, img, ps, nRows, nCols);
          return;
        }
        CutNextRow(b.grid, img, ps, nRows, nCols, i);
        i := i + 1;
      }
      CutAll(b.grid, img, ps, nRows, nCols);
      err := None;
    }

    /**
     * `shuffle()`: the board's cells are appended to the bag in row-major
     * order, the board is replaced by an all-slot board of the same shape,
     * and the bag is shuffled.
     */
    method Shuffle(draws: seq<int>)
      requires board != null && board.Valid() && |board.grid| > 0
      requires |draws| == |bag| + |board.grid| * |board.grid[0]|
      requires forall t :: 0 <= t < |draws| ==> 0 <= draws[t] <= t
      modifies this
      ensures board != null && fresh(board) && board.Valid()
      ensures |board.grid| == |old(board.grid)|
      ensures forall i :: 0 <= i < |board.grid| ==> |board.grid[i]| == |old(board.grid)[0]|
      ensures forall i, j :: board.InBounds(i, j) ==> board.grid[i][j] == Slot(patchSize)
      ensures |old(bag) + RowMajor(old(board.grid))| == |draws|
      ensures bag == Shuffled(old(bag) + RowMajor(old(board.grid)), draws)
      ensures multiset(bag) == multiset(old(bag)) + multiset(RowMajor(old(board.grid)))
    {
      var b := board;
      var shape := b.Shape();
      var nRows, nCols := shape.0, shape.1;
      ghost var bag0 := bag;
      ghost var grid0 := b.grid;
      var i := 0;
      while i < nRows
        invariant 0 <= i <= nRows && b.grid == grid0
        invariant bag == bag0 + RowMajor(grid0[..i])
      {
        var j := 0;
        while j < nCols
          invariant 0 <= j <= nCols
          invariant bag == bag0 + RowMajor(grid0[..i]) + grid0[i][..j]
        {
          bag := bag + [b.grid[i][j]];
          assert grid0[i][..j + 1] == grid0[i][..j] + [grid0[i][j]];
          j := j + 1;
        }
        assert grid0[..i + 1][..i] == grid0[..i];
        assert grid0[i][..j] == grid0[i];
        i := i + 1;
      }
      assert grid0[..nRows] == grid0;
      RowMajorLength(grid0, nCols);
      board := new Board(nRows, nCols, patchSize);
      bag := Shuffled(bag, draws);
    }
  }

  /**
   * Row i of the cutting loop of `create_from_img`: each block of the row
   * becomes a new piece in its cell; the first block of a picture without
   * three colour channels stops the loop with the board untouched.
   */
  method CutRow(b: Board, img: Image, ps: nat, i: nat) returns (err: Option<PictureError>)
    requires img.WellFormed() && ps > 0 && b.Valid()
    requires i < PieceGrid(img, ps).0
    requires CutUpTo(b.grid, img, ps, PieceGrid(img, ps).0, PieceGrid(img, ps).1, i, 0)
    requires DistinctPieces(b.grid)
    modifies b
    ensures b.Valid() && DistinctPieces(b.grid)
    ensures err.Some? <==> img.channels != 3 && PieceGrid(img, ps).1 > 0
    ensures err.Some? ==> err.value == NotThreeColours && b.grid == old(b.grid)
    ensures err.None? ==> CutUpTo(b.grid, img, ps, PieceGrid(img, ps).0, PieceGrid(img, ps).1, i, PieceGrid(img, ps).1)
    ensures err.None? ==> forall c :: 0 <= c < PieceGrid(img, ps).1 ==>
              fresh(b.grid[i][c].piece) && !b.grid[i][c].piece.isPlaced
    ensures err.None? ==> forall r :: 0 <= r < |b.grid| && r != i ==> b.grid[r] == old(b.grid)[r]
  {
    var nRows, nCols := PieceGrid(img, ps).0, PieceGrid(img, ps).1;
    var j := 0;
    while j < nCols
      invariant 0 <= j <= nCols
      invariant b.Valid()
      invariant j > 0 ==> img.channels == 3
      invariant j == 0 ==> b.grid == old(b.grid)
      invariant CutUpTo(b.grid, img, ps, nRows, nCols, i, j)
      invariant forall c :: 0 <= c < j ==> fresh(b.grid[i][c].piece) && !b.grid[i][c].piece.isPlaced
      invariant forall r :: 0 <= r < |b.grid| && r != i ==> b.grid[r] == old(b.grid)[r]
      invariant DistinctPieces(b.grid)
    {
      FitsInGrid(img, ps, i, j);
      var block := Block(img, i, j, ps);
      BlockValidity(img, i, j, ps);
      var check := ValidatePicture(block);
      if check.Some? {
        return check;
      }
      ghost var g := b.grid;
      var piece := new Piece(block);
      b.Set(i, j, Placed(piece));
      CutStep(g, b.grid, img, ps, nRows, nCols, i, j);
      DistinctPlace(g, b.grid, i, j, piece);
      j := j + 1;
    }
    err := None;
  }

  /**
   * The grid `g` of `nRows` x `nCols` cells once the cells before (i, j)
   * are cut: each holds a piece whose picture is its block of the image,
   * each later cell is still a slot.
   */
  predicate CutUpTo(g: seq<seq<Cell>>, img: Image, ps: nat, nRows: nat, nCols: nat, i: int, j: int)
    requires img.WellFormed() && ps > 0
  {
    && nRows * ps <= img.height && nCols * ps <= img.width
    && |g| == nRows && (forall r :: 0 <= r < nRows ==> |g[r]| == nCols)
    && forall r, c :: 0 <= r < nRows && 0 <= c < nCols ==>
         if Before(r, c, i, j) then g[r][c].Placed? && Fits(img, r, c, ps) && g[r][c].piece.picture == Block(img, r, c, ps)
         else g[r][c] == Slot(ps)
  }

  /** No piece sits in two cells of the grid. */
  predicate DistinctPieces(g: seq<seq<Cell>>) {
    forall r, c, r', c' ::
      0 <= r < |g| && 0 <= c < |g[r]| && 0 <= r' < |g| && 0 <= c' < |g[r']| &&
      (r, c) != (r', c') && g[r][c].Placed? && g[r'][c'].Placed?
      ==> g[r][c].piece != g[r'][c'].piece
  }

  /** Putting a piece that no cell holds into one cell keeps the pieces distinct. */
  lemma DistinctPlace(g: seq<seq<Cell>>, g': seq<seq<Cell>>, i: nat, j: nat, p: Piece)
    requires DistinctPieces(g) && i < |g| && j < |g[i]|
    requires |g'| == |g| && forall r :: 0 <= r < |g| ==> |g'[r]| == |g[r]|
    requires g'[i][j] == Placed(p)
    requires forall r, c :: 0 <= r < |g| && 0 <= c < |g[r]| && (r, c) != (i, j) ==> g'[r][c] == g[r][c]
    requires forall r, c :: 0 <= r < |g| && 0 <= c < |g[r]| && g[r][c].Placed? ==> g[r][c].piece != p
    ensures DistinctPieces(g')
  {
  }

  /** Every block of the piece grid lies within the image. */
  lemma FitsInGrid(img: Image, ps: nat, i: nat, j: nat)
    requires ps > 0 && i < PieceGrid(img, ps).0 && j < PieceGrid(img, ps).1
    ensures Fits(img, i, j, ps)
  {
    var g := PieceGrid(img, ps);
    LeqTimes(i + 1, g.0, ps);
    LeqTimes(j + 1, g.1, ps);
  }

  /** Block (r, c) lies within the image. */
  predicate Fits(img: Image, r: nat, c: nat, ps: nat) {
    (r + 1) * ps <= img.height && (c + 1) * ps <= img.width
  }

  /** Cutting cell (i, j) extends `CutUpTo` by one cell. */
  lemma CutStep(g: seq<seq<Cell>>, g': seq<seq<Cell>>, img: Image, ps: nat, nRows: nat, nCols: nat, i: nat, j: nat)
    requires img.WellFormed() && ps > 0
    requires CutUpTo(g, img, ps, nRows, nCols, i, j)
    requires i < nRows && j < nCols && Fits(img, i, j, ps)
    requires |g'| == |g| && forall r :: 0 <= r < |g| ==> |g'[r]| == |g[r]|
    requires g'[i][j].Placed? && g'[i][j].piece.picture == Block(img, i, j, ps)
    requires forall r, c :: 0 <= r < |g| && 0 <= c < |g[r]| && (r, c) != (i, j) ==> g'[r][c] == g[r][c]
    ensures CutUpTo(g', img, ps, nRows, nCols, i, j + 1)
  {
  }

  lemma CutNextRow(g: seq<seq<Cell>>, img: Image, ps: nat, nRows: nat, nCols: nat, i: nat)
    requires img.WellFormed() && ps > 0
    requires CutUpTo(g, img, ps, nRows, nCols, i, nCols)
    ensures CutUpTo(g, img, ps, nRows, nCols, i + 1, 0)
  {
    forall r, c | 0 <= r < nRows && 0 <= c < nCols
      ensures Before(r, c, i, nCols) == Before(r, c, i + 1, 0)
    {
    }
  }

  /** Before any cell is cut the grid is all slots. */
  lemma CutNone(g: seq<seq<Cell>>, img: Image, ps: nat, nRows: nat, nCols: nat)
    requires img.WellFormed() && ps > 0
    requires CutUpTo(g, img, ps, nRows, nCols, 0, 0)
    ensures forall r, c :: 0 <= r < |g| && 0 <= c < |g[r]| ==> g[r][c] == Slot(ps)
  {
  }

  /** Once every row is cut each cell holds its block. */
  lemma CutAll(g: seq<seq<Cell>>, img: Image, ps: nat, nRows: nat, nCols: nat)
    requires img.WellFormed() && ps > 0
    requires CutUpTo(g, img, ps, nRows, nCols, nRows, 0)
    ensures forall r, c :: 0 <= r < |g| && 0 <= c < |g[r]| ==>
              g[r][c].Placed? && Fits(img, r, c, ps) && g[r][c].piece.picture == Block(img, r, c, ps)
  {
  }
}
