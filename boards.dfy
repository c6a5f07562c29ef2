/**
 * Pieces, cells and the board grid of jigsolver/puzzle.py.
 *
 * A `Piece` is an object: the bag of pieces and the board hold references to
 * the same pieces, and the segment pruner clears a piece's placed flag in
 * place.  Its picture never changes.  The identity, board position and placed
 * flag are attributes the segmenters read and write but puzzle.py's `Piece`
 * class never declares; here they are ordinary mutable fields, set by the
 * solver that drives the segmenters.
 *
 * A board cell is either an empty `Slot` (which carries the integer it was
 * built with) or a placed piece; the source tells them apart with
 * `isinstance`, the model with the two constructors of `Cell`.
 */
module Boards {
  import opened Borders
  import opened Pictures

  class Piece {
    const picture: Picture
    var id: nat
    var position: (int, int)
    var isPlaced: bool

    /** `Piece(picture)`; the caller has checked `ValidatePicture(picture) == None`. */
    constructor (picture: Picture)
      requires IsPiecePicture(picture)
      ensures this.picture == picture && !isPlaced
    {
      this.picture := picture;
      id := 0;
      position := (0, 0);
      isPlaced := false;
    }
  }

  datatype Cell = Slot(patchSize: int) | Placed(piece: Piece) {

    /**
     * The picture a cell is compared by: a piece's own picture, and for a
     * slot the all-zero picture of its `picture` property.  Piece equality
     * in the source is equality of pictures, and a slot compared with a piece
     * falls back to the piece's equality, so this is what `in` compares.
     */
    function Picture(): (pic: Picture)
      ensures Placed? ==> pic == piece.picture
      ensures Slot? && patchSize > 0 ==> IsPiecePicture(pic) && |pic| == patchSize
      ensures Slot? ==> forall r, c, k :: 0 <= r < |pic| && 0 <= c < |pic[r]| && 0 <= k < |pic[r][c]| ==> pic[r][c][k] == 0
    {
      match this
      case Slot(n) => SlotPicture(n)
      case Placed(p) => p.picture
    }
  }

  /** Cell (r, c) comes before cell (i, j) in row-major order, the order every loop over a board uses. */
  predicate Before(r: int, c: int, i: int, j: int) {
    r < i || (r == i && c < j)
  }

  /** The cell next to (i, j) across side `b`. */
  function Towards(i: int, j: int, b: Border): (q: (int, int)) {
    match b
    case Top => (i - 1, j)
    case Right => (i, j + 1)
    case Bottom => (i + 1, j)
    case Left => (i, j - 1)
  }

  /** Stepping across a side and back across its opposite returns to the start. */
  lemma {:induction false} TowardsInverse(i: int, j: int, b: Border)
    ensures Towards(Towards(i, j, b).0, Towards(i, j, b).1, b.Opposite()) == (i, j)
  {
    match b
    case Top =>
    case Right =>
    case Bottom =>
    case Left =>
  }

  /**
   * The sides of cell (i, j) of a rows-by-cols grid that have a neighbour,
   * in the order the neighbour iterator visits them: top, right, bottom, left.
   */
  function NeighborDirs(rows: int, cols: int, i: int, j: int): (ds: seq<Border>)
    ensures |ds| <= 4
  {
    (if i > 0 then [Top] else []) +
    (if j < cols - 1 then [Right] else []) +
    (if i < rows - 1 then [Bottom] else []) +
    (if j > 0 then [Left] else [])
  }

  predicate Within(rows: int, cols: int, q: (int, int)) {
    0 <= q.0 < rows && 0 <= q.1 < cols
  }

  /**
   * From an in-bounds cell, a side is listed exactly when the cell across it
   * is in bounds; the sides come in increasing enum order; and their number
   * is four less one per edge of the grid the cell touches.
   */
  lemma {:induction false} NeighborDirsSpec(rows: int, cols: int, i: int, j: int)
    requires Within(rows, cols, (i, j))
    ensures forall b: Border :: b in NeighborDirs(rows, cols, i, j) <==> Within(rows, cols, Towards(i, j, b))
    ensures forall s, t :: 0 <= s < t < |NeighborDirs(rows, cols, i, j)| ==>
              NeighborDirs(rows, cols, i, j)[s].Value() < NeighborDirs(rows, cols, i, j)[t].Value()
    ensures |NeighborDirs(rows, cols, i, j)| ==
              4 - (if i == 0 then 1 else 0) - (if j == cols - 1 then 1 else 0)
                - (if i == rows - 1 then 1 else 0) - (if j == 0 then 1 else 0)
  {
    var ds := NeighborDirs(rows, cols, i, j);
    forall b: Border ensures b in ds <==> Within(rows, cols, Towards(i, j, b)) {
      match b
      case Top =>
      case Right =>
      case Bottom =>
      case Left =>
    }
  }

  /** A corner cell of a grid with at least two rows and two columns has two neighbours. */
  lemma CornerHasTwoNeighbors(rows: int, cols: int, i: int, j: int)
    requires rows >= 2 && cols >= 2
    requires (i == 0 || i == rows - 1) && (j == 0 || j == cols - 1)
    ensures |NeighborDirs(rows, cols, i, j)| == 2
  {
    NeighborDirsSpec(rows, cols, i, j);
  }

  /** Neighbourhood is mutual: across the opposite side lies the starting cell. */
  lemma {:induction false} NeighborDirsMutual(rows: int, cols: int, i: int, j: int, b: Border)
    requires Within(rows, cols, (i, j))
    requires b in NeighborDirs(rows, cols, i, j)
    ensures Within(rows, cols, Towards(i, j, b))
    ensures b.Opposite() in NeighborDirs(rows, cols, Towards(i, j, b).0, Towards(i, j, b).1)
  {
    NeighborDirsSpec(rows, cols, i, j);
    var q := Towards(i, j, b);
    NeighborDirsSpec(rows, cols, q.0, q.1);
    TowardsInverse(i, j, b);
  }

  class Board {
    var grid: seq<seq<Cell>>

    /** A rectangular grid: every row as long as the first. */
    predicate Valid()
      reads this
    {
      forall i :: 0 <= i < |grid| ==> |grid[i]| == |grid[0]|
    }

    predicate InBounds(i: int, j: int)
      reads this
    {
      0 <= i < |grid| && 0 <= j < |grid[i]|
    }

    /** `Board(n_rows, n_cols, patch_size)`: every cell an empty slot of that patch size. */
    constructor (nRows: nat, nCols: nat, patchSize: int)
      ensures Valid()
      ensures |grid| == nRows
      ensures forall i :: 0 <= i < nRows ==> |grid[i]| == nCols
      ensures forall i, j :: 0 <= i < nRows && 0 <= j < nCols ==> grid[i][j] == Slot(patchSize)
    {
      grid := seq(nRows, i => seq(nCols, j => Slot(patchSize)));
    }

    /**
     * The `shape` property: the number of rows and the length of the first
     * row.  A grid without rows has no first row, and the source fails there.
     */
    function Shape(): (s: (nat, nat))
      reads this
      requires Valid() && |grid| > 0
      ensures s.0 == |grid| && forall i :: 0 <= i < |grid| ==> |grid[i]| == s.1
    {
      (|grid|, |grid[0]|)
    }

    /** `board[i, j]`. */
    function Get(i: int, j: int): (c: Cell)
      reads this
      requires InBounds(i, j)
      ensures c.Placed? ==> c.piece in Occupants()
    {
      grid[i][j]
    }

    /** `board[i, j] = v`: cell (i, j) becomes v and no other cell changes. */
    method Set(i: int, j: int, v: Cell)
      requires Valid() && InBounds(i, j)
      modifies this
      ensures Valid() && |grid| == |old(grid)|
      ensures forall r :: 0 <= r < |grid| ==> |grid[r]| == |old(grid)[r]|
      ensures grid[i][j] == v
      ensures forall r, c :: InBounds(r, c) && (r, c) != (i, j) ==> grid[r][c] == old(grid)[r][c]
      ensures Occupants() <= old(Occupants()) + (if v.Placed? then {v.piece} else {})
    {
      grid := grid[i := grid[i][j := v]];
    }

    /**
     * `neighbors(i, j)`: each side of (i, j) that has a neighbour, paired
     * with the cell across it, in the order top, right, bottom, left.
     */
    function Neighbors(i: int, j: int): (ns: seq<(Border, Cell)>)
      reads this
      requires Valid() && |grid| > 0 && InBounds(i, j)
      ensures |ns| == |NeighborDirs(|grid|, |grid[0]|, i, j)|
      ensures forall t :: 0 <= t < |ns| ==>
                ns[t].0 == NeighborDirs(|grid|, |grid[0]|, i, j)[t] &&
                InBounds(Towards(i, j, ns[t].0).0, Towards(i, j, ns[t].0).1) &&
                ns[t].1 == grid[Towards(i, j, ns[t].0).0][Towards(i, j, ns[t].0).1]
    {
      var cols := |grid[0]|;
      (if i > 0 then [(Top, grid[i - 1][j])] else []) +
      (if j < cols - 1 then [(Right, grid[i][j + 1])] else []) +
      (if i < |grid| - 1 then [(Bottom, grid[i + 1][j])] else []) +
      (if j > 0 then [(Left, grid[i][j - 1])] else [])
    }

    /** The pieces currently on the board. */
    function Occupants(): (ps: set<Piece>)
      reads this
      ensures forall i, j :: InBounds(i, j) && grid[i][j].Placed? ==> grid[i][j].piece in ps
    {
      set i, j | 0 <= i < |grid| && 0 <= j < |grid[i]| && grid[i][j].Placed? :: grid[i][j].piece
    }

    /** Every placed piece records the cell it sits in. */
    ghost predicate PositionsAgree()
      reads this, Occupants()
    {
      forall i, j :: InBounds(i, j) && grid[i][j].Placed? ==> grid[i][j].piece.position == (i, j)
    }
  }
}
