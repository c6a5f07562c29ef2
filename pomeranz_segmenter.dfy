/**
 * jigsolver/pomeranz_solver/segmenter.py: the best-buddy tensor computed from
 * a compatibility tensor, and the segmenter whose default number of trials is
 * at least five.
 *
 * The compatibility tensor CM[i, j, d] scores piece j on side d of piece i; it
 * is a numeric array of which only comparisons matter here, modelled as an
 * `array3<real>`.  The best-buddy tensor has the same shape and holds 0 or 1.
 */
module PomeranzSegmenter {
  import opened Wrappers
  import opened Borders
  import opened Boards
  import opened SegmentSearch

  /** k is `np.argmax(CM[i, :, d])`: a largest entry, and the first of them. */
  ghost predicate IsFirstArgmax(cm: array3<real>, i: int, d: int, k: int)
    reads cm
    requires 0 <= i < cm.Length0 && 0 <= d < cm.Length2
  {
    0 <= k < cm.Length1 &&
    (forall j :: 0 <= j < cm.Length1 ==> cm[i, j, d] <= cm[i, k, d]) &&
    (forall j :: 0 <= j < k ==> cm[i, j, d] < cm[i, k, d])
  }

  lemma FirstArgmaxUnique(cm: array3<real>, i: int, d: int, k: int, k': int)
    requires 0 <= i < cm.Length0 && 0 <= d < cm.Length2
    requires IsFirstArgmax(cm, i, d, k) && IsFirstArgmax(cm, i, d, k')
    ensures k == k'
  {
    // each is a largest entry, so the two entries are equal; neither comes strictly first
    assert cm[i, k, d] == cm[i, k', d];
  }

  /** `np.argmax(CM[i, :, d])` on a non-empty row: scan left to right, keep the first largest. */
  method ArgMax(cm: array3<real>, i: nat, d: nat) returns (k: nat)
    requires i < cm.Length0 && d < cm.Length2 && cm.Length1 > 0
    ensures IsFirstArgmax(cm, i, d, k)
  {
    k := 0;
    var j := 1;
    while j < cm.Length1
      invariant 1 <= j <= cm.Length1 && k < j
      invariant forall u :: 0 <= u < j ==> cm[i, u, d] <= cm[i, k, d]
      invariant forall u :: 0 <= u < k ==> cm[i, u, d] < cm[i, k, d]
    {
      if cm[i, j, d] > cm[i, k, d] {
        k := j;
      }
      j := j + 1;
    }
  }

  /** A square tensor with a slice per side whenever it has pieces. */
  predicate Shaped(cm: array3<real>) {
    cm.Length0 == cm.Length1 && (cm.Length0 > 0 ==> cm.Length2 >= 4)
  }

  /**
   * Pieces i and j are best buddies on side b of i: j is i's first-argmax
   * match on side b, and i is j's first-argmax match on the opposite side.
   */
  ghost predicate BestBuddies(cm: array3<real>, i: int, j: int, b: Border)
    reads cm
    requires Shaped(cm) && 0 <= i < cm.Length0 && 0 <= j < cm.Length0
  {
    IsFirstArgmax(cm, i, b.Value(), j) && IsFirstArgmax(cm, j, b.Opposite().Value(), i)
  }

  /** The relation is mutual: i, j on side b exactly when j, i on the opposite side. */
  lemma {:induction false} BestBuddiesSymmetric(cm: array3<real>, i: int, j: int, b: Border)
    requires Shaped(cm) && 0 <= i < cm.Length0 && 0 <= j < cm.Length0
    ensures BestBuddies(cm, i, j, b) <==> BestBuddies(cm, j, i, b.Opposite())
  {
    OppositeInvolution(b);
  }

  /** Each piece has at most one best buddy per side. */
  lemma {:induction false} BestBuddyUnique(cm: array3<real>, i: int, j: int, j': int, b: Border)
    requires Shaped(cm) && 0 <= i < cm.Length0 && 0 <= j < cm.Length0 && 0 <= j' < cm.Length0
    requires BestBuddies(cm, i, j, b) && BestBuddies(cm, i, j', b)
    ensures j == j'
  {
    FirstArgmaxUnique(cm, i, b.Value(), j, j');
  }

  /**
   * `BestBuddies_matrix(CM, diag)`.  With `diag`, the diagonal CM[i, i, k] is
   * first set to zero for every k, in place, and nothing else of CM changes.
   * Then BB[i, j, d] is 1 exactly when i and j are best buddies on side d of
   * the (zeroed) CM, and 0 elsewhere, including every slice beyond the four
   * sides.  Although the source only writes the (i, best, d) entry, the
   * result is mirrored: BB[i, j, d] == BB[j, i, opposite(d)].
   */
  method BestBuddiesMatrix(cm: array3<real>, diag: bool) returns (bb: array3<int>)
    requires Shaped(cm)
    modifies cm
    ensures forall i, j, k :: 0 <= i < cm.Length0 && 0 <= j < cm.Length1 && 0 <= k < cm.Length2 ==>
              cm[i, j, k] == if diag && i == j then 0.0 else old(cm[i, j, k])
    ensures fresh(bb)
    ensures bb.Length0 == cm.Length0 && bb.Length1 == cm.Length1 && bb.Length2 == cm.Length2
    ensures forall i, j, k :: 0 <= i < bb.Length0 && 0 <= j < bb.Length1 && 0 <= k < bb.Length2 ==>
              bb[i, j, k] == if k < 4 && BestBuddies(cm, i, j, FromValue(k)) then 1 else 0
    ensures cm.Length0 > 0 ==> Mirrored(bb)
  {
    if diag {
      ZeroDiagonal(cm);
    }
    bb := MarkBestBuddies(cm);
    var n := cm.Length0;
    if n > 0 {
      forall a, j, v {:trigger bb[a, j, v]} | 0 <= a < n && 0 <= j < n && 0 <= v < 4 ensures bb[a, j, v] == bb[j, a, (v + 2) % 4] {
        BestBuddiesSymmetric(cm, a, j, FromValue(v));
        ValueRoundTrip(FromValue(v).Opposite());
      }
    }
  }

  /** `np.fill_diagonal(CM[:, :, k], 0)` for every k: the self-compatibilities become 0. */
  method ZeroDiagonal(cm: array3<real>)
    requires cm.Length0 == cm.Length1
    modifies cm
    ensures forall i, j, k :: 0 <= i < cm.Length0 && 0 <= j < cm.Length1 && 0 <= k < cm.Length2 ==>
              cm[i, j, k] == if i == j then 0.0 else old(cm[i, j, k])
  {
    var n := cm.Length0;
    var k := 0;
    while k < cm.Length2
      invariant 0 <= k <= cm.Length2
      invariant forall a, b, c :: 0 <= a < n && 0 <= b < n && 0 <= c < cm.Length2 ==>
                  cm[a, b, c] == if a == b && c < k then 0.0 else old(cm[a, b, c])
    {
      var i := 0;
      while i < n
        invariant 0 <= i <= n
        invariant forall a, b, c :: 0 <= a < n && 0 <= b < n && 0 <= c < cm.Length2 ==>
                    cm[a, b, c] == if a == b && (c < k || (c == k && a < i)) then 0.0 else old(cm[a, b, c])
      {
        cm[i, i, k] := 0.0;
        i := i + 1;
      }
      k := k + 1;
    }
  }

  /**
   * The marking loop: a new zero tensor of CM's shape, in which, for each
   * piece i and side b, the first argmax j of CM[i, :, b] is marked when i
   * is in turn the first argmax of CM[j, :, opposite(b)].
   */
  method MarkBestBuddies(cm: array3<real>) returns (bb: array3<int>)
    requires Shaped(cm)
    ensures fresh(bb)
    ensures bb.Length0 == cm.Length0 && bb.Length1 == cm.Length1 && bb.Length2 == cm.Length2
    ensures forall i, j, k :: 0 <= i < bb.Length0 && 0 <= j < bb.Length1 && 0 <= k < bb.Length2 ==>
              bb[i, j, k] == if k < 4 && BestBuddies(cm, i, j, FromValue(k)) then 1 else 0
  {
    var n := cm.Length0;
    bb := new int[n, n, cm.Length2]((_, _, _) => 0);
    AllBordersOrder();
    var i := 0;
    while i < n
      modifies bb
      invariant 0 <= i <= n
      invariant forall a, j, c :: 0 <= a < n && 0 <= j < n && 0 <= c < bb.Length2 ==>
                  bb[a, j, c] == if a < i && c < 4 && BestBuddies(cm, a, j, FromValue(c)) then 1 else 0
    {
      var v := 0;
      while v < 4
        modifies bb
        invariant 0 <= v <= 4
        invariant forall a, j, c :: 0 <= a < n && 0 <= j < n && 0 <= c < bb.Length2 ==>
                    bb[a, j, c] == if (a < i || (a == i && c < v)) && c < 4 && BestBuddies(cm, a, j, FromValue(c)) then 1 else 0
      {
        var b := AllBorders[v];
        ValueRoundTrip(b);
        var best := ArgMax(cm, i, b.Value());
        var back := ArgMax(cm, best, b.Opposite().Value());
        forall j | 0 <= j < n && BestBuddies(cm, i, j, b) ensures j == best && back == i {
          FirstArgmaxUnique(cm, i, b.Value(), j, best);
          FirstArgmaxUnique(cm, best, b.Opposite().Value(), i, back);
        }
        if back == i {
          bb[i, best, b.Value()] := 1;
        }
        v := v + 1;
      }
      i := i + 1;
    }
  }

  /**
   * The number of trials: a non-zero `n_iter` is used as given; zero (the
   * falsy default) becomes the larger of 5 and a fifth of the cells.
   */
  function DefaultTrials(rows: nat, cols: nat, nIter: int): (n: int)
    ensures nIter != 0 ==> n == nIter
    ensures nIter == 0 ==> n >= 5 && n >= rows * cols / 5 && (n == 5 || n == rows * cols / 5)
  {
    if nIter != 0 then nIter else if rows * cols / 5 > 5 then rows * cols / 5 else 5
  }

  /**
   * `segmenter(puzzle, BB, n_iter)` with the random seed cells given as
   * `seeds`: the first longest of the trial segments.  A board without
   * columns raises at the first seed draw.  With the default number of
   * trials the search fails only there.
   */
  method Segmenter(board: Board, bb: array3<int>, nIter: int, seeds: seq<(int, int)>)
    returns (res: Result<seq<Piece>, SearchError>, segments: seq<seq<Piece>>)
    requires SearchReady(board, bb) && SeedsFit(board, seeds)
    requires |board.grid[0]| > 0 ==> DefaultTrials(|board.grid|, |board.grid[0]|, nIter) <= |seeds|
    ensures var n := DefaultTrials(|board.grid|, |board.grid[0]|, nIter);
            if n > 0 && |board.grid[0]| == 0 then res == Failure(EmptySeedRange) && segments == []
            else Searched(board, bb, seeds, n, res, segments)
    ensures nIter == 0 ==> (res.Success? <==> |board.grid[0]| > 0)
    ensures nIter == 0 && |board.grid[0]| > 0 ==> |segments| >= 5
  {
    var shape := board.Shape();
    var n := DefaultTrials(shape.0, shape.1, nIter);
    if n > 0 && shape.1 == 0 {
      return Failure(EmptySeedRange), [];
    }
    res, segments := RunTrials(board, bb, seeds, n);
  }
}
