/**
 * Pictures of pieces and what is computed from them in jigsolver/puzzle.py:
 * the validation done by the `Piece` constructor, border extraction
 * (`get_border`), the squared-difference dissimilarity (`diss`) and the
 * all-zero picture of an empty `Slot`.
 *
 * A picture is rows of pixels, a pixel is its colour values.  Pixel values
 * are integers because the constructor converts the picture with `dtype=int`.
 */
module Pictures {
  import opened Wrappers
  import opened Borders

  type Pixel = seq<int>
  type Picture = seq<seq<Pixel>>

  /** Why the `Piece` constructor refuses a picture. */
  datatype PictureError =
    | Inhomogeneous        // the nested rows cannot form an array at all
    | NotThreeDimensional  // "The picture must be 3-dimensional, i.e. of shape (n,n,3)"
    | NotThreeColours      // "Each pixel of the picture must have 3 color values"
    | NotSquare            // "The image must not be rectangular but squared in shape"

  /** Every row as long as the first and every pixel as long as the first. */
  predicate Cuboid(p: Picture) {
    (forall r :: 0 <= r < |p| ==> |p[r]| == |p[0]|) &&
    (forall r, c :: 0 <= r < |p| && 0 <= c < |p[r]| ==> |p[r][c]| == |p[0][0]|)
  }

  /** An n-by-n picture of three-channel pixels, n at least one. */
  predicate IsPiecePicture(p: Picture) {
    |p| > 0 &&
    (forall r :: 0 <= r < |p| ==> |p[r]| == |p|) &&
    (forall r, c :: 0 <= r < |p| && 0 <= c < |p[r]| ==> |p[r][c]| == 3)
  }

  /**
   * The checks of the `Piece` constructor, in the order it makes them, on a
   * picture given as nested lists.  `np.array` of an empty list, or of a list
   * of empty rows, has fewer than three dimensions.  (An empty ndarray such as
   * one of shape (0, 0, 3) cannot be told apart from those lists here.)
   */
  function ValidatePicture(p: Picture): (r: Option<PictureError>)
    ensures r == None <==> IsPiecePicture(p)
  {
    if |p| == 0 then Some(NotThreeDimensional)
    else if |p[0]| == 0 then
      (if forall r :: 0 <= r < |p| ==> |p[r]| == 0 then Some(NotThreeDimensional) else Some(Inhomogeneous))
    else if !Cuboid(p) then Some(Inhomogeneous)
    else if |p[0][0]| != 3 then Some(NotThreeColours)
    else if |p| != |p[0]| then Some(NotSquare)
    else None
  }

  /** Pictures of the same size whose pixels all have three channels. */
  predicate SameSize(p: Picture, q: Picture) {
    IsPiecePicture(p) && IsPiecePicture(q) && |p| == |q|
  }

  /**
   * The pixels on one side of a picture, as the border's slice picks them:
   * TOP is row 0, RIGHT the last column, BOTTOM the last row, LEFT column 0,
   * each read top to bottom or left to right.
   */
  function GetBorder(p: Picture, b: Border): (e: seq<Pixel>)
    requires IsPiecePicture(p)
    ensures |e| == |p|
    ensures forall k :: 0 <= k < |e| ==> |e[k]| == 3
  {
    var n := |p|;
    match b
    case Top => p[0]
    case Right => seq(n, k requires 0 <= k < n => p[k][n - 1])
    case Bottom => p[n - 1]
    case Left => seq(n, k requires 0 <= k < n => p[k][0])
  }

  /** The picture turned half a turn: pixel (r, c) moves to (n-1-r, n-1-c). */
  function Rotate180(p: Picture): (q: Picture)
    requires IsPiecePicture(p)
    ensures IsPiecePicture(q) && |q| == |p|
  {
    var n := |p|;
    seq(n, r requires 0 <= r < n => seq(n, c requires 0 <= c < n => p[n - 1 - r][n - 1 - c]))
  }

  function Reverse<T>(s: seq<T>): (r: seq<T>)
    ensures |r| == |s|
    ensures forall k :: 0 <= k < |s| ==> r[k] == s[|s| - 1 - k]
  {
    seq(|s|, k requires 0 <= k < |s| => s[|s| - 1 - k])
  }

  /**
   * The slices agree with the opposite-side algebra: a side of the rotated
   * picture is the opposite side of the original, read backwards.
   */
  lemma {:induction false} BorderOfRotated(p: Picture, b: Border)
    requires IsPiecePicture(p)
    ensures GetBorder(Rotate180(p), b) == Reverse(GetBorder(p, b.Opposite()))
  {
    var n := |p|;
    var q := Rotate180(p);
    var lhs, rhs := GetBorder(q, b), Reverse(GetBorder(p, b.Opposite()));
    forall k | 0 <= k < n ensures lhs[k] == rhs[k] {
      match b
      case Top => assert lhs[k] == p[n - 1][n - 1 - k];
      case Right => assert lhs[k] == p[n - 1 - k][0];
      case Bottom => assert lhs[k] == p[0][n - 1 - k];
      case Left => assert lhs[k] == p[n - 1 - k][n - 1];
    }
  }

  /** Neighbouring sides share their corner pixel. */
  lemma {:induction false} CornersShared(p: Picture)
    requires IsPiecePicture(p)
    ensures GetBorder(p, Top)[|p| - 1] == GetBorder(p, Right)[0]
    ensures GetBorder(p, Right)[|p| - 1] == GetBorder(p, Bottom)[|p| - 1]
    ensures GetBorder(p, Bottom)[0] == GetBorder(p, Left)[|p| - 1]
    ensures GetBorder(p, Left)[0] == GetBorder(p, Top)[0]
  {
  }

  /** The sum of squared channel differences of two pixels. */
  function PixelSqDiff(x: Pixel, y: Pixel): (s: int)
    requires |x| == |y|
    ensures s >= 0
    ensures s == 0 <==> x == y
    decreases |x|
  {
    if |x| == 0 then 0
    else
      var d := x[0] - y[0];
      assert d * d >= 0 && (d * d == 0 <==> x[0] == y[0]);
      var rest := PixelSqDiff(x[1..], y[1..]);
      assert x == y <==> x[0] == y[0] && x[1..] == y[1..] by {
        if x[0] == y[0] && x[1..] == y[1..] { assert x == [x[0]] + x[1..]; assert y == [y[0]] + y[1..]; }
      }
      d * d + rest
  }

  predicate Matching(u: seq<Pixel>, v: seq<Pixel>) {
    |u| == |v| && forall k :: 0 <= k < |u| ==> |u[k]| == |v[k]|
  }

  /** The sum of squared differences over two equally long rows of pixels. */
  function SqDiff(u: seq<Pixel>, v: seq<Pixel>): (s: int)
    requires Matching(u, v)
    ensures s >= 0
    ensures s == 0 <==> u == v
    decreases |u|
  {
    if |u| == 0 then 0
    else
      var rest := SqDiff(u[1..], v[1..]);
      assert u == v <==> u[0] == v[0] && u[1..] == v[1..] by {
        if u[0] == v[0] && u[1..] == v[1..] { assert u == [u[0]] + u[1..]; assert v == [v[0]] + v[1..]; }
      }
      PixelSqDiff(u[0], v[0]) + rest
  }

  lemma {:induction false} PixelSqDiffSymmetric(x: Pixel, y: Pixel)
    requires |x| == |y|
    ensures PixelSqDiff(x, y) == PixelSqDiff(y, x)
    decreases |x|
  {
    if |x| > 0 {
      PixelSqDiffSymmetric(x[1..], y[1..]);
      assert (x[0] - y[0]) * (x[0] - y[0]) == (y[0] - x[0]) * (y[0] - x[0]);
    }
  }

  lemma {:induction false} SqDiffSymmetric(u: seq<Pixel>, v: seq<Pixel>)
    requires Matching(u, v)
    ensures SqDiff(u, v) == SqDiff(v, u)
    decreases |u|
  {
    if |u| > 0 {
      PixelSqDiffSymmetric(u[0], v[0]);
      SqDiffSymmetric(u[1..], v[1..]);
    }
  }

  /** The dissimilarity of side `b` of `p` against the facing side of `q`. */
  function EdgeDiss(p: Picture, q: Picture, b: Border): (s: int)
    requires SameSize(p, q)
    ensures s >= 0
  {
    SqDiff(GetBorder(p, b), GetBorder(q, b.Opposite()))
  }

  /**
   * `p.diss(q)`: for every side of `p`, the summed squared difference between
   * that side and the opposite side of `q`.
   */
  function Diss(p: Picture, q: Picture): (r: map<Border, int>)
    requires SameSize(p, q)
    ensures r.Keys == set b: Border | b in AllBorders
    ensures forall b :: b in r ==> r[b] >= 0 && r[b] == EdgeDiss(p, q, b)
  {
    map b: Border | b in AllBorders :: EdgeDiss(p, q, b)
  }

  /**
   * The dissimilarity scores one physical seam: side `b` of `p` against `q`
   * equals the opposite side of `q` against `p`.
   */
  lemma {:induction false} DissSymmetric(p: Picture, q: Picture, b: Border)
    requires SameSize(p, q)
    ensures b in Diss(p, q) && b.Opposite() in Diss(q, p)
    ensures Diss(p, q)[b] == Diss(q, p)[b.Opposite()]
  {
    AllBordersOrder();
    OppositeInvolution(b);
    SqDiffSymmetric(GetBorder(p, b), GetBorder(q, b.Opposite()));
  }

  /** A seam has dissimilarity zero exactly when the two touching edges are equal. */
  lemma {:induction false} DissZeroIff(p: Picture, q: Picture, b: Border)
    requires SameSize(p, q)
    ensures b in Diss(p, q)
    ensures Diss(p, q)[b] == 0 <==> GetBorder(p, b) == GetBorder(q, b.Opposite())
  {
    AllBordersOrder();
  }

  /** The picture of an empty `Slot` of a given patch size: all zeros. */
  function SlotPicture(patchSize: int): (p: Picture)
    ensures patchSize > 0 ==> IsPiecePicture(p) && |p| == patchSize
    ensures forall r, c, k :: 0 <= r < |p| && 0 <= c < |p[r]| && 0 <= k < |p[r][c]| ==> p[r][c][k] == 0
  {
    var n := if patchSize < 0 then 0 else patchSize;
    seq(n, r => seq(n, c => [0, 0, 0]))
  }
}
