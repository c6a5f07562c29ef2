/**
 * The normalisation constant of `Puzzle.set_CM` in jigsolver/puzzle.py: for
 * one piece of the bag, the dissimilarities against every piece whose
 * picture differs are pooled (four per piece, in the order TOP, RIGHT,
 * BOTTOM, LEFT), sorted ascending, and sigma is the gap between the two
 * smallest.
 */
module Normalisation {
  import opened Wrappers
  import opened Borders
  import opened Pictures
  import opened Boards

  /**
   * `list(piece.diss(other).values())`: the dictionary is filled while
   * iterating over `Border`, so its values come in border-value order.
   */
  function DissValues(p: Picture, q: Picture): (vs: seq<int>)
    requires SameSize(p, q)
    ensures |vs| == 4
    ensures forall k :: 0 <= k < 4 ==> vs[k] >= 0
  {
    seq(4, k requires 0 <= k < 4 => EdgeDiss(p, q, FromValue(k)))
  }

  /** The four values are those of the dictionary `diss` returns. */
  lemma DissValuesOfDiss(p: Picture, q: Picture, b: Border)
    requires SameSize(p, q)
    ensures b in Diss(p, q) && DissValues(p, q)[b.Value()] == Diss(p, q)[b]
  {
    AllBordersOrder();
    ValueRoundTrip(b);
  }

  /** Pictures all the same size as `p`. */
  predicate AllSameSize(p: Picture, others: seq<Picture>) {
    forall k :: 0 <= k < |others| ==> SameSize(p, others[k])
  }

  /** How many of `others` have a picture different from `p`. */
  function Unequal(p: Picture, others: seq<Picture>): (n: nat)
    ensures n <= |others|
  {
    if |others| == 0 then 0 else Unequal(p, others[..|others| - 1]) + (if others[|others| - 1] != p then 1 else 0)
  }

  /** `Unequal` is zero exactly when every picture equals `p`. */
  lemma {:induction false} UnequalZero(p: Picture, others: seq<Picture>)
    ensures Unequal(p, others) == 0 <==> forall k :: 0 <= k < |others| ==> others[k] == p
  {
    if |others| > 0 {
      var n := |others| - 1;
      UnequalZero(p, others[..n]);
      assert forall k :: 0 <= k < n ==> others[..n][k] == others[k];
    }
  }

  /**
   * The pooled values: the four dissimilarities of `p` against each of
   * `others` whose picture differs from `p`, in bag order.
   */
  function Pooled(p: Picture, others: seq<Picture>): (vs: seq<int>)
    requires IsPiecePicture(p) && AllSameSize(p, others)
    ensures |vs| == 4 * Unequal(p, others)
    ensures forall k :: 0 <= k < |vs| ==> vs[k] >= 0
  {
    if |others| == 0 then []
    else
      var n := |others| - 1;
      assert AllSameSize(p, others[..n]);
      Pooled(p, others[..n]) + (if others[n] != p then DissValues(p, others[n]) else [])
  }

  /** No pooled values at all exactly when every other picture equals `p`. */
  lemma PooledEmpty(p: Picture, others: seq<Picture>)
    requires IsPiecePicture(p) && AllSameSize(p, others)
    ensures |Pooled(p, others)| == 0 <==> forall k :: 0 <= k < |others| ==> others[k] == p
    ensures |Pooled(p, others)| != 1
  {
    UnequalZero(p, others);
  }

  predicate Sorted(s: seq<int>) {
    forall a, b :: 0 <= a < b < |s| ==> s[a] <= s[b]
  }

  /** `x` inserted into the ascending sequence `s`. */
  function Insert(x: int, s: seq<int>): (r: seq<int>)
    requires Sorted(s)
    ensures Sorted(r) && multiset(r) == multiset(s) + multiset{x}
  {
    if |s| == 0 then [x]
    else if x <= s[0] then
      SortedCons(x, s);
      [x] + s
    else
      SortedDrop(s);
      var t := Insert(x, s[1..]);
      InsertBehindHead(x, s, t);
      [s[0]] + t
  }

  /** Dropping the first entry keeps a sequence sorted. */
  lemma SortedDrop(s: seq<int>)
    requires Sorted(s) && |s| > 0
    ensures Sorted(s[1..])
  {
  }

  /** Putting the head of `s` before `x` inserted into the rest keeps the order and the entries. */
  lemma InsertBehindHead(x: int, s: seq<int>, t: seq<int>)
    requires Sorted(s) && |s| > 0 && s[0] < x
    requires Sorted(t) && multiset(t) == multiset(s[1..]) + multiset{x}
    ensures Sorted([s[0]] + t) && multiset([s[0]] + t) == multiset(s) + multiset{x}
  {
    assert s == [s[0]] + s[1..];
    assert multiset(t) == multiset(s[1..] + [x]);
    AtLeastByMultiset(s[0], t, s[1..] + [x]);
    SortedCons(s[0], t);
  }

  predicate AtLeast(lo: int, s: seq<int>) {
    forall k :: 0 <= k < |s| ==> lo <= s[k]
  }

  /** A bound on every entry carries over to any rearrangement. */
  lemma AtLeastByMultiset(lo: int, a: seq<int>, b: seq<int>)
    requires multiset(a) == multiset(b) && AtLeast(lo, b)
    ensures AtLeast(lo, a)
  {
    forall k | 0 <= k < |a| ensures lo <= a[k] {
      assert a[k] in multiset(b);
    }
  }

  lemma SortedCons(y: int, t: seq<int>)
    requires Sorted(t) && (|t| > 0 ==> y <= t[0])
    ensures Sorted([y] + t)
  {
  }

  /** `np.sort`: the values in ascending order. */
  function SortAscending(s: seq<int>): (r: seq<int>)
    ensures Sorted(r) && multiset(r) == multiset(s)
  {
    if |s| == 0 then []
    else
      assert s == [s[0]] + s[1..];
      Insert(s[0], SortAscending(s[1..]))
  }

  /**
   * `g` is the gap between the smallest value and the next smallest: there
   * are two distinct positions i and j, values[i] is a minimum, values[j]
   * is a minimum of the rest, and g == values[j] - values[i].
   */
  ghost predicate SmallestGap(values: seq<int>, g: int) {
    exists i, j :: 0 <= i < |values| && 0 <= j < |values| && i != j && g == values[j] - values[i] &&
      LeastAt(values, i, -1) && LeastAt(values, j, i)
  }

  /** values[i] is at most every value except the one at position `skip`. */
  predicate LeastAt(values: seq<int>, i: int, skip: int)
    requires 0 <= i < |values|
  {
    forall k :: 0 <= k < |values| && k != skip ==> values[i] <= values[k]
  }

  datatype SigmaError = NoOtherPiece

  /**
   * sigma: the second minus the first of the sorted values; with a single
   * value the `except` branch takes that value; with none it fails too.
   */
  function Sigma(values: seq<int>): (r: Result<int, SigmaError>)
    ensures r.Failure? <==> |values| == 0
    ensures |values| == 1 ==> r == Success(values[0])
    ensures |values| >= 2 ==> r.Success? && r.value >= 0 && SmallestGap(values, r.value)
  {
    var sorted := SortAscending(values);
    if |sorted| >= 2 then
      SortedGap(values, sorted);
      Success(sorted[1] - sorted[0])
    else if |sorted| == 1 then
      assert sorted[0] in multiset(values);
      Success(sorted[0])
    else
      Failure(NoOtherPiece)
  }

  /** The first two entries of a sorted permutation of `values` are its two smallest. */
  lemma SortedGap(values: seq<int>, s: seq<int>)
    requires Sorted(s) && multiset(s) == multiset(values) && |s| >= 2
    ensures SmallestGap(values, s[1] - s[0])
  {
    var i := SmallestAt(values, s);
    var j := NextSmallestAt(values, s, i);
  }

  /** The first entry of a sorted permutation sits at a position of a minimum. */
  lemma SmallestAt(values: seq<int>, s: seq<int>) returns (i: nat)
    requires Sorted(s) && multiset(s) == multiset(values) && |s| >= 1
    ensures i < |values| && values[i] == s[0] && LeastAt(values, i, -1)
  {
    assert s[0] in multiset(values);
    i :| 0 <= i < |values| && values[i] == s[0];
    forall k | 0 <= k < |values| ensures values[i] <= values[k] {
      SortedLeast(s, values[k]);
    }
  }

  /**
   * Once the first entry is matched to position i, the second sits at
   * another position, holding a minimum of the values other than values[i].
   */
  lemma NextSmallestAt(values: seq<int>, s: seq<int>, i: nat) returns (j: nat)
    requires Sorted(s) && multiset(s) == multiset(values) && |s| >= 2
    requires i < |values| && values[i] == s[0]
    ensures j < |values| && j != i && values[j] == s[1] && LeastAt(values, j, i)
  {
    var rest := Without(values, i);
    var tail := s[1..];
    RestIsTail(values, s, i);
    SortedDrop(s);
    assert tail[0] in multiset(tail);
    var m :| 0 <= m < |rest| && rest[m] == tail[0];
    j := if m < i then m else m + 1;
    forall k | 0 <= k < |values| && k != i ensures values[j] <= values[k] {
      var m' := if k < i then k else k - 1;
      assert rest[m'] == values[k];
      SortedLeast(tail, values[k]);
    }
  }

  /** Taking the smallest entry out of `values` leaves the entries of the rest of `s`. */
  lemma RestIsTail(values: seq<int>, s: seq<int>, i: nat)
    requires multiset(s) == multiset(values) && |s| > 0
    requires i < |values| && values[i] == s[0]
    ensures multiset(Without(values, i)) == multiset(s[1..])
  {
    assert s == [s[0]] + s[1..];
  }

  /** `s` with position i removed. */
  function Without(s: seq<int>, i: nat): (r: seq<int>)
    requires i < |s|
    ensures |r| == |s| - 1
    ensures forall m :: 0 <= m < |r| ==> r[m] == s[if m < i then m else m + 1]
    ensures multiset(r) == multiset(s) - multiset{s[i]}
  {
    assert s == s[..i] + [s[i]] + s[i + 1..];
    s[..i] + s[i + 1..]
  }

  /** The first entry of a sorted sequence is at most each of its entries. */
  lemma SortedLeast(s: seq<int>, x: int)
    requires Sorted(s) && x in multiset(s)
    ensures |s| > 0 && s[0] <= x
  {
    var t :| 0 <= t < |s| && s[t] == x;
  }

  /** The pictures of a bag of cells. */
  function PicturesOf(bag: seq<Cell>): (ps: seq<Picture>)
    ensures |ps| == |bag| && forall k :: 0 <= k < |bag| ==> ps[k] == bag[k].Picture()
  {
    seq(|bag|, k requires 0 <= k < |bag| => bag[k].Picture())
  }

  /** A bag of pieces whose pictures are all n x n. */
  predicate PiecesOfSize(bag: seq<Cell>, n: nat) {
    forall k :: 0 <= k < |bag| ==> bag[k].Placed? && IsPiecePicture(bag[k].piece.picture) && |bag[k].piece.picture| == n
  }

  /**
   * sigma for the i-th piece of the bag: it fails exactly when every piece
   * of the bag has the same picture as piece i, and is otherwise at least
   * zero; it is never taken from a single value, since each other piece
   * contributes four.
   */
  function PieceSigma(bag: seq<Cell>, i: nat, n: nat): (r: Result<int, SigmaError>)
    requires PiecesOfSize(bag, n) && i < |bag|
    ensures r.Failure? <==> forall k :: 0 <= k < |bag| ==> bag[k].Picture() == bag[i].Picture()
    ensures r.Success? ==> r.value >= 0 && SmallestGap(Pooled(bag[i].Picture(), PicturesOf(bag)), r.value)
  {
    var p := bag[i].Picture();
    var others := PicturesOf(bag);
    PooledEmpty(p, others);
    Sigma(Pooled(p, others))
  }
}
