/**
 * The segment search shared, line for line, by jigsolver/segmenter.py and
 * jigsolver/pomeranz_solver/segmenter.py: `find_segment`, a recursive
 * depth-first walk over board-adjacent placed pieces joined by best-buddy
 * edges, and the trial loop of `segmenter`, which keeps the first longest of
 * the segments grown from a sequence of seed cells.
 *
 * The best-buddy tensor is indexed by piece identity, piece identity and the
 * side's enum value; an entry counts as an edge when it is non-zero.  Piece
 * membership in a segment is equality of pictures, as the source's `in` is.
 */
module SegmentSearch {
  import opened Wrappers
  import opened Borders
  import opened Pictures
  import opened Boards

  /** `pic in segment` under the source's picture equality. */
  predicate Contains(segment: seq<Piece>, pic: Picture): (b: bool)
    ensures b <==> exists p :: p in segment && p.picture == pic
  {
    exists k :: 0 <= k < |segment| && segment[k].picture == pic
  }

  /** A piece appended to a segment is in it, and so is everything that was. */
  lemma {:induction false} ContainsAppend(s: seq<Piece>, n: Piece, pic: Picture)
    ensures Contains(s + [n], pic) <==> Contains(s, pic) || n.picture == pic
  {
    if Contains(s, pic) {
      var k :| 0 <= k < |s| && s[k].picture == pic;
      assert (s + [n])[k] == s[k];
    }
    if n.picture == pic {
      assert (s + [n])[|s|] == n;
    }
    if Contains(s + [n], pic) && n.picture != pic {
      var k :| 0 <= k < |s + [n]| && (s + [n])[k].picture == pic;
      assert k < |s| && s[k] == (s + [n])[k];
    }
  }

  /** No two pieces of the segment are equal. */
  predicate NoDup(segment: seq<Piece>) {
    forall a, b :: 0 <= a < b < |segment| ==> segment[a].picture != segment[b].picture
  }

  /** Every placed identity indexes the tensor, which has a slice per side. */
  ghost predicate IdsFit(board: Board, bb: array3<int>)
    reads board, board.Occupants()
  {
    bb.Length2 >= 4 &&
    forall p :: p in board.Occupants() ==> p.id < bb.Length0 && p.id < bb.Length1
  }

  /** What `find_segment` needs of its board and tensor. */
  ghost predicate SearchReady(board: Board, bb: array3<int>)
    reads board, board.Occupants()
  {
    board.Valid() && |board.grid| > 0 && board.PositionsAgree() && IdsFit(board, bb)
  }

  /**
   * The cell across side `b` of placed cell `p` holds a piece, and the tensor
   * has an edge from the piece at `p` to it on side `b`.
   */
  ghost predicate EdgeTowards(board: Board, bb: array3<int>, p: (int, int), b: Border)
    reads board, board.Occupants(), bb
    requires SearchReady(board, bb) && board.InBounds(p.0, p.1)
  {
    var q := Towards(p.0, p.1, b);
    board.InBounds(q.0, q.1) && board.grid[p.0][p.1].Placed? && board.grid[q.0][q.1].Placed? &&
    bb[board.grid[p.0][p.1].piece.id, board.grid[q.0][q.1].piece.id, b.Value()] != 0
  }

  /** The piece across side `b` of p (meaningful when `EdgeTowards` holds). */
  function Across(board: Board, p: (int, int), b: Border): Picture
    reads board
  {
    var q := Towards(p.0, p.1, b);
    if board.InBounds(q.0, q.1) then board.grid[q.0][q.1].Picture() else []
  }

  /** Every best-buddy edge leaving cell p ends at a piece already in `segment`. */
  ghost predicate ClosedAt(board: Board, bb: array3<int>, p: (int, int), segment: seq<Piece>)
    reads board, board.Occupants(), bb
    requires SearchReady(board, bb) && board.InBounds(p.0, p.1)
  {
    var ds := NeighborDirs(|board.grid|, |board.grid[0]|, p.0, p.1);
    forall u :: 0 <= u < |ds| && EdgeTowards(board, bb, p, ds[u]) ==> Contains(segment, Across(board, p, ds[u]))
  }

  /** Piece x sits on the board in the cell its position names. */
  ghost predicate OnBoard(board: Board, x: Piece)
    reads board, x
  {
    board.InBounds(x.position.0, x.position.1) && board.grid[x.position.0][x.position.1] == Placed(x)
  }

  /** Every piece of s from index lo on is on the board and closed with respect to t. */
  ghost predicate ClosedMembers(board: Board, bb: array3<int>, lo: nat, s: seq<Piece>, t: seq<Piece>)
    reads board, board.Occupants(), bb, s
    requires SearchReady(board, bb)
  {
    forall k :: lo <= k < |s| ==> OnBoard(board, s[k]) && ClosedAt(board, bb, s[k].position, t)
  }

  /** Piece x lies across some side of cell p along a best-buddy edge. */
  ghost predicate Attached(board: Board, bb: array3<int>, p: (int, int), x: Piece)
    reads board, board.Occupants(), bb
    requires SearchReady(board, bb)
  {
    board.InBounds(p.0, p.1) &&
    exists b: Border :: EdgeTowards(board, bb, p, b) &&
      board.grid[Towards(p.0, p.1, b).0][Towards(p.0, p.1, b).1] == Placed(x)
  }

  /**
   * Each piece appended from index lo on is attached to the seed cell or to
   * the cell of a piece appended before it: the appended pieces form a tree
   * of best-buddy edges rooted at the seed.
   */
  ghost predicate Grown(board: Board, bb: array3<int>, seed: (int, int), lo: nat, r: seq<Piece>)
    reads board, board.Occupants(), bb, r
    requires SearchReady(board, bb)
  {
    forall k :: lo <= k < |r| ==>
      Attached(board, bb, seed, r[k]) ||
      exists m :: lo <= m < k && Attached(board, bb, r[m].position, r[k])
  }

  /** Cells holding a piece that `segment` does not contain: the work left. */
  ghost function Pending(board: Board, segment: seq<Piece>): set<(int, int)>
    reads board
  {
    set i, j | 0 <= i < |board.grid| && 0 <= j < |board.grid[i]| && board.grid[i][j].Placed? &&
               !Contains(segment, board.grid[i][j].piece.picture) :: (i, j)
  }

  lemma {:induction false} ContainsMono(s: seq<Piece>, t: seq<Piece>, pic: Picture)
    requires s <= t && Contains(s, pic)
    ensures Contains(t, pic)
  {
    var k :| 0 <= k < |s| && s[k].picture == pic;
    assert t[k] == s[k];
  }

  lemma {:induction false} ClosedAtMono(board: Board, bb: array3<int>, p: (int, int), s: seq<Piece>, t: seq<Piece>)
    requires SearchReady(board, bb) && board.InBounds(p.0, p.1)
    requires s <= t && ClosedAt(board, bb, p, s)
    ensures ClosedAt(board, bb, p, t)
  {
    var ds := NeighborDirs(|board.grid|, |board.grid[0]|, p.0, p.1);
    forall u | 0 <= u < |ds| && EdgeTowards(board, bb, p, ds[u])
      ensures Contains(t, Across(board, p, ds[u]))
    {
      ContainsMono(s, t, Across(board, p, ds[u]));
    }
  }

  lemma {:induction false} ClosedMembersMono(board: Board, bb: array3<int>, lo: nat, s: seq<Piece>, t: seq<Piece>, t': seq<Piece>)
    requires SearchReady(board, bb)
    requires t <= t' && ClosedMembers(board, bb, lo, s, t)
    ensures ClosedMembers(board, bb, lo, s, t')
  {
    forall k | lo <= k < |s| ensures OnBoard(board, s[k]) && ClosedAt(board, bb, s[k].position, t') {
      ClosedAtMono(board, bb, s[k].position, t, t');
    }
  }

  /** The prefix part of `Grown`: what held of cur still holds of any extension. */
  lemma {:induction false} GrownCompose(board: Board, bb: array3<int>, seed: (int, int), lo: nat,
                                        cur: seq<Piece>, n: Piece, r: seq<Piece>)
    requires SearchReady(board, bb)
    requires lo <= |cur| && Grown(board, bb, seed, lo, cur)
    requires Attached(board, bb, seed, n)
    requires cur + [n] <= r
    requires Grown(board, bb, n.position, |cur| + 1, r)
    ensures Grown(board, bb, seed, lo, r)
  {
    forall k | lo <= k < |r|
      ensures Attached(board, bb, seed, r[k]) ||
              exists m :: lo <= m < k && Attached(board, bb, r[m].position, r[k])
    {
      if k < |cur| {
        assert r[k] == cur[k];
        if !Attached(board, bb, seed, cur[k]) {
          var m :| lo <= m < k && Attached(board, bb, cur[m].position, cur[k]);
          assert r[m] == cur[m];
        }
      } else if k == |cur| {
        assert r[k] == n;
      } else {
        assert r[|cur|] == n;
        if Attached(board, bb, n.position, r[k]) {
          assert lo <= |cur| < k && Attached(board, bb, r[|cur|].position, r[k]);
        }
      }
    }
  }

  lemma CardinalityStrict<T>(a: set<T>, b: set<T>, x: T)
    requires a <= b && x in b && x !in a
    ensures |a| < |b|
  {
    assert a <= b - {x};
    assert |b - {x}| == |b| - 1;
    SubsetCardinality(a, b - {x});
  }

  lemma SubsetCardinality<T>(a: set<T>, b: set<T>)
    requires a <= b
    ensures |a| <= |b|
  {
    assert b == a + (b - a);
  }

  /** Appending a pending piece removes its cell from the pending set. */
  lemma {:induction false} PendingShrinks(board: Board, segment: seq<Piece>, cur: seq<Piece>, q: (int, int))
    requires segment <= cur
    requires board.InBounds(q.0, q.1) && board.grid[q.0][q.1].Placed?
    requires !Contains(cur, board.grid[q.0][q.1].piece.picture)
    ensures |Pending(board, cur + [board.grid[q.0][q.1].piece])| < |Pending(board, segment)|
  {
    var n := board.grid[q.0][q.1].piece;
    var after, before := Pending(board, cur + [n]), Pending(board, segment);
    forall c | c in after ensures c in before {
      var pic := board.grid[c.0][c.1].piece.picture;
      if Contains(segment, pic) {
        ContainsMono(segment, cur + [n], pic);
      }
    }
    assert q in before by {
      if Contains(segment, n.picture) { ContainsMono(segment, cur, n.picture); }
    }
    assert q !in after by {
      assert (cur + [n])[|cur|] == n;
    }
    CardinalityStrict(after, before, q);
  }

  /** The edges of the first t neighbours of pos lead into r. */
  ghost predicate DoneUpTo(board: Board, bb: array3<int>, pos: (int, int), t: nat, r: seq<Piece>)
    reads board, board.Occupants(), bb
    requires SearchReady(board, bb) && board.InBounds(pos.0, pos.1)
  {
    var ds := NeighborDirs(|board.grid|, |board.grid[0]|, pos.0, pos.1);
    forall u :: 0 <= u < t && u < |ds| && EdgeTowards(board, bb, pos, ds[u]) ==> Contains(r, Across(board, pos, ds[u]))
  }

  /** The loop invariant of `find_segment` after t neighbours. */
  ghost predicate Walked(board: Board, bb: array3<int>, segment: seq<Piece>, pos: (int, int), t: nat, r: seq<Piece>)
    reads board, board.Occupants(), bb, r
    requires SearchReady(board, bb) && board.InBounds(pos.0, pos.1)
  {
    segment <= r && (NoDup(segment) ==> NoDup(r)) && DoneUpTo(board, bb, pos, t, r) &&
    ClosedMembers(board, bb, |segment|, r, r) && Grown(board, bb, pos, |segment|, r)
  }

  /** A neighbour that is skipped keeps the invariant. */
  lemma {:induction false} StepSkip(board: Board, bb: array3<int>, segment: seq<Piece>, pos: (int, int), t: nat, r: seq<Piece>)
    requires SearchReady(board, bb) && board.InBounds(pos.0, pos.1)
    requires t < |NeighborDirs(|board.grid|, |board.grid[0]|, pos.0, pos.1)|
    requires Walked(board, bb, segment, pos, t, r)
    requires var b := NeighborDirs(|board.grid|, |board.grid[0]|, pos.0, pos.1)[t];
             EdgeTowards(board, bb, pos, b) ==> Contains(r, Across(board, pos, b))
    ensures Walked(board, bb, segment, pos, t + 1, r)
  {
  }

  /** A neighbour that is appended and walked from keeps the invariant. */
  lemma {:induction false} StepAppend(board: Board, bb: array3<int>, segment: seq<Piece>, pos: (int, int), t: nat,
                                      cur: seq<Piece>, n: Piece, r: seq<Piece>)
    requires SearchReady(board, bb) && board.InBounds(pos.0, pos.1)
    requires t < |NeighborDirs(|board.grid|, |board.grid[0]|, pos.0, pos.1)|
    requires Walked(board, bb, segment, pos, t, cur)
    requires var b := NeighborDirs(|board.grid|, |board.grid[0]|, pos.0, pos.1)[t];
             EdgeTowards(board, bb, pos, b) && Across(board, pos, b) == n.picture &&
             board.grid[Towards(pos.0, pos.1, b).0][Towards(pos.0, pos.1, b).1] == Placed(n)
    requires !Contains(cur, n.picture)
    requires OnBoard(board, n)
    // what the recursive call from n's position promises
    requires cur + [n] <= r
    requires NoDup(cur + [n]) ==> NoDup(r)
    requires ClosedAt(board, bb, n.position, r)
    requires ClosedMembers(board, bb, |cur| + 1, r, r)
    requires Grown(board, bb, n.position, |cur| + 1, r)
    ensures Walked(board, bb, segment, pos, t + 1, r)
  {
    var ds := NeighborDirs(|board.grid|, |board.grid[0]|, pos.0, pos.1);
    assert r[|cur|] == n;
    assert Attached(board, bb, pos, n) by {
      assert EdgeTowards(board, bb, pos, ds[t]);
    }
    ContainsMono(cur + [n], r, n.picture) by {
      assert (cur + [n])[|cur|].picture == n.picture;
    }
    forall u | 0 <= u < t + 1 && u < |ds| && EdgeTowards(board, bb, pos, ds[u])
      ensures Contains(r, Across(board, pos, ds[u]))
    {
      if u < t { ContainsMono(cur, r, Across(board, pos, ds[u])); }
    }
    ClosedMembersMono(board, bb, |segment|, cur, cur, r);
    forall k | |segment| <= k < |r| ensures OnBoard(board, r[k]) && ClosedAt(board, bb, r[k].position, r) {
      if k < |cur| { assert r[k] == cur[k]; }
    }
    GrownCompose(board, bb, pos, |segment|, cur, n, r);
    assert NoDup(segment) ==> NoDup(cur + [n]);
  }

  /**
   * `find_segment(puzzle, segment, pos, BB)`.  From an empty seed cell the
   * segment comes back as it was.  Otherwise, for each neighbour of `pos`
   * in top, right, bottom, left order that holds a piece not yet in the
   * segment and that the tensor joins to the piece at `pos` on that side,
   * the neighbour is appended and the walk recurses from its position.
   *
   * The input is a prefix of the result; a segment without duplicates stays
   * without; every best-buddy edge from the seed or from an appended piece
   * ends at a piece of the result; and each appended piece hangs by such an
   * edge off the seed or an earlier appended piece.  The seed itself is
   * never appended directly.
   */
  method FindSegment(board: Board, bb: array3<int>, segment: seq<Piece>, pos: (int, int))
    returns (r: seq<Piece>)
    requires SearchReady(board, bb) && board.InBounds(pos.0, pos.1)
    ensures board.grid[pos.0][pos.1].Slot? ==> r == segment
    ensures segment <= r
    ensures NoDup(segment) ==> NoDup(r)
    ensures board.grid[pos.0][pos.1].Placed? ==> ClosedAt(board, bb, pos, r)
    ensures ClosedMembers(board, bb, |segment|, r, r)
    ensures Grown(board, bb, pos, |segment|, r)
    decreases |Pending(board, segment)|, 1
  {
    var here := board.Get(pos.0, pos.1);
    if here.Slot? {
      return segment;
    }
    var nbrs := board.Neighbors(pos.0, pos.1);
    r := segment;
    var t := 0;
    while t < |nbrs|
      invariant 0 <= t <= |nbrs|
      invariant Walked(board, bb, segment, pos, t, r)
    {
      var (border, neighbor) := nbrs[t];
      r := Visit(board, bb, segment, pos, t, border, neighbor, r);
      t := t + 1;
    }
  }

  /**
   * The body of the neighbour loop of `find_segment` for the t-th neighbour
   * `neighbor` of `pos`, across side `border`: a piece not yet in the
   * segment that the tensor joins to the piece at `pos` on that side is
   * appended, and the walk recurses from its position.
   */
  method Visit(board: Board, bb: array3<int>, ghost segment: seq<Piece>, pos: (int, int), t: nat,
               border: Border, neighbor: Cell, r: seq<Piece>) returns (r': seq<Piece>)
    requires SearchReady(board, bb) && board.InBounds(pos.0, pos.1) && board.grid[pos.0][pos.1].Placed?
    requires t < |board.Neighbors(pos.0, pos.1)| && board.Neighbors(pos.0, pos.1)[t] == (border, neighbor)
    requires Walked(board, bb, segment, pos, t, r)
    ensures Walked(board, bb, segment, pos, t + 1, r')
    ensures var go := neighbor.Placed? && !Contains(r, neighbor.piece.picture) &&
                      bb[board.grid[pos.0][pos.1].piece.id, neighbor.piece.id, border.Value()] != 0;
            (go ==> r + [neighbor.piece] <= r') && (!go ==> r' == r)
    decreases |Pending(board, segment)|, 0
  {
    var here := board.Get(pos.0, pos.1);
    if neighbor.Placed? && !Contains(r, neighbor.piece.picture) &&
       bb[here.piece.id, neighbor.piece.id, border.Value()] != 0
    {
      var n := neighbor.piece;
      ghost var q := Towards(pos.0, pos.1, border);
      PendingShrinks(board, segment, r, q);
      r' := FindSegment(board, bb, r + [n], n.position);
      StepAppend(board, bb, segment, pos, t, r, n, r');
    } else {
      StepSkip(board, bb, segment, pos, t, r);
      r' := r;
    }
  }

  /**
   * The seed is never appended directly: a walk from an empty segment that
   * appends anything starts along a best-buddy edge out of the seed, so a
   * seed without one yields the empty segment.
   */
  lemma {:induction false} NoEdgeNoGrowth(board: Board, bb: array3<int>, seed: (int, int), r: seq<Piece>)
    requires SearchReady(board, bb) && board.InBounds(seed.0, seed.1)
    requires Grown(board, bb, seed, 0, r)
    ensures r == [] || exists b: Border :: EdgeTowards(board, bb, seed, b)
  {
    if |r| > 0 {
      assert Attached(board, bb, seed, r[0]);
    }
  }

  /** The tensor agrees with itself across each seam: BB[i, j, v] == BB[j, i, (v + 2) % 4]. */
  ghost predicate Mirrored(bb: array3<int>)
    reads bb
  {
    bb.Length0 == bb.Length1 && bb.Length2 >= 4 &&
    forall i, j, v {:trigger bb[i, j, v]} :: 0 <= i < bb.Length0 && 0 <= j < bb.Length1 && 0 <= v < 4 ==>
      bb[i, j, v] == bb[j, i, (v + 2) % 4]
  }

  /**
   * With a mirrored tensor, a walk from an empty segment that appends
   * anything also comes back to the seed: the seed's piece is in the result.
   */
  lemma {:induction false} SeedJoinsSegment(board: Board, bb: array3<int>, seed: (int, int), r: seq<Piece>)
    requires SearchReady(board, bb) && Mirrored(bb) && board.InBounds(seed.0, seed.1)
    requires Grown(board, bb, seed, 0, r) && ClosedMembers(board, bb, 0, r, r)
    requires |r| > 0
    ensures board.grid[seed.0][seed.1].Placed? && Contains(r, board.grid[seed.0][seed.1].piece.picture)
  {
    assert Attached(board, bb, seed, r[0]);
    var b: Border :| EdgeTowards(board, bb, seed, b) &&
      board.grid[Towards(seed.0, seed.1, b).0][Towards(seed.0, seed.1, b).1] == Placed(r[0]);
    var q := Towards(seed.0, seed.1, b);
    assert r[0].position == q;
    MirrorEdge(board, bb, seed, b);
    ClosedAtEdge(board, bb, q, b.Opposite(), r);
  }

  /** With a mirrored tensor, an edge from p across side b has an edge back across the opposite side. */
  lemma MirrorEdge(board: Board, bb: array3<int>, p: (int, int), b: Border)
    requires SearchReady(board, bb) && Mirrored(bb) && board.InBounds(p.0, p.1)
    requires EdgeTowards(board, bb, p, b)
    ensures board.InBounds(Towards(p.0, p.1, b).0, Towards(p.0, p.1, b).1)
    ensures EdgeTowards(board, bb, Towards(p.0, p.1, b), b.Opposite())
    ensures Across(board, Towards(p.0, p.1, b), b.Opposite()) == board.grid[p.0][p.1].Picture()
  {
    var q := Towards(p.0, p.1, b);
    TowardsInverse(p.0, p.1, b);
    var here, there := board.grid[p.0][p.1].piece, board.grid[q.0][q.1].piece;
    assert here in board.Occupants() && there in board.Occupants();
    assert bb[there.id, here.id, b.Opposite().Value()] == bb[here.id, there.id, b.Value()];
  }

  /** A segment closed at cell q contains the piece across every best-buddy edge of q. */
  lemma ClosedAtEdge(board: Board, bb: array3<int>, q: (int, int), b: Border, r: seq<Piece>)
    requires SearchReady(board, bb) && board.InBounds(q.0, q.1)
    requires ClosedAt(board, bb, q, r) && EdgeTowards(board, bb, q, b)
    ensures Contains(r, Across(board, q, b))
  {
    var rows, cols := |board.grid|, |board.grid[0]|;
    NeighborDirsSpec(rows, cols, q.0, q.1);
    var ds := NeighborDirs(rows, cols, q.0, q.1);
    assert b in ds;
    var u :| 0 <= u < |ds| && ds[u] == b;
  }

  /** The segment one trial grows from seed cell `seed` and an empty segment. */
  ghost predicate IsTrialSegment(board: Board, bb: array3<int>, seed: (int, int), r: seq<Piece>)
    reads board, board.Occupants(), bb, r
  {
    SearchReady(board, bb) && board.InBounds(seed.0, seed.1) &&
    NoDup(r) &&
    (board.grid[seed.0][seed.1].Slot? ==> r == []) &&
    (board.grid[seed.0][seed.1].Placed? ==> ClosedAt(board, bb, seed, r)) &&
    ClosedMembers(board, bb, 0, r, r) &&
    Grown(board, bb, seed, 0, r)
  }

  /** Index k holds a longest segment and no earlier one is as long: what `max(segments, key=len)` picks. */
  predicate IsFirstLongest(segments: seq<seq<Piece>>, k: int) {
    0 <= k < |segments| &&
    (forall t :: 0 <= t < |segments| ==> |segments[t]| <= |segments[k]|) &&
    (forall t :: 0 <= t < k ==> |segments[t]| < |segments[k]|)
  }

  /** `max(segments, key=len)` on a non-empty list. */
  function FirstLongest(segments: seq<seq<Piece>>): (k: nat)
    requires |segments| > 0
    ensures IsFirstLongest(segments, k)
    decreases |segments|
  {
    if |segments| == 1 then 0
    else
      var init := segments[..|segments| - 1];
      var k := FirstLongest(init);
      assert forall t :: 0 <= t < |init| ==> segments[t] == init[t];
      if |segments[|segments| - 1]| > |segments[k]| then |segments| - 1 else k
  }

  /**
   * Why a search raises: `max` of an empty list of segments (`NoTrials`), or
   * `np.random.randint(0, 0)` drawing a seed column on a board without
   * columns (`EmptySeedRange`).
   */
  datatype SearchError = NoTrials | EmptySeedRange

  /** Every seed cell is on the board. */
  ghost predicate SeedsFit(board: Board, seeds: seq<(int, int)>)
    reads board
  {
    forall t :: 0 <= t < |seeds| ==> board.InBounds(seeds[t].0, seeds[t].1)
  }

  ghost function PiecesOf(segments: seq<seq<Piece>>): set<Piece> {
    set t, k | 0 <= t < |segments| && 0 <= k < |segments[t]| :: segments[t][k]
  }

  /**
   * The outcome of `n` trials: one segment per trial, trial t grown from
   * seeds[t]; no trial is an error; otherwise the result is the first of
   * the longest trial segments.
   */
  ghost predicate Searched(board: Board, bb: array3<int>, seeds: seq<(int, int)>, n: int,
                           res: Result<seq<Piece>, SearchError>, segments: seq<seq<Piece>>)
    reads board, board.Occupants(), bb, PiecesOf(segments)
    requires SearchReady(board, bb) && SeedsFit(board, seeds) && n <= |seeds|
  {
    |segments| == (if n > 0 then n else 0) &&
    (forall t :: 0 <= t < |segments| ==> IsTrialSegment(board, bb, seeds[t], segments[t])) &&
    (res.Failure? <==> n <= 0) &&
    (res.Success? ==> exists k :: IsFirstLongest(segments, k) && res.value == segments[k])
  }

  /** One trial: `find_segment(puzzle, [], seed, BB)`. */
  method Trial(board: Board, bb: array3<int>, seed: (int, int)) returns (r: seq<Piece>)
    requires SearchReady(board, bb) && board.InBounds(seed.0, seed.1)
    ensures IsTrialSegment(board, bb, seed, r)
  {
    r := FindSegment(board, bb, [], seed);
  }

  /**
   * One pass of the trial loop of `segmenter`: trial |found| walks from its
   * seed cell with an empty segment and its segment is appended.
   */
  method NextTrial(board: Board, bb: array3<int>, seeds: seq<(int, int)>, found: seq<seq<Piece>>)
    returns (found': seq<seq<Piece>>)
    requires SearchReady(board, bb) && SeedsFit(board, seeds) && |found| < |seeds|
    requires forall t :: 0 <= t < |found| ==> IsTrialSegment(board, bb, seeds[t], found[t])
    ensures SearchReady(board, bb) && SeedsFit(board, seeds)
    ensures |found'| == |found| + 1 && found'[..|found|] == found
    ensures forall t :: 0 <= t < |found'| ==> IsTrialSegment(board, bb, seeds[t], found'[t])
  {
    var current := Trial(board, bb, seeds[|found|]);
    found' := found + [current];
  }

  /**
   * The trial loop of `segmenter` with the seed cells drawn in advance: trial
   * t walks from seeds[t] with an empty segment.
   */
  method Trials(board: Board, bb: array3<int>, seeds: seq<(int, int)>, n: int) returns (found: seq<seq<Piece>>)
    requires SearchReady(board, bb) && SeedsFit(board, seeds) && n <= |seeds|
    ensures |found| == (if n > 0 then n else 0)
    ensures forall t :: 0 <= t < |found| ==> IsTrialSegment(board, bb, seeds[t], found[t])
  {
    found := [];
    var t := 0;
    while t < n
      invariant 0 <= t <= (if n > 0 then n else 0) && |found| == t
      invariant SearchReady(board, bb) && SeedsFit(board, seeds)
      invariant forall u :: 0 <= u < t ==> IsTrialSegment(board, bb, seeds[u], found[u])
    {
      found := NextTrial(board, bb, seeds, found);
      t := t + 1;
    }
  }

  /** `segmenter` after the trials: the first longest segment, or an error when there were none. */
  method RunTrials(board: Board, bb: array3<int>, seeds: seq<(int, int)>, n: int)
    returns (res: Result<seq<Piece>, SearchError>, segments: seq<seq<Piece>>)
    requires SearchReady(board, bb) && SeedsFit(board, seeds) && n <= |seeds|
    ensures Searched(board, bb, seeds, n, res, segments)
  {
    var found := Trials(board, bb, seeds, n);
    segments := found;
    if |found| == 0 {
      return Failure(NoTrials), segments;
    }
    res := Success(found[FirstLongest(found)]);
  }
}
