/**
 * The four sides of a square piece (the `Border` enum of jigsolver/puzzle.py).
 * Each side has the integer value the enum carries (TOP 0, RIGHT 1, BOTTOM 2,
 * LEFT 3); the value is what the best-buddy tensor is indexed by.
 */
module Borders {

  datatype Border = Top | Right | Bottom | Left {

    /** The enum value of the side. */
    function Value(): (v: nat)
      ensures v < 4
    {
      match this
      case Top => 0
      case Right => 1
      case Bottom => 2
      case Left => 3
    }

    /**
     * The side facing this one on a neighbouring piece: the side whose value
     * is two more, modulo four.  The source's `raise NotImplementedError`
     * branch cannot be reached, because the value modulo four is always in 0..3.
     */
    function Opposite(): (o: Border)
      ensures o.Value() == (Value() + 2) % 4
    {
      FromValue((Value() + 2) % 4)
    }
  }

  /** The side with a given enum value (`Border(v)` in the source). */
  function FromValue(v: nat): (b: Border)
    requires v < 4
    ensures b.Value() == v
  {
    if v == 0 then Top else if v == 1 then Right else if v == 2 then Bottom else Left
  }

  /** The sides in the enum's iteration order. */
  const AllBorders: seq<Border> := [Top, Right, Bottom, Left]

  lemma AllBordersOrder()
    ensures |AllBorders| == 4
    ensures forall v :: 0 <= v < 4 ==> AllBorders[v].Value() == v
    ensures forall b: Border :: b in AllBorders
  {
    forall b: Border ensures b in AllBorders {
      match b
      case Top => assert AllBorders[0] == b;
      case Right => assert AllBorders[1] == b;
      case Bottom => assert AllBorders[2] == b;
      case Left => assert AllBorders[3] == b;
    }
  }

  /** A side and its value determine each other. */
  lemma {:induction false} ValueRoundTrip(b: Border)
    ensures FromValue(b.Value()) == b
  {
    match b
    case Top =>
    case Right =>
    case Bottom =>
    case Left =>
  }

  /** Taking the opposite side twice is the identity, and no side is its own opposite. */
  lemma {:induction false} OppositeInvolution(b: Border)
    ensures b.Opposite().Opposite() == b
    ensures b.Opposite() != b
  {
    match b
    case Top => assert Top.Opposite() == FromValue(2) == Bottom && Bottom.Opposite() == FromValue(0);
    case Right => assert Right.Opposite() == FromValue(3) == Left && Left.Opposite() == FromValue(1);
    case Bottom => assert Bottom.Opposite() == FromValue(0) == Top && Top.Opposite() == FromValue(2);
    case Left => assert Left.Opposite() == FromValue(1) == Right && Right.Opposite() == FromValue(3);
  }
}
