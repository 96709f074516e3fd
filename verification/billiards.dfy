/** Nearest ball to the cue ball (provas/prova1/bilhar.cpp). */
module Billiards {

  datatype Ball = Ball(x: int, y: int)

  /** Squared Euclidean distance between two balls. */
  function Distance(a: Ball, b: Ball): (d: int)
    ensures d >= 0
    ensures d == 0 <==> a == b
  {
    SquareNonNegative(a.x - b.x);
    SquareNonNegative(a.y - b.y);
    (a.x - b.x) * (a.x - b.x) + (a.y - b.y) * (a.y - b.y)
  }

  lemma SquareNonNegative(z: int)
    ensures z * z >= 0
    ensures z * z == 0 <==> z == 0
  {
    if z < 0 {
      assert z * z == (-z) * (-z);
    }
  }

  lemma DistanceSymmetric(a: Ball, b: Ball)
    ensures Distance(a, b) == Distance(b, a)
  {
    assert (a.x - b.x) * (a.x - b.x) == (b.x - a.x) * (b.x - a.x);
    assert (a.y - b.y) * (a.y - b.y) == (b.y - a.y) * (b.y - a.y);
  }

  /** The 1-based index of the ball closest to `white`; ties go to the
      earliest ball because only a strictly smaller distance replaces the
      current choice. */
  method Nearest(white: Ball, balls: seq<Ball>) returns (index: int)
    requires |balls| >= 1
    ensures 1 <= index <= |balls|
    ensures forall j :: 0 <= j < |balls| ==>
              Distance(white, balls[index - 1]) <= Distance(white, balls[j])
    ensures forall j :: 0 <= j < index - 1 ==>
              Distance(white, balls[j]) > Distance(white, balls[index - 1])
  {
    var minDistance := Distance(white, balls[0]);
    index := 1;
    var j := 1;
    while j < |balls|
      invariant 1 <= j <= |balls|
      invariant 1 <= index <= j
      invariant minDistance == Distance(white, balls[index - 1])
      invariant forall k :: 0 <= k < j ==> minDistance <= Distance(white, balls[k])
      invariant forall k :: 0 <= k < index - 1 ==> Distance(white, balls[k]) > minDistance
    {
      var aux := Distance(white, balls[j]);
      if aux < minDistance {
        minDistance := aux;
        index := j + 1;
      }
      j := j + 1;
    }
  }
}
