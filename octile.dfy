/**
 * The integer octile distance of `App.get_distance`: a straight step costs 10,
 * a diagonal step 14 (about 10 times the square root of 2).
 */
module Octile {

  const Straight: nat := 10
  const Diagonal: nat := 14

  function Abs(v: int): nat {
    if v < 0 then -v else v
  }

  function Min(a: int, b: int): int {
    if a < b then a else b
  }

  function Max(a: int, b: int): int {
    if a < b then b else a
  }

  /**
   * Distance between cells (x1, y1) and (x2, y2): align along the shorter axis with
   * diagonal steps, then walk the rest straight.
   */
  function Distance(x1: int, y1: int, x2: int, y2: int): (d: nat)
    ensures d == Diagonal * Min(Abs(x1 - x2), Abs(y1 - y2)) + Straight * Abs(Abs(x1 - x2) - Abs(y1 - y2))
    ensures Straight * Max(Abs(x1 - x2), Abs(y1 - y2)) <= d <= Diagonal * Max(Abs(x1 - x2), Abs(y1 - y2))
    ensures d == 0 <==> x1 == x2 && y1 == y2
  {
    var dx := Abs(x1 - x2);
    var dy := Abs(y1 - y2);
    if dx > dy then 14 * dy + 10 * (dx - dy) else 14 * dx + 10 * (dy - dx)
  }

  /** The distance does not depend on the direction of travel. */
  lemma DistanceSymmetric(x1: int, y1: int, x2: int, y2: int)
    ensures Distance(x1, y1, x2, y2) == Distance(x2, y2, x1, y1)
  {
    assert Abs(x1 - x2) == Abs(x2 - x1) && Abs(y1 - y2) == Abs(y2 - y1);
  }

  /** One move to one of the eight neighbouring cells costs 10 straight and 14 diagonally. */
  lemma StepCost(x1: int, y1: int, x2: int, y2: int)
    requires Abs(x1 - x2) <= 1 && Abs(y1 - y2) <= 1
    ensures Distance(x1, y1, x2, y2) ==
      if x1 == x2 && y1 == y2 then 0
      else if x1 == x2 || y1 == y2 then Straight
      else Diagonal
  {
  }

  /** The octile cost of a displacement (dx, dy), written as 7 * (dx + dy) + 3 * |dx - dy|. */
  function Cost(dx: nat, dy: nat): nat {
    7 * (dx + dy) + 3 * Abs(dx - dy)
  }

  lemma DistanceIsCost(x1: int, y1: int, x2: int, y2: int)
    ensures Distance(x1, y1, x2, y2) == Cost(Abs(x1 - x2), Abs(y1 - y2))
  {
  }

  /** Growing either coordinate difference never lowers the cost. */
  lemma CostMonotone(dx: nat, dy: nat, p: nat, q: nat)
    requires dx <= p && dy <= q
    ensures Cost(dx, dy) <= Cost(p, q)
  {
    assert Cost(dx, dy) <= Cost(p, dy);
  }

  /** The cost of a sum of displacements is at most the sum of their costs. */
  lemma CostSubadditive(p1: nat, q1: nat, p2: nat, q2: nat)
    ensures Cost(p1 + p2, q1 + q2) <= Cost(p1, q1) + Cost(p2, q2)
  {
  }

  /**
   * The heuristic is consistent: going through any intermediate cell is never cheaper
   * than the direct estimate.
   */
  lemma TriangleInequality(x1: int, y1: int, x2: int, y2: int, x3: int, y3: int)
    ensures Distance(x1, y1, x3, y3) <= Distance(x1, y1, x2, y2) + Distance(x2, y2, x3, y3)
  {
    var p1, q1 := Abs(x1 - x2), Abs(y1 - y2);
    var p2, q2 := Abs(x2 - x3), Abs(y2 - y3);
    calc {
      Distance(x1, y1, x3, y3);
    == { DistanceIsCost(x1, y1, x3, y3); }
      Cost(Abs(x1 - x3), Abs(y1 - y3));
    <= { CostMonotone(Abs(x1 - x3), Abs(y1 - y3), p1 + p2, q1 + q2); }
      Cost(p1 + p2, q1 + q2);
    <= { CostSubadditive(p1, q1, p2, q2); }
      Cost(p1, q1) + Cost(p2, q2);
    == { DistanceIsCost(x1, y1, x2, y2); DistanceIsCost(x2, y2, x3, y3); }
      Distance(x1, y1, x2, y2) + Distance(x2, y2, x3, y3);
    }
  }
}
