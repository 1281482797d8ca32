/**
 * The intersection of kern/synchprobs/stoplight.c: four quadrants, each
 * guarded by a lock, and three ways through it. A car locks every quadrant
 * it will enter before entering the first, always in decreasing quadrant
 * order, which is what keeps the cars from deadlocking.
 */
module Stoplight {
  import opened KernTypes

  /**
   * `dir_to_lock`: directions 0 to 3 name the locks of quadrants 0 to 3;
   * any other value is NULL.
   */
  function DirToLock(direction: nat): (r: Option<nat>)
    ensures r.Some? <==> direction < 4
    ensures r.Some? ==> r.value == direction
  {
    if direction == 0 then Some(0)
    else if direction == 1 then Some(1)
    else if direction == 2 then Some(2)
    else if direction == 3 then Some(3)
    else None
  }

  /**
   * One car's way through: the quadrant locks in the order it acquires
   * them, the quadrants in the order it enters them, and the locks in the
   * order it releases them.
   */
  datatype Crossing = Crossing(acquire: seq<nat>, visit: seq<nat>, release: seq<nat>)

  /** Strictly decreasing. */
  predicate Decreasing(s: seq<nat>) {
    forall i, j :: 0 <= i < j < |s| ==> s[i] > s[j]
  }

  /**
   * The locking discipline of every way through: each lock named exists
   * (no NULL reaches `lock_acquire`), the locks are taken in strictly
   * decreasing order and released in the same order, and the locks taken
   * are the quadrants entered, as many as there are quadrants entered.
   */
  predicate Disciplined(c: Crossing) {
    (forall q :: q in c.acquire ==> DirToLock(q).Some?) &&
    Decreasing(c.acquire) && c.release == c.acquire &&
    |c.acquire| == |c.visit| && (forall q :: q in c.acquire ==> q in c.visit) &&
    (forall q :: q in c.visit ==> q in c.acquire)
  }

  /** `turnright`: enter only the car's own quadrant, under its lock. */
  function TurnRight(direction: nat): (c: Crossing)
    requires direction < 4
    ensures c.visit == [direction] && Disciplined(c)
  {
    Crossing([direction], [direction], [direction])
  }

  /**
   * `gostraight`: enter the car's quadrant and then the next one clockwise,
   * `(direction + 3) % 4`, having locked the larger of the two first.
   */
  function GoStraight(direction: nat): (c: Crossing)
    requires direction < 4
    ensures c.visit == [direction, (direction + 3) % 4] && Disciplined(c)
  {
    var first := if direction > (direction + 3) % 4 then direction else (direction + 3) % 4;
    var second := if direction > (direction + 3) % 4 then (direction + 3) % 4 else direction;
    Crossing([first, second], [direction, (direction + 3) % 4], [first, second])
  }

  /** The three quadrants of a left turn are distinct quadrants. */
  lemma LeftQuadrantsDistinct(direction: nat)
    requires direction < 4
    ensures (direction + 3) % 4 < 4 && (direction + 6) % 4 < 4
    ensures direction != (direction + 3) % 4 && (direction + 3) % 4 != (direction + 6) % 4 && (direction + 6) % 4 != direction
  {
  }

  /**
   * `turnleft`: enter three quadrants, `direction`, `(direction + 3) % 4`
   * and `(direction + 6) % 4`; three compare-and-swaps order the locks
   * largest first, so they are a permutation of those quadrants in
   * strictly decreasing order.
   */
  method TurnLeft(direction: nat) returns (c: Crossing)
    requires direction < 4
    ensures c.visit == [direction, (direction + 3) % 4, (direction + 6) % 4]
    ensures |c.acquire| == 3 && c.acquire[0] > c.acquire[1] > c.acquire[2]
    ensures Disciplined(c)
  {
    var first := direction;
    var second := (direction + 3) % 4;
    var third := (direction + 6) % 4;
    LeftQuadrantsDistinct(direction);
    var swap;
    if second > first {
      swap := first;
      first := second;
      second := swap;
    }
    if third > second {
      swap := second;
      second := third;
      third := swap;
    }
    if second > first {
      swap := first;
      first := second;
      second := swap;
    }
    assert first > second > third;
    c := Crossing([first, second, third], [direction, (direction + 3) % 4, (direction + 6) % 4], [first, second, third]);
  }

  /**
   * Two cars that each lock in decreasing order never hold two shared
   * locks in opposite orders, so neither can wait for a lock the other
   * holds while the other waits for one it holds.
   */
  lemma NoOppositeOrder(c1: Crossing, c2: Crossing, i: nat, j: nat, k: nat, l: nat)
    requires Disciplined(c1) && Disciplined(c2)
    requires i < j < |c1.acquire| && k < |c2.acquire| && l < |c2.acquire|
    requires c1.acquire[i] == c2.acquire[l] && c1.acquire[j] == c2.acquire[k]
    ensures l < k
  {
    assert c2.acquire[l] > c2.acquire[k];
  }
}
