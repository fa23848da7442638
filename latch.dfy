/**
 * The direction latch: which pressed key, if any, becomes the pending heading.
 * Keys are examined in a fixed priority order and a key whose heading is the
 * opposite of the current one is never taken.
 */
module Latch {

  import opened Wrappers
  import opened Grid

  /** The order in which the arrow keys are examined. */
  const KeyPriority: seq<Direction> := [Up, Right, Down, Left]

  /** The place of a heading in KeyPriority. */
  function Rank(d: Direction): (r: nat)
    ensures r < |KeyPriority| && KeyPriority[r] == d
  {
    match d
    case Up => 0
    case Right => 1
    case Down => 2
    case Left => 3
  }

  /** A key may set the pending heading when it is pressed and does not reverse the current heading. */
  predicate Permitted(d: Direction, current: Direction, pressed: set<Direction>)
  {
    d in pressed && d != Opposite(current)
  }

  /** The index of the first permitted heading of `order`, if there is one. */
  function FirstPermitted(order: seq<Direction>, current: Direction, pressed: set<Direction>): (r: Option<nat>)
    ensures r.Some? ==> r.value < |order| && Permitted(order[r.value], current, pressed)
    ensures r.Some? ==> forall j :: 0 <= j < r.value ==> !Permitted(order[j], current, pressed)
    ensures r.None? ==> forall j :: 0 <= j < |order| ==> !Permitted(order[j], current, pressed)
    decreases |order|
  {
    if order == [] then None
    else if Permitted(order[0], current, pressed) then Some(0)
    else
      match FirstPermitted(order[1..], current, pressed)
      case None => None
      case Some(k) => Some(k + 1)
  }

  /**
   * The pending heading after the keys in `pressed` have been read: the
   * permitted key of highest priority, or the old pending heading when no
   * pressed key is permitted.
   */
  function Steer(current: Direction, pending: Direction, pressed: set<Direction>): (r: Direction)
    ensures (forall d :: !Permitted(d, current, pressed)) ==> r == pending
    ensures (exists d :: Permitted(d, current, pressed)) ==>
              Permitted(r, current, pressed) &&
              forall d :: Permitted(d, current, pressed) ==> Rank(r) <= Rank(d)
    ensures pending != Opposite(current) ==> r != Opposite(current)
  {
    match FirstPermitted(KeyPriority, current, pressed)
    case None =>
      assert forall d :: !Permitted(d, current, pressed) by {
        forall d ensures !Permitted(d, current, pressed) {
          assert KeyPriority[Rank(d)] == d;
        }
      }
      pending
    case Some(k) =>
      assert forall d :: Permitted(d, current, pressed) ==> k <= Rank(d) by {
        forall d | Permitted(d, current, pressed) ensures k <= Rank(d) {
          assert KeyPriority[Rank(d)] == d;
        }
      }
      assert Rank(KeyPriority[k]) == k;
      KeyPriority[k]
  }
}
