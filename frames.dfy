/**
 * One frame of the simulation on values: what the frame shows (heading,
 * body, food, queued grow events), the three systems that change it, in the
 * order they are scheduled, and the placement invariant they keep.
 */
module Frames {

  import opened Grid
  import opened Chain
  import opened Food

  /** What a frame shows: the heading, the body from head to tail, the food and the queued grow events. */
  datatype Frame = Frame(direction: Direction, body: seq<Position>, food: seq<Position>, pending: seq<Position>)

  /** `grow_snake`: every queued event extends the body at its tail, in order, and the queue is read empty. */
  function AfterGrow(f: Frame): Frame
  {
    f.(body := f.body + f.pending, pending := [])
  }

  /** `move_snake`: the pending heading is committed and the body shifts one cell towards it. */
  ghost function AfterMove(f: Frame, steer: Direction): Frame
    requires 1 <= |f.body|
  {
    f.(direction := steer, body := Shifted(f.body, DoMove(f.body[0], steer)))
  }

  /** `eat_food`: food on the head's cell is removed and each item queues a grow event at the tail's cell. */
  function AfterEat(f: Frame): Frame
    requires 1 <= |f.body|
  {
    var h := f.body[0];
    f.(food := Uneaten(f.food, h), pending := f.pending + Repeat(f.body[|f.body| - 1], multiset(f.food)[h]))
  }

  /** One frame: grow, then move when the movement clock is due, then eat. */
  ghost function Tick(f: Frame, steer: Direction, moveDue: bool): (r: Frame)
    requires 1 <= |f.body|
    ensures |r.body| == |f.body| + |f.pending|
    ensures r.direction == if moveDue then steer else f.direction
  {
    var grown := AfterGrow(f);
    AfterEat(if moveDue then AfterMove(grown, steer) else grown)
  }

  /**
   * Where things lie between frames: the body and the food lie in the arena,
   * no food lies under the body, no two food items share a cell, and every
   * queued grow event names a cell of the body.
   */
  ghost predicate Placed(f: Frame)
  {
    && (forall i :: 0 <= i < |f.body| ==> InBounds(f.body[i]))
    && (forall i :: 0 <= i < |f.food| ==> InBounds(f.food[i]) && f.food[i] !in f.body)
    && NoDup(f.food)
    && (forall i :: 0 <= i < |f.pending| ==> f.pending[i] in f.body)
  }

  /** Where things lie once the head may have stepped onto food: only the head may share a cell with food. */
  ghost predicate Exposed(f: Frame)
  {
    && 1 <= |f.body|
    && (forall i :: 0 <= i < |f.body| ==> InBounds(f.body[i]))
    && (forall i :: 0 <= i < |f.food| ==> InBounds(f.food[i]) && f.food[i] !in f.body[1..])
    && NoDup(f.food)
    && f.pending == []
  }

  /** Growing keeps the placement and empties the queue. */
  lemma GrowKeepsPlaced(f: Frame)
    requires Placed(f)
    ensures Placed(AfterGrow(f)) && AfterGrow(f).pending == []
  {
  }

  /** A step from a placed frame keeps the body in the arena; only the new head may land on food. */
  lemma MoveExposes(f: Frame, steer: Direction)
    requires 1 <= |f.body| && Placed(f) && f.pending == []
    ensures Exposed(AfterMove(f, steer))
  {
  }

  /** Eating restores the placement and queues at most one grow event. */
  lemma EatRestoresPlaced(f: Frame)
    requires Exposed(f)
    ensures Placed(AfterEat(f))
    ensures |AfterEat(f).pending| <= 1
  {
    var h := f.body[0];
    var kept := Uneaten(f.food, h);
    assert multiset(f.food)[h] <= 1;
    EatenAtMostOnce(f.food, h);
    forall i | 0 <= i < |kept|
      ensures InBounds(kept[i]) && kept[i] !in f.body
    {
      assert kept[i] in multiset(kept);
      var j :| 0 <= j < |f.food| && f.food[j] == kept[i];
    }
    assert [] + Repeat(f.body[|f.body| - 1], multiset(f.food)[h]) == Repeat(f.body[|f.body| - 1], multiset(f.food)[h]);
  }

  /** Every frame keeps the placement, and leaves at most one grow event queued. */
  lemma TickKeepsPlaced(f: Frame, steer: Direction, moveDue: bool)
    requires 1 <= |f.body| && Placed(f)
    ensures Placed(Tick(f, steer, moveDue))
    ensures |Tick(f, steer, moveDue).pending| <= 1
  {
    var grown := AfterGrow(f);
    GrowKeepsPlaced(f);
    if moveDue {
      MoveExposes(grown, steer);
      EatRestoresPlaced(AfterMove(grown, steer));
    } else {
      assert Exposed(grown);
      EatRestoresPlaced(grown);
    }
  }

  /**
   * In a frame without a step nothing is eaten: the queued events are read
   * into the body and the food stays as it was.
   */
  lemma RestEatsNothing(f: Frame, steer: Direction)
    requires 1 <= |f.body| && Placed(f)
    ensures Tick(f, steer, false) == f.(body := f.body + f.pending, pending := [])
  {
  }
}
