/**
 * Concrete runs of the simulation from its start-up state, written as
 * clients of the `World` class.
 */
module Scenarios {

  import opened Grid
  import opened Food
  import opened Frames
  import opened Game

  /** From start-up, one movement tick to the Left shifts the whole body one cell left. */
  method FirstStep()
  {
    var w := new World();
    w.Update(true);
    assert w.Body() == [Position(11, 12), Position(12, 12), Position(13, 12)];
    assert w.food == [] && w.pending == [];
  }

  /** Pressing Right while heading Left is ignored; pressing Up is taken. */
  method NoReversal()
  {
    var w := new World();
    w.HandleInput({Right});
    assert w.nextDirection == Left;
    w.HandleInput({Up, Right});
    assert w.nextDirection == Up;
  }

  /**
   * Food placed on the cell ahead is eaten on the next tick, which queues
   * one grow event at the tail's cell.
   */
  method EatOnStep()
  {
    ghost var start := Frame(Left, [Position(12, 12), Position(13, 12), Position(14, 12)], [Position(11, 12)], []);
    assert Uneaten([Position(11, 12)], Position(11, 12)) == [];
    assert Repeat(Position(13, 12), 1) == [Position(13, 12)];
    assert Tick(start, Left, true) == Frame(Left, [Position(11, 12), Position(12, 12), Position(13, 12)], [], [Position(13, 12)]);
    var w := new World();
    var placed := w.SpawnFood(Position(11, 12));
    assert placed && w.Snapshot() == start;
    w.Update(true);
    assert w.food == [] && w.pending == [Position(13, 12)];
  }

  /**
   * A frame without a step then adds the queued segment at the old tail's
   * cell, and the next step leaves a body four cells long.
   */
  method GrowNextFrame()
  {
    var f := Frame(Left, [Position(11, 12), Position(12, 12), Position(13, 12)], [], [Position(13, 12)]);
    var grown := Frame(Left, [Position(11, 12), Position(12, 12), Position(13, 12), Position(13, 12)], [], []);
    assert AfterGrow(f) == grown;
    assert Uneaten([], Position(11, 12)) == [];
    assert Tick(f, Left, false) == grown;
    assert AfterMove(grown, Left).body == [Position(10, 12), Position(11, 12), Position(12, 12), Position(13, 12)];
    assert Uneaten([], Position(10, 12)) == [];
    assert Tick(grown, Left, true) == Frame(Left, [Position(10, 12), Position(11, 12), Position(12, 12), Position(13, 12)], [], []);
  }

  /** A candidate cell under the body is refused. */
  method SpawnOnBody()
  {
    var w := new World();
    var placed := w.SpawnFood(Position(13, 12));
    assert !placed && w.food == [];
  }
}
