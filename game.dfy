/**
 * The simulation state: the segment arena, the heading latch of the head,
 * the food on the board and the queue of grow events not yet read, with the
 * systems that change it.
 */
module Game {

  import opened Wrappers
  import opened Grid
  import opened Latch
  import opened Chain
  import opened Food
  import opened Frames

  class World {
    // the latch of the head segment
    var direction: Direction
    var nextDirection: Direction
    // the arena index of the head segment
    var head: nat
    // every segment of the snake, by arena index
    var segments: seq<Segment>
    // the food items, in the order they were spawned
    var food: seq<Position>
    // grow events sent and not yet read, oldest first
    var pending: seq<Position>
    // the arena indices of the chain, from head to tail
    ghost var chain: seq<nat>

    /** The segments form one chain from the head, through every segment, to the tail. */
    ghost predicate Linked()
      reads this`segments, this`chain, this`head
    {
      IsChain(Links(segments), chain, head)
    }

    /** The chain is well formed and the pending heading never reverses the current one. */
    ghost predicate Valid()
      reads this`segments, this`chain, this`head, this`direction, this`nextDirection
    {
      Linked() && nextDirection != Opposite(direction)
    }

    /** The cells of the body, from head to tail. */
    ghost function Body(): seq<Position>
      reads this`segments, this`chain, this`head
      requires Linked()
    {
      BodyOf(segments, chain, head)
    }

    /** What the current frame shows. */
    ghost function Snapshot(): (f: Frame)
      reads this`direction, this`segments, this`chain, this`head, this`food, this`pending
      requires Linked()
      ensures 3 <= |f.body|
    {
      Frame(direction, Body(), food, pending)
    }

    /** The state between two frames: a well-formed chain, with every item where it may lie. */
    ghost predicate Settled()
      reads this`direction, this`segments, this`chain, this`head, this`food, this`pending
    {
      Linked() && Placed(Snapshot())
    }

    /** The three segments placed at start-up: head, middle, tail, heading Left. */
    constructor ()
      ensures Valid() && Settled()
      ensures Snapshot() == Frame(Left, [Position(12, 12), Position(13, 12), Position(14, 12)], [], [])
      ensures nextDirection == Left
      ensures segments[chain[2]].next == None
    {
      segments := [
        Segment(Position(14, 12), None),
        Segment(Position(13, 12), Some(0)),
        Segment(Position(12, 12), Some(1))
      ];
      head := 2;
      chain := [2, 1, 0];
      direction, nextDirection := Left, Left;
      food, pending := [], [];
      new;
      assert Links(segments) == [None, Some(0), Some(1)];
    }

    /**
     * Reads the pressed arrow keys: the first of Up, Right, Down, Left that is
     * pressed and does not reverse the current heading becomes the pending heading.
     */
    method HandleInput(pressed: set<Direction>)
      requires Valid()
      modifies this`nextDirection
      ensures Valid()
      ensures nextDirection == Steer(direction, old(nextDirection), pressed)
    {
      if Up in pressed && direction != Down {
        nextDirection := Up;
      } else if Right in pressed && direction != Left {
        nextDirection := Right;
      } else if Down in pressed && direction != Up {
        nextDirection := Down;
      } else if Left in pressed && direction != Right {
        nextDirection := Left;
      }
    }

    /**
     * Reads every pending grow event in order: each one links a new segment,
     * at the event's cell and without a successor, after the current tail.
     */
    method Grow()
      requires Linked()
      modifies this`segments, this`chain, this`pending
      ensures Linked()
      ensures Snapshot() == AfterGrow(old(Snapshot()))
    {
      segments, chain := AppendSegments(segments, chain, head, pending);
      pending := [];
    }

    /**
     * One movement tick: the pending heading is committed, the head steps in
     * it, and every other segment takes the cell its predecessor held before.
     */
    method Move()
      requires Valid()
      modifies this`direction, this`segments
      ensures Valid()
      ensures Snapshot() == AfterMove(old(Snapshot()), old(nextDirection))
      ensures direction != Opposite(old(direction))
      ensures Links(segments) == old(Links(segments))
    {
      direction := nextDirection;
      var newHead := DoMove(segments[head].pos, direction);
      segments := ShiftBody(segments, chain, head, newHead);
    }

    /**
     * Every food item on the head's cell is removed, and for each one a grow
     * event carrying the tail's cell is queued. Items elsewhere stay.
     */
    method Eat()
      requires Linked()
      modifies this`food, this`pending
      ensures Linked()
      ensures Snapshot() == AfterEat(old(Snapshot()))
    {
      ghost var before := Snapshot();
      var kept, sent := EatFood(food, segments, chain, head);
      assert kept == Uneaten(before.food, before.body[0]);
      assert sent == Repeat(before.body[|before.body| - 1], multiset(before.food)[before.body[0]]);
      food, pending := kept, pending + sent;
      assert Body() == before.body;
    }

    /** One attempt to place food on the candidate cell; it is placed only where the cell is free. */
    method SpawnFood(c: Position) returns (placed: bool)
      requires Linked()
      modifies this`food
      ensures placed <==> c !in old(food) && c !in Body()
      ensures Linked()
      ensures Snapshot() == if placed then old(Snapshot()).(food := old(food) + [c]) else old(Snapshot())
      ensures old(Settled()) && InBounds(c) ==> Settled()
    {
      ghost var before := Snapshot();
      placed := IsFree(c, food, segments, chain, head);
      if placed {
        food := food + [c];
      }
      assert Body() == before.body;
    }

    /**
     * One frame of the schedule: pending grow events are read, then, when the
     * movement clock is due, the snake moves, then food under the head is eaten.
     */
    method Update(moveDue: bool)
      requires Valid()
      modifies this`direction, this`segments, this`chain, this`food, this`pending
      ensures Valid()
      ensures Snapshot() == Tick(old(Snapshot()), old(nextDirection), moveDue)
      ensures old(Settled()) ==> Settled() && |pending| <= 1
    {
      ghost var start, steer := Snapshot(), nextDirection;
      Grow();
      ghost var grown := Snapshot();
      if moveDue {
        Move();
      }
      ghost var moved := Snapshot();
      assert moved == if moveDue then AfterMove(grown, steer) else grown;
      ghost var d, nd := direction, nextDirection;
      assert nd != Opposite(d);
      Eat();
      assert direction == d && nextDirection == nd;
      ghost var final := Snapshot();
      assert final == AfterEat(moved);
      assert final == Tick(start, steer, moveDue);
      if Placed(start) {
        TickKeepsPlaced(start, steer, moveDue);
      }
    }
  }
}
