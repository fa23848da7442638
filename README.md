# Snake simulation core in Dafny

A model of the simulation core of a grid snake game written in Rust on the
Bevy engine (`src/main.rs`). The snake lives on a 25 × 25 arena whose edges
wrap around. Its body is a chain of segments linked from the head to the
tail through an optional `next` reference. The head carries a two-phase
heading latch: `direction` is the heading in force and `next_direction` is
the heading requested by the keyboard. Every frame the systems run in this
order:

1. `handle_input` latches a requested heading;
2. `grow_snake` reads queued grow events;
3. `move_snake` runs only when its 0.08 s clock is due. It commits the
   latch, steps the head and shifts every segment into its predecessor's
   cell;
4. `eat_food` removes any food on the head's cell and queues a grow event
   carrying the tail's cell.

On a slower clock, `spawn_food` places food on a random cell that holds
neither food nor a segment.

The model keeps the segments in an arena: a sequence of `Segment(pos, next)`
values in which `next` is an optional arena index. Index 0 is the first
segment spawned, the start-up tail. A ghost sequence `chain` lists the arena
indices from head to tail. `IsChain` states that this chain is acyclic,
covers every segment and ends at the single segment whose `next` is absent.
The body that a player sees is `BodyOf`, the cells along that chain.

Files and modules:

- `wrappers.dfy`, module `Wrappers`: `Option`.
- `grid.dfy`, module `Grid`: the arena size, `Direction`, `Position` and
  `DoMove` (`Position::do_move`), with its wrap-around behaviour.
- `latch.dfy`, module `Latch`: the key priority of `handle_input` and
  `Steer`, the heading it latches.
- `chain.dfy`, module `Chain`: segments, the chain invariant, and the loops
  of `move_snake` (`ShiftBody`) and `grow_snake` (`AppendSegments`) over the
  arena.
- `food.dfy`, module `Food`: the loop of `eat_food` (`EatFood`) and the
  acceptance test of `spawn_food` (`IsFree`).
- `frames.dfy`, module `Frames`: what one frame shows (heading, body, food,
  queued events) and the per-frame schedule `Tick`. It also holds the
  placement invariant that every frame keeps.
- `game.dfy`, module `Game`: class `World`. Its fields are updated in place
  by one method per system.
- `scenarios.dfy`, module `Scenarios`: concrete runs from the start-up
  state. They cover the first step Left, the ignored reversal, eating the
  food ahead with growth in a later frame without a step, and a candidate
  refused because it lies under the body.

Two points of the schedule and of key handling, as the code has them:

- **Growth and eating run every frame.** `grow_snake` and `eat_food` have
  no run criterion, so they run every frame. Only `move_snake` is on the
  0.08 s clock (src/main.rs:300-307). `World.Update(moveDue)` takes that
  clock as a parameter. A grow event queued by an eat is read in the next
  frame. When that frame has no step, the new segment is added at the old
  tail's cell before the next step. This is the timing the scenarios use.
  The case of a frame that reads a grow event while the step is due is
  listed under "Left out".
- **Key handling.** The code reads the four keys once per frame as an
  `else if` chain in the order Up, Right, Down, Left. The first pressed key
  that does not reverse `direction` wins (`Steer`). A key that would
  reverse the heading is ignored, whatever else is pressed.

## Model

| member | source | states |
|---|---|---|
| Grid.DoMove | src/main.rs:36-55 | Up and Down leave `x` unchanged, Right and Left leave `y` unchanged; the moved coordinate always lies in [0, 25); from a cell in the arena the result is in the arena and differs in exactly one coordinate |
| Grid.WrapAround | src/main.rs:38-53 | from a cell in the arena: Left from x = 0 gives x = 24, Right from x = 24 gives x = 0, Down from y = 0 gives y = 24, Up from y = 24 gives y = 0; away from the edges each heading adds or subtracts exactly 1 |
| Grid.StepThenBack | src/main.rs:36-55 | from a cell in the arena, a step followed by a step in the opposite heading returns to the same cell |
| Latch.Rank | src/main.rs:159-166 | every heading has a place in the key order Up, Right, Down, Left, and that place holds it |
| Latch.FirstPermitted | src/main.rs:159-166 | returns the first index of the key order whose key is pressed and does not reverse the heading; every earlier key is not permitted; it returns none exactly when no key is permitted |
| Latch.Steer | src/main.rs:157-168 | if no pressed key is permitted, the latched heading is unchanged; otherwise it is the permitted pressed key that comes first in the key order; it never reverses the heading unless the latch already did |
| Game.World.HandleInput | src/main.rs:157-168 | the new `next_direction` is `Steer` of the current heading, the old latch and the pressed keys; the latch never holds the reverse of `direction` |
| Chain.BodyOf | src/main.rs:58-67 | the body has one cell per chain entry and starts at the head segment's cell |
| Chain.NextOnChain | src/main.rs:58-61 | along a chain, each segment's `next` names the following segment, and only the last has no `next` |
| Chain.TailIsUnique | src/main.rs:246-249 | a segment has no `next` exactly when it is the last one on the chain, so the tail is unique |
| Chain.BodyIsArena | src/main.rs:210-213 | a cell is on the body exactly when some segment of the arena holds it |
| Chain.FindTail | src/main.rs:262-265 | the search for the segment with no `next` returns the last index of the chain |
| Chain.Shifted | src/main.rs:183-197 | the body after a step: the new head cell, then every old cell but the last, same length |
| Chain.WritePos | src/main.rs:187-189 | overwriting one segment's cell leaves every `next` as it was and changes only that segment's entry in the body |
| Chain.ShiftStep | src/main.rs:183-197 | one turn of the move loop writes the carried cell into the current segment and keeps the cells of the segments not yet visited |
| Chain.ShiftBody | src/main.rs:170-198 | every `next` is unchanged and the chain stays well formed; the body becomes `[new head, p0, ..., p(n-2)]` |
| Game.World.Move | src/main.rs:170-198 | `direction` becomes the old `next_direction`, which never reverses the old heading; the body shifts onto the cell `do_move` gives for the head; every `next` is unchanged |
| Chain.AppendAtTail | src/main.rs:262-283 | pointing the tail's `next` at a fresh segment without a `next` extends the chain by one and keeps it acyclic with a single tail |
| Chain.GrowStep | src/main.rs:262-283 | one grow event appends its cell to the body, in a segment at a fresh index, leaving every other segment's cell unchanged |
| Chain.AppendSegments | src/main.rs:256-285 | k events extend the body by exactly their cells, in order; the arena grows by k; the old chain is a prefix of the new one; every old segment keeps its cell |
| Game.World.Grow | src/main.rs:256-285 | the queued events are appended to the body in order and the queue is left empty; the chain stays well formed |
| Food.Repeat | src/main.rs:241-253 | n grow events, all carrying the same cell |
| Food.Uneaten | src/main.rs:241-246 | the food left holds every item not on the head's cell, as many times as before, and none on it |
| Food.EatenAtMostOnce | src/main.rs:241-253 | when no two items share a cell, the food left still has no two items on one cell, none on the head's cell, and every item left was there before |
| Food.KeepStep | src/main.rs:242-244 | one turn of the eat loop keeps the item exactly when it is not on the head's cell |
| Food.SendStep | src/main.rs:242-251 | one turn of the eat loop queues one more event carrying the tail's cell exactly when the item is on the head's cell |
| Food.EatFood | src/main.rs:234-254 | the food left is every item not on the head's cell; one event per eaten item is sent, each carrying the tail's cell |
| Game.World.Eat | src/main.rs:234-254 | the food and the queue change as `eat_food` does; segments and heading are untouched |
| Food.IsFree | src/main.rs:210-214 | a candidate is accepted exactly when no food item and no segment occupies it |
| Game.World.SpawnFood | src/main.rs:200-232 | the candidate is placed exactly when it is free, and nothing else changes; placing a free cell of the arena keeps the placement invariant |
| Game.World.constructor | src/main.rs:102-155 | three segments (12,12) → (13,12) → (14,12), the last without a `next`, heading Left with `direction == next_direction`; no food and no queued event |
| Game.World.Snapshot | src/main.rs:102-155 | the body is always at least three segments long |
| Frames.Tick | src/main.rs:299-307 | one frame grows the body by exactly the number of queued events; the heading changes only when the movement clock is due |
| Frames.GrowKeepsPlaced | src/main.rs:256-285 | reading the queue keeps the body in the arena and off the food, and empties the queue |
| Frames.MoveExposes | src/main.rs:170-198 | after a step the body stays in the arena and only the new head cell may hold food |
| Frames.EatRestoresPlaced | src/main.rs:234-254 | after eating, no food lies under the body, no two items share a cell, at most one event is queued, and it names a body cell |
| Frames.TickKeepsPlaced | src/main.rs:299-307 | every frame keeps the body and food in the arena, food off the body, no two items on one cell, and at most one queued event |
| Frames.RestEatsNothing | src/main.rs:299-307 | in a frame without a step nothing is eaten: the queued events join the body and the food is unchanged |
| Game.World.Update | src/main.rs:299-307 | one frame changes the state exactly as `Tick` does, keeps the latch valid and keeps the placement invariant |

## Left out

- Rendering: `translate_position`, `scale_size`, `setup_camera`, the sprites, colours and sizes (src/main.rs:6-13, 23-27, 76-100). These are presentation only, computed in floating point.
- `main` and the engine wiring (src/main.rs:287-320). The two fixed-step clocks become the `moveDue` parameter of `World.Update`. `spawn_food` is a separate call, because it has its own 3 s clock.
- Deferred commands: the engine applies segment spawns and food despawns at the end of a stage. The model applies each system's changes at once.
- The `move_snake` loop only advances when the lookup of the current segment succeeds. Otherwise it repeats the same lookup. In the model every `next` names a segment of the arena, so that failing case, which would not end, is not modelled.
- Frames.Tick: the model does not capture a frame that reads a grow event while the step is due. `grow_snake` points the tail's `next` at a segment whose spawn the engine applies only at the end of the stage (src/main.rs:262-283). So `move_snake`, running in the same frame, reaches a segment its lookup cannot find and loops forever (src/main.rs:183-197). `Tick(f, steer, true)` with a non-empty `pending` gives the intended result of that frame, not what the code does. The source then does not finish the frame.
- Keyboard polling: the pressed arrow keys are a `set<Direction>` parameter of `HandleInput`.
- `SpawnFood`: the random cell draw and the unbounded retry loop of `spawn_food` (src/main.rs:205-217) are not modelled, because the draw uses floating-point randomness and the loop does not end when the arena is full. The model performs one attempt on a candidate given as a parameter.
- Entity ids, queries and the event channel are replaced by arena indices and an explicit queue of cells, `pending`.
- `Position` coordinates are `i32` in the source and `int` here. Every reachable cell lies in [0, 25), so no overflow can occur.
- DoMove: for cells outside the arena, the contract bounds only the moved coordinate. It does not state the ±1 congruence modulo 25 there, because it is only reachable from the arena.
