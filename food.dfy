/**
 * Food on the board: eating the items under the head, and the test that a
 * candidate cell for new food is free of food and of the snake.
 */
module Food {

  import opened Grid
  import opened Chain

  /** Each position occurs at most once. */
  ghost predicate NoDup(s: seq<Position>)
  {
    forall p :: multiset(s)[p] <= 1
  }

  /** `n` copies of `p`: the grow events sent for `n` items eaten with the tail at `p`. */
  function Repeat(p: Position, n: nat): (r: seq<Position>)
    ensures |r| == n
    ensures forall i :: 0 <= i < n ==> r[i] == p
  {
    if n == 0 then [] else Repeat(p, n - 1) + [p]
  }

  /**
   * The food left after the head has eaten at `h`: every item at `h` is gone,
   * every other item stays, in its order.
   */
  function Uneaten(fs: seq<Position>, h: Position): (r: seq<Position>)
    ensures multiset(r) == multiset(fs)[h := 0]
    ensures h !in fs ==> r == fs
    decreases |fs|
  {
    if fs == [] then []
    else
      var last := fs[|fs| - 1];
      assert fs == fs[..|fs| - 1] + [last];
      Uneaten(fs[..|fs| - 1], h) + (if last == h then [] else [last])
  }

  /** Eating keeps the food free of duplicates and takes at most one item. */
  lemma {:induction false} EatenAtMostOnce(fs: seq<Position>, h: Position)
    requires NoDup(fs)
    ensures NoDup(Uneaten(fs, h))
    ensures h !in Uneaten(fs, h)
    ensures forall p :: p in Uneaten(fs, h) ==> p in fs
  {
    var r := Uneaten(fs, h);
    forall p | p in r
      ensures p in fs && p != h
    {
      assert multiset(r)[p] > 0;
    }
  }

  /** Looking at one more item either keeps it or drops it when it lies at `h`. */
  lemma KeepStep(food: seq<Position>, i: nat, h: Position)
    requires i < |food|
    ensures Uneaten(food[..i + 1], h) == Uneaten(food[..i], h) + (if food[i] == h then [] else [food[i]])
  {
    assert food[..i + 1][..i] == food[..i];
  }

  /** Looking at one more item sends one more event exactly when it lies at `h`. */
  lemma SendStep(food: seq<Position>, i: nat, h: Position, tailCell: Position)
    requires i < |food|
    ensures Repeat(tailCell, multiset(food[..i + 1])[h])
            == Repeat(tailCell, multiset(food[..i])[h]) + (if food[i] == h then [tailCell] else [])
  {
    assert food[..i + 1] == food[..i] + [food[i]];
    assert multiset(food[..i + 1]) == multiset(food[..i]) + multiset{food[i]};
  }

  /**
   * The pass over the food: each item on the head's cell is removed and sends
   * one grow event carrying the tail's cell, found afresh for each item.
   */
  method EatFood(food: seq<Position>, segs: seq<Segment>, ghost chain: seq<nat>, head: nat)
    returns (kept: seq<Position>, sent: seq<Position>)
    requires IsChain(Links(segs), chain, head)
    ensures kept == Uneaten(food, segs[head].pos)
    ensures sent == Repeat(BodyOf(segs, chain, head)[|chain| - 1], multiset(food)[segs[head].pos])
  {
    var h := segs[head].pos;
    ghost var tailCell := BodyOf(segs, chain, head)[|chain| - 1];
    kept, sent := [], [];
    var i := 0;
    while i < |food|
      invariant 0 <= i <= |food|
      invariant kept == Uneaten(food[..i], h)
      invariant sent == Repeat(tailCell, multiset(food[..i])[h])
    {
      KeepStep(food, i, h);
      SendStep(food, i, h, tailCell);
      if food[i] == h {
        var t := FindTail(segs, chain, head);
        assert segs[t].pos == tailCell;
        sent := sent + [segs[t].pos];
      } else {
        kept := kept + [food[i]];
      }
      i := i + 1;
    }
    assert food[..i] == food;
  }

  /**
   * The acceptance test for a food candidate: it differs from every food item
   * and from every segment's cell, that is, from every cell of the body.
   */
  method IsFree(c: Position, food: seq<Position>, segs: seq<Segment>, ghost chain: seq<nat>, ghost head: nat)
    returns (free: bool)
    requires IsChain(Links(segs), chain, head)
    ensures free <==> c !in food && c !in BodyOf(segs, chain, head)
  {
    BodyIsArena(segs, chain, head, c);
    var i := 0;
    while i < |food|
      invariant 0 <= i <= |food|
      invariant c !in food[..i]
    {
      if food[i] == c {
        return false;
      }
      assert food[..i + 1] == food[..i] + [food[i]];
      i := i + 1;
    }
    assert food[..i] == food;
    var k := 0;
    while k < |segs|
      invariant 0 <= k <= |segs|
      invariant forall j :: 0 <= j < k ==> segs[j].pos != c
    {
      if segs[k].pos == c {
        return false;
      }
      k := k + 1;
    }
    return true;
  }
}
