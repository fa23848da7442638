/**
 * The segment arena: segments addressed by integer index, each naming the
 * index of the next segment towards the tail. The algorithms that walk the
 * chain work on the arena as a value; the World class commits their results.
 */
module Chain {

  import opened Wrappers
  import opened Grid

  /** A body cell and the arena index of the next segment towards the tail. */
  datatype Segment = Segment(pos: Position, next: Option<nat>)

  /** The `next` link of every arena entry, by index. */
  function Links(segs: seq<Segment>): (r: seq<Option<nat>>)
    ensures |r| == |segs|
    ensures forall k {:trigger r[k]} :: 0 <= k < |segs| ==> r[k] == segs[k].next
  {
    seq(|segs|, k requires 0 <= k < |segs| => segs[k].next)
  }

  /** No index occurs twice. */
  ghost predicate Distinct(idx: seq<nat>)
  {
    forall i, j :: 0 <= i < j < |idx| ==> idx[i] != idx[j]
  }

  /**
   * `chain` lists the arena indices met by following the links from `head`:
   * it visits every index exactly once and stops at the one entry without a
   * successor. The snake is seeded with three segments and never shrinks.
   */
  ghost predicate IsChain(links: seq<Option<nat>>, chain: seq<nat>, head: nat)
  {
    && 3 <= |chain| == |links|
    && chain[0] == head
    && (forall i :: 0 <= i < |chain| ==> chain[i] < |links|)
    && Distinct(chain)
    && (forall k :: 0 <= k < |links| ==> k in chain)
    && (forall i {:trigger links[chain[i]]} :: 0 <= i < |chain| - 1 ==> links[chain[i]] == Some(chain[i + 1]))
    && links[chain[|chain| - 1]] == None
  }

  /** The positions of the arena entries listed in `idx`, in that order. */
  ghost function PositionsOf(segs: seq<Segment>, idx: seq<nat>): (r: seq<Position>)
    requires forall i :: 0 <= i < |idx| ==> idx[i] < |segs|
    ensures |r| == |idx|
    ensures forall i {:trigger r[i]} :: 0 <= i < |idx| ==> r[i] == segs[idx[i]].pos
  {
    seq(|idx|, i requires 0 <= i < |idx| => segs[idx[i]].pos)
  }

  /** The cells of the body, from head to tail. */
  ghost function BodyOf(segs: seq<Segment>, chain: seq<nat>, head: nat): (b: seq<Position>)
    requires IsChain(Links(segs), chain, head)
    ensures |b| == |chain| && b[0] == segs[head].pos
  {
    PositionsOf(segs, chain)
  }

  /** Following the link of the i-th entry of the chain leads to the (i+1)-th, unless it is the last. */
  lemma NextOnChain(links: seq<Option<nat>>, chain: seq<nat>, head: nat, i: nat)
    requires IsChain(links, chain, head) && i < |chain|
    ensures chain[i] < |links|
    ensures links[chain[i]].None? <==> i == |chain| - 1
    ensures i < |chain| - 1 ==> links[chain[i]] == Some(chain[i + 1])
  {
  }

  /** An entry without a successor is the last one of the chain, and conversely. */
  lemma TailIsUnique(links: seq<Option<nat>>, chain: seq<nat>, head: nat, k: nat)
    requires IsChain(links, chain, head) && k < |links|
    ensures links[k].None? <==> k == chain[|chain| - 1]
  {
    assert k in chain;
    var i :| 0 <= i < |chain| && chain[i] == k;
    NextOnChain(links, chain, head, i);
  }

  /** A cell is held by some segment of the arena exactly when it is a cell of the body. */
  lemma BodyIsArena(segs: seq<Segment>, chain: seq<nat>, head: nat, c: Position)
    requires IsChain(Links(segs), chain, head)
    ensures c in BodyOf(segs, chain, head) <==> exists k :: 0 <= k < |segs| && segs[k].pos == c
  {
    var body := BodyOf(segs, chain, head);
    if c in body {
      var i :| 0 <= i < |chain| && body[i] == c;
      assert segs[chain[i]].pos == c;
    }
    if k :| 0 <= k < |segs| && segs[k].pos == c {
      assert k in chain;
      var i :| 0 <= i < |chain| && chain[i] == k;
      assert body[i] == c;
    }
  }

  /**
   * Linking a new entry, without a successor, after the tail gives a chain one
   * longer that ends at the new entry.
   */
  lemma AppendAtTail(links: seq<Option<nat>>, chain: seq<nat>, head: nat)
    requires IsChain(links, chain, head)
    ensures IsChain(links[chain[|chain| - 1] := Some(|links|)] + [None], chain + [|links|], head)
  {
  }

  /**
   * Overwriting the position of the entry listed i-th in `idx` changes the
   * i-th listed position and nothing else, and keeps every link.
   */
  lemma WritePos(segs: seq<Segment>, idx: seq<nat>, i: nat, p: Position)
    requires forall j :: 0 <= j < |idx| ==> idx[j] < |segs|
    requires Distinct(idx) && i < |idx|
    ensures Links(segs[idx[i] := Segment(p, segs[idx[i]].next)]) == Links(segs)
    ensures PositionsOf(segs[idx[i] := Segment(p, segs[idx[i]].next)], idx) == PositionsOf(segs, idx)[i := p]
  {
  }

  /** The search over the arena for the segment whose `next` is absent. */
  method FindTail(segs: seq<Segment>, ghost chain: seq<nat>, ghost head: nat) returns (t: nat)
    requires IsChain(Links(segs), chain, head)
    ensures t < |segs| && segs[t].next == None
    ensures t == chain[|chain| - 1]
  {
    ghost var last := chain[|chain| - 1];
    t := 0;
    while segs[t].next.Some?
      invariant t <= last < |segs|
      decreases last - t
    {
      t := t + 1;
    }
    TailIsUnique(Links(segs), chain, head, t);
  }

  /** The body after one step: `h` in front, the old body without its last cell behind it. */
  ghost function Shifted(before: seq<Position>, h: Position): (r: seq<Position>)
    requires |before| > 0
    ensures |r| == |before| && r[0] == h
    ensures forall k :: 1 <= k < |r| ==> r[k] == before[k - 1]
  {
    [h] + before[..|before| - 1]
  }

  /**
   * One step of the walk: when the first i listed cells already hold their new
   * value, the i-th segment still holds its old cell, and writing its new cell
   * moves the boundary by one without touching any link.
   */
  lemma ShiftStep(r: seq<Segment>, chain: seq<nat>, head: nat, moved: seq<Position>, before: seq<Position>, i: nat)
    requires IsChain(Links(r), chain, head)
    requires |moved| == |before| == |chain| && i < |chain|
    requires PositionsOf(r, chain) == moved[..i] + before[i..]
    ensures chain[i] < |r| && r[chain[i]].pos == before[i]
    ensures Links(r[chain[i] := Segment(moved[i], r[chain[i]].next)]) == Links(r)
    ensures PositionsOf(r[chain[i] := Segment(moved[i], r[chain[i]].next)], chain) == moved[..i + 1] + before[i + 1..]
  {
    assert PositionsOf(r, chain)[i] == before[i];
    WritePos(r, chain, i, moved[i]);
    assert (moved[..i] + before[i..])[i := moved[i]] == moved[..i + 1] + before[i + 1..];
  }

  /**
   * The walk from head to tail carrying the cell just vacated: the head takes
   * `newHead`, every other segment the cell its predecessor held, and no link changes.
   */
  method ShiftBody(segs: seq<Segment>, ghost chain: seq<nat>, head: nat, newHead: Position)
    returns (r: seq<Segment>)
    requires IsChain(Links(segs), chain, head)
    ensures Links(r) == Links(segs)
    ensures IsChain(Links(r), chain, head)
    ensures BodyOf(r, chain, head) == Shifted(BodyOf(segs, chain, head), newHead)
  {
    ghost var before := BodyOf(segs, chain, head);
    ghost var links := Links(segs);
    ghost var n := |chain|;
    ghost var moved := Shifted(before, newHead);
    r := segs;
    var carried := newHead;
    var cur := head;
    ghost var i := 0;
    while true
      invariant 0 <= i < n && cur == chain[i]
      invariant Links(r) == links
      invariant PositionsOf(r, chain) == moved[..i] + before[i..]
      invariant carried == moved[i]
      decreases n - i
    {
      NextOnChain(links, chain, head, i);
      ShiftStep(r, chain, head, moved, before, i);
      var seg := r[cur];
      var vacated := seg.pos;
      r := r[cur := Segment(carried, seg.next)];
      carried := vacated;
      match seg.next {
        case None =>
          assert moved[..i + 1] + before[i + 1..] == moved;
          break;
        case Some(next) =>
          cur := next;
          i := i + 1;
      }
    }
  }

  /**
   * One grow event: the tail's link is set to a new entry appended to the
   * arena, which holds the event's cell and has no successor. The chain gains
   * that entry at its end; no other cell or link changes.
   */
  lemma GrowStep(segs: seq<Segment>, chain: seq<nat>, head: nat, e: Position)
    requires IsChain(Links(segs), chain, head)
    ensures var t := chain[|chain| - 1];
            var r := segs[t := segs[t].(next := Some(|segs|))] + [Segment(e, None)];
            && IsChain(Links(r), chain + [|segs|], head)
            && BodyOf(r, chain + [|segs|], head) == BodyOf(segs, chain, head) + [e]
            && (forall k :: 0 <= k < |segs| ==> r[k].pos == segs[k].pos)
  {
    var t := chain[|chain| - 1];
    var r := segs[t := segs[t].(next := Some(|segs|))] + [Segment(e, None)];
    assert Links(r) == Links(segs)[t := Some(|segs|)] + [None];
    AppendAtTail(Links(segs), chain, head);
    assert BodyOf(r, chain + [|segs|], head) == BodyOf(segs, chain, head) + [e];
  }

  /**
   * Reads the grow events in order; for each, the current tail is found and
   * linked to a new segment at the event's cell. The body gains the events'
   * cells at its end, one segment per event, and keeps every earlier cell.
   */
  method AppendSegments(segs: seq<Segment>, ghost chain: seq<nat>, ghost head: nat, events: seq<Position>)
    returns (r: seq<Segment>, ghost chain': seq<nat>)
    requires IsChain(Links(segs), chain, head)
    ensures IsChain(Links(r), chain', head)
    ensures |r| == |segs| + |events|
    ensures BodyOf(r, chain', head) == BodyOf(segs, chain, head) + events
    ensures chain'[..|chain|] == chain
    ensures forall k :: 0 <= k < |segs| ==> r[k].pos == segs[k].pos
  {
    r, chain' := segs, chain;
    var i := 0;
    while i < |events|
      invariant 0 <= i <= |events|
      invariant IsChain(Links(r), chain', head)
      invariant |r| == |segs| + i
      invariant BodyOf(r, chain', head) == BodyOf(segs, chain, head) + events[..i]
      invariant chain'[..|chain|] == chain
      invariant forall k :: 0 <= k < |segs| ==> r[k].pos == segs[k].pos
    {
      var t := FindTail(r, chain', head);
      GrowStep(r, chain', head, events[i]);
      assert events[..i + 1] == events[..i] + [events[i]];
      r := r[t := r[t].(next := Some(|r|))] + [Segment(events[i], None)];
      chain' := chain' + [|r| - 1];
      i := i + 1;
    }
    assert events[..i] == events;
  }
}
