/** The replay cursor: one position in the preorder walk, moved by the step commands. */
module Cursor {
  import opened TraceModel
  import opened TraceIndexing
  import opened TraceQueries

  datatype StepKind = In | Over | Out | Back

  /** The `(file, line)` pairs the cursor stops on. */
  datatype BreakpointSet = BreakpointSet(points: set<(string, nat)>) {
    predicate Matches(f: Frame) {
      if points == {} then false else (f.file, f.line) in points
    }
  }

  /** The inverse map points into the walk, as it does in every built index. */
  ghost predicate PositionsInWalk(idx: TraceIndex) {
    forall x :: x in idx.preorderPos ==> idx.preorderPos[x] < |idx.preorder|
  }

  // ---------- what the moves compute ----------

  function FrameAtPos(idx: TraceIndex, pos: nat): Option<Frame> {
    if pos < |idx.preorder| then idx.FrameById(idx.preorder[pos]) else None
  }

  function IdAtPos(idx: TraceIndex, pos: nat): Option<nat> {
    if pos < |idx.preorder| then Some(idx.preorder[pos]) else None
  }

  predicate Shallower(idx: TraceIndex, pos: nat, depth: nat) {
    FrameAtPos(idx, pos).Some? && FrameAtPos(idx, pos).value.depth < depth
  }

  /** The first position from `next` on whose frame is less deep than `depth`, or the end. */
  function NextShallower(idx: TraceIndex, next: nat, depth: nat): (q: nat)
    requires next <= |idx.preorder|
    ensures next <= q <= |idx.preorder|
    ensures forall j :: next <= j < q ==> !Shallower(idx, j, depth)
    ensures q < |idx.preorder| ==> Shallower(idx, q, depth)
    decreases |idx.preorder| - next
  {
    if next == |idx.preorder| || Shallower(idx, next, depth) then next else NextShallower(idx, next + 1, depth)
  }

  predicate Hit(idx: TraceIndex, bps: BreakpointSet, pos: nat) {
    FrameAtPos(idx, pos).Some? && bps.Matches(FrameAtPos(idx, pos).value)
  }

  function OverFrom(idx: TraceIndex, pos: nat): nat {
    match FrameAtPos(idx, pos)
    case None => pos
    case Some(f) =>
      var q := NextShallower(idx, pos + 1, f.depth + 1);
      if q < |idx.preorder| then q else pos
  }

  function OutFrom(idx: TraceIndex, pos: nat): nat {
    match FrameAtPos(idx, pos)
    case None => pos
    case Some(f) =>
      if f.parentId == 0 then pos
      else
        var q := NextShallower(idx, pos + 1, f.depth);
        if q < |idx.preorder| then q
        else if f.parentId in idx.preorderPos then idx.preorderPos[f.parentId] else pos
  }

  /** The matching positions from `from` on, in order. */
  function HitsFrom(idx: TraceIndex, bps: BreakpointSet, from: nat): (hits: seq<nat>)
    requires from <= |idx.preorder|
    decreases |idx.preorder| - from
  {
    if from == |idx.preorder| then []
    else (if Hit(idx, bps, from) then [from] else []) + HitsFrom(idx, bps, from + 1)
  }

  function ForwardFrom(idx: TraceIndex, bps: BreakpointSet, pos: nat): nat {
    if pos + 1 <= |idx.preorder| && HitsFrom(idx, bps, pos + 1) != [] then HitsFrom(idx, bps, pos + 1)[0]
    else if idx.preorder != [] then |idx.preorder| - 1
    else pos
  }

  /** The last matching position before `pos`, or 0. */
  function ReverseFrom(idx: TraceIndex, bps: BreakpointSet, pos: nat): nat {
    if pos == 0 then 0
    else if Hit(idx, bps, pos - 1) then pos - 1
    else ReverseFrom(idx, bps, pos - 1)
  }

  class ReplayCursor {
    const index: TraceIndex
    var pos: nat

    /** The position is in the walk, unless the walk is empty. */
    ghost predicate Valid() reads this {
      && (pos < |index.preorder| || (pos == 0 && index.preorder == []))
      && PositionsInWalk(index)
    }

    constructor (index: TraceIndex)
      requires PositionsInWalk(index)
      ensures this.index == index && pos == 0 && Valid()
    {
      this.index := index;
      pos := 0;
    }

    method CurrentFrameId() returns (id: Option<nat>)
      ensures id == IdAtPos(index, pos)
    {
      id := if pos < |index.preorder| then Some(index.preorder[pos]) else None;
    }

    method CurrentFrame() returns (f: Option<Frame>)
      ensures f == FrameAtPos(index, pos)
    {
      var id := CurrentFrameId();
      f := if id.Some? then index.FrameById(id.value) else None;
    }

    method Time() returns (t: nat)
      ensures t == match FrameAtPos(index, pos) case Some(f) => f.enter case None => 0
    {
      var f := CurrentFrame();
      t := if f.Some? then f.value.enter else 0;
    }

    method Step(kind: StepKind) returns (id: Option<nat>)
      requires Valid()
      modifies this
      ensures Valid()
      ensures kind == In ==> pos == if old(pos) + 1 < |index.preorder| then old(pos) + 1 else old(pos)
      ensures kind == Over ==> pos == OverFrom(index, old(pos))
      ensures kind == Out ==> pos == OutFrom(index, old(pos))
      ensures kind == Back ==> pos == if old(pos) > 0 then old(pos) - 1 else 0
      ensures FrameAtPos(index, old(pos)).Some? ==> id == IdAtPos(index, pos)
    {
      match kind
      case In => id := StepIn();
      case Over => id := StepOver();
      case Out => id := StepOut();
      case Back => id := StepBack();
    }

    method StepIn() returns (id: Option<nat>)
      requires Valid()
      modifies this
      ensures Valid() && id == IdAtPos(index, pos)
      ensures pos == if old(pos) + 1 < |index.preorder| then old(pos) + 1 else old(pos)
    {
      if pos + 1 < |index.preorder| {
        pos := pos + 1;
      }
      id := CurrentFrameId();
    }

    method StepOver() returns (id: Option<nat>)
      requires Valid()
      modifies this
      ensures Valid() && pos == OverFrom(index, old(pos))
      ensures id == if FrameAtPos(index, old(pos)).None? then None else IdAtPos(index, pos)
    {
      var cur := CurrentFrame();
      if cur.None? { return None; }
      var depth := cur.value.depth;
      var next := pos + 1;
      while next < |index.preorder|
        invariant pos + 1 <= next <= |index.preorder|
        invariant NextShallower(index, next, depth + 1) == NextShallower(index, pos + 1, depth + 1)
      {
        var f := index.FrameById(index.preorder[next]);
        if f.Some? && f.value.depth <= depth { break; }
        next := next + 1;
      }
      if next < |index.preorder| {
        pos := next;
      }
      id := CurrentFrameId();
    }

    method StepOut() returns (id: Option<nat>)
      requires Valid()
      modifies this
      ensures Valid() && pos == OutFrom(index, old(pos)) && id == IdAtPos(index, pos)
    {
      var cur := CurrentFrame();
      if cur.None? || cur.value.parentId == 0 {
        id := CurrentFrameId();
        return;
      }
      var depth := cur.value.depth;
      var next := pos + 1;
      while next < |index.preorder|
        invariant pos + 1 <= next <= |index.preorder|
        invariant NextShallower(index, next, depth) == NextShallower(index, pos + 1, depth)
      {
        var f := index.FrameById(index.preorder[next]);
        if f.Some? && f.value.depth < depth {
          pos := next;
          id := CurrentFrameId();
          return;
        }
        next := next + 1;
      }
      if cur.value.parentId in index.preorderPos {
        pos := index.preorderPos[cur.value.parentId];
      }
      id := CurrentFrameId();
    }

    method StepBack() returns (id: Option<nat>)
      requires Valid()
      modifies this
      ensures Valid() && id == IdAtPos(index, pos)
      ensures pos == if old(pos) > 0 then old(pos) - 1 else 0
    {
      if pos > 0 {
        pos := pos - 1;
      }
      id := CurrentFrameId();
    }

    method ForwardContinue(bps: BreakpointSet) returns (id: Option<nat>)
      requires Valid()
      modifies this
      ensures Valid() && pos == ForwardFrom(index, bps, old(pos)) && id == IdAtPos(index, pos)
    {
      var next := pos + 1;
      while next < |index.preorder|
        invariant pos + 1 <= next
        invariant next <= |index.preorder| || next == pos + 1
        invariant next <= |index.preorder| ==> HitsFrom(index, bps, next) == HitsFrom(index, bps, pos + 1)
      {
        var f := index.FrameById(index.preorder[next]);
        if f.Some? && bps.Matches(f.value) {
          pos := next;
          return Some(index.preorder[next]);
        }
        next := next + 1;
      }
      if index.preorder != [] {
        pos := |index.preorder| - 1;
      }
      id := CurrentFrameId();
    }

    method ReverseContinue(bps: BreakpointSet) returns (id: Option<nat>)
      requires Valid()
      modifies this
      ensures Valid() && pos == ReverseFrom(index, bps, old(pos)) && id == IdAtPos(index, pos)
    {
      if pos == 0 {
        id := CurrentFrameId();
        return;
      }
      var next: nat := pos - 1;
      while true
        invariant next < pos
        invariant ReverseFrom(index, bps, next + 1) == ReverseFrom(index, bps, pos)
        decreases next
      {
        var f := index.FrameById(index.preorder[next]);
        if f.Some? && bps.Matches(f.value) {
          pos := next;
          return Some(index.preorder[next]);
        }
        if next == 0 { break; }
        next := next - 1;
      }
      pos := 0;
      id := CurrentFrameId();
    }

    method SeekTime(time: nat) returns (id: Option<nat>)
      requires Valid() && Indexed(index)
      modifies this
      ensures Valid() && id == DescendTo(ForestOf(index), time)
      ensures pos == if id.Some? && id.value in index.preorderPos then index.preorderPos[id.value] else old(pos)
    {
      id := FrameAt(index, time);
      if id.Some? && id.value in index.preorderPos {
        pos := index.preorderPos[id.value];
      }
    }

    method SeekFrame(frameId: nat) returns (id: Option<nat>)
      requires Valid()
      modifies this
      ensures Valid()
      ensures frameId in index.preorderPos ==> pos == index.preorderPos[frameId] && id == IdAtPos(index, pos)
      ensures frameId !in index.preorderPos ==> pos == old(pos) && id == None
    {
      if frameId !in index.preorderPos { return None; }
      pos := index.preorderPos[frameId];
      id := CurrentFrameId();
    }
  }
}
