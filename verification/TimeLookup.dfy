/** Time lookups on recorded traces agree with a scan of all frames. */
module TimeLookup {
  import opened TraceModel
  import opened CallForest
  import opened ParentChains
  import opened TraceIndexing
  import opened Spans
  import opened TraceQueries
  import opened RecordedIndex

  /** `r` names the one frame running at `t` that is deeper than all others running then; `None` when nothing runs. */
  ghost predicate DeepestAt(frames: seq<Frame>, t: nat, r: Option<nat>) {
    match r
    case None => forall x :: x in frames ==> !InSpan(x, t)
    case Some(id) => exists x :: x in frames && x.id == id && InSpan(x, t)
                                 && forall y :: y in frames && InSpan(y, t) && y != x ==> y.depth < x.depth
  }

  /** `x` was entered and left at `t`, right under `parent` or under a frame that was running then. */
  ghost predicate EmptyUnder(frames: seq<Frame>, parent: nat, t: nat, x: Frame) {
    && x in frames && x.enter == t == x.exit
    && (x.parentId == parent || exists p :: p in frames && p.id == x.parentId && InSpan(p, t))
  }

  /** Some frame was entered and left at `t` while its caller, if it has one, was running. */
  ghost predicate ExposedInstant(frames: seq<Frame>, t: nat) {
    SomeEmpty(frames, 0, t)
  }

  ghost predicate SomeEmpty(frames: seq<Frame>, parent: nat, t: nat) {
    exists x :: EmptyUnder(frames, parent, t, x)
  }

  // ---------- spans inside a forest ----------

  lemma {:induction false} TimedBounds(f: Forest, lo: nat, hi: nat)
    requires Timed(f, lo, hi)
    ensures forall x :: x in PostFrames(f) ==> lo <= x.enter <= x.exit <= hi
  {
    match f
    case Nil =>
    case Cons(x, kids, rest) =>
      TimedBounds(kids, x.enter, x.exit);
      TimedBounds(rest, x.exit, hi);
  }

  /** The frames running at `t`, deepest first. */
  function SpanStack(f: Forest, t: nat): seq<Frame> {
    match f
    case Nil => []
    case Cons(x, kids, rest) => if InSpan(x, t) then SpanStack(kids, t) + [x] else SpanStack(rest, t)
  }

  lemma {:induction false} SpanStackIsRunning(f: Forest, lo: nat, hi: nat, t: nat)
    requires Timed(f, lo, hi)
    ensures forall x :: x in SpanStack(f, t) <==> x in PostFrames(f) && InSpan(x, t)
  {
    match f
    case Nil =>
    case Cons(x, kids, rest) =>
      TimedBounds(kids, x.enter, x.exit);
      TimedBounds(rest, x.exit, hi);
      SpanStackIsRunning(kids, x.enter, x.exit, t);
      SpanStackIsRunning(rest, x.exit, hi, t);
  }

  /** Depths in the stack fall by one to `depth`, and the descent ends at its first entry. */
  lemma {:induction false} SpanStackDepths(f: Forest, parent: nat, next: nat, depth: nat, t: nat)
    requires Numbered(f, parent, next, depth)
    ensures var s := SpanStack(f, t);
            && (forall i :: 0 <= i < |s| ==> s[i].depth == depth + |s| - 1 - i)
            && SpanTo(f, t) == if s == [] then None else Some(s[0].id)
  {
    match f
    case Nil =>
    case Cons(x, kids, rest) =>
      SpanStackDepths(kids, x.id, next + 1, depth + 1, t);
      SpanStackDepths(rest, parent, next + 1 + Size(kids), depth, t);
  }

  lemma SpanToIsDeepest(f: Forest, parent: nat, next: nat, depth: nat, lo: nat, hi: nat, t: nat)
    requires Numbered(f, parent, next, depth) && Timed(f, lo, hi)
    ensures DeepestAt(PostFrames(f), t, SpanTo(f, t))
  {
    SpanStackIsRunning(f, lo, hi, t);
    SpanStackDepths(f, parent, next, depth, t);
    var s := SpanStack(f, t);
    if s == [] {
      forall x | x in PostFrames(f) ensures !InSpan(x, t) {
        assert x !in s;
      }
    } else {
      assert s[0] in s;
    }
  }

  // ---------- where the widened window matters ----------

  /** The descent by span passes an empty frame entered at `t`. */
  ghost predicate Blocked(f: Forest, t: nat) {
    match f
    case Nil => false
    case Cons(x, kids, rest) => x.enter == t == x.exit || (InSpan(x, t) && Blocked(kids, t)) || Blocked(rest, t)
  }

  lemma {:induction false} BlockedNeedsEmpty(f: Forest, lo: nat, hi: nat, t: nat)
    requires Timed(f, lo, hi) && (t < lo || hi < t)
    ensures !Blocked(f, t) && SpanTo(f, t) == None && DescendTo(f, t) == None
  {
    TimedBounds(f, lo, hi);
    match f
    case Nil =>
    case Cons(x, kids, rest) =>
      BlockedNeedsEmpty(rest, x.exit, hi, t);
  }

  lemma {:induction false} DescentNames(f: Forest, parent: nat, next: nat, depth: nat, t: nat)
    requires Numbered(f, parent, next, depth)
    ensures DescendTo(f, t).Some? ==> next < DescendTo(f, t).value <= next + Size(f)
    ensures SpanTo(f, t).Some? ==> next < SpanTo(f, t).value <= next + Size(f)
  {
    match f
    case Nil =>
    case Cons(x, kids, rest) =>
      DescentNames(kids, x.id, next + 1, depth + 1, t);
      DescentNames(rest, parent, next + 1 + Size(kids), depth, t);
  }

  /** The two descents agree exactly when no empty frame is in the way. */
  lemma {:induction false} DescentsAgree(f: Forest, parent: nat, next: nat, depth: nat, lo: nat, hi: nat, t: nat)
    requires Numbered(f, parent, next, depth) && Timed(f, lo, hi)
    ensures DescendTo(f, t) == SpanTo(f, t) <==> !Blocked(f, t)
  {
    match f
    case Nil =>
    case Cons(x, kids, rest) =>
      var mid := next + 1 + Size(kids);
      DescentNames(kids, x.id, next + 1, depth + 1, t);
      DescentNames(rest, parent, mid, depth, t);
      if InSpan(x, t) {
        BlockedNeedsEmpty(rest, x.exit, hi, t);
        DescentsAgree(kids, x.id, next + 1, depth + 1, x.enter, x.exit, t);
      } else if !Covers(x, t) {
        DescentsAgree(rest, parent, mid, depth, x.exit, hi, t);
      }
  }

  lemma EmptyPartsDown(f: Forest, parent: nat, next: nat, depth: nat, lo: nat, hi: nat, t: nat, x: Frame)
    requires f.Cons? && Numbered(f, parent, next, depth) && Timed(f, lo, hi) && parent <= next
    requires EmptyUnder(PostFrames(f), parent, t, x)
    ensures x == f.frame || EmptyUnder(PostFrames(f.rest), parent, t, x)
            || (InSpan(f.frame, t) && EmptyUnder(PostFrames(f.kids), f.frame.id, t, x))
  {
    NumberedRange(f.kids, f.frame.id, next + 1, depth + 1);
    NumberedRange(f.rest, parent, next + 1 + Size(f.kids), depth);
    TimedBounds(f.kids, f.frame.enter, f.frame.exit);
    if x.parentId != parent {
      var p :| p in PostFrames(f) && p.id == x.parentId && InSpan(p, t);
      assert p == f.frame || p in PostFrames(f.kids) || p in PostFrames(f.rest);
    }
  }

  lemma EmptyPartsUp(f: Forest, parent: nat, next: nat, depth: nat, t: nat, x: Frame)
    requires f.Cons? && Numbered(f, parent, next, depth)
    requires (x == f.frame && x.enter == t == x.exit) || EmptyUnder(PostFrames(f.rest), parent, t, x)
             || (InSpan(f.frame, t) && EmptyUnder(PostFrames(f.kids), f.frame.id, t, x))
    ensures EmptyUnder(PostFrames(f), parent, t, x)
  {
    assert f.frame in PostFrames(f);
    if x != f.frame && x.parentId != parent && x.parentId != f.frame.id {
      var frames := if EmptyUnder(PostFrames(f.rest), parent, t, x) then PostFrames(f.rest) else PostFrames(f.kids);
      var p :| p in frames && p.id == x.parentId && InSpan(p, t);
      assert p in PostFrames(f);
    } else if x != f.frame && EmptyUnder(PostFrames(f.rest), parent, t, x) && x.parentId != parent {
      var p :| p in PostFrames(f.rest) && p.id == x.parentId && InSpan(p, t);
      assert p in PostFrames(f);
    }
  }

  /** Blocked descents are the exposed instants of the frame list. */
  lemma {:induction false} BlockedIsExposed(f: Forest, parent: nat, next: nat, depth: nat, lo: nat, hi: nat, t: nat)
    requires Numbered(f, parent, next, depth) && Timed(f, lo, hi) && parent <= next
    ensures Blocked(f, t) <==> SomeEmpty(PostFrames(f), parent, t)
  {
    match f
    case Nil =>
    case Cons(x, kids, rest) =>
      BlockedIsExposed(kids, x.id, next + 1, depth + 1, x.enter, x.exit, t);
      BlockedIsExposed(rest, parent, next + 1 + Size(kids), depth, x.exit, hi, t);
      if y :| EmptyUnder(PostFrames(f), parent, t, y) {
        EmptyPartsDown(f, parent, next, depth, lo, hi, t, y);
      }
      if Blocked(f, t) {
        if x.enter == t == x.exit {
          EmptyPartsUp(f, parent, next, depth, t, x);
        } else if Blocked(rest, t) {
          var y :| EmptyUnder(PostFrames(rest), parent, t, y);
          EmptyPartsUp(f, parent, next, depth, t, y);
        } else {
          var y :| EmptyUnder(PostFrames(kids), x.id, t, y);
          EmptyPartsUp(f, parent, next, depth, t, y);
        }
      }
  }

  lemma DeepestIsUnique(frames: seq<Frame>, t: nat, a: Option<nat>, b: Option<nat>)
    requires DeepestAt(frames, t, a) && DeepestAt(frames, t, b)
    ensures a == b
  {
    if a.Some? && b.Some? {
      var x :| x in frames && x.id == a.value && InSpan(x, t) && forall y :: y in frames && InSpan(y, t) && y != x ==> y.depth < x.depth;
      var z :| z in frames && z.id == b.value && InSpan(z, t) && forall y :: y in frames && InSpan(y, t) && y != z ==> y.depth < z.depth;
      assert x == z;
    }
  }

  // ---------- on the index of a recorded trace ----------

  /** `idx` is the index of a trace written in return order from the forest `f`. */
  ghost predicate IndexOfRun(idx: TraceIndex, f: Forest, end: nat) {
    Indexed(idx) && idx.frames == PostFrames(f) && Numbered(f, 0, 0, 1) && Timed(f, 0, end)
  }

  /** The time lookup answers with the deepest running frame exactly when no empty frame is exposed at `t`. */
  lemma LookupIsDeepest(idx: TraceIndex, f: Forest, end: nat, t: nat)
    requires IndexOfRun(idx, f, end)
    ensures DeepestAt(idx.frames, t, DescendTo(ForestOf(idx), t)) <==> !ExposedInstant(idx.frames, t)
  {
    IndexGivesBackForest(idx, f, 0, end);
    SpanToIsDeepest(f, 0, 0, 1, 0, end, t);
    DescentsAgree(f, 0, 0, 1, 0, end, t);
    BlockedIsExposed(f, 0, 0, 1, 0, end, t);
    if DeepestAt(idx.frames, t, DescendTo(f, t)) {
      DeepestIsUnique(idx.frames, t, DescendTo(f, t), SpanTo(f, t));
    }
  }

  lemma IdsThen(s: seq<Frame>, x: Frame, after: seq<nat>)
    ensures FrameIds(s + [x]) + after == FrameIds(s) + ([x.id] + after)
  {
  }

  lemma {:induction false} ChainOfSpan(m: Table, f: Forest, parent: nat, next: nat, depth: nat, t: nat, up: nat)
    requires Numbered(f, parent, next, depth) && Tabled(m, f) && ChainEnds(m, parent, up) && SpanTo(f, t).Some?
    ensures var s := SpanStack(f, t);
            && ChainEnds(m, SpanTo(f, t).value, |s| + up)
            && Chain(m, SpanTo(f, t).value, |s| + up) == FrameIds(s) + Chain(m, parent, up)
  {
    var x, kids, rest := f.frame, f.kids, f.rest;
    SpanStackDepths(f, parent, next, depth, t);
    if InSpan(x, t) {
      assert ChainEnds(m, x.id, up + 1) && Chain(m, x.id, up + 1) == [x.id] + Chain(m, parent, up);
      SpanStackDepths(kids, x.id, next + 1, depth + 1, t);
      if SpanTo(kids, t).Some? {
        ChainOfSpan(m, kids, x.id, next + 1, depth + 1, t, up + 1);
      }
      IdsThen(SpanStack(kids, t), x, Chain(m, parent, up));
    } else {
      ChainOfSpan(m, rest, parent, next + 1 + Size(kids), depth, t, up);
    }
  }

  /** The stack of the frame found at `t` lists exactly the frames running at `t`, deepest first. */
  lemma StackListsRunning(idx: TraceIndex, f: Forest, end: nat, t: nat) returns (running: seq<Frame>)
    requires IndexOfRun(idx, f, end) && !ExposedInstant(idx.frames, t)
    requires DescendTo(ForestOf(idx), t).Some?
    ensures ChainEnds(TableOf(idx), DescendTo(ForestOf(idx), t).value, |running|)
    ensures Chain(TableOf(idx), DescendTo(ForestOf(idx), t).value, |running|) == FrameIds(running)
    ensures forall x :: x in running <==> x in idx.frames && InSpan(x, t)
    ensures forall i :: 0 <= i < |running| ==> running[i].depth == |running| - i
  {
    running := SpanStack(f, t);
    IndexGivesBackForest(idx, f, 0, end);
    DescentsAgree(f, 0, 0, 1, 0, end, t);
    BlockedIsExposed(f, 0, 0, 1, 0, end, t);
    SpanStackIsRunning(f, 0, end, t);
    SpanStackDepths(f, 0, 0, 1, t);
    ChainOfSpan(TableOf(idx), f, 0, 0, 1, t, 0);
  }

  /** An exposed empty frame hides the frame that runs on: two calls at 5, the first one empty. */
  lemma EmptyFrameHides()
    ensures var x, y := Frame(1, 0, 5, 5, 1, "", 0), Frame(2, 0, 5, 9, 1, "", 0);
            var f := Cons(x, Nil, Cons(y, Nil, Nil));
            Numbered(f, 0, 0, 1) && Timed(f, 0, 9) && DescendTo(f, 5) == Some(1) && SpanTo(f, 5) == Some(2)
  {
  }
}
