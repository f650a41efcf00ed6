/** From the calls of a finished request to the answers of the index over its trace. */
module EndToEnd {
  import opened TraceModel
  import opened CallForest
  import opened ParentChains
  import opened Recorder
  import opened RecordedRuns
  import opened Spans
  import opened TraceIndexing
  import opened TraceQueries
  import opened RecordedIndex
  import opened TimeLookup
  import opened DescentPaths
  import opened EventPlaces
  import opened RecordedCalls
  import opened CursorTheorems

  /** The recorder after a whole request: started at `now` with recording on, then fed `ops`. */
  function Finished(before: State, now: nat, ops: seq<Op>): State
    requires before.Valid()
  {
    Exec(InitStep(before, now, true, true), ops)
  }

  /** A request that ran to its end, its clock readings in order. */
  ghost predicate FinishedRun(strict: bool, now: nat, ops: seq<Op>) {
    Balanced(ops) && InOrder(strict, ops, now)
  }

  /** The forest a finished request records, with everything the index needs to know about it. */
  lemma RecordsForest(before: State, now: nat, ops: seq<Op>, strict: bool) returns (run: Run, f: Forest)
    requires before.Valid() && FinishedRun(strict, now, ops)
    ensures ops == Ops(run) && Clocked(strict, run, now) && f == Recorded(run, 0, 0, 0, now)
    ensures Finished(before, now, ops).frames == PostFrames(f)
    ensures Finished(before, now, ops).nextFrameId == Size(f)
    ensures Numbered(f, 0, 0, 1) && Timed(f, 0, Since(now, EndTime(run, now)))
    ensures Distinct(FrameIds(Finished(before, now, ops).frames))
  {
    var s := InitStep(before, now, true, true);
    run := BalancedIsRun(ops);
    assert ops == Ops(run) + [];
    OrderIsClocked(strict, run, [], now);
    f := Recorded(run, 0, 0, 0, now);
    RunLeaves(s, run);
    RecordedIsNumbered(run, 0, 0, 0, now);
    RecordedIsTimed(strict, run, 0, 0, 0, now, now);
    RecordedIdsDistinct(f, 0, 0, 1);
  }

  /** The frame `id` is the call entered by `e`. */
  ghost predicate IsEntry(idx: TraceIndex, id: nat, e: Entry, start: nat) {
    idx.FrameById(id).Some? && idx.FrameById(id).value.enter == Since(start, e.at) && idx.FrameById(id).value.depth == e.depth + 1
  }

  /** Recording then indexing gives back the call order: the walk is 1, 2, 3, ..., and the i-th frame of the
      walk is the i-th entry above the depth cap, with its time and depth. Deeper calls are absent. */
  lemma RecordThenIndex(before: State, now: nat, ops: seq<Op>, idx: TraceIndex)
    requires before.Valid() && FinishedRun(false, now, ops)
    requires Indexed(idx) && idx.frames == Finished(before, now, ops).frames
    ensures |idx.preorder| == |Entries(ops, 0)| == |idx.frames|
    ensures forall i :: 0 <= i < |idx.preorder| ==> idx.preorder[i] == i + 1
    ensures forall i :: 0 <= i < |idx.preorder| ==> IsEntry(idx, idx.preorder[i], Entries(ops, 0)[i], now)
  {
    var run, f := RecordsForest(before, now, ops, false);
    ForestEntries(run, now, f);
    WalkedFrames(idx, f, Since(now, EndTime(run, now)));
    WalkedEntries(idx, PreFrames(f), Entries(ops, 0), now);
  }

  lemma WalkedEntries(idx: TraceIndex, fs: seq<Frame>, es: seq<Entry>, now: nat)
    requires FramesOfEntries(fs, es, now) && |idx.preorder| == |fs|
    requires forall i :: 0 <= i < |fs| ==> idx.preorder[i] == i + 1
    requires forall i :: 0 <= i < |fs| ==> idx.FrameById(i + 1) == Some(fs[i])
    ensures forall i :: 0 <= i < |idx.preorder| ==> IsEntry(idx, idx.preorder[i], es[i], now)
  {
    forall i | 0 <= i < |idx.preorder| ensures IsEntry(idx, idx.preorder[i], es[i], now) {
      assert idx.FrameById(i + 1) == Some(fs[i]);
    }
  }

  /** The recorded forest in pre-order: ids 1, 2, 3, ..., and the entries. */
  lemma ForestEntries(run: Run, now: nat, f: Forest)
    requires f == Recorded(run, 0, 0, 0, now) && Numbered(f, 0, 0, 1)
    ensures FramesOfEntries(PreFrames(f), Entries(Ops(run), 0), now) && |PreFrames(f)| == |PostFrames(f)|
    ensures FrameIds(PreFrames(f)) == PreIds(f) && forall i :: 0 <= i < |PreFrames(f)| ==> PreIds(f)[i] == i + 1
  {
    NumberedWalk(f, 0, 0, 1);
    PreFramesIds(f);
    WalkIsEntryOrder(run, 0, 0, 0, now);
    PostLength(f);
  }

  lemma WalkedFrames(idx: TraceIndex, f: Forest, end: nat)
    requires IndexOfRun(idx, f, end)
    requires FrameIds(PreFrames(f)) == PreIds(f) && forall i :: 0 <= i < |PreFrames(f)| ==> PreIds(f)[i] == i + 1
    ensures idx.preorder == PreIds(f) && forall i :: 0 <= i < |PreFrames(f)| ==> idx.FrameById(i + 1) == Some(PreFrames(f)[i])
  {
    IndexGivesBackForest(idx, f, 0, end);
    forall i | 0 <= i < |PreFrames(f)| ensures idx.FrameById(i + 1) == Some(PreFrames(f)[i]) {
      WalkedFrame(idx, f, i);
    }
  }

  /** The frame at a position of the walk is the one looked up by the id there. */
  lemma WalkedFrame(idx: TraceIndex, f: Forest, i: nat)
    requires Indexed(idx) && Tabled(TableOf(idx), f) && i < |PreFrames(f)| && FrameIds(PreFrames(f))[i] == i + 1
    ensures idx.FrameById(i + 1) == Some(PreFrames(f)[i])
  {
    PreFramesIds(f);
    assert PreFrames(f)[i] in PreFrames(f);
    TabledMember(TableOf(idx), f, PreFrames(f)[i]);
    FrameLookup(idx, i + 1);
  }

  lemma {:induction false} PostLength(f: Forest)
    ensures |PostFrames(f)| == Size(f)
  {
    match f
    case Nil =>
    case Cons(_, kids, rest) => PostLength(kids); PostLength(rest);
  }

  lemma {:induction false} TabledMember(m: Table, f: Forest, x: Frame)
    requires Tabled(m, f) && x in PostFrames(f)
    ensures x.id in m && m[x.id] == x
  {
    match f
    case Nil =>
    case Cons(y, kids, rest) =>
      if x in PostFrames(kids) {
        TabledMember(m, kids, x);
      } else if x in PostFrames(rest) {
        TabledMember(m, rest, x);
      }
  }

  /** The walk and the events are the calls and the notes of the request, as they happened. */
  lemma WalkRecounts(before: State, now: nat, ops: seq<Op>, idx: TraceIndex) returns (fs: seq<Frame>)
    requires before.Valid() && FinishedRun(false, now, ops)
    requires Indexed(idx) && idx.frames == Finished(before, now, ops).frames
    ensures Recounts(fs, Finished(before, now, ops).events, ops, now) && |fs| == |idx.preorder|
    ensures forall i :: 0 <= i < |fs| ==> idx.FrameById(i + 1) == Some(fs[i])
    ensures forall x :: x in fs <==> x in idx.frames
  {
    var run, f := RecordsForest(before, now, ops, false);
    ForestEntries(run, now, f);
    WalkedFrames(idx, f, Since(now, EndTime(run, now)));
    PreFramesIds(f);
    RequestRecounts(InitStep(before, now, true, true), run);
    fs := PreFrames(f);
  }

  /** The index of a finished request is the index of a recorded forest, so all time lookups apply. */
  lemma FinishedIsIndexOfRun(before: State, now: nat, ops: seq<Op>, idx: TraceIndex) returns (f: Forest, end: nat)
    requires before.Valid() && FinishedRun(false, now, ops)
    requires Indexed(idx) && idx.frames == Finished(before, now, ops).frames
    ensures IndexOfRun(idx, f, end)
  {
    var run;
    run, f := RecordsForest(before, now, ops, false);
    end := Since(now, EndTime(run, now));
  }

  /** Whatever was recorded, looking up a time answers with the deepest frame running then,
      or none if none was, exactly when no empty frame is exposed at that time. */
  lemma RecordThenLookUp(before: State, now: nat, ops: seq<Op>, idx: TraceIndex, t: nat)
    requires before.Valid() && FinishedRun(false, now, ops)
    requires Indexed(idx) && idx.frames == Finished(before, now, ops).frames
    ensures DeepestAt(idx.frames, t, DescendTo(ForestOf(idx), t)) <==> !ExposedInstant(idx.frames, t)
  {
    var f, end := FinishedIsIndexOfRun(before, now, ops, idx);
    LookupIsDeepest(idx, f, end, t);
  }

  /** Under a clock that always moves, looking up the time of an event finds the frame the event was
      attributed to, for every event recorded with at least one frame open and none past the cap. */
  lemma EventsFindTheirFrame(before: State, now: nat, ops: seq<Op>, idx: TraceIndex, i: nat)
    requires before.Valid() && FinishedRun(true, now, ops)
    requires Indexed(idx) && idx.frames == Finished(before, now, ops).frames && idx.events == Finished(before, now, ops).events
    requires i < |idx.events|
    ensures |NoteDepths(ops, 0)| == |idx.events|
    ensures 1 <= NoteDepths(ops, 0)[i] <= MAX_DEPTH ==>
              DescendTo(ForestOf(idx), idx.events[i].at) == Some(idx.events[i].inFrame)
  {
    var s := InitStep(before, now, true, true);
    var run, f := RecordsForest(before, now, ops, true);
    var end := Since(now, EndTime(run, now));
    var es := RunEvents(s, run, now);
    assert idx.events == es;
    StrictSpans(run, 0, 0, 0, now, now);
    LastingFramesAreFound(idx, f, end, idx.events[i].at);
  }

  /** Under any clock that does not go back: which frame an event names, and exactly when looking up its time finds that frame. */
  lemma EventLookupIff(before: State, now: nat, ops: seq<Op>, idx: TraceIndex, i: nat)
    requires before.Valid() && FinishedRun(false, now, ops)
    requires Indexed(idx) && idx.frames == Finished(before, now, ops).frames && idx.events == Finished(before, now, ops).events
    requires i < |idx.events|
    ensures |NoteDepths(ops, 0)| == |idx.events|
    ensures Placed(idx.events[i], NoteDepths(ops, 0)[i], idx.frames, 0, 0, before.frameIdAt[0])
    ensures DescendTo(ForestOf(idx), idx.events[i].at) == Some(idx.events[i].inFrame)
            <==> FoundUnder(idx.frames, 0, idx.events[i].at, idx.events[i].inFrame)
  {
    RequestPlaces(before, now, ops);
    var f, end := FinishedIsIndexOfRun(before, now, ops, idx);
    LookupIff(idx, f, end, idx.events[i].at, idx.events[i].inFrame);
  }

  lemma RequestPlaces(before: State, now: nat, ops: seq<Op>)
    requires before.Valid() && FinishedRun(false, now, ops)
    ensures var s := Finished(before, now, ops);
            exists hi: nat :: AllPlaced(s.events, NoteDepths(ops, 0), s.frames, 0, 0, before.frameIdAt[0], 0, hi)
  {
    var s := InitStep(before, now, true, true);
    var run, f := RecordsForest(before, now, ops, false);
    var es := RunPlaces(s, run, now);
    assert [] + es == es;
    assert AllPlaced(es, NoteDepths(ops, 0), PostFrames(f), 0, 0, before.frameIdAt[0], 0, Since(now, EndTime(run, now)));
  }

  lemma LastingFramesAreFound(idx: TraceIndex, f: Forest, end: nat, t: nat)
    requires Indexed(idx) && idx.frames == PostFrames(f) && Numbered(f, 0, 0, 1) && Timed(f, 0, end)
    requires forall x :: x in PostFrames(f) ==> x.enter < x.exit
    ensures DescendTo(ForestOf(idx), t) == SpanTo(f, t)
  {
    IndexGivesBackForest(idx, f, 0, end);
    assert !ExposedInstant(PostFrames(f), t);
    BlockedIsExposed(f, 0, 0, 1, 0, end, t);
    DescentsAgree(f, 0, 0, 1, 0, end, t);
  }

  lemma {:induction false} NumberedDepths(f: Forest, parent: nat, next: nat, depth: nat, x: Frame)
    requires Numbered(f, parent, next, depth) && x in PostFrames(f)
    ensures (x.parentId == parent && x.depth == depth)
            || exists p :: p in PostFrames(f) && p.id == x.parentId && p.depth + 1 == x.depth
  {
    match f
    case Nil =>
    case Cons(y, kids, rest) =>
      assert y in PostFrames(f);
      if x in PostFrames(kids) {
        NumberedDepths(kids, y.id, next + 1, depth + 1, x);
      } else if x in PostFrames(rest) {
        NumberedDepths(rest, parent, next + 1 + Size(kids), depth, x);
      }
  }

  /** Recorded depths are what the stepping theorems ask for, so these hold on every finished request. */
  lemma RecordedDepthsStep(before: State, now: nat, ops: seq<Op>, idx: TraceIndex)
    requires before.Valid() && FinishedRun(false, now, ops)
    requires Indexed(idx) && idx.frames == Finished(before, now, ops).frames
    ensures DepthsFromParents(TableOf(idx))
  {
    var f, end := FinishedIsIndexOfRun(before, now, ops, idx);
    var m := TableOf(idx);
    IndexGivesBackForest(idx, f, 0, end);
    LookupFacts(idx.frames, idx.framePos);
    NumberedRange(f, 0, 0, 1);
    forall id | id in m
      ensures if m[id].parentId == 0 then m[id].depth == 1 else m[id].parentId in m && m[m[id].parentId].depth + 1 == m[id].depth
    {
      NumberedDepths(f, 0, 0, 1, m[id]);
      if m[id].parentId != 0 {
        var p :| p in PostFrames(f) && p.id == m[id].parentId && p.depth + 1 == m[id].depth;
        TabledMember(m, f, p);
      } else if p :| p in PostFrames(f) && p.id == 0 {
        assert 0 < p.id;
      }
    }
  }
}
