/** Whole sessions: a request is recorded, its trace is indexed, and the trace is looked at. Nothing is assumed
    about the index here: it is the one `Build` makes of what the recorder wrote. */
module WholeSessions {
  import opened TraceModel
  import opened Recorder
  import opened RecordedRuns
  import opened RecordedEvents
  import opened TraceIndexing
  import opened TraceQueries
  import opened TimeLookup
  import opened DescentPaths
  import opened EventPlaces
  import opened RecordedCalls
  import opened EndToEnd
  import opened Cursor
  import DapSession
  import opened CursorTheorems
  import opened Reconstruction
  import opened SessionFacts

  /** Stepping in from the start meets the calls in the order they were entered, with ids 1, 2, 3, and so on: each frame
      carries the readings, file, line and depth of its entry and exit and the id of its caller, each event the reading of
      its note and the call around it. */
  method ReplayOrder(before: State, now: nat, ops: seq<Op>) returns (ids: seq<nat>, frames: seq<Frame>)
    requires Request(false, before, now, ops)
    ensures |ids| == |Entries(ops, 0)| && forall i :: 0 <= i < |ids| ==> ids[i] == i + 1
    ensures FramesOfEntries(frames, Entries(ops, 0), now)
    ensures forall i :: 0 <= i < |frames| ==> frames[i] in Finished(before, now, ops).frames && frames[i].id == i + 1
    ensures Recounts(frames, Finished(before, now, ops).events, ops, now)
  {
    RequestIdsDistinct(before, now, ops);
    var trace := Finished(before, now, ops);
    var idx := Build(trace.frames, trace.events);
    RecordThenIndex(before, now, ops, idx);
    ids := idx.preorder;
    frames := FramesInWalk(idx, Entries(ops, 0), now);
    forall i | 0 <= i < |frames| ensures frames[i] in idx.frames && frames[i].id == i + 1 {
      IndexedFrames(idx, ids[i]);
    }
    ghost var fs := WalkRecounts(before, now, ops, idx);
    assert fs == frames;
  }

  /** A time lookup on the finished request is a scan of everything recorded, except exactly where an empty frame is exposed. */
  method LookUp(before: State, now: nat, ops: seq<Op>, t: nat) returns (found: Option<nat>)
    requires Request(false, before, now, ops)
    ensures DeepestAt(Finished(before, now, ops).frames, t, found) <==> !ExposedInstant(Finished(before, now, ops).frames, t)
  {
    RequestIdsDistinct(before, now, ops);
    var trace := Finished(before, now, ops);
    var idx := Build(trace.frames, trace.events);
    RecordThenLookUp(before, now, ops, idx, t);
    found := FrameAt(idx, t);
  }

  /** The event carries the reading of its note and names the call around it. Its time leads back to that frame if and only
      if that frame and its callers have the time in their windows and nothing before or below them has. Under a clock that
      always moves it always does, for events recorded with a frame open and none past the cap. */
  method OwnerOf(before: State, now: nat, ops: seq<Op>, i: nat) returns (found: Option<nat>)
    requires Request(false, before, now, ops) && i < |Finished(before, now, ops).events|
    ensures |NoteDepths(ops, 0)| == |Finished(before, now, ops).events|
    ensures var s := Finished(before, now, ops); var e := s.events[i];
            && Placed(e, NoteDepths(ops, 0)[i], s.frames, 0, 0, before.frameIdAt[0])
            && (found == Some(e.inFrame) <==> FoundUnder(s.frames, 0, e.at, e.inFrame))
    ensures InOrder(true, ops, now) && 1 <= NoteDepths(ops, 0)[i] <= MAX_DEPTH ==> found == Some(Finished(before, now, ops).events[i].inFrame)
    ensures |NotesFrom(ops, 0)| == |Finished(before, now, ops).events|
    ensures RecountsNote(Finished(before, now, ops).events[i], Finished(before, now, ops).frames, ops, now, NotesFrom(ops, 0)[i])
  {
    RequestIdsDistinct(before, now, ops);
    var trace := Finished(before, now, ops);
    var idx := Build(trace.frames, trace.events);
    EventLookupIff(before, now, ops, idx, i);
    if InOrder(true, ops, now) {
      EventsFindTheirFrame(before, now, ops, idx, i);
    }
    ghost var fs := WalkRecounts(before, now, ops, idx);
    NoteRecounted(fs, idx.frames, idx.events, ops, now, i);
    found := FrameAt(idx, idx.events[i].at);
  }

  // ---------- stepping ----------

  /** Stepping out of a call ends where stepping over its caller ends. */
  method StepOutTwoWays(before: State, now: nat, ops: seq<Op>, id: nat) returns (out: Option<nat>, over: Option<nat>)
    requires Request(false, before, now, ops)
    ensures (exists f :: f in Finished(before, now, ops).frames && f.id == id && f.parentId != 0) ==> out.Some? && out == over
  {
    RequestIdsDistinct(before, now, ops);
    var trace := Finished(before, now, ops);
    var idx := Build(trace.frames, trace.events);
    var f := idx.FrameById(id);
    IndexedFrames(idx, id);
    if f.None? || f.value.parentId == 0 { return None, None; }
    RecordedIsWalked(before, now, ops, idx, id);
    RecordedDepthsStep(before, now, ops, idx);
    SoughtIsThere(idx, id);
    StepOutIsParentThenOver(idx, idx.preorderPos[id]);
    SoughtIsThere(idx, f.value.parentId);
    WalkPositions(idx);
    out := OutOf(idx, id);
    over := OverOf(idx, f.value.parentId);
  }

  /** A debug session on a finished request: launched, stepped in `k` times, then back `j` times. It stands on call number
      `k + 1`, or the last, and then on the one `j` before it, or the first. */
  method StepInAndBack(before: State, now: nat, ops: seq<Op>, k: nat, j: nat) returns (there: Option<Frame>, back: Option<Frame>)
    requires Request(false, before, now, ops)
    ensures there.Some? && back.Some? <==> Entries(ops, 0) != []
    ensures Entries(ops, 0) != [] ==>
              var n := |Entries(ops, 0)|; var far := if k < n then k else n - 1; var near := if j <= far then far - j else 0;
              && there.value.id == far + 1 && there.value in Finished(before, now, ops).frames
              && back.value.id == near + 1 && back.value in Finished(before, now, ops).frames
              && there.value.enter + now == Entries(ops, 0)[far].at && back.value.enter + now == Entries(ops, 0)[near].at
  {
    RequestIdsDistinct(before, now, ops);
    var trace := Finished(before, now, ops);
    var idx := Build(trace.frames, trace.events);
    RecordThenIndex(before, now, ops, idx);
    WalkPositions(idx);
    there, back := Stepping(idx, k, j);
    if Entries(ops, 0) != [] {
      ghost var far := Far(|idx.preorder|, k);
      ShownIsEntry(before, now, ops, idx, far);
      ShownIsEntry(before, now, ops, idx, Near(far, j));
    }
  }

  /** Where `k` steps on end among `n`, and where `j` steps back from there do. */
  function Far(n: nat, k: nat): nat
    requires n > 0
  {
    if k < n then k else n - 1
  }

  function Near(far: nat, j: nat): nat {
    if j <= far then far - j else 0
  }

  /** The session: launch, steps in, steps back. */
  method Stepping(idx: TraceIndex, k: nat, j: nat) returns (there: Option<Frame>, back: Option<Frame>)
    requires PositionsInWalk(idx)
    ensures idx.preorder == [] ==> there == None && back == None
    ensures idx.preorder != [] ==>
              var far := Far(|idx.preorder|, k); there == FrameAtPos(idx, far) && back == FrameAtPos(idx, Near(far, j))
  {
    var session := new DapSession.Session(true);
    var alive := session.OnLaunch(1, DapSession.Opened(idx));
    Steps(session, idx, In, k);
    there := Shown(session, idx);
    Steps(session, idx, Back, j);
    back := Shown(session, idx);
  }

  /** The same step `k` times. */
  method Steps(session: DapSession.Session, idx: TraceIndex, kind: StepKind, k: nat)
    requires session.Valid() && session.cursor != null && session.cursor.index == idx && (kind == In || kind == Back)
    modifies session, session.cursor
    ensures session.Valid() && session.cursor == old(session.cursor)
    ensures kind == In ==>
              session.cursor.pos == if idx.preorder == [] then 0
                                    else if old(session.cursor.pos) + k < |idx.preorder| then old(session.cursor.pos) + k
                                    else |idx.preorder| - 1
    ensures kind == Back ==> session.cursor.pos == if k <= old(session.cursor.pos) then old(session.cursor.pos) - k else 0
  {
    ghost var from := session.cursor.pos;
    for i := 0 to k
      invariant session.Valid() && session.cursor == old(session.cursor)
      invariant kind == In ==> session.cursor.pos == if idx.preorder == [] then 0 else if from + i < |idx.preorder| then from + i else |idx.preorder| - 1
      invariant kind == Back ==> session.cursor.pos == if i <= from then from - i else 0
    {
      session.OnStep(i + 2, kind);
    }
  }

  method Shown(session: DapSession.Session, idx: TraceIndex) returns (f: Option<Frame>)
    requires session.Valid() && session.cursor != null && session.cursor.index == idx
    ensures f == FrameAtPos(idx, session.cursor.pos)
  {
    f := session.cursor.CurrentFrame();
  }

  lemma ShownIsEntry(before: State, now: nat, ops: seq<Op>, idx: TraceIndex, pos: nat)
    requires Request(false, before, now, ops)
    requires Indexed(idx) && idx.frames == Finished(before, now, ops).frames && pos < |idx.preorder|
    ensures |idx.preorder| == |Entries(ops, 0)|
    ensures var f := FrameAtPos(idx, pos);
            f.Some? && f.value.id == pos + 1 && f.value in idx.frames && f.value.enter + now == Entries(ops, 0)[pos].at
  {
    RecordThenIndex(before, now, ops, idx);
    assert IsEntry(idx, idx.preorder[pos], Entries(ops, 0)[pos], now);
    IndexedFrames(idx, pos + 1);
    EntryReading(ops, now, 0, pos);
  }

  lemma {:induction false} EntryReading(ops: seq<Op>, from: nat, d: int, i: nat)
    requires InOrder(false, ops, from) && i < |Entries(ops, d)|
    ensures from <= Entries(ops, d)[i].at
    decreases |ops|
  {
    var op := ops[0];
    if op.Enter? {
      if 0 <= d < MAX_DEPTH {
        if i > 0 {
          EntryReading(ops[1..], op.at, d + 1, i - 1);
        }
      } else {
        EntryReading(ops[1..], op.at, d + 1, i);
      }
    } else {
      EntryReading(ops[1..], op.at, if op.Leave? then d - 1 else d, i);
    }
  }

  // ---------- both reconstructions ----------

  /** The daemon's state at a time and the browser's, both made from the recorded trace, show the same events if the
      two event counters kept apart, and the same stack, reversed, when they show the same frame. They show the deepest
      frame running, both of them, if and only if no empty frame is exposed and whatever ends then ends above a frame
      that is still running. */
  method BothReconstruct(before: State, now: nat, ops: seq<Op>, t: nat) returns (daemon: ReconstructedState, browser: ReconstructedState)
    requires Request(false, before, now, ops) && RangesApart(Kinds(ops), before.nextEventId, before.nextCheckpointId)
    ensures Compared(Finished(before, now, ops).frames, Finished(before, now, ops).events, t, daemon, browser)
  {
    RequestIdsDistinct(before, now, ops);
    var trace := Finished(before, now, ops);
    var idx := Build(trace.frames, trace.events);
    ghost var f, end, chain := BrowserReady(before, now, ops, idx);
    RecordedEventFacts(before, now, ops);
    daemon := AtTime(idx, t);
    browser := ReconstructStatic(idx.frames, idx.events, t, chain);
    StatesCompare(idx, f, end, t, chain, browser, daemon);
  }

  // ---------- parts ----------

  method FramesInWalk(idx: TraceIndex, ghost es: seq<Entry>, now: nat) returns (frames: seq<Frame>)
    requires |es| == |idx.preorder| && forall i :: 0 <= i < |es| ==> IsEntry(idx, idx.preorder[i], es[i], now)
    ensures FramesOfEntries(frames, es, now)
    ensures forall i :: 0 <= i < |frames| ==> idx.FrameById(idx.preorder[i]) == Some(frames[i])
  {
    frames := [];
    for i := 0 to |idx.preorder|
      invariant FramesOfEntries(frames, es[..i], now)
      invariant forall j :: 0 <= j < i ==> idx.FrameById(idx.preorder[j]) == Some(frames[j])
    {
      assert IsEntry(idx, idx.preorder[i], es[i], now);
      frames := frames + [idx.FrameById(idx.preorder[i]).value];
    }
    assert es[..|es|] == es;
  }

  method OutOf(idx: TraceIndex, id: nat) returns (to: Option<nat>)
    requires PositionsInWalk(idx) && id in idx.preorderPos
    ensures to == IdAtPos(idx, OutFrom(idx, idx.preorderPos[id]))
    ensures OutFrom(idx, idx.preorderPos[id]) < |idx.preorder|
  {
    var cursor := new ReplayCursor(idx);
    var _ := cursor.SeekFrame(id);
    to := cursor.StepOut();
  }

  method OverOf(idx: TraceIndex, id: nat) returns (to: Option<nat>)
    requires PositionsInWalk(idx) && id in idx.preorderPos && FrameAtPos(idx, idx.preorderPos[id]).Some?
    ensures to == IdAtPos(idx, OverFrom(idx, idx.preorderPos[id]))
  {
    var cursor := new ReplayCursor(idx);
    var _ := cursor.SeekFrame(id);
    to := cursor.StepOver();
  }
}
