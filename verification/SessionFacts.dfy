/** What the methods of whole sessions need to know about recorded traces and their index. */
module SessionFacts {
  import opened TraceModel
  import opened CallForest
  import opened ParentChains
  import opened PreorderTheorems
  import opened Recorder
  import opened RecordedRuns
  import opened RecordedEvents
  import opened TraceIndexing
  import opened TraceQueries
  import opened TimeLookup
  import opened EndToEnd
  import opened Cursor
  import opened Reconstruction
  import opened BrowserAgreement

  /** Any state of the recorder, then a request that ran to its end. */
  ghost predicate Request(strict: bool, before: State, now: nat, ops: seq<Op>) {
    before.Valid() && FinishedRun(strict, now, ops)
  }

  lemma RequestIdsDistinct(before: State, now: nat, ops: seq<Op>)
    requires Request(false, before, now, ops)
    ensures Distinct(FrameIds(Finished(before, now, ops).frames))
  {
    var run, f := RecordsForest(before, now, ops, false);
  }

  lemma WalkPositions(idx: TraceIndex)
    requires Indexed(idx)
    ensures PositionsInWalk(idx)
  {
    WalkVisitsEachOnce(idx);
    forall x | x in idx.preorderPos ensures idx.preorderPos[x] < |idx.preorder| {
      var i: nat :| i < |idx.preorder| && idx.preorder[i] == x;
    }
  }

  lemma SoughtIsThere(idx: TraceIndex, id: nat)
    requires Indexed(idx) && id in idx.preorderPos
    ensures idx.preorderPos[id] < |idx.preorder| && FrameAtPos(idx, idx.preorderPos[id]) == idx.FrameById(id)
  {
    WalkVisitsEachOnce(idx);
    var i: nat :| i < |idx.preorder| && idx.preorder[i] == id;
  }

  lemma IndexedFrames(idx: TraceIndex, id: nat)
    requires Indexed(idx)
    ensures idx.FrameById(id).Some? ==> idx.FrameById(id).value in idx.frames && idx.FrameById(id).value.id == id
    ensures forall f :: f in idx.frames && f.id == id ==> idx.FrameById(id) == Some(f)
  {
    FrameLookup(idx, id);
    InTable(idx.frames, idx.framePos, id);
  }

  lemma InTable(frames: seq<Frame>, pos: map<nat, nat>, id: nat)
    requires PositionMap(FrameIds(frames), pos) && Distinct(FrameIds(frames))
    ensures id in Lookup(frames, pos) ==> Lookup(frames, pos)[id] in frames && Lookup(frames, pos)[id].id == id
    ensures forall f :: f in frames && f.id == id ==> id in Lookup(frames, pos) && Lookup(frames, pos)[id] == f
  {
    LookupFacts(frames, pos);
  }

  /** Every recorded frame is in the walk, and so is its caller. */
  lemma RecordedIsWalked(before: State, now: nat, ops: seq<Op>, idx: TraceIndex, id: nat)
    requires Request(false, before, now, ops)
    requires Indexed(idx) && idx.frames == Finished(before, now, ops).frames && idx.FrameById(id).Some?
    ensures id in idx.preorderPos && Rooted(TableOf(idx), id)
    ensures idx.FrameById(id).value.parentId != 0 ==>
              idx.FrameById(id).value.parentId in idx.preorderPos && idx.FrameById(idx.FrameById(id).value.parentId).Some?
  {
    var f, end := FinishedIsIndexOfRun(before, now, ops, idx);
    AllRecordedRooted(idx, f, end, id);
    WalkVisitsEachOnce(idx);
    FrameLookup(idx, id);
    ParentLevel(TableOf(idx), id);
    var p := idx.FrameById(id).value.parentId;
    if p != 0 {
      ParentLevel(TableOf(idx), p);
      FrameLookup(idx, p);
    }
  }

  lemma AllRecordedRooted(idx: TraceIndex, f: Forest, end: nat, id: nat)
    requires IndexOfRun(idx, f, end) && idx.FrameById(id).Some?
    ensures Rooted(TableOf(idx), id)
  {
    RecordedIndex.IndexGivesBackForest(idx, f, 0, end);
    WalkVisitsEachOnce(idx);
    IndexedFrames(idx, id);
    PreFramesIds(f);
    var x := idx.FrameById(id).value;
    var i :| 0 <= i < |PreFrames(f)| && PreFrames(f)[i] == x;
    assert PreIds(f)[i] == id;
  }

  lemma {:induction false} ChainsOf(frames: seq<Frame>, m: Table) returns (chain: map<nat, nat>)
    requires forall f :: f in frames ==> Rooted(m, f.id)
    ensures ChainsEnd(frames, m, chain)
  {
    chain := map[];
    if frames != [] {
      var front, last := frames[..|frames| - 1], frames[|frames| - 1];
      assert forall f :: f in front ==> f in frames;
      chain := ChainsOf(front, m);
      assert last in frames;
      var j := RootedEnds(m, last.id, Level(m, last.id));
      forall f | f in front && f.id == last.id ensures chain[f.id] == j {
        ChainEndsUnique(m, f.id, chain[f.id], j);
      }
      chain := chain[last.id := j];
      assert frames == front + [last];
    }
  }

  lemma AllChains(idx: TraceIndex, f: Forest, end: nat) returns (chain: map<nat, nat>)
    requires IndexOfRun(idx, f, end)
    ensures ChainsEnd(idx.frames, TableOf(idx), chain)
  {
    forall x | x in idx.frames ensures Rooted(TableOf(idx), x.id) {
      IndexedFrames(idx, x.id);
      AllRecordedRooted(idx, f, end, x.id);
    }
    chain := ChainsOf(idx.frames, TableOf(idx));
  }

  lemma IdsOfRun(f: Forest)
    requires Spans.Numbered(f, 0, 0, 1)
    ensures Distinct(FrameIds(PostFrames(f))) && forall x :: x in PostFrames(f) ==> x.id != 0
  {
    RecordedIndex.NumberedRange(f, 0, 0, 1);
    RecordedIndex.RecordedIdsDistinct(f, 0, 0, 1);
  }

  lemma BrowserReady(before: State, now: nat, ops: seq<Op>, idx: TraceIndex) returns (f: Forest, end: nat, chain: map<nat, nat>)
    requires Request(false, before, now, ops)
    requires Indexed(idx) && idx.frames == Finished(before, now, ops).frames
    ensures IndexOfRun(idx, f, end) && ChainsEnd(idx.frames, TableOfList(idx.frames), chain)
    ensures Distinct(FrameIds(idx.frames)) && forall x :: x in idx.frames ==> x.id != 0
  {
    f, end := FinishedIsIndexOfRun(before, now, ops, idx);
    RunFacts(idx, f, end);
    IdsOfRun(f);
    chain := AllChains(idx, f, end);
  }

  lemma RecordedEventFacts(before: State, now: nat, ops: seq<Op>)
    requires Request(false, before, now, ops) && RangesApart(Kinds(ops), before.nextEventId, before.nextCheckpointId)
    ensures Distinct(EventIds(Finished(before, now, ops).events)) && InTimeOrder(Finished(before, now, ops).events)
  {
    var s := InitStep(before, now, true, true);
    EventIdsDistinct(s, ops);
    EventsInOrder(s, ops, now);
  }

  /** The events up to `t`: the front of the list, all of it not later and all the rest later. */
  ghost predicate SoFar(es: seq<Event>, events: seq<Event>, t: nat) {
    && |es| <= |events| && es == events[..|es|] && (forall i :: 0 <= i < |es| ==> events[i].at <= t)
    && forall i :: |es| <= i < |events| ==> t < events[i].at
  }

  lemma {:induction false} UpToIsSoFar(events: seq<Event>, t: nat)
    requires InTimeOrder(events)
    ensures SoFar(EventsUpTo(events, t), events, t)
  {
    if events != [] {
      UpToIsSoFar(events[1..], t);
      var more := EventsUpTo(events[1..], t);
      if events[0].at <= t {
        assert EventsUpTo(events, t) == [events[0]] + more && events[..1 + |more|] == [events[0]] + events[1..][..|more|];
        forall i | 1 + |more| <= i < |events| ensures t < events[i].at {
          assert events[i] == events[1..][i - 1];
        }
      } else {
        NoneUpTo(events[1..], t);
      }
    }
  }

  lemma {:induction false} NoneUpTo(events: seq<Event>, t: nat)
    requires forall i :: 0 <= i < |events| ==> t < events[i].at
    ensures EventsUpTo(events, t) == []
  {
    if events != [] {
      NoneUpTo(events[1..], t);
    }
  }

  /** Two states of one time, from the same frames and events. */
  ghost predicate Compared(frames: seq<Frame>, events: seq<Event>, t: nat, daemon: ReconstructedState, browser: ReconstructedState) {
    && browser.at == daemon.at == t && browser.events == daemon.events && SoFar(browser.events, events, t)
    && (browser.current == daemon.current ==> browser.stack == Reverse(daemon.stack))
    && DeepestClosed(frames, t, browser.current)
    && (browser.current == daemon.current <==> AlikeAt(frames, t))
    && (DeepestAt(frames, t, IdOf(daemon.current)) <==> !ExposedInstant(frames, t))
    && (browser.current == daemon.current && DeepestAt(frames, t, IdOf(daemon.current))
        <==> !ExposedInstant(frames, t) && ExitsCovered(frames, t))
  }

  lemma DaemonTime(idx: TraceIndex, t: nat, daemon: ReconstructedState)
    requires Indexed(idx) && DaemonState(idx, t, daemon)
    ensures daemon.at == t
  {
    var k := FoundChainEnds(idx, t);
  }

  lemma StatesCompare(idx: TraceIndex, f: Forest, end: nat, t: nat, chain: map<nat, nat>, browser: ReconstructedState, daemon: ReconstructedState)
    requires IndexOfRun(idx, f, end)
    requires Distinct(EventIds(idx.events)) && InTimeOrder(idx.events)
    requires ChainsEnd(idx.frames, TableOfList(idx.frames), chain)
    requires BrowserState(idx.frames, idx.events, t, chain, browser) && DaemonState(idx, t, daemon)
    ensures Compared(idx.frames, idx.events, t, daemon, browser)
  {
    BrowserAgrees(idx, f, end, t, chain, browser, daemon);
    UpToIsSoFar(idx.events, t);
    DaemonTime(idx, t, daemon);
    LookupIsDeepest(idx, f, end, t);
  }
}
