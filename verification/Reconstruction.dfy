/** The state of the request at a time: composed from the index queries by the daemon, and
    recomputed by plain scans in the browser. */
module Reconstruction {
  import opened TraceModel
  import opened ParentChains
  import opened TraceIndexing
  import opened TraceQueries
  import opened PreorderTheorems
  import opened CursorTheorems

  datatype ReconstructedState = ReconstructedState(at: nat, current: Option<Frame>, stack: seq<Frame>, events: seq<Event>)

  /** The frames of those ids that are there. */
  function FramesOf(idx: TraceIndex, ids: seq<nat>): seq<Frame> {
    if ids == [] then []
    else (match idx.FrameById(ids[0]) case Some(f) => [f] case None => []) + FramesOf(idx, ids[1..])
  }

  function EventsOf(idx: TraceIndex, ids: seq<nat>): seq<Event> {
    if ids == [] then []
    else (match idx.EventById(ids[0]) case Some(e) => [e] case None => []) + EventsOf(idx, ids[1..])
  }

  // ---------- the daemon's composition ----------

  /** `k` steps up from the frame, if there is one, its parent chain ends. */
  ghost predicate ChainOf(m: Table, frameId: Option<nat>, k: nat) {
    frameId.Some? ==> ChainEnds(m, frameId.value, k)
  }

  ghost function StateOf(idx: TraceIndex, m: Table, frameId: Option<nat>, k: nat, time: nat): ReconstructedState
    requires ChainOf(m, frameId, k)
  {
    ReconstructedState(time,
      match frameId case Some(id) => idx.FrameById(id) case None => None,
      match frameId case Some(id) => FramesOf(idx, Chain(m, id, k)) case None => [],
      EventsOf(idx, UpTo(TimesOf(idx), idx.eventsByTime, time)))
  }

  method AtFrameInternal(idx: TraceIndex, frameId: Option<nat>, time: nat, ghost m: Table, ghost k: nat) returns (s: ReconstructedState)
    requires LooksUp(idx, m) && EventsIndexed(idx) && ChainOf(m, frameId, k)
    ensures s == StateOf(idx, m, frameId, k, time)
  {
    var current, stack := None, [];
    if frameId.Some? {
      current := idx.FrameById(frameId.value);
      var ids := StackFrom(idx, frameId.value, m, k);
      stack := FramesOf(idx, ids);
    }
    var before := EventsBefore(idx, time);
    s := ReconstructedState(time, current, stack, EventsOf(idx, before));
  }

  lemma {:induction false} RootedEnds(m: Table, x: nat, k: nat) returns (j: nat)
    requires ChainLen(m, x, k)
    ensures ChainEnds(m, x, j)
    decreases k
  {
    if x == 0 {
      j := 0;
    } else if m[x].parentId == 0 {
      j := 1;
    } else {
      j := RootedEnds(m, m[x].parentId, k - 1);
      j := j + 1;
    }
  }

  lemma FoundChainEnds(idx: TraceIndex, t: nat) returns (k: nat)
    requires Indexed(idx)
    ensures ChainOf(TableOf(idx), DescendTo(ForestOf(idx), t), k)
  {
    k := 0;
    if DescendTo(ForestOf(idx), t).Some? {
      DescentInWalk(ForestOf(idx), t);
      WalkVisitsEachOnce(idx);
      var x := DescendTo(ForestOf(idx), t).value;
      k := RootedEnds(TableOf(idx), x, Level(TableOf(idx), x));
    }
  }

  lemma {:induction false} ChainEndsUnique(m: Table, x: nat, j: nat, k: nat)
    requires ChainEnds(m, x, j) && ChainEnds(m, x, k)
    ensures j == k
    decreases j
  {
    if x != 0 && x in m {
      ChainEndsUnique(m, m[x].parentId, j - 1, k - 1);
    }
  }

  /** `s` is the composition of the three queries at `time`. */
  ghost predicate DaemonState(idx: TraceIndex, time: nat, s: ReconstructedState)
    requires HasForest(idx)
  {
    forall k: nat :: ChainOf(TableOf(idx), DescendTo(ForestOf(idx), time), k) ==>
      s == StateOf(idx, TableOf(idx), DescendTo(ForestOf(idx), time), k, time)
  }

  method AtTime(idx: TraceIndex, time: nat) returns (s: ReconstructedState)
    requires Indexed(idx)
    ensures DaemonState(idx, time, s)
  {
    var current := FrameAt(idx, time);
    ghost var k := FoundChainEnds(idx, time);
    IndexLooksUp(idx);
    s := AtFrameInternal(idx, current, time, TableOf(idx), k);
    forall j: nat | ChainOf(TableOf(idx), current, j) ensures s == StateOf(idx, TableOf(idx), current, j, time) {
      if current.Some? {
        ChainEndsUnique(TableOf(idx), current.value, j, k);
      }
    }
  }

  method AtFrame(idx: TraceIndex, frameId: nat, ghost m: Table, ghost k: nat) returns (s: ReconstructedState)
    requires LooksUp(idx, m) && EventsIndexed(idx) && ChainEnds(m, frameId, k)
    ensures s == StateOf(idx, m, Some(frameId), k, if frameId in m then m[frameId].enter else 0)
  {
    var f := idx.FrameById(frameId);
    var time := if f.Some? then f.value.enter else 0;
    s := AtFrameInternal(idx, Some(frameId), time, m, k);
  }

  // ---------- the browser's scans ----------

  predicate ClosedSpan(f: Frame, t: nat) {
    t >= f.enter && t <= f.exit
  }

  /** The deepest frame of the list whose closed span has `t`, the first such on ties. */
  ghost predicate DeepestClosed(frames: seq<Frame>, t: nat, r: Option<Frame>) {
    match r
    case None => forall i :: 0 <= i < |frames| ==> !ClosedSpan(frames[i], t)
    case Some(f) => exists b :: IsBest(frames, t, b, |frames|) && frames[b] == f
  }

  ghost predicate IsBest(frames: seq<Frame>, t: nat, b: int, upTo: int) {
    && 0 <= b < |frames| && ClosedSpan(frames[b], t) && upTo <= |frames|
    && forall i :: 0 <= i < upTo && ClosedSpan(frames[i], t) ==> frames[i].depth <= frames[b].depth && (i < b ==> frames[i].depth < frames[b].depth)
  }

  method ScanCurrent(frames: seq<Frame>, t: nat) returns (current: Option<Frame>)
    ensures DeepestClosed(frames, t, current)
  {
    var first := 0;
    while first < |frames| && !ClosedSpan(frames[first], t)
      invariant first <= |frames|
      invariant forall i :: 0 <= i < first ==> !ClosedSpan(frames[i], t)
    {
      first := first + 1;
    }
    if first == |frames| { return None; }
    var best := frames[first];
    ghost var b := first;
    for i := 0 to |frames|
      invariant 0 <= b < |frames| && best == frames[b] && (b == first || b < i) && first <= b
      invariant IsBest(frames, t, b, if i < first then first else i)
    {
      if ClosedSpan(frames[i], t) && frames[i].depth > best.depth {
        best := frames[i];
        b := i;
      }
    }
    assert IsBest(frames, t, b, |frames|) && frames[b] == best;
    current := Some(best);
  }

  /** The frames of the parent chain of `x`, `x` first. */
  ghost function ChainFrames(m: Table, x: nat, k: nat): seq<Frame>
    requires ChainEnds(m, x, k)
    decreases k
  {
    if k == 0 then [] else [m[x]] + ChainFrames(m, m[x].parentId, k - 1)
  }

  /** `x` is a frame of `m` whose chain has `k` frames. */
  ghost predicate OnChain(m: Table, x: Frame, k: nat) {
    x.id != 0 && x.id in m && m[x.id] == x && ChainEnds(m, x.id, k)
  }

  method ScanStack(byId: Table, current: Frame, ghost k: nat) returns (stack: seq<Frame>)
    requires 0 !in byId && (forall x :: x in byId ==> byId[x].id == x) && OnChain(byId, current, k)
    ensures stack == Reverse(ChainFrames(byId, current.id, k))
  {
    stack := [];
    var cur := Some(current);
    ghost var left, done := k, [];
    while cur.Some?
      invariant cur.Some? ==> OnChain(byId, cur.value, left)
      invariant done + (if cur.Some? then ChainFrames(byId, cur.value.id, left) else []) == ChainFrames(byId, current.id, k)
      invariant stack == Reverse(done)
      decreases if cur.Some? then left + 1 else 0
    {
      var f := cur.value;
      ghost var above := ChainFrames(byId, f.parentId, left - 1);
      assert done + ([f] + above) == (done + [f]) + above;
      stack, done := [f] + stack, done + [f];
      left := left - 1;
      cur := if f.parentId != 0 && f.parentId in byId then Some(byId[f.parentId]) else None;
    }
  }

  function EventsUpTo(events: seq<Event>, t: nat): seq<Event> {
    if events == [] then [] else (if events[0].at <= t then [events[0]] else []) + EventsUpTo(events[1..], t)
  }

  /** `chain` holds the length of every frame's parent chain. */
  ghost predicate ChainsEnd(frames: seq<Frame>, m: Table, chain: map<nat, nat>) {
    forall f :: f in frames ==> f.id in chain && ChainEnds(m, f.id, chain[f.id])
  }

  /** `s` is what the scans find: the deepest frame by closed span, its callers root first, the events so far in list order. */
  ghost predicate BrowserState(frames: seq<Frame>, events: seq<Event>, t: nat, chain: map<nat, nat>, s: ReconstructedState)
    requires ChainsEnd(frames, TableOfList(frames), chain)
  {
    && s.at == t && DeepestClosed(frames, t, s.current) && s.events == EventsUpTo(events, t)
    && (s.current.None? ==> s.stack == [])
    && (s.current.Some? ==> s.current.value in frames
                            && s.stack == Reverse(ChainFrames(TableOfList(frames), s.current.value.id, chain[s.current.value.id])))
  }

  /** The whole browser reconstruction. */
  method ReconstructStatic(frames: seq<Frame>, events: seq<Event>, t: nat, ghost chain: map<nat, nat>) returns (s: ReconstructedState)
    requires Distinct(FrameIds(frames)) && forall f :: f in frames ==> f.id != 0
    requires ChainsEnd(frames, TableOfList(frames), chain)
    ensures BrowserState(frames, events, t, chain, s)
  {
    var current := ScanCurrent(frames, t);
    var byId := TableOfList(frames);
    TableOfListFacts(frames);
    var stack := [];
    if current.Some? {
      assert current.value in frames;
      stack := ScanStack(byId, current.value, chain[current.value.id]);
    }
    s := ReconstructedState(t, current, stack, EventsUpTo(events, t));
  }

  /** The id map of a frame list, later frames winning. */
  function TableOfList(frames: seq<Frame>): Table {
    if frames == [] then map[]
    else TableOfList(frames[..|frames| - 1])[frames[|frames| - 1].id := frames[|frames| - 1]]
  }

  lemma {:induction false} TableOfListFacts(frames: seq<Frame>)
    ensures forall x :: x in TableOfList(frames) ==> TableOfList(frames)[x].id == x && TableOfList(frames)[x] in frames
    ensures Distinct(FrameIds(frames)) ==>
              forall i :: 0 <= i < |frames| ==> frames[i].id in TableOfList(frames) && TableOfList(frames)[frames[i].id] == frames[i]
  {
    if frames != [] {
      var n := |frames| - 1;
      TableOfListFacts(frames[..n]);
      assert frames == frames[..n] + [frames[n]];
      if Distinct(FrameIds(frames)) {
        assert FrameIds(frames[..n]) == FrameIds(frames)[..n];
        forall i | 0 <= i < n ensures frames[i].id in TableOfList(frames) && TableOfList(frames)[frames[i].id] == frames[i] {
          assert frames[..n][i] == frames[i];
          assert FrameIds(frames)[i] != FrameIds(frames)[n];
        }
      }
    }
  }
}
