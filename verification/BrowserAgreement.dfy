/** The browser's scans and the daemon's index queries give the same state. */
module BrowserAgreement {
  import opened TraceModel
  import opened StableSort
  import opened CallForest
  import opened ParentChains
  import opened TraceIndexing
  import opened TraceQueries
  import opened Spans
  import opened RecordedIndex
  import opened TimeLookup
  import opened DescentPaths
  import opened Reconstruction

  ghost predicate NoExitAt(frames: seq<Frame>, t: nat) {
    forall x :: x in frames ==> x.exit != t
  }

  function IdOf(x: Option<Frame>): Option<nat> {
    match x case Some(f) => Some(f.id) case None => None
  }

  /** A deeper frame than `x` is running at `t`. */
  ghost predicate DeeperRuns(frames: seq<Frame>, t: nat, x: Frame) {
    exists y :: y in frames && InSpan(y, t) && x.depth < y.depth
  }

  /** Whatever ends at `t` ends above a frame that is still running. */
  ghost predicate ExitsCovered(frames: seq<Frame>, t: nat) {
    forall x :: x in frames && x.enter <= t == x.exit ==> DeeperRuns(frames, t, x)
  }

  /** The list is in the order the calls returned. */
  ghost predicate ReturnOrder(frames: seq<Frame>) {
    forall i, j :: 0 <= i <= j < |frames| ==> frames[i].exit <= frames[j].exit
  }

  lemma JoinReturnOrder(a: seq<Frame>, x: Frame, b: seq<Frame>)
    requires ReturnOrder(a) && ReturnOrder(b)
    requires (forall y :: y in a ==> y.exit <= x.exit) && (forall y :: y in b ==> x.exit <= y.exit)
    ensures ReturnOrder(a + [x] + b)
  {
    var s := a + [x] + b;
    forall i, j | 0 <= i <= j < |s| ensures s[i].exit <= s[j].exit {
      assert i < |a| ==> s[i] in a;
      assert j > |a| ==> s[j] == b[j - |a| - 1] && s[j] in b;
      assert i > |a| ==> s[i] == b[i - |a| - 1];
    }
  }

  lemma {:induction false} PostFramesReturnOrder(f: Forest, lo: nat, hi: nat)
    requires Timed(f, lo, hi)
    ensures ReturnOrder(PostFrames(f))
  {
    match f
    case Nil =>
    case Cons(x, kids, rest) =>
      PostFramesReturnOrder(kids, x.enter, x.exit);
      PostFramesReturnOrder(rest, x.exit, hi);
      TimedBounds(kids, x.enter, x.exit);
      TimedBounds(rest, x.exit, hi);
      JoinReturnOrder(PostFrames(kids), x, PostFrames(rest));
  }

  lemma BestIsRunning(frames: seq<Frame>, t: nat, b: int)
    requires IsBest(frames, t, b, |frames|) && ExitsCovered(frames, t)
    ensures InSpan(frames[b], t)
  {
    forall y | y in frames && InSpan(y, t) ensures y.depth <= frames[b].depth {
      var i :| 0 <= i < |frames| && frames[i] == y;
    }
    assert !DeeperRuns(frames, t, frames[b]);
  }

  /** With every exit covered, the closed scan finds the one deepest running frame. */
  lemma CoveredScanAgrees(frames: seq<Frame>, t: nat, c: Option<Frame>, r: Option<nat>)
    requires DeepestClosed(frames, t, c) && DeepestAt(frames, t, r) && ExitsCovered(frames, t)
    ensures r == IdOf(c)
  {
    if c.Some? {
      var b :| IsBest(frames, t, b, |frames|) && frames[b] == c.value;
      BestIsRunning(frames, t, b);
      var x :| x in frames && x.id == r.value && InSpan(x, t) && forall y :: y in frames && InSpan(y, t) && y != x ==> y.depth < x.depth;
      var i :| 0 <= i < |frames| && frames[i] == x;
      assert x == c.value;
    } else {
      forall x | x in frames ensures !InSpan(x, t) {
        var i :| 0 <= i < |frames| && frames[i] == x;
      }
    }
  }

  /** And only then: a frame that ends at `t` no less deep than what runs comes first in the list. */
  lemma AgreeingScanIsCovered(frames: seq<Frame>, t: nat, c: Option<Frame>, r: Option<nat>)
    requires ReturnOrder(frames) && Distinct(FrameIds(frames))
    requires DeepestClosed(frames, t, c) && DeepestAt(frames, t, r) && r == IdOf(c)
    ensures ExitsCovered(frames, t)
  {
    forall x | x in frames && x.enter <= t == x.exit ensures DeeperRuns(frames, t, x) {
      var i :| 0 <= i < |frames| && frames[i] == x;
      assert ClosedSpan(frames[i], t);
      var b :| IsBest(frames, t, b, |frames|) && frames[b] == c.value;
      var y :| y in frames && y.id == r.value && InSpan(y, t);
      var j :| 0 <= j < |frames| && frames[j] == y;
      assert FrameIds(frames)[j] == FrameIds(frames)[b];
      assert j == b;
      assert i < b;
    }
  }

  /** Where the index answers with the deepest running frame, the closed scan finds the same one if and only if
      whatever ends then ends above a frame that is still running. */
  lemma ScansAgreeIff(frames: seq<Frame>, t: nat, c: Option<Frame>, r: Option<nat>)
    requires ReturnOrder(frames) && Distinct(FrameIds(frames))
    requires DeepestClosed(frames, t, c) && DeepestAt(frames, t, r)
    ensures r == IdOf(c) <==> ExitsCovered(frames, t)
  {
    if ExitsCovered(frames, t) {
      CoveredScanAgrees(frames, t, c, r);
    } else if r == IdOf(c) {
      AgreeingScanIsCovered(frames, t, c, r);
    }
  }

  /** A time that is no exit is the plain case. */
  lemma NoExitIsCovered(frames: seq<Frame>, t: nat)
    requires NoExitAt(frames, t)
    ensures ExitsCovered(frames, t) && !ExposedInstant(frames, t)
  {
  }

  /** Whatever the descent answers with is in the closed scan's reach, so the browser is never the shallower one. */
  lemma {:induction false} DescentCovers(f: Forest, t: nat)
    ensures DescendTo(f, t).Some? ==> exists x :: x in PostFrames(f) && x.id == DescendTo(f, t).value && Covers(x, t)
  {
    match f
    case Nil =>
    case Cons(x, kids, rest) =>
      assert x in PostFrames(f);
      if Covers(x, t) {
        DescentCovers(kids, t);
        if DescendTo(kids, t).Some? {
          var y :| y in PostFrames(kids) && y.id == DescendTo(kids, t).value && Covers(y, t);
          assert y in PostFrames(f);
        }
      } else {
        DescentCovers(rest, t);
        if DescendTo(rest, t).Some? {
          var y :| y in PostFrames(rest) && y.id == DescendTo(rest, t).value && Covers(y, t);
          assert y in PostFrames(f);
        }
      }
  }

  /** At a time that is no exit, the scan finds the one deepest running frame. */
  lemma ScanFindsDeepest(frames: seq<Frame>, t: nat, current: Option<Frame>, r: Option<nat>)
    requires NoExitAt(frames, t) && DeepestClosed(frames, t, current) && DeepestAt(frames, t, r)
    ensures r == IdOf(current)
  {
    NoExitIsCovered(frames, t);
    CoveredScanAgrees(frames, t, current, r);
  }

  /** `m` holds exactly the frames of the list, by id. */
  ghost predicate TableFor(frames: seq<Frame>, m: Table) {
    && (forall x :: x in m ==> m[x].id == x && m[x] in frames)
    && (forall f :: f in frames ==> f.id in m && m[f.id] == f)
  }

  lemma SameTable(frames: seq<Frame>, a: Table, b: Table)
    requires TableFor(frames, a) && TableFor(frames, b)
    ensures a == b
  {
    forall x ensures x in a <==> x in b {
      if x in a { assert a[x] in frames; }
      if x in b { assert b[x] in frames; }
    }
    forall x | x in a ensures a[x] == b[x] {
      assert a[x] in frames;
    }
  }

  lemma IndexTable(idx: TraceIndex)
    requires Indexed(idx)
    ensures TableFor(idx.frames, TableOf(idx))
  {
    LookupFacts(idx.frames, idx.framePos);
  }

  lemma ListTable(frames: seq<Frame>)
    requires Distinct(FrameIds(frames))
    ensures TableFor(frames, TableOfList(frames))
  {
    TableOfListFacts(frames);
  }

  lemma {:induction false} FramesOfChain(idx: TraceIndex, m: Table, x: nat, k: nat)
    requires LooksUp(idx, m) && ChainEnds(m, x, k)
    ensures FramesOf(idx, Chain(m, x, k)) == ChainFrames(m, x, k)
    decreases k
  {
    if k > 0 {
      FramesOfChain(idx, m, m[x].parentId, k - 1);
      FramesOfCons(idx, x, m[x], Chain(m, m[x].parentId, k - 1));
    }
  }

  lemma FramesOfCons(idx: TraceIndex, x: nat, f: Frame, more: seq<nat>)
    requires idx.FrameById(x) == Some(f)
    ensures FramesOf(idx, [x] + more) == [f] + FramesOf(idx, more)
  {
    assert ([x] + more)[1..] == more;
  }

  // ---------- events ----------

  lemma {:induction false} EventsOfUpTo(idx: TraceIndex, key: map<nat, nat>, es: seq<Event>, t: nat)
    requires forall e :: e in es ==> idx.EventById(e.id) == Some(e) && KeyOf(key, e.id) == e.at
    ensures EventsOf(idx, UpTo(key, EventIds(es), t)) == EventsUpTo(es, t)
  {
    if es != [] {
      assert EventIds(es)[1..] == EventIds(es[1..]);
      assert es[0] in es && forall e :: e in es[1..] ==> e in es;
      EventsOfUpTo(idx, key, es[1..], t);
      var rest := UpTo(key, EventIds(es[1..]), t);
      assert idx.EventById(es[0].id) == Some(es[0]) && EventIds(es)[0] == es[0].id;
      if es[0].at <= t {
        assert UpTo(key, EventIds(es), t) == [es[0].id] + rest;
        assert ([es[0].id] + rest)[1..] == rest;
        assert EventsOf(idx, [es[0].id] + rest) == [es[0]] + EventsOf(idx, rest);
      } else {
        assert UpTo(key, EventIds(es), t) == [] + rest == rest;
      }
    }
  }

  lemma EventLookups(idx: TraceIndex)
    requires EventsIndexed(idx) && Distinct(EventIds(idx.events))
    ensures forall e :: e in idx.events ==> idx.EventById(e.id) == Some(e) && KeyOf(TimesOf(idx), e.id) == e.at
  {
    var ids := EventIds(idx.events);
    forall e | e in idx.events ensures idx.EventById(e.id) == Some(e) && KeyOf(TimesOf(idx), e.id) == e.at {
      var i :| 0 <= i < |idx.events| && idx.events[i] == e;
      assert ids[i] in idx.eventPos && ids[idx.eventPos[ids[i]]] == ids[i];
    }
  }

  /** With unique ids, events in time order are answered in list order. */
  lemma EventsAgree(idx: TraceIndex, t: nat)
    requires EventsIndexed(idx) && Distinct(EventIds(idx.events)) && InTimeOrder(idx.events)
    ensures EventsOf(idx, UpTo(TimesOf(idx), idx.eventsByTime, t)) == EventsUpTo(idx.events, t)
  {
    var ids := EventIds(idx.events);
    EventLookups(idx);
    forall i, j | 0 <= i <= j < |ids| ensures KeyOf(TimesOf(idx), ids[i]) <= KeyOf(TimesOf(idx), ids[j]) {
      assert idx.events[i] in idx.events && idx.events[j] in idx.events;
    }
    SortOfSorted(TimesOf(idx), ids);
    EventsOfUpTo(idx, TimesOf(idx), idx.events, t);
  }

  // ---------- the whole state ----------

  /** No closed span has the time, or the first of the deepest whose closed span has it is where the descent leads. */
  ghost predicate AlikeAt(frames: seq<Frame>, t: nat) {
    DeepestClosed(frames, t, None) || exists x :: DeepestClosed(frames, t, Some(x)) && FoundUnder(frames, 0, t, x.id)
  }

  /** There is one first of the deepest. */
  lemma OneIsScanned(frames: seq<Frame>, t: nat, c: Option<Frame>, r: Option<Frame>)
    requires DeepestClosed(frames, t, c) && DeepestClosed(frames, t, r)
    ensures c == r
  {
    if c.Some? && r.Some? {
      var i :| IsBest(frames, t, i, |frames|) && frames[i] == c.value;
      var j :| IsBest(frames, t, j, |frames|) && frames[j] == r.value;
      assert i == j;
    }
  }

  lemma AlikeAtScan(frames: seq<Frame>, t: nat, c: Option<Frame>)
    requires DeepestClosed(frames, t, c)
    ensures AlikeAt(frames, t) <==> (c.Some? ==> FoundUnder(frames, 0, t, c.value.id))
  {
    forall r | DeepestClosed(frames, t, r) ensures r == c {
      OneIsScanned(frames, t, c, r);
    }
  }

  lemma AlikeIff(idx: TraceIndex, f: Forest, end: nat, t: nat, c: Option<Frame>)
    requires IndexOfRun(idx, f, end) && DeepestClosed(idx.frames, t, c)
    ensures DescendTo(ForestOf(idx), t) == IdOf(c) <==> AlikeAt(idx.frames, t)
  {
    DescentIsFrame(idx, f, end, t);
    AlikeAtScan(idx.frames, t, c);
    if c.Some? {
      LookupIff(idx, f, end, t, c.value.id);
    } else {
      ClosedAreIndexed(idx.frames, t, DescendTo(ForestOf(idx), t));
    }
  }

  lemma ClosedAreIndexed(frames: seq<Frame>, t: nat, found: Option<nat>)
    requires FoundClosed(frames, t, found) && DeepestClosed(frames, t, None)
    ensures found == None
  {
    forall x | x in frames ensures !ClosedSpan(x, t) {
      var i :| 0 <= i < |frames| && frames[i] == x;
    }
  }

  /** On the index of a recorded trace with unique event ids and events in time order, at every time:
      - the events are the same, and so is the stack, reversed, when the current frame is;
      - the browser's frame is never the shallower one;
      - the current frames are the same if and only if no closed span has the time, or the first of the deepest whose
        closed span has it is the one that the descent is led to;
      - where no empty frame is exposed, the current frames are the same if and only if whatever ends then ends
        above a frame that is still running;
      - both show the deepest running frame if and only if, besides, no empty frame is exposed. */
  lemma BrowserAgrees(idx: TraceIndex, f: Forest, end: nat, t: nat, chain: map<nat, nat>, b: ReconstructedState, d: ReconstructedState)
    requires IndexOfRun(idx, f, end)
    requires Distinct(EventIds(idx.events)) && InTimeOrder(idx.events)
    requires ChainsEnd(idx.frames, TableOfList(idx.frames), chain)
    requires BrowserState(idx.frames, idx.events, t, chain, b) && DaemonState(idx, t, d)
    ensures b.events == d.events && (b.current == d.current ==> b.stack == Reverse(d.stack))
    ensures IdOf(d.current) == DescendTo(ForestOf(idx), t)
    ensures d.current.Some? ==> b.current.Some? && d.current.value.depth <= b.current.value.depth
    ensures b.current == d.current <==> AlikeAt(idx.frames, t)
    ensures !ExposedInstant(idx.frames, t) ==> (b.current == d.current <==> ExitsCovered(idx.frames, t))
    ensures b.current == d.current && DeepestAt(idx.frames, t, IdOf(d.current))
            <==> !ExposedInstant(idx.frames, t) && ExitsCovered(idx.frames, t)
  {
    RunFacts(idx, f, end);
    var found := DescendTo(ForestOf(idx), t);
    var k := FoundChainEnds(idx, t);
    EventsAgree(idx, t);
    DescentIsFrame(idx, f, end, t);
    LookupIsDeepest(idx, f, end, t);
    StatesCompared(idx, found, k, chain, t, b, d);
    AlikeIff(idx, f, end, t, b.current);
    WhereTheyAgree(idx.frames, t, found, b.current, d.current);
  }

  lemma WhereTheyAgree(frames: seq<Frame>, t: nat, found: Option<nat>, b: Option<Frame>, d: Option<Frame>)
    requires ReturnOrder(frames) && Distinct(FrameIds(frames)) && DeepestClosed(frames, t, b)
    requires IdOf(d) == found && (b == d <==> found == IdOf(b))
    requires DeepestAt(frames, t, found) <==> !ExposedInstant(frames, t)
    ensures !ExposedInstant(frames, t) ==> (b == d <==> ExitsCovered(frames, t))
    ensures b == d && DeepestAt(frames, t, IdOf(d)) <==> !ExposedInstant(frames, t) && ExitsCovered(frames, t)
  {
    if !ExposedInstant(frames, t) {
      ScansAgreeIff(frames, t, b, found);
    }
  }

  lemma RunFacts(idx: TraceIndex, f: Forest, end: nat)
    requires IndexOfRun(idx, f, end)
    ensures TableOf(idx) == TableOfList(idx.frames) && LooksUp(idx, TableOf(idx))
    ensures Distinct(FrameIds(idx.frames)) && ReturnOrder(idx.frames)
  {
    IndexTable(idx);
    ListTable(idx.frames);
    SameTable(idx.frames, TableOf(idx), TableOfList(idx.frames));
    IndexLooksUp(idx);
    PostFramesReturnOrder(f, 0, end);
  }

  /** `found` is the id of a frame of the list whose closed span has `t`, or nothing. */
  ghost predicate FoundClosed(frames: seq<Frame>, t: nat, found: Option<nat>) {
    found.Some? ==> exists x :: x in frames && x.id == found.value && ClosedSpan(x, t)
  }

  lemma DescentIsFrame(idx: TraceIndex, f: Forest, end: nat, t: nat)
    requires IndexOfRun(idx, f, end)
    ensures FoundClosed(idx.frames, t, DescendTo(ForestOf(idx), t))
  {
    IndexGivesBackForest(idx, f, 0, end);
    TimedBounds(f, 0, end);
    DescentCovers(f, t);
  }

  lemma StatesCompared(idx: TraceIndex, found: Option<nat>, k: nat, chain: map<nat, nat>, t: nat, b: ReconstructedState, d: ReconstructedState)
    requires Distinct(FrameIds(idx.frames)) && FoundClosed(idx.frames, t, found)
    requires LooksUp(idx, TableOfList(idx.frames)) && ChainOf(TableOfList(idx.frames), found, k)
    requires ChainsEnd(idx.frames, TableOfList(idx.frames), chain) && BrowserState(idx.frames, idx.events, t, chain, b)
    requires d == StateOf(idx, TableOfList(idx.frames), found, k, t)
    ensures IdOf(d.current) == found
    ensures b.current == d.current <==> found == IdOf(b.current)
    ensures b.current == d.current ==> b.stack == Reverse(d.stack)
    ensures d.current.Some? ==> b.current.Some? && d.current.value.depth <= b.current.value.depth
    ensures d.events == EventsOf(idx, UpTo(TimesOf(idx), idx.eventsByTime, t))
  {
    var m := TableOfList(idx.frames);
    ListTable(idx.frames);
    if found.Some? {
      var x :| x in idx.frames && x.id == found.value && ClosedSpan(x, t);
      assert idx.FrameById(x.id) == Some(x);
      var i :| 0 <= i < |idx.frames| && idx.frames[i] == x;
      if b.current == Some(x) {
        ChainEndsUnique(m, x.id, chain[x.id], k);
        FramesOfChain(idx, m, x.id, k);
      }
    }
  }

  /** An exit at which they differ: the browser still shows the frame, the daemon no longer does. */
  lemma ExitInstantDiffers()
    ensures var x := Frame(1, 0, 0, 5, 1, "", 0);
            && DescendTo(Cons(x, Nil, Nil), 5) == None
            && forall c :: DeepestClosed([x], 5, c) ==> c == Some(x)
  {
    var x := Frame(1, 0, 0, 5, 1, "", 0);
    forall c | DeepestClosed([x], 5, c) ensures c == Some(x) {
      assert ClosedSpan([x][0], 5);
    }
  }

  /** An exit at which they agree: the first of two calls ends while the second has already made one. */
  lemma ExitInstantAgrees()
    ensures var p, x, y, z := Frame(1, 0, 0, 10, 1, "", 0), Frame(2, 1, 0, 5, 2, "", 0), Frame(3, 1, 5, 10, 2, "", 0), Frame(4, 3, 5, 8, 3, "", 0);
            var f := Cons(p, Cons(x, Nil, Cons(y, Cons(z, Nil, Nil), Nil)), Nil);
            && Numbered(f, 0, 0, 1) && Timed(f, 0, 10) && DescendTo(f, 5) == Some(4)
            && forall c :: DeepestClosed(PostFrames(f), 5, c) ==> c == Some(z)
  {
    var p, x, y, z := Frame(1, 0, 0, 10, 1, "", 0), Frame(2, 1, 0, 5, 2, "", 0), Frame(3, 1, 5, 10, 2, "", 0), Frame(4, 3, 5, 8, 3, "", 0);
    var f := Cons(p, Cons(x, Nil, Cons(y, Cons(z, Nil, Nil), Nil)), Nil);
    assert PostFrames(Cons(z, Nil, Nil)) == [z];
    assert PostFrames(Cons(y, Cons(z, Nil, Nil), Nil)) == [z, y];
    assert PostFrames(Cons(x, Nil, Cons(y, Cons(z, Nil, Nil), Nil))) == [x, z, y];
    assert PostFrames(f) == [x, z, y, p];
    forall c | DeepestClosed(PostFrames(f), 5, c) ensures c == Some(z) {
      assert ClosedSpan([x, z, y, p][1], 5);
    }
  }
}
