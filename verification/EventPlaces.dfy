/** Where the events of a request lie, under a clock that may stand still: which frame each one names. */
module EventPlaces {
  import opened TraceModel
  import opened CallForest
  import opened Recorder
  import opened RecordedRuns

  ghost predicate Encloses(frames: seq<Frame>, e: Event) {
    exists x :: x in frames && x.id == e.inFrame && x.enter <= e.at <= x.exit
  }

  ghost predicate RootEnded(frames: seq<Frame>, e: Event) {
    exists x :: x in frames && x.id == e.inFrame && x.depth == 1 && x.exit <= e.at
  }

  /** An event recorded at depth `d` by a run at depth `base`: past the cap it names no frame; inside a call, that call, or
      the call `open` the run is in; outside all calls, a root that has ended, or what slot 0 held before. */
  ghost predicate Placed(e: Event, d: int, frames: seq<Frame>, base: nat, open: nat, stale: nat) {
    if d > MAX_DEPTH then e.inFrame == 0
    else if d >= 1 then Encloses(frames, e) || (d == base && e.inFrame == open)
    else RootEnded(frames, e) || e.inFrame == stale
  }

  ghost predicate AllPlaced(es: seq<Event>, ds: seq<int>, frames: seq<Frame>, base: nat, open: nat, stale: nat, lo: nat, hi: nat) {
    |es| == |ds| && forall i :: 0 <= i < |es| ==> lo <= es[i].at <= hi && ds[i] >= base && Placed(es[i], ds[i], frames, base, open, stale)
  }

  lemma NotePlaced(s: State, at: nat, checkpoint: bool)
    requires s.Recording()
    ensures var t := NoteStep(s, at, checkpoint);
            |t.events| == |s.events| + 1 && t.events[..|s.events|] == s.events && t.events[|s.events|].at == Since(s.start, at)
            && Placed(t.events[|s.events|], s.depth, [], s.depth, ParentSlot(s), s.frameIdAt[0])
  {
  }

  /** More frames around change nothing. */
  lemma PlacedInMore(e: Event, d: int, few: seq<Frame>, many: seq<Frame>, base: nat, open: nat, stale: nat)
    requires Placed(e, d, few, base, open, stale) && forall x :: x in few ==> x in many
    ensures Placed(e, d, many, base, open, stale)
  {
  }

  lemma MarkPlaced(e: Event, d: nat, later: seq<Event>, ds: seq<int>, frames: seq<Frame>, open: nat, stale: nat, lo: nat, hi: nat)
    requires lo <= e.at <= hi && Placed(e, d, [], d, open, stale) && AllPlaced(later, ds, frames, d, open, stale, e.at, hi)
    ensures AllPlaced([e] + later, [d as int] + ds, frames, d, open, stale, lo, hi)
  {
    PlacedInMore(e, d, [], frames, d, open, stale);
  }

  /** Events inside a recorded call, seen from outside it. */
  lemma InsidePlaced(a: seq<Event>, da: seq<int>, x: Frame, kids: seq<Frame>, frames: seq<Frame>, base: nat, inner: nat, innerStale: nat, open: nat, stale: nat, hi: nat)
    requires AllPlaced(a, da, kids, base + 1, inner, innerStale, x.enter, x.exit) && base < MAX_DEPTH && inner == x.id
    requires x in frames && (forall y :: y in kids ==> y in frames) && x.exit <= hi
    ensures AllPlaced(a, da, frames, base, open, stale, x.enter, hi)
  {
    forall i | 0 <= i < |a| ensures Placed(a[i], da[i], frames, base, open, stale) {
      PlacedInMore(a[i], da[i], kids, frames, base + 1, inner, innerStale);
      if da[i] == base + 1 && a[i].inFrame == inner {
        assert x.id == a[i].inFrame && x.enter <= a[i].at <= x.exit;
      }
    }
  }

  /** Events inside a call past the cap. */
  lemma DeepPlaced(a: seq<Event>, da: seq<int>, kids: seq<Frame>, frames: seq<Frame>, base: nat, inner: nat, innerStale: nat, open: nat, stale: nat, lo: nat, mid: nat, hi: nat)
    requires AllPlaced(a, da, kids, base + 1, inner, innerStale, lo, mid) && base >= MAX_DEPTH && mid <= hi
    ensures AllPlaced(a, da, frames, base, open, stale, lo, hi)
  {
  }

  /** Events after a recorded call: outside all calls it is the root that has ended last. */
  lemma AfterPlaced(b: seq<Event>, db: seq<int>, x: Frame, rest: seq<Frame>, frames: seq<Frame>, base: nat, open: nat, before: nat, stale: nat, hi: nat)
    requires AllPlaced(b, db, rest, base, open, before, x.exit, hi) && (base == 0 ==> before == x.id)
    requires x in frames && x.depth == base + 1 && (forall y :: y in rest ==> y in frames)
    ensures AllPlaced(b, db, frames, base, open, stale, x.exit, hi)
  {
    forall i | 0 <= i < |b| ensures Placed(b[i], db[i], frames, base, open, stale) {
      PlacedInMore(b[i], db[i], rest, frames, base, open, before);
      if db[i] == 0 && b[i].inFrame == before {
        assert x.id == b[i].inFrame && x.depth == 1 && x.exit <= b[i].at;
      }
    }
  }

  lemma JoinPlaced(a: seq<Event>, da: seq<int>, b: seq<Event>, db: seq<int>, frames: seq<Frame>, base: nat, open: nat, stale: nat, from: nat, lo: nat, mid: nat, hi: nat)
    requires AllPlaced(a, da, frames, base, open, stale, lo, hi) && AllPlaced(b, db, frames, base, open, stale, mid, hi)
    requires from <= lo && from <= mid
    ensures AllPlaced(a + b, da + db, frames, base, open, stale, from, hi)
  {
  }

  /** The events a run appends, each with the depth it was recorded at and its place. */
  lemma {:induction false} RunPlaces(s: State, run: Run, from: nat) returns (new_: seq<Event>)
    requires s.Recording() && s.start <= from && Clocked(false, run, from)
    ensures Exec(s, Ops(run)).events == s.events + new_
    ensures AllPlaced(new_, NoteDepths(Ops(run), s.depth), PostFrames(RecordedBy(s, run)), s.depth, ParentSlot(s), s.frameIdAt[0],
                      Since(s.start, from), Since(s.start, EndTime(run, from)))
    decreases run, 1
  {
    match run
    case Done => new_ := [];
    case Mark(at, checkpoint, rest) =>
      var s1 := NoteStep(s, at, checkpoint);
      NotePlaced(s, at, checkpoint);
      ExecAppend(s, [Note(at, checkpoint)], Ops(rest));
      var later := RunPlaces(s1, rest, at);
      TimesGrow(false, rest, at);
      var e := s1.events[|s.events|];
      new_ := [e] + later;
      assert s1.events == s.events + [e];
      EventsJoin(s.events, [e], later);
      assert Ops(run)[1..] == Ops(rest);
      MarkPlaced(e, s.depth, later, NoteDepths(Ops(rest), s.depth), PostFrames(RecordedBy(s, run)), ParentSlot(s), s.frameIdAt[0],
                 Since(s.start, from), Since(s.start, EndTime(rest, at)));
    case Call(e, inner, x, fn, rest) =>
      new_ := CallPlaces(s, e, inner, x, fn, rest, from);
  }

  lemma {:induction false} CallPlaces(s: State, e: nat, inner: Run, x: nat, fn: Func, rest: Run, from: nat) returns (new_: seq<Event>)
    requires s.Recording() && s.start <= from && Clocked(false, Call(e, inner, x, fn, rest), from)
    ensures Exec(s, Ops(Call(e, inner, x, fn, rest))).events == s.events + new_
    ensures AllPlaced(new_, NoteDepths(Ops(Call(e, inner, x, fn, rest)), s.depth), PostFrames(RecordedBy(s, Call(e, inner, x, fn, rest))),
                      s.depth, ParentSlot(s), s.frameIdAt[0], Since(s.start, from), Since(s.start, EndTime(rest, x)))
    decreases Call(e, inner, x, fn, rest), 0
  {
    var s1, s2, s3 := CallStates(s, e, inner, x, fn, rest);
    RunLeaves(s1, inner);
    CallRecorded(s, e, inner, x, fn, rest, s1, s2, s3);
    TimesGrow(false, inner, e);
    var a := RunPlaces(s1, inner, e);
    var b := RunPlaces(s3, rest, x);
    new_ := a + b;
    EventsJoin(s.events, a, b);
    RootSlot(s, e, inner, x, fn, s1, s2, s3);
    CallPlaced(s.depth, s.start, from, e, inner, x, fn, rest, RecordedBy(s, Call(e, inner, x, fn, rest)), RecordedBy(s1, inner), RecordedBy(s3, rest),
               ParentSlot(s1), ParentSlot(s), s.frameIdAt[0], s1.frameIdAt[0], s3.frameIdAt[0], a, b);
  }

  /** After a call from depth 0, slot 0 holds its id. */
  lemma RootSlot(s: State, e: nat, inner: Run, x: nat, fn: Func, s1: State, s2: State, s3: State)
    requires s.Recording() && s1 == BeginStep(s, e) && Leaves(s1, inner, s2) && s3 == EndStep(s2, x, fn)
    ensures s.depth == 0 ==> s3.frameIdAt[0] == ParentSlot(s1)
    ensures 0 < s.depth < MAX_DEPTH ==> s3.frameIdAt[0] == s.frameIdAt[0]
    ensures s.depth >= MAX_DEPTH ==> s3.frameIdAt[0] == s.frameIdAt[0]
  {
    assert SameBelow(s1, s2, s1.depth);
    assert s2.frameIdAt[0] == s1.frameIdAt[0];
  }

  lemma CallPlaced(d: nat, start: nat, from: nat, e: nat, inner: Run, x: nat, fn: Func, rest: Run, f: Forest, kids: Forest, later: Forest,
                   id: nat, open: nat, stale: nat, innerStale: nat, laterStale: nat, a: seq<Event>, b: seq<Event>)
    requires start <= from && Clocked(false, Call(e, inner, x, fn, rest), from)
    requires d < MAX_DEPTH ==> f == Cons(Frame(id, open, Since(start, e), Since(start, x), d + 1, fn.file, fn.line), kids, later)
    requires d >= MAX_DEPTH ==> f == later
    requires d == 0 ==> laterStale == id
    requires d > 0 ==> laterStale == stale
    requires AllPlaced(a, NoteDepths(Ops(inner), d + 1), PostFrames(kids), d + 1, id, innerStale, Since(start, e), Since(start, EndTime(inner, e)))
    requires AllPlaced(b, NoteDepths(Ops(rest), d), PostFrames(later), d, open, laterStale, Since(start, x), Since(start, EndTime(rest, x)))
    ensures AllPlaced(a + b, NoteDepths(Ops(Call(e, inner, x, fn, rest)), d), PostFrames(f), d, open, stale, Since(start, from), Since(start, EndTime(rest, x)))
  {
    var da, db := NoteDepths(Ops(inner), d + 1), NoteDepths(Ops(rest), d);
    var lo, mid, hi := Since(start, e), Since(start, x), Since(start, EndTime(rest, x));
    CallDepths(e, inner, x, fn, rest, d);
    TimesGrow(false, inner, e);
    TimesGrow(false, rest, x);
    if d < MAX_DEPTH {
      var frame := f.frame;
      InForest(f);
      WidenPlaced(a, da, PostFrames(kids), d + 1, id, innerStale, lo, Since(start, EndTime(inner, e)), mid);
      InsidePlaced(a, da, frame, PostFrames(kids), PostFrames(f), d, id, innerStale, open, stale, hi);
      AfterPlaced(b, db, frame, PostFrames(later), PostFrames(f), d, open, laterStale, stale, hi);
    } else {
      DeepPlaced(a, da, PostFrames(kids), PostFrames(f), d, id, innerStale, open, stale, lo, Since(start, EndTime(inner, e)), hi);
    }
    JoinPlaced(a, da, b, db, PostFrames(f), d, open, stale, Since(start, from), lo, mid, hi);
  }

  lemma InForest(f: Forest)
    requires f.Cons?
    ensures f.frame in PostFrames(f) && (forall y :: y in PostFrames(f.kids) || y in PostFrames(f.rest) ==> y in PostFrames(f))
  {
  }

  lemma WidenPlaced(a: seq<Event>, da: seq<int>, frames: seq<Frame>, base: nat, open: nat, stale: nat, lo: nat, hi: nat, more: nat)
    requires AllPlaced(a, da, frames, base, open, stale, lo, hi) && hi <= more
    ensures AllPlaced(a, da, frames, base, open, stale, lo, more)
  {
  }
}
