/** Balanced runs as call trees, and the exact frames and events a run leaves behind. */
module RecordedRuns {
  import opened TraceModel
  import opened CallForest
  import opened Recorder
  import opened RecorderInvariant
  import opened Spans

  /** One level of a finished execution: calls with what ran inside them, and events, in order. */
  datatype Run =
    | Done
    | Call(enter: nat, inner: Run, exit: nat, fn: Func, rest: Run)
    | Mark(at: nat, checkpoint: bool, rest: Run)

  function Ops(run: Run): seq<Op> {
    match run
    case Done => []
    case Call(e, inner, x, fn, rest) => [Enter(e)] + Ops(inner) + [Leave(x, fn)] + Ops(rest)
    case Mark(at, checkpoint, rest) => [Note(at, checkpoint)] + Ops(rest)
  }

  /** Every entry has its exit, and none comes too early. */
  ghost predicate Balanced(ops: seq<Op>) {
    Height(ops) == 0 && NeverBelow(ops, 0)
  }

  // ---------- every balanced op list is a run ----------

  lemma {:induction false} HeightAppend(a: seq<Op>, b: seq<Op>)
    ensures Height(a + b) == Height(a) + Height(b)
  {
    if a == [] {
      assert a + b == b;
    } else {
      assert (a + b)[1..] == a[1..] + b;
      HeightAppend(a[1..], b);
    }
  }

  lemma {:induction false} RunHeight(run: Run)
    ensures Height(Ops(run)) == 0
  {
    match run
    case Done =>
    case Mark(at, checkpoint, rest) =>
      RunHeight(rest);
      HeightAppend([Note(at, checkpoint)], Ops(rest));
    case Call(e, inner, x, fn, rest) =>
      RunHeight(inner);
      RunHeight(rest);
      HeightAppend([Enter(e)], Ops(inner));
      HeightAppend([Enter(e)] + Ops(inner), [Leave(x, fn)]);
      HeightAppend([Enter(e)] + Ops(inner) + [Leave(x, fn)], Ops(rest));
  }

  /** Splits off the longest run; what is left is empty or starts with an unmatched exit. */
  lemma {:induction false} SplitRun(ops: seq<Op>) returns (run: Run, left: seq<Op>)
    requires Height(ops) <= 0
    ensures ops == Ops(run) + left && |left| <= |ops|
    ensures left == [] || left[0].Leave?
    decreases |ops|
  {
    if ops == [] || ops[0].Leave? {
      run, left := Done, ops;
    } else if ops[0].Note? {
      var rest;
      rest, left := SplitRun(ops[1..]);
      run := Mark(ops[0].at, ops[0].checkpoint, rest);
    } else {
      var inner, after := SplitRun(ops[1..]);
      RunHeight(inner);
      HeightAppend(Ops(inner), after);
      assert after != [];
      assert after == [after[0]] + after[1..];
      var rest;
      rest, left := SplitRun(after[1..]);
      run := Call(ops[0].at, inner, after[0].at, after[0].fn, rest);
      assert ops == [ops[0]] + ops[1..];
    }
  }

  lemma {:induction false} NeverBelowAfter(a: seq<Op>, b: seq<Op>, open: nat)
    requires NeverBelow(a + b, open)
    ensures open + Height(a) >= 0 && NeverBelow(b, open + Height(a))
    decreases |a|
  {
    if a == [] {
      assert a + b == b;
    } else {
      assert (a + b)[1..] == a[1..] + b;
      NeverBelowAfter(a[1..], b, if a[0].Enter? then open + 1 else if a[0].Leave? then open - 1 else open);
    }
  }

  lemma BalancedIsRun(ops: seq<Op>) returns (run: Run)
    requires Balanced(ops)
    ensures ops == Ops(run)
  {
    var left;
    run, left := SplitRun(ops);
    RunHeight(run);
    NeverBelowAfter(Ops(run), left, 0);
  }

  // ---------- clocks ----------

  /** Clock order on a run: `b` may be the reading after `a`. */
  ghost predicate Ticks(strict: bool, a: nat, b: nat) {
    if strict then a < b else a <= b
  }

  function EndTime(run: Run, from: nat): nat {
    match run
    case Done => from
    case Call(_, _, x, _, rest) => EndTime(rest, x)
    case Mark(at, _, rest) => EndTime(rest, at)
  }

  ghost predicate Clocked(strict: bool, run: Run, from: nat) {
    match run
    case Done => true
    case Call(e, inner, x, _, rest) =>
      Ticks(strict, from, e) && Clocked(strict, inner, e) && Ticks(strict, EndTime(inner, e), x) && Clocked(strict, rest, x)
    case Mark(at, _, rest) => Ticks(strict, from, at) && Clocked(strict, rest, at)
  }

  /** Clock readings in order: never going back, or always going forward. */
  ghost predicate InOrder(strict: bool, ops: seq<Op>, from: nat)
    decreases |ops|
  {
    ops == [] || (Ticks(strict, from, ops[0].at) && InOrder(strict, ops[1..], ops[0].at))
  }

  lemma {:induction false} OrderIsClocked(strict: bool, run: Run, left: seq<Op>, from: nat)
    requires InOrder(strict, Ops(run) + left, from)
    ensures Clocked(strict, run, from) && InOrder(strict, left, EndTime(run, from))
    decreases run
  {
    var ops := Ops(run) + left;
    match run
    case Done => assert ops == left;
    case Mark(at, _, rest) =>
      assert ops[1..] == Ops(rest) + left;
      OrderIsClocked(strict, rest, left, at);
    case Call(e, inner, x, fn, rest) =>
      var after := [Leave(x, fn)] + (Ops(rest) + left);
      assert ops[1..] == Ops(inner) + after;
      OrderIsClocked(strict, inner, after, e);
      assert after[1..] == Ops(rest) + left;
      OrderIsClocked(strict, rest, left, x);
  }

  // ---------- what a run records ----------

  /** The call forest of the recorded part of a run at depth `d` under `parent`, ids continuing after `next`.
      Calls entered at the depth cap or below leave nothing. */
  function Recorded(run: Run, d: nat, parent: nat, next: nat, start: nat): Forest {
    match run
    case Done => Nil
    case Mark(_, _, rest) => Recorded(rest, d, parent, next, start)
    case Call(e, inner, x, fn, rest) =>
      if d < MAX_DEPTH then
        var kids := Recorded(inner, d + 1, next + 1, next + 1, start);
        Cons(Frame(next + 1, parent, Since(start, e), Since(start, x), d + 1, fn.file, fn.line),
             kids, Recorded(rest, d, parent, next + 1 + Size(kids), start))
      else Recorded(rest, d, parent, next, start)
  }

  /** The depth each event of an op list is recorded at, starting from depth `d`. */
  function NoteDepths(ops: seq<Op>, d: int): seq<int>
    decreases |ops|
  {
    if ops == [] then []
    else if ops[0].Note? then [d] + NoteDepths(ops[1..], d)
    else NoteDepths(ops[1..], if ops[0].Enter? then d + 1 else d - 1)
  }

  lemma {:induction false} NoteDepthsAppend(a: seq<Op>, b: seq<Op>, d: int)
    ensures NoteDepths(a + b, d) == NoteDepths(a, d) + NoteDepths(b, d + Height(a))
    decreases |a|
  {
    if a == [] {
      assert a + b == b;
    } else {
      assert (a + b)[1..] == a[1..] + b;
      NoteDepthsAppend(a[1..], b, if a[0].Note? then d else if a[0].Enter? then d + 1 else d - 1);
    }
  }

  /** The slots below depth `d` are untouched. */
  ghost predicate SameBelow(s: State, t: State, d: nat)
    requires s.Valid() && t.Valid()
  {
    forall i :: 0 <= i < d && i < MAX_DEPTH ==> s.frameIdAt[i] == t.frameIdAt[i] && s.enterUs[i] == t.enterUs[i]
  }

  function ParentSlot(s: State): nat
    requires s.Valid()
  {
    if 0 < s.depth <= MAX_DEPTH then s.frameIdAt[s.depth - 1] else 0
  }

  ghost function RecordedBy(s: State, run: Run): Forest
    requires s.Valid()
  {
    Recorded(run, s.depth, ParentSlot(s), s.nextFrameId, s.start)
  }

  lemma {:induction false} RecordedBelowCap(run: Run, d: nat, parent: nat, next: nat, start: nat)
    requires d >= MAX_DEPTH
    ensures Recorded(run, d, parent, next, start) == Nil
  {
    match run
    case Done =>
    case Mark(_, _, rest) => RecordedBelowCap(rest, d, parent, next, start);
    case Call(_, _, _, _, rest) => RecordedBelowCap(rest, d, parent, next, start);
  }

  /** What executing a run does to the recorder state, events aside. */
  ghost predicate Leaves(s: State, run: Run, t: State)
    requires s.Valid()
  {
    && t.Recording() && t.depth == s.depth && t.start == s.start && SameBelow(s, t, s.depth)
    && t.nextFrameId == s.nextFrameId + Size(RecordedBy(s, run))
    && t.frames == s.frames + PostFrames(RecordedBy(s, run))
  }

  /** The states between the four parts of a call. */
  lemma CallStates(s: State, e: nat, inner: Run, x: nat, fn: Func, rest: Run) returns (s1: State, s2: State, s3: State)
    requires s.Valid()
    ensures s1 == BeginStep(s, e) && s1.Valid() && s2 == Exec(s1, Ops(inner)) && s3 == EndStep(s2, x, fn) && s3.Valid()
    ensures Exec(s, Ops(Call(e, inner, x, fn, rest))) == Exec(s3, Ops(rest))
  {
    var a, b, c := [Enter(e)], Ops(inner), [Leave(x, fn)];
    ExecAppend(s, a + b + c, Ops(rest));
    ExecAppend(s, a + b, c);
    ExecAppend(s, a, b);
    s1 := Exec(s, a);
    s2 := Exec(s1, b);
    s3 := Exec(s2, c);
  }

  lemma ReturnOrderJoins(a: seq<Frame>, kids: seq<Frame>, x: Frame, rest: seq<Frame>)
    ensures a + kids + [x] + rest == a + (kids + [x] + rest)
  {
  }

  /** What the exit of a recorded call writes is the frame at the head of its forest. */
  lemma LeftIsRecorded(s: State, e: nat, inner: Run, x: nat, fn: Func, rest: Run, s1: State, s2: State)
    requires s.Recording() && s1 == BeginStep(s, e) && Leaves(s1, inner, s2) && s.depth < MAX_DEPTH
    ensures LeftFrame(s2, s.depth, x, fn) == RecordedBy(s, Call(e, inner, x, fn, rest)).frame
    ensures SameBelow(s, s2, s.depth) && s2.depth == s.depth + 1 && s2.nextFrameId == s.nextFrameId + 1 + Size(RecordedBy(s1, inner))
  {
    var d := s.depth;
    assert s2.frameIdAt[d] == s1.frameIdAt[d] == s.nextFrameId + 1;
    assert s2.enterUs[d] == s1.enterUs[d] == e;
    assert d > 0 ==> s2.frameIdAt[d - 1] == s1.frameIdAt[d - 1] == s.frameIdAt[d - 1];
  }

  lemma CallLeaves(s: State, e: nat, inner: Run, x: nat, fn: Func, rest: Run, s1: State, s2: State, s3: State, t: State)
    requires s.Recording() && s1 == BeginStep(s, e) && Leaves(s1, inner, s2) && s3 == EndStep(s2, x, fn) && Leaves(s3, rest, t)
    ensures Leaves(s, Call(e, inner, x, fn, rest), t)
  {
    var d := s.depth;
    CallRecorded(s, e, inner, x, fn, rest, s1, s2, s3);
    if d < MAX_DEPTH {
      LeftIsRecorded(s, e, inner, x, fn, rest, s1, s2);
      ReturnOrderJoins(s.frames, PostFrames(RecordedBy(s1, inner)), LeftFrame(s2, d, x, fn), PostFrames(RecordedBy(s3, rest)));
    } else {
      RecordedBelowCap(inner, d + 1, ParentSlot(s1), s1.nextFrameId, s.start);
    }
  }

  /** Executing a run appends the frames of its recorded forest in the order the calls returned. */
  lemma {:induction false} RunLeaves(s: State, run: Run)
    requires s.Recording()
    ensures Leaves(s, run, Exec(s, Ops(run)))
    decreases run
  {
    match run
    case Done =>
    case Mark(at, checkpoint, rest) =>
      var s1 := NoteStep(s, at, checkpoint);
      ExecAppend(s, [Note(at, checkpoint)], Ops(rest));
      RunLeaves(s1, rest);
    case Call(e, inner, x, fn, rest) =>
      var s1, s2, s3 := CallStates(s, e, inner, x, fn, rest);
      RunLeaves(s1, inner);
      RunLeaves(s3, rest);
      CallLeaves(s, e, inner, x, fn, rest, s1, s2, s3, Exec(s3, Ops(rest)));
  }

  // ---------- the shape of a recorded forest ----------

  lemma {:induction false} RecordedIsNumbered(run: Run, d: nat, parent: nat, next: nat, start: nat)
    ensures Numbered(Recorded(run, d, parent, next, start), parent, next, d + 1)
  {
    match run
    case Done =>
    case Mark(_, _, rest) => RecordedIsNumbered(rest, d, parent, next, start);
    case Call(_, inner, _, _, rest) =>
      if d < MAX_DEPTH {
        RecordedIsNumbered(inner, d + 1, next + 1, next + 1, start);
        RecordedIsNumbered(rest, d, parent, next + 1 + Size(Recorded(inner, d + 1, next + 1, next + 1, start)), start);
      } else {
        RecordedIsNumbered(rest, d, parent, next, start);
      }
  }

  lemma {:induction false} TimesGrow(strict: bool, run: Run, from: nat)
    requires Clocked(strict, run, from)
    ensures from <= EndTime(run, from)
  {
    match run
    case Done =>
    case Mark(at, _, rest) => TimesGrow(strict, rest, at);
    case Call(e, inner, x, _, rest) => TimesGrow(strict, inner, e); TimesGrow(strict, rest, x);
  }

  lemma {:induction false} TimedWiden(f: Forest, lo: nat, hi: nat, lo': nat, hi': nat)
    requires Timed(f, lo, hi) && lo' <= lo && hi <= hi'
    ensures Timed(f, lo', hi')
  {
    match f
    case Nil =>
    case Cons(x, _, rest) => TimedWiden(rest, x.exit, hi, x.exit, hi');
  }

  lemma {:induction false} RecordedIsTimed(strict: bool, run: Run, d: nat, parent: nat, next: nat, start: nat, from: nat)
    requires Clocked(strict, run, from)
    ensures Timed(Recorded(run, d, parent, next, start), Since(start, from), Since(start, EndTime(run, from)))
    decreases run
  {
    match run
    case Done =>
    case Mark(at, _, rest) =>
      RecordedIsTimed(strict, rest, d, parent, next, start, at);
      TimesGrow(strict, rest, at);
      TimedWiden(Recorded(rest, d, parent, next, start), Since(start, at), Since(start, EndTime(rest, at)), Since(start, from), Since(start, EndTime(rest, at)));
    case Call(e, inner, x, _, rest) =>
      TimesGrow(strict, inner, e);
      TimesGrow(strict, rest, x);
      var end := Since(start, EndTime(rest, x));
      if d < MAX_DEPTH {
        var kids := Recorded(inner, d + 1, next + 1, next + 1, start);
        RecordedIsTimed(strict, inner, d + 1, next + 1, next + 1, start, e);
        TimedWiden(kids, Since(start, e), Since(start, EndTime(inner, e)), Since(start, e), Since(start, x));
        RecordedIsTimed(strict, rest, d, parent, next + 1 + Size(kids), start, x);
      } else {
        RecordedIsTimed(strict, rest, d, parent, next, start, x);
        TimedWiden(Recorded(rest, d, parent, next, start), Since(start, x), end, Since(start, from), end);
      }
  }

  // ---------- events ----------

  /** The frame of `f` running at `t`, or the caller of `f` when none is. */
  ghost function OwnerAt(f: Forest, t: nat, parent: nat): nat {
    match SpanTo(f, t)
    case Some(i) => i
    case None => parent
  }

  /** The events happened in `(lo, hi]`, and those recorded at a tracked depth name the frame running then. */
  ghost predicate Owned(events: seq<Event>, depths: seq<int>, f: Forest, parent: nat, lo: nat, hi: nat) {
    && |events| == |depths|
    && forall i :: 0 <= i < |events| ==>
         lo < events[i].at <= hi
         && (1 <= depths[i] <= MAX_DEPTH ==> events[i].inFrame == OwnerAt(f, events[i].at, parent) && events[i].inFrame > 0)
  }

  lemma {:induction false} NothingRunsYet(run: Run, d: nat, parent: nat, next: nat, start: nat, from: nat, t: nat)
    requires Clocked(true, run, from) && start <= from && t <= Since(start, from)
    ensures SpanTo(Recorded(run, d, parent, next, start), t) == None
  {
    match run
    case Done =>
    case Mark(at, _, rest) => NothingRunsYet(rest, d, parent, next, start, at, t);
    case Call(e, inner, x, _, rest) =>
      TimesGrow(true, inner, e);
      NothingRunsYet(rest, d, parent, if d < MAX_DEPTH then next + 1 + Size(Recorded(inner, d + 1, next + 1, next + 1, start)) else next, start, x, t);
  }

  lemma CallOwned(x: Frame, kids: Forest, rest: Forest, parent: nat, a: seq<Event>, da: seq<int>, b: seq<Event>, db: seq<int>, lo: nat, mid: nat, hi: nat)
    requires Owned(a, da, kids, x.id, x.enter, mid) && Owned(b, db, rest, parent, x.exit, hi)
    requires lo < x.enter <= mid < x.exit <= hi
    ensures Owned(a + b, da + db, Cons(x, kids, rest), parent, lo, hi)
  {
  }

  /** The events a run appends, with the depths they were recorded at. */
  lemma {:induction false} RunEvents(s: State, run: Run, from: nat) returns (new_: seq<Event>)
    requires s.Recording() && s.start <= from && Clocked(true, run, from)
    requires 1 <= s.depth <= MAX_DEPTH ==> ParentSlot(s) > 0
    ensures Exec(s, Ops(run)).events == s.events + new_
    ensures Owned(new_, NoteDepths(Ops(run), s.depth), RecordedBy(s, run), ParentSlot(s),
              Since(s.start, from), Since(s.start, EndTime(run, from)))
    decreases run
  {
    match run
    case Done => new_ := [];
    case Mark(at, checkpoint, rest) =>
      var s1 := NoteStep(s, at, checkpoint);
      ExecAppend(s, [Note(at, checkpoint)], Ops(rest));
      var later := RunEvents(s1, rest, at);
      TimesGrow(true, rest, at);
      NothingRunsYet(rest, s.depth, ParentSlot(s), s.nextFrameId, s.start, at, Since(s.start, at));
      var e := s1.events[|s.events|];
      new_ := [e] + later;
      EventsJoin(s.events, [e], later);
      assert Ops(run)[1..] == Ops(rest);
      MarkOwned(e, s.depth, later, NoteDepths(Ops(rest), s.depth), RecordedBy(s1, rest), ParentSlot(s),
                Since(s.start, from), Since(s.start, EndTime(rest, at)));
    case Call(e, inner, x, fn, rest) =>
      new_ := CallEvents(s, e, inner, x, fn, rest, from);
  }

  lemma MarkOwned(e: Event, d: nat, later: seq<Event>, depths: seq<int>, f: Forest, parent: nat, lo: nat, hi: nat)
    requires lo < e.at <= hi && Owned(later, depths, f, parent, e.at, hi)
    requires 1 <= d <= MAX_DEPTH ==> e.inFrame == parent > 0 && SpanTo(f, e.at) == None
    ensures Owned([e] + later, [d] + depths, f, parent, lo, hi)
  {
  }

  /** The recorded forest of a call, in terms of the states its parts start from. */
  lemma CallRecorded(s: State, e: nat, inner: Run, x: nat, fn: Func, rest: Run, s1: State, s2: State, s3: State)
    requires s.Recording() && s1 == BeginStep(s, e) && Leaves(s1, inner, s2) && s3 == EndStep(s2, x, fn)
    ensures s1.Recording() && s1.start == s.start && s1.depth == s.depth + 1
    ensures s3.Recording() && s3.start == s.start && s3.depth == s.depth && ParentSlot(s3) == ParentSlot(s)
    ensures s.depth < MAX_DEPTH ==>
              RecordedBy(s, Call(e, inner, x, fn, rest)) ==
              Cons(Frame(ParentSlot(s1), ParentSlot(s), Since(s.start, e), Since(s.start, x), s.depth + 1, fn.file, fn.line),
                   RecordedBy(s1, inner), RecordedBy(s3, rest))
    ensures s.depth >= MAX_DEPTH ==> RecordedBy(s, Call(e, inner, x, fn, rest)) == RecordedBy(s3, rest)
  {
    var d := s.depth;
    if 0 < d <= MAX_DEPTH {
      assert s2.frameIdAt[d - 1] == s1.frameIdAt[d - 1] == s.frameIdAt[d - 1];
    }
    if d >= MAX_DEPTH {
      RecordedBelowCap(inner, d + 1, ParentSlot(s1), s1.nextFrameId, s.start);
      RecordedBelowCap(rest, d, ParentSlot(s), s.nextFrameId, s.start);
    }
  }

  lemma {:induction false} CallEvents(s: State, e: nat, inner: Run, x: nat, fn: Func, rest: Run, from: nat) returns (new_: seq<Event>)
    requires s.Recording() && s.start <= from && Clocked(true, Call(e, inner, x, fn, rest), from)
    requires 1 <= s.depth <= MAX_DEPTH ==> ParentSlot(s) > 0
    ensures Exec(s, Ops(Call(e, inner, x, fn, rest))).events == s.events + new_
    ensures Owned(new_, NoteDepths(Ops(Call(e, inner, x, fn, rest)), s.depth), RecordedBy(s, Call(e, inner, x, fn, rest)), ParentSlot(s),
              Since(s.start, from), Since(s.start, EndTime(rest, x)))
    decreases Call(e, inner, x, fn, rest), 0
  {
    var s1, s2, s3 := CallStates(s, e, inner, x, fn, rest);
    RunLeaves(s1, inner);
    CallRecorded(s, e, inner, x, fn, rest, s1, s2, s3);
    TimesGrow(true, inner, e);
    var a := RunEvents(s1, inner, e);
    var b := RunEvents(s3, rest, x);
    new_ := a + b;
    EventsJoin(s.events, a, b);
    CallOwnsEvents(s.depth, s.start, from, e, inner, x, fn, rest, RecordedBy(s, Call(e, inner, x, fn, rest)),
                   RecordedBy(s1, inner), RecordedBy(s3, rest), ParentSlot(s1), ParentSlot(s), a, b);
  }

  /** The events of a call are owned by the forest of the call when those of its parts are. */
  lemma CallOwnsEvents(d: nat, start: nat, from: nat, e: nat, inner: Run, x: nat, fn: Func, rest: Run,
                       f: Forest, kids: Forest, later: Forest, id: nat, parent: nat, a: seq<Event>, b: seq<Event>)
    requires start <= from && Clocked(true, Call(e, inner, x, fn, rest), from)
    requires d < MAX_DEPTH ==> f == Cons(Frame(id, parent, Since(start, e), Since(start, x), d + 1, fn.file, fn.line), kids, later)
    requires d >= MAX_DEPTH ==> f == later
    requires Owned(a, NoteDepths(Ops(inner), d + 1), kids, id, Since(start, e), Since(start, EndTime(inner, e)))
    requires Owned(b, NoteDepths(Ops(rest), d), later, parent, Since(start, x), Since(start, EndTime(rest, x)))
    ensures Owned(a + b, NoteDepths(Ops(Call(e, inner, x, fn, rest)), d), f, parent, Since(start, from), Since(start, EndTime(rest, x)))
  {
    CallDepths(e, inner, x, fn, rest, d);
    TimesGrow(true, inner, e);
    TimesGrow(true, rest, x);
    DepthsAtLeast(inner, d + 1);
    var frame := Frame(id, parent, Since(start, e), Since(start, x), d + 1, fn.file, fn.line);
    EventsOfCall(f, frame, kids, later, parent, a, NoteDepths(Ops(inner), d + 1), b, NoteDepths(Ops(rest), d),
                 Since(start, from), Since(start, EndTime(inner, e)), Since(start, EndTime(rest, x)));
  }

  lemma EventsJoin(s: seq<Event>, a: seq<Event>, b: seq<Event>)
    ensures s + a + b == s + (a + b)
  {
  }

  /** The two ways the events of a call combine: under a recorded frame, or past the depth cap. */
  lemma EventsOfCall(f: Forest, x: Frame, kids: Forest, rest: Forest, parent: nat,
                     a: seq<Event>, da: seq<int>, b: seq<Event>, db: seq<int>, lo: nat, mid: nat, hi: nat)
    requires Owned(a, da, kids, x.id, x.enter, mid) && Owned(b, db, rest, parent, x.exit, hi)
    requires lo < x.enter <= mid < x.exit <= hi
    requires f == Cons(x, kids, rest) || (f == rest && forall i :: 0 <= i < |da| ==> da[i] > MAX_DEPTH)
    ensures Owned(a + b, da + db, f, parent, lo, hi)
  {
    if f == Cons(x, kids, rest) {
      CallOwned(x, kids, rest, parent, a, da, b, db, lo, mid, hi);
    }
  }

  lemma CallDepths(e: nat, inner: Run, x: nat, fn: Func, rest: Run, d: int)
    ensures NoteDepths(Ops(Call(e, inner, x, fn, rest)), d) == NoteDepths(Ops(inner), d + 1) + NoteDepths(Ops(rest), d)
  {
    var a, b, c := [Enter(e)], Ops(inner), [Leave(x, fn)];
    RunHeight(inner);
    NoteDepthsAppend(a + b + c, Ops(rest), d);
    NoteDepthsAppend(a + b, c, d);
    NoteDepthsAppend(a, b, d);
    HeightAppend(a + b, c);
    HeightAppend(a, b);
  }

  /** Inside a run the depth never drops below where it started. */
  lemma {:induction false} DepthsAtLeast(run: Run, d: int)
    ensures forall i :: 0 <= i < |NoteDepths(Ops(run), d)| ==> NoteDepths(Ops(run), d)[i] >= d
  {
    match run
    case Done =>
    case Mark(at, checkpoint, rest) =>
      assert Ops(run)[1..] == Ops(rest);
      DepthsAtLeast(rest, d);
    case Call(e, inner, x, fn, rest) =>
      CallDepths(e, inner, x, fn, rest, d);
      DepthsAtLeast(inner, d + 1);
      DepthsAtLeast(rest, d);
  }

  // ---------- entries ----------

  /** A function entry: when, and at which depth (0 for a root). */
  datatype Entry = Entry(at: nat, depth: nat)

  /** The entries of an op list above the depth cap, in order, starting from depth `d`. */
  function Entries(ops: seq<Op>, d: int): seq<Entry>
    decreases |ops|
  {
    if ops == [] then []
    else if ops[0].Enter? then
      (if 0 <= d < MAX_DEPTH then [Entry(ops[0].at, d)] else []) + Entries(ops[1..], d + 1)
    else Entries(ops[1..], if ops[0].Leave? then d - 1 else d)
  }

  lemma {:induction false} EntriesAppend(a: seq<Op>, b: seq<Op>, d: int)
    ensures Entries(a + b, d) == Entries(a, d) + Entries(b, d + Height(a))
    decreases |a|
  {
    if a == [] {
      assert a + b == b;
    } else {
      assert (a + b)[1..] == a[1..] + b;
      EntriesAppend(a[1..], b, if a[0].Note? then d else if a[0].Enter? then d + 1 else d - 1);
    }
  }

  function PreFrames(f: Forest): seq<Frame> {
    match f
    case Nil => []
    case Cons(x, kids, rest) => [x] + PreFrames(kids) + PreFrames(rest)
  }

  lemma {:induction false} PreFramesIds(f: Forest)
    ensures FrameIds(PreFrames(f)) == PreIds(f)
    ensures forall x :: x in PreFrames(f) <==> x in PostFrames(f)
  {
    match f
    case Nil =>
    case Cons(x, kids, rest) => PreFramesIds(kids); PreFramesIds(rest);
  }

  /** `fs` are the frames of the entries `es`, one for one. */
  ghost predicate FramesOfEntries(fs: seq<Frame>, es: seq<Entry>, start: nat) {
    |fs| == |es| && forall i :: 0 <= i < |fs| ==> fs[i].enter == Since(start, es[i].at) && fs[i].depth == es[i].depth + 1
  }

  /** Walking the recorded forest meets the calls in the order they were entered; only entries past the cap are missing. */
  lemma {:induction false} WalkIsEntryOrder(run: Run, d: nat, parent: nat, next: nat, start: nat)
    ensures FramesOfEntries(PreFrames(Recorded(run, d, parent, next, start)), Entries(Ops(run), d), start)
  {
    match run
    case Done =>
    case Mark(at, checkpoint, rest) =>
      assert Ops(run)[1..] == Ops(rest);
      WalkIsEntryOrder(rest, d, parent, next, start);
    case Call(e, inner, x, fn, rest) =>
      EntriesOfCall(e, inner, x, fn, rest, d);
      WalkIsEntryOrder(inner, d + 1, next + 1, next + 1, start);
      if d < MAX_DEPTH {
        var kids := Recorded(inner, d + 1, next + 1, next + 1, start);
        var later := Recorded(rest, d, parent, next + 1 + Size(kids), start);
        WalkIsEntryOrder(rest, d, parent, next + 1 + Size(kids), start);
        FramesJoin(Recorded(run, d, parent, next, start).frame, Entry(e, d),
                   PreFrames(kids), Entries(Ops(inner), d + 1), PreFrames(later), Entries(Ops(rest), d), start);
      } else {
        RecordedBelowCap(inner, d + 1, next + 1, next + 1, start);
        WalkIsEntryOrder(rest, d, parent, next, start);
      }
  }

  lemma FramesJoin(x: Frame, e: Entry, k: seq<Frame>, ke: seq<Entry>, r: seq<Frame>, re: seq<Entry>, start: nat)
    requires x.enter == Since(start, e.at) && x.depth == e.depth + 1
    requires FramesOfEntries(k, ke, start) && FramesOfEntries(r, re, start)
    ensures FramesOfEntries([x] + k + r, [e] + ke + re, start)
  {
  }

  lemma EntriesOfCall(e: nat, inner: Run, x: nat, fn: Func, rest: Run, d: nat)
    ensures Entries(Ops(Call(e, inner, x, fn, rest)), d) ==
            (if d < MAX_DEPTH then [Entry(e, d)] else []) + Entries(Ops(inner), d + 1) + Entries(Ops(rest), d)
  {
    var a, b, c := [Enter(e)], Ops(inner), [Leave(x, fn)];
    RunHeight(inner);
    EntriesAppend(a + b + c, Ops(rest), d);
    EntriesAppend(a + b, c, d);
    EntriesAppend(a, b, d);
    HeightAppend(a + b, c);
    HeightAppend(a, b);
    assert a[1..] == [] && c[1..] == [];
  }

  lemma {:induction false} StrictSpans(run: Run, d: nat, parent: nat, next: nat, start: nat, from: nat)
    requires Clocked(true, run, from) && start <= from
    ensures forall x :: x in PostFrames(Recorded(run, d, parent, next, start)) ==> x.enter < x.exit
  {
    match run
    case Done =>
    case Mark(at, _, rest) => StrictSpans(rest, d, parent, next, start, at);
    case Call(e, inner, x, _, rest) =>
      TimesGrow(true, inner, e);
      if d < MAX_DEPTH {
        StrictSpans(inner, d + 1, next + 1, next + 1, start, e);
        StrictSpans(rest, d, parent, next + 1 + Size(Recorded(inner, d + 1, next + 1, next + 1, start)), start, x);
      } else {
        StrictSpans(rest, d, parent, next, start, x);
      }
  }
}
