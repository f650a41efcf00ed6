/** The debug session an IDE talks to: request handlers over the replay cursor, the breakpoints,
    the variable handles and the live pause flag. */
module DapSession {
  import opened TraceModel
  import opened TraceIndexing
  import opened Cursor
  import opened DaemonMessages
  import LiveProtocol
  import ExtensionTable

  // ---------- variable handles ----------

  const U32: nat := 0x1_0000_0000

  /** Handle numbers given out, and the frames the current ones stand for. Keys are 32-bit. */
  datatype Handles = Handles(refs: map<nat, nat>, next: nat) {
    function Issue(frameId: nat): Handles {
      Handles(refs[next % U32 := frameId], next + 1)
    }

    function Clear(): Handles {
      Handles(map[], next)
    }

    function Lookup(ref: nat): Option<nat> {
      if ref % U32 in refs then Some(refs[ref % U32]) else None
    }
  }

  /** `scopes` issues a handle; launching, stepping and continuing clear them all. */
  datatype HandleOp = Issued(frameId: nat) | Cleared

  function HandlesAfter(h: Handles, ops: seq<HandleOp>): Handles
    decreases |ops|
  {
    if ops == [] then h
    else HandlesAfter(match ops[0] case Issued(f) => h.Issue(f) case Cleared => h.Clear(), ops[1..])
  }

  /** How many handles the list issues. */
  function IssueCount(ops: seq<HandleOp>): nat
    decreases |ops|
  {
    if ops == [] then 0 else (if ops[0].Issued? then 1 else 0) + IssueCount(ops[1..])
  }

  lemma {:induction false} HandleKept(h: Handles, ref: nat, ops: seq<HandleOp>)
    requires ref < h.next && h.next + IssueCount(ops) <= ref + U32
    ensures HandlesAfter(h, ops).Lookup(ref) == if Cleared in ops then None else h.Lookup(ref)
    decreases |ops|
  {
    if ops != [] {
      var t := match ops[0] case Issued(f) => h.Issue(f) case Cleared => h.Clear();
      if ops[0].Issued? {
        NoWrap(ref, h.next);
      }
      assert ops == [ops[0]] + ops[1..];
      HandleKept(t, ref, ops[1..]);
    }
  }

  lemma NoWrap(a: nat, b: nat)
    requires a < b < a + U32
    ensures a % U32 != b % U32
  {
    assert a == U32 * (a / U32) + a % U32 && b == U32 * (b / U32) + b % U32;
    assert b / U32 > a / U32 ==> U32 * (b / U32) >= U32 * (a / U32) + U32;
  }

  /** A handle stands for the frame it was issued for exactly until the next clearing, and never for another
      frame afterwards, as long as fewer than 2^32 handles are issued in between. */
  lemma HandleLifetime(h: Handles, frameId: nat, ops: seq<HandleOp>)
    requires IssueCount(ops) < 0x1_0000_0000
    ensures HandlesAfter(h.Issue(frameId), ops).Lookup(h.next) == if Cleared in ops then None else Some(frameId)
  {
    HandleKept(h.Issue(frameId), h.next, ops);
  }

  // ---------- what the handlers do to the session ----------

  /** The trace file of a launch. */
  datatype Launched = Missing | Undecodable | Opened(index: TraceIndex)

  /** What the IDE and the extension can observe or change. */
  datatype View = View(index: Option<TraceIndex>, handles: Handles, points: set<(string, nat)>, livePaused: bool, sent: seq<DaemonMsg>) {
    function Answer(ref: nat): Option<Frame> {
      match handles.Lookup(ref)
      case None => None
      case Some(id) => if index.Some? then index.value.FrameById(id) else None
    }

    predicate Knows(frameId: nat) {
      index.Some? && index.value.FrameById(frameId).Some?
    }

    predicate Releases(hasBus: bool, r: Request) {
      r.Resume? && !r.reverse && livePaused && hasBus
    }
  }

  /** What arrives: requests of the IDE, and hits from the extension. */
  datatype Request =
    | Launch(file: Launched)
    | Scopes(frameId: nat)
    | Variables(ref: nat)
    | Resume(reverse: bool)
    | Move(kind: StepKind)
    | SetPoints(path: string, lines: seq<nat>)
    | Hit

  function Handled(v: View, hasBus: bool, r: Request): View {
    match r
    case Launch(Opened(index)) => v.(index := Some(index), handles := v.handles.Clear())
    case Launch(_) => v
    case Scopes(id) => if v.Knows(id) then v.(handles := v.handles.Issue(id)) else v
    case Variables(_) => v
    case Resume(_) =>
      if v.Releases(hasBus, r) then v.(handles := v.handles.Clear(), livePaused := false, sent := v.sent + [Continue])
      else v.(handles := v.handles.Clear())
    case Move(_) => v.(handles := v.handles.Clear())
    case SetPoints(path, lines) =>
      v.(points := LiveProtocol.SetPoints(v.points, path, lines), sent := v.sent + if hasBus then [SetBreakpoints(path, lines)] else [])
    case Hit => v.(livePaused := true)
  }

  function HandledAll(v: View, hasBus: bool, rs: seq<Request>): View
    decreases |rs|
  {
    if rs == [] then v else HandledAll(Handled(v, hasBus, rs[0]), hasBus, rs[1..])
  }

  // ---------- handles over whole sessions ----------

  /** Launching a trace, continuing and stepping clear the handles. */
  predicate Clears(r: Request) {
    r.Resume? || r.Move? || (r.Launch? && r.file.Opened?)
  }

  function HandleOpOf(v: View, r: Request): seq<HandleOp> {
    if Clears(r) then [Cleared] else if r.Scopes? && v.Knows(r.frameId) then [Issued(r.frameId)] else []
  }

  function HandleOps(v: View, hasBus: bool, rs: seq<Request>): seq<HandleOp>
    decreases |rs|
  {
    if rs == [] then [] else HandleOpOf(v, rs[0]) + HandleOps(Handled(v, hasBus, rs[0]), hasBus, rs[1..])
  }

  function ScopesCount(rs: seq<Request>): nat
    decreases |rs|
  {
    if rs == [] then 0 else (if rs[0].Scopes? then 1 else 0) + ScopesCount(rs[1..])
  }

  ghost predicate SomeClears(rs: seq<Request>) {
    exists i :: 0 <= i < |rs| && Clears(rs[i])
  }

  lemma ClearsSplits(rs: seq<Request>)
    requires rs != []
    ensures SomeClears(rs) <==> Clears(rs[0]) || SomeClears(rs[1..])
  {
    if i :| 0 <= i < |rs| && Clears(rs[i]) {
      assert i > 0 ==> rs[1..][i - 1] == rs[i];
    }
    if i :| 0 <= i < |rs[1..]| && Clears(rs[1..][i]) {
      assert rs[i + 1] == rs[1..][i];
    }
  }

  lemma RequestHandles(v: View, hasBus: bool, r: Request)
    ensures Handled(v, hasBus, r).handles == HandlesAfter(v.handles, HandleOpOf(v, r))
    ensures Cleared in HandleOpOf(v, r) <==> Clears(r)
    ensures |HandleOpOf(v, r)| <= 1 && IssueCount(HandleOpOf(v, r)) <= if r.Scopes? then 1 else 0
    ensures !Clears(r) ==> Handled(v, hasBus, r).index == v.index
  {
  }

  lemma AtMostOneMore(h: Handles, a: seq<HandleOp>, b: seq<HandleOp>)
    requires |a| <= 1
    ensures HandlesAfter(h, a + b) == HandlesAfter(HandlesAfter(h, a), b)
    ensures IssueCount(a + b) == IssueCount(a) + IssueCount(b)
  {
    if a == [] {
      assert a + b == b;
    } else {
      assert (a + b)[1..] == b && a[1..] == [];
    }
  }

  /** The handles of a session go through its handle operations, and the trace stays until something clears them. */
  lemma {:induction false} SessionHandles(v: View, hasBus: bool, rs: seq<Request>)
    ensures HandledAll(v, hasBus, rs).handles == HandlesAfter(v.handles, HandleOps(v, hasBus, rs))
    ensures Cleared in HandleOps(v, hasBus, rs) <==> SomeClears(rs)
    ensures IssueCount(HandleOps(v, hasBus, rs)) <= ScopesCount(rs)
    ensures !SomeClears(rs) ==> HandledAll(v, hasBus, rs).index == v.index
    decreases |rs|
  {
    if rs != [] {
      var w := Handled(v, hasBus, rs[0]);
      var more := HandleOps(w, hasBus, rs[1..]);
      ClearsSplits(rs);
      SessionHandles(w, hasBus, rs[1..]);
      RequestHandles(v, hasBus, rs[0]);
      AtMostOneMore(v.handles, HandleOpOf(v, rs[0]), more);
    }
  }

  /** A handle from `scopes` answers `variables` with the frame it was issued for until something clears the handles,
      and with nothing from then on, as long as fewer than 2^32 scopes are asked for. */
  lemma ScopesAnswer(v: View, hasBus: bool, frameId: nat, rs: seq<Request>)
    requires v.Knows(frameId) && ScopesCount(rs) < 0x1_0000_0000
    ensures HandledAll(Handled(v, hasBus, Scopes(frameId)), hasBus, rs).Answer(v.handles.next)
            == if exists i :: 0 <= i < |rs| && (rs[i].Resume? || rs[i].Move? || (rs[i].Launch? && rs[i].file.Opened?)) then None
               else v.index.value.FrameById(frameId)
  {
    var w := Handled(v, hasBus, Scopes(frameId));
    SessionHandles(w, hasBus, rs);
    HandleLifetime(v.handles, frameId, HandleOps(w, hasBus, rs));
  }

  // ---------- the handlers are steps of the live protocol ----------

  /** The protocol state `s` has this session in it. */
  ghost predicate Shows(v: View, s: LiveProtocol.State) {
    v.points == s.points && v.livePaused == s.livePaused && !s.releasing
  }

  /** The protocol steps a request comes down to, on a session with a bus. */
  function StepsOf(v: View, r: Request): seq<LiveProtocol.Action> {
    match r
    case SetPoints(path, lines) => [LiveProtocol.SetLines(path, lines)]
    case Resume(_) => if v.Releases(true, r) then [LiveProtocol.SendContinue, LiveProtocol.ClearPaused] else []
    case Hit => [LiveProtocol.DeliverHit]
    case _ => []
  }

  lemma OneStep(s: LiveProtocol.State, a: LiveProtocol.Action)
    requires LiveProtocol.Enabled(s, a)
    ensures LiveProtocol.IsRun(s, [a]) && LiveProtocol.After(s, [a]) == LiveProtocol.Next(s, a)
  {
    assert [a][1..] == [];
  }

  lemma TwoSteps(s: LiveProtocol.State, a: LiveProtocol.Action, b: LiveProtocol.Action)
    requires LiveProtocol.Enabled(s, a) && LiveProtocol.Enabled(LiveProtocol.Next(s, a), b)
    ensures LiveProtocol.IsRun(s, [a, b]) && LiveProtocol.After(s, [a, b]) == LiveProtocol.Next(LiveProtocol.Next(s, a), b)
  {
    OneStep(LiveProtocol.Next(s, a), b);
    assert [a, b][1..] == [b];
  }

  /** `v` to `w` and `s` to `t` hand over the same messages. */
  ghost predicate SameMessages(v: View, w: View, s: LiveProtocol.State, t: LiveProtocol.State) {
    exists ms: seq<DaemonMsg> :: w.sent == v.sent + ms && t.queue == s.queue + ms
  }

  /** Every handler does to session and queue what its protocol steps do. */
  lemma HandlersRefine(v: View, r: Request, s: LiveProtocol.State)
    requires Shows(v, s) && |s.table| <= ExtensionTable.MAX_BREAKPOINTS && (r.Hit? ==> s.hits > 0)
    ensures LiveProtocol.IsRun(s, StepsOf(v, r))
    ensures var w, t := Handled(v, true, r), LiveProtocol.After(s, StepsOf(v, r));
            Shows(w, t) && SameMessages(v, w, s, t) && t.table == s.table && t.paused == s.paused
  {
    var w := Handled(v, true, r);
    match r
    case SetPoints(path, lines) =>
      OneStep(s, LiveProtocol.SetLines(path, lines));
      var m := [SetBreakpoints(path, lines)];
      assert w.sent == v.sent + m;
    case Resume(_) =>
      if v.Releases(true, r) {
        TwoSteps(s, LiveProtocol.SendContinue, LiveProtocol.ClearPaused);
        assert w.sent == v.sent + [Continue];
      } else {
        assert w.sent == v.sent + [] && s.queue == s.queue + [];
      }
    case Hit =>
      OneStep(s, LiveProtocol.DeliverHit);
      assert w.sent == v.sent + [] && s.queue == s.queue + [];
    case _ =>
      assert w.sent == v.sent + [] && s.queue == s.queue + [];
  }

  // ---------- the session ----------

  datatype Out = Response(seqNo: nat, requestSeq: nat, success: bool) | Notice(seqNo: nat, name: string)

  class Session {
    var cursor: ReplayCursor?
    var breakpoints: BreakpointSet
    var handles: Handles
    var livePaused: bool
    var outSeq: nat
    var out: seq<Out>            // written to the IDE
    const hasBus: bool
    var sent: seq<DaemonMsg>     // handed to the bus for the extension

    /** What has been written carries the sequence numbers 1, 2, 3, ... */
    ghost predicate Valid() reads this, cursor {
      && outSeq == |out| + 1
      && (forall i :: 0 <= i < |out| ==> out[i].seqNo == i + 1)
      && (cursor != null ==> cursor.Valid())
    }

    ghost function Now(): View reads this {
      View(if cursor == null then None else Some(cursor.index), handles, breakpoints.points, livePaused, sent)
    }

    constructor (hasBus: bool)
      ensures Valid() && this.hasBus == hasBus && cursor == null && breakpoints.points == {} && !livePaused
      ensures handles == Handles(map[], 1000) && out == [] && sent == []
    {
      cursor := null;
      breakpoints := BreakpointSet({});
      handles := Handles(map[], 1000);
      livePaused := false;
      outSeq, out := 1, [];
      this.hasBus := hasBus;
      sent := [];
    }

    method WriteResponse(requestSeq: nat, success: bool)
      requires Valid()
      modifies this`out, this`outSeq
      ensures Valid() && out == old(out) + [Response(|old(out)| + 1, requestSeq, success)]
    {
      out := out + [Response(outSeq, requestSeq, success)];
      outSeq := outSeq + 1;
    }

    method WriteEvent(name: string)
      requires Valid()
      modifies this`out, this`outSeq
      ensures Valid() && out == old(out) + [Notice(|old(out)| + 1, name)]
    {
      out := out + [Notice(outSeq, name)];
      outSeq := outSeq + 1;
    }

    /** `launch`: with a trace that opened, the cursor starts at its first frame. A file that is there and cannot be
        decoded ends the session without an answer. */
    method OnLaunch(requestSeq: nat, file: Launched) returns (alive: bool)
      requires Valid() && (file.Opened? ==> PositionsInWalk(file.index))
      modifies this`cursor, this`handles, this`out, this`outSeq
      ensures Valid() && Now() == Handled(old(Now()), hasBus, Launch(file)) && alive == !file.Undecodable?
      ensures file.Opened? ==> cursor != null && fresh(cursor) && cursor.index == file.index && cursor.pos == 0
      ensures !file.Opened? ==> cursor == old(cursor)
      ensures out == old(out) + match file
                                case Missing => [Response(|old(out)| + 1, requestSeq, false)]
                                case Undecodable => []
                                case Opened(_) => [Response(|old(out)| + 1, requestSeq, true), Notice(|old(out)| + 2, "stopped")]
    {
      match file
      case Missing =>
        WriteResponse(requestSeq, false);
        return true;
      case Undecodable =>
        assert out + [] == out;
        return false;
      case Opened(index) =>
        var c := new ReplayCursor(index);
        cursor := c;
        handles := handles.Clear();
        WriteResponse(requestSeq, true);
        WriteEvent("stopped");
        return true;
    }

    method OnScopes(requestSeq: nat, frameId: nat) returns (ref: Option<nat>)
      requires Valid()
      modifies this`handles, this`out, this`outSeq
      ensures Valid()
      ensures ref.Some? <==> cursor != null && cursor.index.FrameById(frameId).Some?
      ensures ref.Some? ==> ref.value == old(handles).next && handles.next == old(handles).next + 1
      ensures ref.Some? ==> handles.refs == old(handles).refs[old(handles).next % 0x1_0000_0000 := frameId]
      ensures Now() == Handled(old(Now()), hasBus, Scopes(frameId))
      ensures out == old(out) + [Response(|old(out)| + 1, requestSeq, ref.Some?)]
    {
      if cursor == null || cursor.index.FrameById(frameId).None? {
        WriteResponse(requestSeq, false);
        return None;
      }
      ref := Some(handles.next);
      handles := handles.Issue(frameId);
      WriteResponse(requestSeq, true);
    }

    method OnVariables(requestSeq: nat, ref: nat) returns (frame: Option<Frame>)
      requires Valid()
      modifies this`out, this`outSeq
      ensures Valid()
      ensures frame == Now().Answer(ref) && Now() == Handled(old(Now()), hasBus, Variables(ref))
      ensures out == old(out) + [Response(|old(out)| + 1, requestSeq, true)]
    {
      var id := handles.Lookup(ref);
      frame := if id.Some? && cursor != null then cursor.index.FrameById(id.value) else None;
      WriteResponse(requestSeq, true);
    }

    /** `continue` and `reverseContinue`, run without a hit being delivered in between. */
    method OnContinue(requestSeq: nat, reverse: bool) returns (live: bool)
      requires Valid()
      modifies this`livePaused, this`handles, this`sent, this`out, this`outSeq, cursor
      ensures Valid() && live == (!reverse && old(livePaused) && hasBus)
      ensures Now() == Handled(old(Now()), hasBus, Resume(reverse))
      ensures livePaused == (old(livePaused) && !live) && sent == old(sent) + (if live then [Continue] else []) && handles.refs == map[]
      ensures cursor != null ==> cursor.pos == if live then old(cursor.pos)
                                               else if reverse then ReverseFrom(cursor.index, breakpoints, old(cursor.pos))
                                               else ForwardFrom(cursor.index, breakpoints, old(cursor.pos))
      ensures out == old(out) + [Response(|old(out)| + 1, requestSeq, true), Notice(|old(out)| + 2, if live then "continued" else "stopped")]
    {
      live := !reverse && livePaused && hasBus;
      if live {
        sent := sent + [Continue];
        livePaused := false;
      } else if cursor != null {
        var id;
        if reverse {
          id := cursor.ReverseContinue(breakpoints);
        } else {
          id := cursor.ForwardContinue(breakpoints);
        }
      }
      handles := handles.Clear();
      WriteResponse(requestSeq, true);
      WriteEvent(if live then "continued" else "stopped");
    }

    method OnStep(requestSeq: nat, kind: StepKind)
      requires Valid()
      modifies this`handles, this`out, this`outSeq, cursor
      ensures Valid() && Now() == Handled(old(Now()), hasBus, Move(kind))
      ensures handles.refs == map[] && handles.next == old(handles).next
      ensures cursor != null && kind == In ==>
                cursor.pos == if old(cursor.pos) + 1 < |cursor.index.preorder| then old(cursor.pos) + 1 else old(cursor.pos)
      ensures cursor != null && kind == Over ==> cursor.pos == OverFrom(cursor.index, old(cursor.pos))
      ensures cursor != null && kind == Out ==> cursor.pos == OutFrom(cursor.index, old(cursor.pos))
      ensures cursor != null && kind == Back ==> cursor.pos == if old(cursor.pos) > 0 then old(cursor.pos) - 1 else 0
      ensures out == old(out) + [Response(|old(out)| + 1, requestSeq, true), Notice(|old(out)| + 2, "stopped")]
    {
      if cursor != null {
        var id := cursor.Step(kind);
      }
      handles := handles.Clear();
      WriteResponse(requestSeq, true);
      WriteEvent("stopped");
    }

    /** Replaces the breakpoints of one file, here and in the extension. */
    method OnSetBreakpoints(requestSeq: nat, path: string, lines: seq<nat>)
      requires Valid()
      modifies this`breakpoints, this`sent, this`out, this`outSeq
      ensures Valid()
      ensures Now() == Handled(old(Now()), hasBus, SetPoints(path, lines))
      ensures forall f: string, l: nat :: (f, l) in breakpoints.points <==> if f == path then l in lines else (f, l) in old(breakpoints).points
      ensures sent == old(sent) + (if hasBus then [SetBreakpoints(path, lines)] else [])
      ensures out == old(out) + [Response(|old(out)| + 1, requestSeq, true)]
    {
      var points := set p | p in breakpoints.points && p.0 != path;
      ghost var kept := points;
      for i := 0 to |lines|
        invariant points == kept + set l | l in lines[..i] :: (path, l)
      {
        assert lines[..i + 1] == lines[..i] + [lines[i]];
        points := points + {(path, lines[i])};
      }
      assert lines[..|lines|] == lines;
      breakpoints := BreakpointSet(points);
      if hasBus {
        sent := sent + [SetBreakpoints(path, lines)];
      }
      WriteResponse(requestSeq, true);
    }

    /** The bus listener and the event it asks for. */
    method OnBreakpointHit()
      requires Valid()
      modifies this`livePaused, this`out, this`outSeq
      ensures Valid() && Now() == Handled(old(Now()), hasBus, Hit) && livePaused && out == old(out) + [Notice(|old(out)| + 1, "stopped")]
    {
      livePaused := true;
      WriteEvent("stopped");
    }
  }
}
