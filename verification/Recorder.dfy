/** The recorder inside the PHP process: a depth counter, per-depth arrays of ids and enter times,
    and the trace that finished frames and events are appended to. */
module Recorder {
  import opened TraceModel

  const MAX_DEPTH: nat := 4096

  /** File and enter line of the observed function. */
  datatype Func = Func(file: string, line: nat)

  /** What the engine and user code call: function entry, function exit, an event, each at a clock reading. */
  datatype Op =
    | Enter(at: nat)
    | Leave(at: nat, fn: Func)
    | Note(at: nat, checkpoint: bool)

  datatype State = State(
    enabled: bool, tracing: bool, start: nat,
    depth: nat, nextFrameId: nat, enterUs: seq<nat>, frameIdAt: seq<nat>,
    nextEventId: nat, nextCheckpointId: nat,
    frames: seq<Frame>, events: seq<Event>)
  {
    ghost predicate Valid() {
      |enterUs| == MAX_DEPTH && |frameIdAt| == MAX_DEPTH
    }

    ghost predicate Recording() {
      Valid() && enabled && tracing
    }
  }

  function Since(start: nat, now: nat): nat {
    if now > start then now - start else 0
  }

  function BeginStep(s: State, now: nat): State
    requires s.Valid()
  {
    if !s.enabled then s
    else if s.depth < MAX_DEPTH then
      s.(enterUs := s.enterUs[s.depth := now], nextFrameId := s.nextFrameId + 1,
         frameIdAt := s.frameIdAt[s.depth := s.nextFrameId + 1], depth := s.depth + 1)
    else s.(depth := s.depth + 1)
  }

  /** The frame that leaving at depth `d` (counted from 0) writes. */
  function LeftFrame(s: State, d: nat, now: nat, fn: Func): Frame
    requires s.Valid() && d < MAX_DEPTH
  {
    Frame(s.frameIdAt[d], if d > 0 then s.frameIdAt[d - 1] else 0,
          Since(s.start, s.enterUs[d]), Since(s.start, now), d + 1, fn.file, fn.line)
  }

  function EndStep(s: State, now: nat, fn: Func): State
    requires s.Valid()
  {
    if !s.enabled then s
    else
      var d := if s.depth == 0 then 0 else s.depth - 1;
      s.(depth := d, frames := if s.tracing && d < MAX_DEPTH then s.frames + [LeftFrame(s, d, now, fn)] else s.frames)
  }

  /** The frame id an event gets. With no frame open this is whatever slot 0 last held. */
  function OwnerSlot(s: State): nat
    requires s.Valid()
  {
    var d := if s.depth == 0 then 0 else s.depth - 1;
    if d < MAX_DEPTH then s.frameIdAt[d] else 0
  }

  function NoteStep(s: State, now: nat, checkpoint: bool): State
    requires s.Valid()
  {
    if !s.tracing || !s.enabled then s
    else
      var id := if checkpoint then s.nextCheckpointId else s.nextEventId;
      var e := Event(id, Since(s.start, now), OwnerSlot(s));
      if checkpoint then s.(nextCheckpointId := id + 1, events := s.events + [e])
      else s.(nextEventId := id + 1, events := s.events + [e])
  }

  /** Request start. The per-depth arrays and the event counters keep their old contents. */
  function InitStep(s: State, now: nat, enabled: bool, tracing: bool): State {
    s.(enabled := enabled, tracing := tracing && enabled, start := now, depth := 0, nextFrameId := 0, frames := [], events := [])
  }

  function Apply(s: State, op: Op): State
    requires s.Valid()
  {
    match op
    case Enter(at) => BeginStep(s, at)
    case Leave(at, fn) => EndStep(s, at, fn)
    case Note(at, checkpoint) => NoteStep(s, at, checkpoint)
  }

  function Exec(s: State, ops: seq<Op>): (r: State)
    requires s.Valid()
    ensures r.Valid()
    decreases |ops|
  {
    if ops == [] then s else Exec(Apply(s, ops[0]), ops[1..])
  }

  lemma {:induction false} ExecAppend(s: State, a: seq<Op>, b: seq<Op>)
    requires s.Valid()
    ensures Exec(s, a + b) == Exec(Exec(s, a), b)
    decreases |a|
  {
    if a == [] {
      assert a + b == b;
    } else {
      assert (a + b)[1..] == a[1..] + b;
      ExecAppend(Apply(s, a[0]), a[1..], b);
    }
  }

  /** The module globals, updated in place. */
  class Globals {
    var enabled: bool
    var trace: bool
    var requestStart: nat
    var depth: nat
    var nextFrameId: nat
    const enterUs: array<nat>
    const frameIdAt: array<nat>
    var nextEventId: nat
    var nextCheckpointId: nat
    var frames: seq<Frame>
    var events: seq<Event>

    ghost predicate Valid() reads this {
      enterUs.Length == MAX_DEPTH && frameIdAt.Length == MAX_DEPTH && enterUs != frameIdAt
    }

    ghost function Contents(): (s: State)
      requires Valid()
      reads this, enterUs, frameIdAt
      ensures s.Valid()
    {
      State(enabled, trace, requestStart, depth, nextFrameId, enterUs[..], frameIdAt[..], nextEventId, nextCheckpointId, frames, events)
    }

    constructor ()
      ensures Valid() && fresh(enterUs) && fresh(frameIdAt)
      ensures Contents().depth == 0 && Contents().frameIdAt == seq(MAX_DEPTH, _ => 0)
      ensures nextEventId == 1 && nextCheckpointId == 1
    {
      enabled, trace, requestStart, depth, nextFrameId := true, false, 0, 0, 0;
      enterUs := new nat[MAX_DEPTH](_ => 0);
      frameIdAt := new nat[MAX_DEPTH](_ => 0);
      nextEventId, nextCheckpointId := 1, 1;
      frames, events := [], [];
    }

    method RequestInit(now: nat, enabledNow: bool, traceOpened: bool)
      requires Valid()
      modifies this
      ensures Valid() && Contents() == InitStep(old(Contents()), now, enabledNow, traceOpened)
    {
      depth := 0;
      nextFrameId := 0;
      requestStart := now;
      enabled := enabledNow;
      trace := traceOpened && enabledNow;
      frames, events := [], [];
    }

    method FcallBegin(now: nat)
      requires Valid()
      modifies this, enterUs, frameIdAt
      ensures Valid() && Contents() == Apply(old(Contents()), Enter(now))
    {
      if !enabled { return; }
      var d := depth;
      if d < MAX_DEPTH {
        enterUs[d] := now;
        nextFrameId := nextFrameId + 1;
        frameIdAt[d] := nextFrameId;
      }
      depth := d + 1;
    }

    method FcallEnd(now: nat, fn: Func)
      requires Valid()
      modifies this
      ensures Valid() && Contents() == Apply(old(Contents()), Leave(now, fn))
    {
      if !enabled { return; }
      var d: int := depth - 1;
      if d < 0 { d := 0; }
      depth := d;
      if trace && d < MAX_DEPTH {
        var parentId := if d > 0 then frameIdAt[d - 1] else 0;
        frames := frames + [Frame(frameIdAt[d], parentId, Since(requestStart, enterUs[d]), Since(requestStart, now), d + 1, fn.file, fn.line)];
      }
    }

    /** An event; a payload that cannot be encoded as JSON is refused. */
    method RecordEvent(now: nat, encodes: bool) returns (ok: bool)
      requires Valid()
      modifies this
      ensures Valid() && ok == (old(trace) && old(enabled) && encodes)
      ensures Contents() == if encodes then Apply(old(Contents()), Note(now, false)) else old(Contents())
    {
      if !trace || !enabled { return false; }
      if !encodes { return false; }
      var id := nextEventId;
      nextEventId := nextEventId + 1;
      var d: int := depth - 1;
      if d < 0 { d := 0; }
      var inFrame := if d < MAX_DEPTH then frameIdAt[d] else 0;
      events := events + [Event(id, Since(requestStart, now), inFrame)];
      return true;
    }

    method Checkpoint(now: nat, encodes: bool) returns (ok: bool)
      requires Valid()
      modifies this
      ensures Valid() && ok == (old(trace) && old(enabled) && encodes)
      ensures Contents() == if encodes then Apply(old(Contents()), Note(now, true)) else old(Contents())
    {
      if !trace || !enabled { return false; }
      if !encodes { return false; }
      var id := nextCheckpointId;
      nextCheckpointId := nextCheckpointId + 1;
      var d: int := depth - 1;
      if d < 0 { d := 0; }
      var inFrame := if d < MAX_DEPTH then frameIdAt[d] else 0;
      events := events + [Event(id, Since(requestStart, now), inFrame)];
      return true;
    }
  }
}
