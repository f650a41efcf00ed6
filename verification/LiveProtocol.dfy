/** The live breakpoint protocol as a transition system: the IDE session, the queue of messages to the
    one extension, the hits on their way back, and the extension's table and pause. */
module LiveProtocol {
  import opened DaemonMessages
  import opened WireRoundTrip
  import opened ExtensionTable
  import opened ExtensionLink
  import opened Framing

  datatype State = State(
    points: set<(string, nat)>,  // the session's breakpoints
    livePaused: bool,            // the session knows of a paused extension
    releasing: bool,             // between sending Continue and clearing livePaused
    queue: seq<DaemonMsg>,       // sent to the extension, not read yet
    hits: nat,                   // BreakpointHit messages not seen by the session yet
    table: seq<Breakpoint>,      // the extension's table
    paused: bool)                // the extension blocks in its pause loop

  const START: State := State({}, false, false, [], 0, [], false)

  datatype Action =
    | SetLines(file: string, lines: seq<nat>)                // IDE: setBreakpoints
    | SendContinue                                           // IDE: continue while livePaused, first half
    | ClearPaused                                            // second half
    | DeliverHit                                             // the bus listener sees a hit
    | EnterCall(drained: nat, file: string, line: nat)       // extension: function entry, reading `drained` messages
    | ReadPaused                                             // extension: one message in the pause loop

  ghost predicate Enabled(s: State, a: Action) {
    && |s.table| <= MAX_BREAKPOINTS
    && match a
       case SetLines(_, _) => !s.releasing
       case SendContinue => !s.releasing && s.livePaused
       case ClearPaused => s.releasing
       case DeliverHit => s.hits > 0
       case EnterCall(k, _, _) => !s.paused && k <= 32 && k <= |s.queue|
       case ReadPaused => s.paused && s.queue != []
  }

  /** The session's own update: drop the file's points, then add the new ones. */
  function SetPoints(points: set<(string, nat)>, file: string, lines: seq<nat>): set<(string, nat)> {
    (set p | p in points && p.0 != file) + (set l | l in lines :: (file, l))
  }

  ghost function Next(s: State, a: Action): State
    requires Enabled(s, a)
  {
    match a
    case SetLines(file, lines) =>
      s.(points := SetPoints(s.points, file, lines), queue := s.queue + [SetBreakpoints(file, lines)])
    case SendContinue => s.(queue := s.queue + [Continue], releasing := true)
    case ClearPaused => s.(livePaused := false, releasing := false)
    case DeliverHit => s.(hits := s.hits - 1, livePaused := true)
    case EnterCall(k, file, line) =>
      var t := s.(table := ApplyAll(s.table, s.queue[..k]), queue := s.queue[k..]);
      if Breakpoint(file, line) in t.table then t.(hits := t.hits + 1, paused := true) else t
    case ReadPaused =>
      if s.queue[0] == Continue then s.(queue := s.queue[1..], paused := false)
      else s.(table := ApplyAll(s.table, s.queue[..1]), queue := s.queue[1..])
  }

  // ---------- the pause handshake ----------

  function Continues(queue: seq<DaemonMsg>): nat {
    if queue == [] then 0 else (if queue[0] == Continue then 1 else 0) + Continues(queue[1..])
  }

  /** Hits in flight, a session that knows of the pause, and queued Continues: what can still release the extension. */
  function Pending(s: State): nat {
    s.hits + (if s.livePaused && !s.releasing then 1 else 0) + Continues(s.queue)
  }

  /** The extension waits exactly when one and only one thing is on its way that will release it:
      a hit in flight, a session that knows it is paused, or a queued Continue. */
  predicate Handshake(s: State) {
    Pending(s) == if s.paused then 1 else 0
  }

  lemma {:induction false} ContinuesAppend(a: seq<DaemonMsg>, b: seq<DaemonMsg>)
    ensures Continues(a + b) == Continues(a) + Continues(b)
  {
    if a == [] {
      assert a + b == b;
    } else {
      assert (a + b)[1..] == a[1..] + b;
      ContinuesAppend(a[1..], b);
    }
  }

  /** A hit reaches the session between its sending Continue and its clearing `livePaused`. */
  predicate Overtakes(s: State, a: Action) {
    a.DeliverHit? && s.releasing
  }

  /** Every step keeps the handshake, except exactly the overtaking delivery, which breaks it. */
  lemma StepKeepsHandshake(s: State, a: Action)
    requires Handshake(s) && Enabled(s, a)
    ensures Handshake(Next(s, a)) <==> !Overtakes(s, a)
  {
    match a
    case SetLines(file, lines) => ContinuesAppend(s.queue, [SetBreakpoints(file, lines)]);
    case SendContinue => ContinuesAppend(s.queue, [Continue]);
    case EnterCall(k, _, _) =>
      ContinuesAppend(s.queue[..k], s.queue[k..]);
      assert s.queue == s.queue[..k] + s.queue[k..];
    case _ =>
  }

  /** Every action of the list can happen when its turn comes. */
  ghost predicate IsRun(s: State, actions: seq<Action>)
    decreases |actions|
  {
    actions == [] || (Enabled(s, actions[0]) && IsRun(Next(s, actions[0]), actions[1..]))
  }

  ghost function After(s: State, actions: seq<Action>): State
    requires IsRun(s, actions)
    decreases |actions|
  {
    if actions == [] then s else After(Next(s, actions[0]), actions[1..])
  }

  /** The handshake holds in every state of the run. */
  ghost predicate AlwaysHandshake(s: State, actions: seq<Action>)
    requires IsRun(s, actions)
    decreases |actions|
  {
    Handshake(s) && (actions == [] || AlwaysHandshake(Next(s, actions[0]), actions[1..]))
  }

  ghost predicate NothingOvertakes(s: State, actions: seq<Action>)
    requires IsRun(s, actions)
    decreases |actions|
  {
    actions == [] || (!Overtakes(s, actions[0]) && NothingOvertakes(Next(s, actions[0]), actions[1..]))
  }

  /** A run keeps the handshake in every state exactly when no hit overtakes a release. */
  lemma {:induction false} HandshakeIffNotOvertaken(s: State, actions: seq<Action>)
    requires Handshake(s) && IsRun(s, actions)
    ensures AlwaysHandshake(s, actions) <==> NothingOvertakes(s, actions)
    decreases |actions|
  {
    if actions != [] {
      var t := Next(s, actions[0]);
      StepKeepsHandshake(s, actions[0]);
      if Handshake(t) {
        HandshakeIffNotOvertaken(t, actions[1..]);
      } else {
        assert !AlwaysHandshake(t, actions[1..]);
      }
    }
  }

  /** No stale Continue: while the extension runs there is none in the queue to be swallowed. */
  lemma NoStaleContinue(s: State)
    requires Handshake(s) && !s.paused
    ensures Continues(s.queue) == 0 && s.hits == 0
  {
  }

  // ---------- the lost wake-up ----------

  /** The extension waits and nothing is left that could release it. */
  predicate Stuck(s: State) {
    s.paused && s.hits == 0 && !s.livePaused && !s.releasing && Continues(s.queue) == 0
  }

  /** An overtaking delivery leads, with the clearing that follows it, to a stuck extension. */
  lemma OvertakenIsStuck(s: State)
    requires Handshake(s) && Enabled(s, DeliverHit) && s.releasing
    ensures Enabled(Next(s, DeliverHit), ClearPaused) && Stuck(Next(Next(s, DeliverHit), ClearPaused))
  {
  }

  /** Nothing the session, the bus or the extension can do gets it out again. */
  lemma StuckForever(s: State, a: Action)
    requires Stuck(s) && Enabled(s, a)
    ensures Stuck(Next(s, a))
  {
    match a
    case SetLines(file, lines) => ContinuesAppend(s.queue, [SetBreakpoints(file, lines)]);
    case _ =>
  }

  lemma OneBreakpoint()
    ensures ApplyAll([], [SetBreakpoints("a", [1])]) == [Breakpoint("a", 1)]
  {
    var m := SetBreakpoints("a", [1]);
    PrintThenApply([], m);
    assert [m][1..] == [];
    assert [1][..1] == [1];
    TableFits([], Print(m));
    assert ApplyBody([], Print(m)) == Replaced([], "a", [1]) == [] + Entries("a", [1]) == [Breakpoint("a", 1)];
    assert ApplyAll([Breakpoint("a", 1)], []) == [Breakpoint("a", 1)];
  }

  /** From a call paused at the only breakpoint: it is resumed, hits the same breakpoint again, and that hit is
      delivered before the session has cleared `livePaused` for the first one. */
  lemma HitDuringContinue(s: State) returns (actions: seq<Action>)
    requires s.table == [Breakpoint("a", 1)] && s.queue == [] && s.hits == 0 && s.paused && s.livePaused && !s.releasing
    ensures IsRun(s, actions) && Stuck(After(s, actions))
  {
    var s4 := Next(s, SendContinue);
    assert s4.queue == [Continue];
    var s5 := Next(s4, ReadPaused);
    assert s5.queue == [] && !s5.paused && s5.table == s.table;
    assert s5.queue[..0] == [];
    var s6 := Next(s5, EnterCall(0, "a", 1));
    assert s6.paused && s6.hits == 1;
    var s7 := Next(s6, DeliverHit);
    var s8 := Next(s7, ClearPaused);
    assert Stuck(s8);
    actions := [];
    actions := RunCons(s7, ClearPaused, actions);
    actions := RunCons(s6, DeliverHit, actions);
    actions := RunCons(s5, EnterCall(0, "a", 1), actions);
    actions := RunCons(s4, ReadPaused, actions);
    actions := RunCons(s, SendContinue, actions);
  }

  /** It does happen, from the start. */
  lemma LostWakeUp() returns (actions: seq<Action>)
    ensures IsRun(START, actions) && Stuck(After(START, actions))
  {
    var m := SetBreakpoints("a", [1]);
    OneBreakpoint();
    var s1 := Next(START, SetLines("a", [1]));
    assert s1.queue == [m] && [m][..1] == [m] && [m][1..] == [];
    var s2 := Next(s1, EnterCall(1, "a", 1));
    assert s2.table == [Breakpoint("a", 1)] && s2.paused && s2.hits == 1 && s2.queue == [];
    actions := HitDuringContinue(Next(s2, DeliverHit));
    actions := RunCons(s2, DeliverHit, actions);
    actions := RunCons(s1, EnterCall(1, "a", 1), actions);
    actions := RunCons(START, SetLines("a", [1]), actions);
  }

  lemma RunCons(s: State, a: Action, rest: seq<Action>) returns (actions: seq<Action>)
    requires Enabled(s, a) && IsRun(Next(s, a), rest)
    ensures actions == [a] + rest && IsRun(s, actions) && After(s, actions) == After(Next(s, a), rest)
  {
    actions := [a] + rest;
    assert actions[1..] == rest;
  }

  // ---------- replica agreement ----------

  /** What the extension's table will be once it has read everything sent. */
  ghost function Settled(s: State): seq<Breakpoint>
    requires |s.table| <= MAX_BREAKPOINTS
  {
    ApplyAll(s.table, s.queue)
  }

  lemma {:induction false} ApplyAllAppend(table: seq<Breakpoint>, a: seq<DaemonMsg>, b: seq<DaemonMsg>)
    requires |table| <= MAX_BREAKPOINTS
    ensures ApplyAll(table, a + b) == ApplyAll(ApplyAll(table, a), b)
    decreases |a|
  {
    if a == [] {
      assert a + b == b;
    } else {
      assert (a + b)[1..] == a[1..] + b;
      TableFits(table, Print(a[0]));
      ApplyAllAppend(ApplyBody(table, Print(a[0])), a[1..], b);
    }
  }

  function Requests(actions: seq<Action>): seq<DaemonMsg> {
    if actions == [] then []
    else (if actions[0].SetLines? then [SetBreakpoints(actions[0].file, actions[0].lines)] else []) + Requests(actions[1..])
  }

  /** The lists last requested for each file, as one list without any capacity limit, after further requests. */
  function Wanted(before: seq<Breakpoint>, requests: seq<DaemonMsg>): seq<Breakpoint>
    decreases |requests|
  {
    if requests == [] then before
    else
      var m := requests[0];
      Wanted(if m.SetBreakpoints? then Others(before, m.file) + Entries(m.file, m.lines) else before, requests[1..])
  }

  /** Every path survives the wire, no list sent has more than 64 lines, and at every point the lists
      wanted have at most 256 entries in all, repeats counted. */
  ghost predicate WithinLimits(before: seq<Breakpoint>, requests: seq<DaemonMsg>)
    decreases |requests|
  {
    requests == [] ||
    var m := requests[0];
    && m.SetBreakpoints? && Sendable(m) && |Others(before, m.file)| + |m.lines| <= 256
    && WithinLimits(Others(before, m.file) + Entries(m.file, m.lines), requests[1..])
  }

  function PointsOf(bs: seq<Breakpoint>): set<(string, nat)> {
    set b | b in bs :: (b.file, b.line)
  }

  lemma SetPointsIsReplace(bs: seq<Breakpoint>, file: string, lines: seq<nat>)
    ensures SetPoints(PointsOf(bs), file, lines) == PointsOf(Others(bs, file) + Entries(file, lines))
  {
    OthersShorter(bs, file);
    var new_ := Others(bs, file) + Entries(file, lines);
    forall p ensures p in SetPoints(PointsOf(bs), file, lines) <==> p in PointsOf(new_) {
      if p in SetPoints(PointsOf(bs), file, lines) {
        if p.0 != file {
          var b :| b in bs && p == (b.file, b.line);
          assert b in new_;
        } else {
          var i :| 0 <= i < |lines| && p.1 == lines[i];
          assert Entries(file, lines)[i] == Breakpoint(file, lines[i]) && Entries(file, lines)[i] in new_;
        }
      }
      if p in PointsOf(new_) {
        var b :| b in new_ && p == (b.file, b.line);
        if b in Entries(file, lines) {
          var i :| 0 <= i < |lines| && Entries(file, lines)[i] == b;
          assert b.line in lines;
        }
      }
    }
  }

  /** Once everything sent is read the table is `wanted`, and the session has the points of `wanted`. */
  ghost predicate InStep(s: State, wanted: seq<Breakpoint>) {
    |s.table| <= MAX_BREAKPOINTS && Settled(s) == wanted && s.points == PointsOf(wanted)
  }

  lemma SettledAfterSend(s: State, m: DaemonMsg)
    requires |s.table| <= MAX_BREAKPOINTS
    ensures ApplyAll(s.table, s.queue + [m]) == ApplyBody(Settled(s), Print(m))
  {
    ApplyAllAppend(s.table, s.queue, [m]);
    assert [m][1..] == [];
    TableFits(Settled(s), Print(m));
    assert ApplyAll(ApplyBody(Settled(s), Print(m)), []) == ApplyBody(Settled(s), Print(m));
  }

  lemma SettledAfterRead(s: State, k: nat)
    requires |s.table| <= MAX_BREAKPOINTS && k <= |s.queue|
    ensures ApplyAll(ApplyAll(s.table, s.queue[..k]), s.queue[k..]) == Settled(s)
  {
    TwoParts(s.queue, k);
    ApplyAllAppend(s.table, s.queue[..k], s.queue[k..]);
  }

  lemma TwoParts(queue: seq<DaemonMsg>, k: nat)
    requires k <= |queue|
    ensures queue[..k] + queue[k..] == queue
  {
  }

  lemma SetKeepsStep(s: State, file: string, lines: seq<nat>, wanted: seq<Breakpoint>)
    requires InStep(s, wanted) && Enabled(s, SetLines(file, lines))
    requires Sendable(SetBreakpoints(file, lines)) && |Others(wanted, file)| + |lines| <= MAX_BREAKPOINTS
    ensures InStep(Next(s, SetLines(file, lines)), Others(wanted, file) + Entries(file, lines))
  {
    var m := SetBreakpoints(file, lines);
    SettledAfterSend(s, m);
    PrintThenApply(Settled(s), m);
    assert lines[..|lines|] == lines;
    SetPointsIsReplace(wanted, file, lines);
  }

  /** Steps that request nothing change neither the settled table nor the session's points. */
  lemma OthersKeepStep(s: State, a: Action)
    requires Enabled(s, a) && !a.SetLines?
    ensures |Next(s, a).table| <= MAX_BREAKPOINTS && Settled(Next(s, a)) == Settled(s) && Next(s, a).points == s.points
  {
    match a
    case SendContinue =>
      SettledAfterSend(s, Continue);
      PrintThenApply(Settled(s), Continue);
    case EnterCall(k, _, _) => SettledAfterRead(s, k);
    case ReadPaused =>
      SettledAfterRead(s, 1);
      if s.queue[0] == Continue {
        ReadContinue(s);
      }
    case _ =>
  }

  lemma ReadContinue(s: State)
    requires |s.table| <= MAX_BREAKPOINTS && s.queue != [] && s.queue[0] == Continue
    ensures ApplyAll(s.table, s.queue[..1]) == s.table
  {
    PrintThenApply(s.table, Continue);
    assert s.queue[..1] == [Continue] && [Continue][1..] == [];
  }

  /** In every state a run reaches, as long as the requests stay within the limits, the table the extension
      ends up with after reading everything sent is, as a set, exactly the session's breakpoints. */
  lemma {:induction false} ReplicaAgrees(s: State, actions: seq<Action>, wanted: seq<Breakpoint>)
    requires InStep(s, wanted) && IsRun(s, actions) && WithinLimits(wanted, Requests(actions))
    ensures InStep(After(s, actions), Wanted(wanted, Requests(actions)))
    decreases |actions|
  {
    if actions != [] {
      var a, rest := actions[0], Requests(actions[1..]);
      if a.SetLines? {
        assert Requests(actions)[1..] == rest;
        SetKeepsStep(s, a.file, a.lines, wanted);
        ReplicaAgrees(Next(s, a), actions[1..], Others(wanted, a.file) + Entries(a.file, a.lines));
      } else {
        assert Requests(actions) == rest;
        OthersKeepStep(s, a);
        ReplicaAgrees(Next(s, a), actions[1..], wanted);
      }
    }
  }

  /** So from the start, whenever the extension has caught up, it stops on exactly the session's breakpoints. */
  lemma CaughtUpStopsRight(actions: seq<Action>, file: string, line: nat)
    requires IsRun(START, actions) && WithinLimits([], Requests(actions))
    requires After(START, actions).queue == []
    ensures Breakpoint(file, line) in After(START, actions).table <==> (file, line) in After(START, actions).points
  {
    assert PointsOf([]) == {};
    ReplicaAgrees(START, actions, []);
    var s := After(START, actions);
    if (file, line) in PointsOf(s.table) {
      var b :| b in s.table && (b.file, b.line) == (file, line);
      assert b == Breakpoint(file, line);
    }
  }

  /** How many of the lines of a request the table takes. */
  function Taken(table: seq<Breakpoint>, file: string, lines: seq<nat>): nat
    requires |table| <= MAX_BREAKPOINTS
  {
    OthersShorter(table, file);
    Least(Least(|lines|, 64), 256 - |Others(table, file)|)
  }

  lemma PrintedApplies(table: seq<Breakpoint>, file: string, lines: seq<nat>)
    requires |table| <= MAX_BREAKPOINTS && LinesInRange(lines)
    ensures ApplyBody(table, Print(SetBreakpoints(file, lines)))
            == if |RereadAll(file)| < FILE_CAP then Replaced(table, RereadAll(file), lines[..Least(|lines|, MAX_LINES)]) else table
  {
    PrintedSetReads(file, lines);
    PrintedFileIs(file, lines);
    PrintIsCString(SetBreakpoints(file, lines));
  }

  lemma ReplacedTakes(table: seq<Breakpoint>, file: string, lines: seq<nat>)
    requires |table| <= MAX_BREAKPOINTS
    ensures Replaced(table, file, lines[..Least(|lines|, MAX_LINES)]) == Others(table, file) + Entries(file, lines[..Taken(table, file, lines)])
  {
    OthersShorter(table, file);
    var cut := lines[..Least(|lines|, MAX_LINES)];
    assert cut[..Least(|cut|, MAX_BREAKPOINTS - |Others(table, file)|)] == lines[..Taken(table, file, lines)];
  }

  /** The points after a request, as the table has them. */
  lemma RequestApplied(table: seq<Breakpoint>, file: string, lines: seq<nat>)
    requires |table| <= MAX_BREAKPOINTS && LinesInRange(lines)
    ensures PointsOf(ApplyBody(table, Print(SetBreakpoints(file, lines))))
            == if |RereadAll(file)| < FILE_CAP then SetPoints(PointsOf(table), RereadAll(file), lines[..Taken(table, RereadAll(file), lines)])
               else PointsOf(table)
  {
    PrintedApplies(table, file, lines);
    ReplacedTakes(table, RereadAll(file), lines);
    SetPointsIsReplace(table, RereadAll(file), lines[..Taken(table, RereadAll(file), lines)]);
  }

  lemma PointsAgreeIff(points: set<(string, nat)>, file: string, some: seq<nat>, all: seq<nat>)
    requires forall l :: l in some ==> l in all
    ensures SetPoints(points, file, some) == SetPoints(points, file, all) <==> forall l :: l in all ==> l in some
  {
    if SetPoints(points, file, some) == SetPoints(points, file, all) {
      forall l | l in all ensures l in some {
        assert (file, l) in SetPoints(points, file, all);
      }
    }
  }

  /** The file already has just these lines. */
  ghost predicate HasJust(points: set<(string, nat)>, file: string, lines: seq<nat>) {
    forall l :: (file, l) in points <==> l in lines
  }

  lemma DroppedAgreesIff(points: set<(string, nat)>, file: string, lines: seq<nat>)
    ensures points == SetPoints(points, file, lines) <==> HasJust(points, file, lines)
  {
    if points == SetPoints(points, file, lines) {
      forall l ensures (file, l) in points <==> l in lines {
        assert (file, l) in SetPoints(points, file, lines) <==> l in lines;
      }
    }
  }

  lemma OtherFileAgreesIff(points: set<(string, nat)>, read: string, taken: seq<nat>, file: string, lines: seq<nat>)
    requires read != file
    ensures SetPoints(points, read, taken) == SetPoints(points, file, lines) <==> HasJust(points, file, lines) && HasJust(points, read, taken)
  {
    var p, q := SetPoints(points, read, taken), SetPoints(points, file, lines);
    forall l ensures ((file, l) in p <==> (file, l) in points) && ((file, l) in q <==> l in lines) {}
    forall l ensures ((read, l) in p <==> l in taken) && ((read, l) in q <==> (read, l) in points) {}
    if HasJust(points, file, lines) && HasJust(points, read, taken) {
      DroppedAgreesIff(points, file, lines);
      DroppedAgreesIff(points, read, taken);
    }
  }

  /** What a request must meet for table and session to agree after it. A path the extension reads as it is: no line only
      found past the part the table takes, the first 64 of the list as far as the other files leave room. A path too long
      to be read: nothing to change. A path read as another one: nothing to change, for either. */
  ghost predicate Harmless(table: seq<Breakpoint>, file: string, lines: seq<nat>)
    requires |table| <= MAX_BREAKPOINTS
  {
    var read := RereadAll(file);
    if |read| >= 1024 then HasJust(PointsOf(table), file, lines)
    else if AllCarried(file) then forall l :: l in lines ==> l in lines[..Taken(table, file, lines)]
    else HasJust(PointsOf(table), file, lines) && HasJust(PointsOf(table), read, lines[..Taken(table, read, lines)])
  }

  /** One request, of any path and any lines, leaves the replica agreeing exactly when it is harmless. */
  lemma RequestAgreesIff(table: seq<Breakpoint>, file: string, lines: seq<nat>)
    requires |table| <= MAX_BREAKPOINTS && LinesInRange(lines)
    ensures PointsOf(ApplyBody(table, Print(SetBreakpoints(file, lines)))) == SetPoints(PointsOf(table), file, lines)
            <==> Harmless(table, file, lines)
  {
    var points, read := PointsOf(table), RereadAll(file);
    RequestApplied(table, file, lines);
    RereadIsSame(file);
    if |read| >= FILE_CAP {
      DroppedAgreesIff(points, file, lines);
    } else if AllCarried(file) {
      PointsAgreeIff(points, file, lines[..Taken(table, file, lines)], lines);
    } else {
      OtherFileAgreesIff(points, read, lines[..Taken(table, read, lines)], file, lines);
    }
  }

  // ---------- which paused calls can be released ----------

  ghost predicate Releasable(s: State) {
    exists actions :: IsRun(s, actions) && !After(s, actions).paused
  }

  lemma StepReleases(s: State, a: Action)
    requires Enabled(s, a) && Releasable(Next(s, a))
    ensures Releasable(s)
  {
    var rest :| IsRun(Next(s, a), rest) && !After(Next(s, a), rest).paused;
    var actions := RunCons(s, a, rest);
  }

  lemma TableStaysSmall(s: State, a: Action)
    requires Enabled(s, a)
    ensures |Next(s, a).table| <= MAX_BREAKPOINTS
  {
    if !a.SetLines? {
      OthersKeepStep(s, a);
    }
  }

  /** A queued Continue is reached by reading. */
  lemma {:induction false} ReadToContinue(s: State)
    requires |s.table| <= MAX_BREAKPOINTS && Continues(s.queue) > 0
    ensures Releasable(s)
    decreases |s.queue|
  {
    if !s.paused {
      assert IsRun(s, []) && !After(s, []).paused;
    } else {
      TableStaysSmall(s, ReadPaused);
      var t := Next(s, ReadPaused);
      if s.queue[0] == Continue {
        assert IsRun(t, []) && !After(t, []).paused;
      } else {
        ReadToContinue(t);
      }
      StepReleases(s, ReadPaused);
    }
  }

  /** A session that knows of the pause sends one. */
  lemma ContinueToRelease(s: State)
    requires |s.table| <= MAX_BREAKPOINTS && s.livePaused && !s.releasing
    ensures Releasable(s)
  {
    ContinuesAppend(s.queue, [Continue]);
    ReadToContinue(Next(s, SendContinue));
    StepReleases(s, SendContinue);
  }

  /** A hit in flight tells it, once it has finished the release it is in. */
  lemma DeliverToRelease(s: State)
    requires |s.table| <= MAX_BREAKPOINTS && s.hits > 0
    ensures Releasable(s)
  {
    if s.releasing {
      var t := Next(s, ClearPaused);
      ContinueToRelease(Next(t, DeliverHit));
      StepReleases(t, DeliverHit);
      StepReleases(s, ClearPaused);
    } else {
      ContinueToRelease(Next(s, DeliverHit));
      StepReleases(s, DeliverHit);
    }
  }

  /** With nothing pending a paused extension stays so, and nothing becomes pending. */
  lemma NothingPendingStep(s: State, a: Action)
    requires s.paused && Pending(s) == 0 && Enabled(s, a)
    ensures Next(s, a).paused && Pending(Next(s, a)) == 0
  {
    match a
    case SetLines(file, lines) => ContinuesAppend(s.queue, [SetBreakpoints(file, lines)]);
    case _ =>
  }

  lemma {:induction false} NothingPendingRun(s: State, actions: seq<Action>)
    requires s.paused && Pending(s) == 0 && IsRun(s, actions)
    ensures After(s, actions).paused
    decreases |actions|
  {
    if actions != [] {
      NothingPendingStep(s, actions[0]);
      NothingPendingRun(Next(s, actions[0]), actions[1..]);
    }
  }

  /** A paused extension can still be released if and only if a hit is in flight, a Continue is queued, or the session knows
      of the pause and is not just releasing another one. */
  lemma ReleasableIff(s: State)
    requires s.paused && |s.table| <= MAX_BREAKPOINTS
    ensures Releasable(s) <==> Pending(s) > 0
  {
    if Continues(s.queue) > 0 {
      ReadToContinue(s);
    } else if s.hits > 0 {
      DeliverToRelease(s);
    } else if Pending(s) > 0 {
      ContinueToRelease(s);
    } else {
      forall actions | IsRun(s, actions) ensures After(s, actions).paused {
        NothingPendingRun(s, actions);
      }
    }
  }

  lemma {:induction false} RunFromHandshake(s: State, actions: seq<Action>)
    requires Handshake(s) && |s.table| <= MAX_BREAKPOINTS && IsRun(s, actions) && NothingOvertakes(s, actions)
    ensures Handshake(After(s, actions)) && |After(s, actions).table| <= MAX_BREAKPOINTS
    decreases |actions|
  {
    if actions != [] {
      StepKeepsHandshake(s, actions[0]);
      TableStaysSmall(s, actions[0]);
      RunFromHandshake(Next(s, actions[0]), actions[1..]);
    }
  }

  /** No lost wake-up: after every run in which no hit overtakes a release, the extension runs or can still be released. */
  lemma NeverLost(actions: seq<Action>)
    requires IsRun(START, actions) && NothingOvertakes(START, actions)
    ensures Releasable(After(START, actions))
  {
    RunFromHandshake(START, actions);
    var s := After(START, actions);
    if s.paused {
      ReleasableIff(s);
    } else {
      assert IsRun(s, []) && !After(s, []).paused;
    }
  }

  // ---------- agreement over whole runs ----------

  /** Read to the end, the queue leaves the extension with the session's points. */
  ghost predicate Agrees(s: State) {
    |s.table| <= MAX_BREAKPOINTS && PointsOf(Settled(s)) == s.points
  }

  ghost predicate AlwaysAgrees(s: State, actions: seq<Action>)
    requires IsRun(s, actions)
    decreases |actions|
  {
    Agrees(s) && (actions == [] || AlwaysAgrees(Next(s, actions[0]), actions[1..]))
  }

  ghost predicate RequestsInRange(requests: seq<DaemonMsg>) {
    forall i :: 0 <= i < |requests| ==> requests[i].SetBreakpoints? && LinesInRange(requests[i].lines)
  }

  /** Each request is harmless for the table that the ones before it leave. */
  ghost predicate AllHarmless(table: seq<Breakpoint>, requests: seq<DaemonMsg>)
    requires |table| <= MAX_BREAKPOINTS && RequestsInRange(requests)
    decreases |requests|
  {
    requests == [] ||
    (assert requests[0].SetBreakpoints?;
     var m := requests[0];
     TableFits(table, Print(m));
     Harmless(table, m.file, m.lines) && AllHarmless(ApplyBody(table, Print(m)), requests[1..]))
  }

  lemma SetAgreesIff(s: State, file: string, lines: seq<nat>)
    requires Agrees(s) && Enabled(s, SetLines(file, lines)) && LinesInRange(lines)
    ensures var t := Next(s, SetLines(file, lines));
            && Settled(t) == ApplyBody(Settled(s), Print(SetBreakpoints(file, lines))) && |Settled(s)| <= MAX_BREAKPOINTS
            && (Agrees(t) <==> Harmless(Settled(s), file, lines))
  {
    SettledAfterSend(s, SetBreakpoints(file, lines));
    RequestAgreesIff(Settled(s), file, lines);
  }

  /** Over a whole run, of any paths and lines: the replica agrees in every state if and only if each request is harmless
      where it comes. */
  lemma {:induction false} AlwaysAgreesIff(s: State, actions: seq<Action>)
    requires Agrees(s) && IsRun(s, actions) && RequestsInRange(Requests(actions))
    ensures AlwaysAgrees(s, actions) <==> AllHarmless(Settled(s), Requests(actions))
    decreases |actions|
  {
    if actions != [] {
      var a, t := actions[0], Next(s, actions[0]);
      var rest := Requests(actions[1..]);
      if a.SetLines? {
        assert Requests(actions)[1..] == rest && Requests(actions)[0] == SetBreakpoints(a.file, a.lines);
        SetAgreesIff(s, a.file, a.lines);
      } else {
        assert Requests(actions) == rest;
        OthersKeepStep(s, a);
      }
      if Agrees(t) {
        assert forall i :: 0 <= i < |rest| ==> rest[i] in Requests(actions);
        AlwaysAgreesIff(t, actions[1..]);
      }
    }
  }

  // ---------- what an entered call meets ----------

  /** The lines last asked for in a file, none if it was never named. */
  function LastAsked(ms: seq<DaemonMsg>, file: string): seq<nat> {
    if ms == [] then []
    else
      var last := ms[|ms| - 1];
      if last.SetBreakpoints? && last.file == file then last.lines else LastAsked(ms[..|ms| - 1], file)
  }

  /** Everything sent to the extension. */
  function Sent(actions: seq<Action>): seq<DaemonMsg> {
    if actions == [] then []
    else
      Sent(actions[..|actions| - 1]) + SentBy(actions[|actions| - 1])
  }

  lemma LastAskedMore(ms: seq<DaemonMsg>, m: DaemonMsg, file: string)
    ensures LastAsked(ms + [m], file) == if m.SetBreakpoints? && m.file == file then m.lines else LastAsked(ms, file)
  {
    assert (ms + [m])[..|ms|] == ms;
  }

  // ---------- a run and one more step ----------

  lemma {:induction false} RunMore(s: State, actions: seq<Action>, a: Action)
    requires IsRun(s, actions + [a])
    ensures IsRun(s, actions) && Enabled(After(s, actions), a) && After(s, actions + [a]) == Next(After(s, actions), a)
    decreases |actions|
  {
    var all := actions + [a];
    if actions == [] {
      assert all[1..] == [];
    } else {
      assert all[0] == actions[0] && all[1..] == actions[1..] + [a];
      RunMore(Next(s, actions[0]), actions[1..], a);
    }
  }

  // ---------- the session's points ----------

  /** The points are, file by file, the lines last asked for. */
  ghost predicate PointsAsked(points: set<(string, nat)>, ms: seq<DaemonMsg>) {
    forall file: string, line: nat :: (file, line) in points <==> line in LastAsked(ms, file)
  }

  lemma AskedMore(points: set<(string, nat)>, ms: seq<DaemonMsg>, file: string, lines: seq<nat>)
    requires PointsAsked(points, ms)
    ensures PointsAsked(SetPoints(points, file, lines), ms + [SetBreakpoints(file, lines)])
  {
    forall f: string, l: nat ensures (f, l) in SetPoints(points, file, lines) <==> l in LastAsked(ms + [SetBreakpoints(file, lines)], f) {
      LastAskedMore(ms, SetBreakpoints(file, lines), f);
    }
  }

  lemma AskedContinue(points: set<(string, nat)>, ms: seq<DaemonMsg>)
    requires PointsAsked(points, ms)
    ensures PointsAsked(points, ms + [Continue])
  {
    forall f: string, l: nat ensures (f, l) in points <==> l in LastAsked(ms + [Continue], f) {
      LastAskedMore(ms, Continue, f);
    }
  }

  /** At every time the session's breakpoints are those last asked for. */
  lemma {:induction false} SessionAsked(actions: seq<Action>)
    requires IsRun(START, actions)
    ensures PointsAsked(After(START, actions).points, Sent(actions))
    decreases |actions|
  {
    if actions != [] {
      var front, a := actions[..|actions| - 1], actions[|actions| - 1];
      assert actions == front + [a];
      RunMore(START, front, a);
      SessionAsked(front);
      var s := After(START, front);
      match a
      case SetLines(file, lines) => AskedMore(s.points, Sent(front), file, lines);
      case SendContinue => AskedContinue(s.points, Sent(front));
      case _ => assert Sent(front) + [] == Sent(front);
    }
  }

  // ---------- the extension's table ----------

  /** An extension with that table has read all that was sent but the queue. */
  ghost predicate HasRead(table: seq<Breakpoint>, queue: seq<DaemonMsg>, sent: seq<DaemonMsg>) {
    |queue| <= |sent| && queue == sent[|sent| - |queue|..] && table == ApplyAll([], sent[..|sent| - |queue|])
  }

  lemma ReadSome(table: seq<Breakpoint>, queue: seq<DaemonMsg>, sent: seq<DaemonMsg>, k: nat)
    requires HasRead(table, queue, sent) && k <= |queue|
    ensures ApplyAll(table, queue[..k]) == ApplyAll([], sent[..|sent| - |queue| + k]) && queue[k..] == sent[|sent| - |queue| + k..]
    ensures HasRead(ApplyAll(table, queue[..k]), queue[k..], sent)
  {
    var n := |sent| - |queue|;
    assert sent[..n + k] == sent[..n] + queue[..k];
    ApplyAllAppend([], sent[..n], queue[..k]);
  }

  lemma SentOne(table: seq<Breakpoint>, queue: seq<DaemonMsg>, sent: seq<DaemonMsg>, m: DaemonMsg)
    requires HasRead(table, queue, sent)
    ensures HasRead(table, queue + [m], sent + [m])
  {
    var n := |sent| - |queue|;
    assert (sent + [m])[..n] == sent[..n] && (sent + [m])[n..] == sent[n..] + [m];
  }

  /** What a step sends. */
  function SentBy(a: Action): seq<DaemonMsg> {
    match a
    case SetLines(file, lines) => [SetBreakpoints(file, lines)]
    case SendContinue => [Continue]
    case _ => []
  }

  lemma EnterReads(s: State, k: nat, file: string, line: nat)
    requires Enabled(s, EnterCall(k, file, line))
    ensures var t := Next(s, EnterCall(k, file, line)); t.table == ApplyAll(s.table, s.queue[..k]) && t.queue == s.queue[k..]
  {
  }

  lemma PausedReads(s: State)
    requires Enabled(s, ReadPaused)
    ensures var t := Next(s, ReadPaused); t.table == ApplyAll(s.table, s.queue[..1]) && t.queue == s.queue[1..]
  {
    if s.queue[0] == Continue {
      ReadContinue(s);
    }
  }

  lemma QuietStep(s: State, a: Action)
    requires Enabled(s, a) && (a.ClearPaused? || a.DeliverHit?)
    ensures Next(s, a).table == s.table && Next(s, a).queue == s.queue
  {
  }

  lemma SendStep(s: State, a: Action)
    requires Enabled(s, a) && (a.SetLines? || a.SendContinue?)
    ensures Next(s, a).table == s.table && SentBy(a) != [] && Next(s, a).queue == s.queue + [SentBy(a)[0]] && SentBy(a) == [SentBy(a)[0]]
  {
  }

  lemma HasReadStep(s: State, sent: seq<DaemonMsg>, a: Action)
    requires HasRead(s.table, s.queue, sent) && Enabled(s, a)
    ensures HasRead(Next(s, a).table, Next(s, a).queue, sent + SentBy(a))
  {
    NothingSent(sent);
    match a
    case EnterCall(k, file, line) =>
      EnterReads(s, k, file, line);
      ReadSome(s.table, s.queue, sent, k);
    case ReadPaused =>
      PausedReads(s);
      ReadSome(s.table, s.queue, sent, 1);
    case SetLines(_, _) =>
      SendStep(s, a);
      SentOne(s.table, s.queue, sent, SentBy(a)[0]);
    case SendContinue =>
      SendStep(s, a);
      SentOne(s.table, s.queue, sent, SentBy(a)[0]);
    case _ => QuietStep(s, a);
  }

  lemma NothingSent(sent: seq<DaemonMsg>)
    ensures sent + [] == sent
  {
  }

  lemma {:induction false} ExtensionHasRead(actions: seq<Action>)
    requires IsRun(START, actions)
    ensures HasRead(After(START, actions).table, After(START, actions).queue, Sent(actions))
    decreases |actions|
  {
    if actions != [] {
      var front, a := actions[..|actions| - 1], actions[|actions| - 1];
      assert actions == front + [a];
      RunMore(START, front, a);
      ExtensionHasRead(front);
      HasReadStep(After(START, front), Sent(front), a);
    }
  }

  /** Nothing sent is cut: each message is sendable and leaves at most 256 entries in the table. */
  ghost predicate AllFit(ms: seq<DaemonMsg>)
    decreases |ms|
  {
    ms == [] ||
    var front, m := ms[..|ms| - 1], ms[|ms| - 1];
    AllFit(front) && (m.SetBreakpoints? ==> Sendable(m) && |Others(ApplyAll([], front), m.file)| + |m.lines| <= MAX_BREAKPOINTS)
  }

  lemma {:induction false} LimitsMore(before: seq<Breakpoint>, rs: seq<DaemonMsg>, m: DaemonMsg)
    requires WithinLimits(before, rs + [m])
    ensures WithinLimits(before, rs)
    ensures m.SetBreakpoints? && Sendable(m) && |Others(Wanted(before, rs), m.file)| + |m.lines| <= MAX_BREAKPOINTS
    decreases |rs|
  {
    var all := rs + [m];
    if rs == [] {
      assert all == [m];
    } else {
      assert all[0] == rs[0] && all[1..] == rs[1..] + [m];
      LimitsMore(Others(before, rs[0].file) + Entries(rs[0].file, rs[0].lines), rs[1..], m);
    }
  }

  lemma {:induction false} RequestsMore(actions: seq<Action>, a: Action)
    ensures Requests(actions + [a]) == Requests(actions) + if a.SetLines? then [SetBreakpoints(a.file, a.lines)] else []
  {
    var all := actions + [a];
    if actions == [] {
      assert all == [a] && all[1..] == [];
    } else {
      assert all[0] == actions[0] && all[1..] == actions[1..] + [a];
      RequestsMore(actions[1..], a);
    }
  }

  /** Requests within the limits fit. */
  lemma {:induction false} LimitsFit(actions: seq<Action>)
    requires IsRun(START, actions) && WithinLimits([], Requests(actions))
    ensures AllFit(Sent(actions))
    decreases |actions|
  {
    if actions != [] {
      var front, a := actions[..|actions| - 1], actions[|actions| - 1];
      assert actions == front + [a];
      RunMore(START, front, a);
      RequestsMore(front, a);
      NothingSent(Requests(front));
      if a.SetLines? {
        LimitsMore([], Requests(front), SetBreakpoints(a.file, a.lines));
      }
      LimitsFit(front);
      SettledIsRead(front);
      FitMore(Sent(front), a);
    }
  }

  lemma AllRead(table: seq<Breakpoint>, queue: seq<DaemonMsg>, sent: seq<DaemonMsg>)
    requires HasRead(table, queue, sent)
    ensures ApplyAll(table, queue) == ApplyAll([], sent)
  {
    ReadSome(table, queue, sent, |queue|);
    assert queue[..|queue|] == queue && sent[..|sent|] == sent;
  }

  /** What is wanted is the table after everything sent. */
  lemma SettledIsRead(actions: seq<Action>)
    requires IsRun(START, actions) && WithinLimits([], Requests(actions))
    ensures ApplyAll([], Sent(actions)) == Wanted([], Requests(actions))
  {
    var s, sent := After(START, actions), Sent(actions);
    assert PointsOf([]) == {};
    ReplicaAgrees(START, actions, []);
    ExtensionHasRead(actions);
    AllRead(s.table, s.queue, sent);
  }

  lemma FitMore(sent: seq<DaemonMsg>, a: Action)
    requires AllFit(sent)
    requires a.SetLines? ==> Sendable(SetBreakpoints(a.file, a.lines)) && |Others(ApplyAll([], sent), a.file)| + |a.lines| <= MAX_BREAKPOINTS
    ensures AllFit(sent + SentBy(a))
  {
    NothingSent(sent);
    if SentBy(a) != [] {
      assert (sent + SentBy(a))[..|sent|] == sent;
    }
  }

  /** The table is, file by file, the lines last asked for. */
  ghost predicate TableAsked(table: seq<Breakpoint>, ms: seq<DaemonMsg>) {
    forall file: string, line: nat :: Breakpoint(file, line) in table <==> line in LastAsked(ms, file)
  }

  lemma ReadOne(ms: seq<DaemonMsg>, m: DaemonMsg)
    ensures ApplyAll([], ms + [m]) == ApplyBody(ApplyAll([], ms), Print(m))
  {
    ApplyAllAppend([], ms, [m]);
    assert [m][1..] == [];
    TableFits(ApplyAll([], ms), Print(m));
    assert ApplyAll(ApplyBody(ApplyAll([], ms), Print(m)), []) == ApplyBody(ApplyAll([], ms), Print(m));
  }

  lemma InReplaced(table: seq<Breakpoint>, file: string, lines: seq<nat>, b: Breakpoint)
    requires |table| <= MAX_BREAKPOINTS && |Others(table, file)| + |lines| <= MAX_BREAKPOINTS
    ensures b in Replaced(table, file, lines) <==> if b.file == file then b.line in lines else b in table
  {
    OthersShorter(table, file);
    assert lines[..|lines|] == lines;
    var es := Entries(file, lines);
    if b in es {
      var i :| 0 <= i < |es| && es[i] == b;
      assert b.line == lines[i];
    }
    if b.file == file && b.line in lines {
      var i :| 0 <= i < |lines| && lines[i] == b.line;
      assert es[i] == b;
    }
  }

  lemma {:induction false} TableIsAsked(ms: seq<DaemonMsg>)
    requires AllFit(ms)
    ensures TableAsked(ApplyAll([], ms), ms)
    decreases |ms|
  {
    if ms != [] {
      var front, m := ms[..|ms| - 1], ms[|ms| - 1];
      assert ms == front + [m];
      TableIsAsked(front);
      ReadOne(front, m);
      var table := ApplyAll([], front);
      PrintThenApply(table, m);
      forall file: string, line: nat ensures Breakpoint(file, line) in ApplyAll([], ms) <==> line in LastAsked(ms, file) {
        LastAskedMore(front, m, file);
        if m.SetBreakpoints? {
          InReplaced(table, m.file, m.lines, Breakpoint(file, line));
        }
      }
    }
  }

  lemma {:induction false} FitPrefix(ms: seq<DaemonMsg>, k: nat)
    requires AllFit(ms) && k <= |ms|
    ensures AllFit(ms[..k])
    decreases |ms|
  {
    if k == |ms| {
      assert ms[..k] == ms;
    } else {
      FitPrefix(ms[..|ms| - 1], k);
      assert ms[..|ms| - 1][..k] == ms[..k];
    }
  }

  lemma EnterStops(s: State, k: nat, file: string, line: nat)
    requires Enabled(s, EnterCall(k, file, line))
    ensures var t := Next(s, EnterCall(k, file, line));
            && (t.paused <==> Breakpoint(file, line) in ApplyAll(s.table, s.queue[..k]))
            && t.hits == s.hits + (if t.paused then 1 else 0)
  {
  }

  lemma TableAskedAt(table: seq<Breakpoint>, ms: seq<DaemonMsg>, file: string, line: nat)
    requires TableAsked(table, ms)
    ensures Breakpoint(file, line) in table <==> line in LastAsked(ms, file)
  {
  }

  /** The messages the extension has read once it has entered a call reading `k`. */
  function ReadAfter(actions: seq<Action>, s: State, k: nat): seq<DaemonMsg>
    requires k <= |s.queue| <= |Sent(actions)|
  {
    Sent(actions)[..|Sent(actions)| - |s.queue| + k]
  }

  lemma QueueIsSent(actions: seq<Action>)
    requires IsRun(START, actions)
    ensures var s, sent := After(START, actions), Sent(actions); |s.queue| <= |sent| && s.queue == sent[|sent| - |s.queue|..]
  {
    ExtensionHasRead(actions);
    UnreadIsLast(After(START, actions).table, After(START, actions).queue, Sent(actions));
  }

  lemma UnreadIsLast(table: seq<Breakpoint>, queue: seq<DaemonMsg>, sent: seq<DaemonMsg>)
    requires HasRead(table, queue, sent)
    ensures |queue| <= |sent| && queue == sent[|sent| - |queue|..]
  {
  }

  lemma TableAfterReading(actions: seq<Action>, k: nat)
    requires IsRun(START, actions) && WithinLimits([], Requests(actions))
    requires |After(START, actions).table| <= MAX_BREAKPOINTS && k <= |After(START, actions).queue| <= |Sent(actions)|
    ensures var s := After(START, actions); TableAsked(ApplyAll(s.table, s.queue[..k]), ReadAfter(actions, s, k))
  {
    var s, sent := After(START, actions), Sent(actions);
    ExtensionHasRead(actions);
    ReadSome(s.table, s.queue, sent, k);
    LimitsFit(actions);
    FitPrefix(sent, |sent| - |s.queue| + k);
    TableIsAsked(sent[..|sent| - |s.queue| + k]);
  }

  /** An entered call stops if and only if its line is among those last asked for in its file, by the messages read when it is
      entered, the ones it reads itself included; when it stops it reports one hit. */
  lemma EnteredStopsIff(actions: seq<Action>, k: nat, file: string, line: nat)
    requires IsRun(START, actions) && WithinLimits([], Requests(actions))
    requires Enabled(After(START, actions), EnterCall(k, file, line)) && |After(START, actions).queue| <= |Sent(actions)|
    ensures var s := After(START, actions);
            var t := Next(s, EnterCall(k, file, line));
            && (t.paused <==> line in LastAsked(ReadAfter(actions, s, k), file))
            && t.hits == s.hits + (if t.paused then 1 else 0)
  {
    var s := After(START, actions);
    TableAfterReading(actions, k);
    EnterStops(s, k, file, line);
    TableAskedAt(ApplyAll(s.table, s.queue[..k]), ReadAfter(actions, s, k), file, line);
  }

  /** An extension that has read everything stops exactly on the session's breakpoints. */
  lemma CaughtUpStops(actions: seq<Action>, file: string, line: nat)
    requires IsRun(START, actions) && WithinLimits([], Requests(actions))
    requires Enabled(After(START, actions), EnterCall(|After(START, actions).queue|, file, line))
    ensures var s := After(START, actions);
            var t := Next(s, EnterCall(|s.queue|, file, line));
            && (t.paused <==> (file, line) in s.points) && (t.paused <==> line in LastAsked(Sent(actions), file))
            && t.hits == s.hits + (if t.paused then 1 else 0)
  {
    var s, sent := After(START, actions), Sent(actions);
    QueueIsSent(actions);
    EnteredStopsIff(actions, |s.queue|, file, line);
    assert ReadAfter(actions, s, |s.queue|) == sent;
    SessionAsked(actions);
  }

  /** What the extension does byte by byte on entering a function, and while paused, on the queue as the daemon writes it, is
      what the steps do. */
  lemma EntryRefines(s: State, k: nat, file: string, line: nat, rest: string)
    requires Enabled(s, EnterCall(k, file, line)) && forall m :: m in s.queue ==> Sendable(m)
    ensures var (still, met, left) := DrainOn(s.table, Stream(Bodies(s.queue)) + rest, k);
            var t := Next(s, EnterCall(k, file, line));
            && still && met == t.table && left == Stream(Bodies(t.queue)) + rest && k <= 32
            && (Breakpoint(file, line) in met <==> t.paused)
  {
    var a, b := s.queue[..k], s.queue[k..];
    TwoParts(s.queue, k);
    assert forall m :: m in a ==> m in s.queue;
    StreamOfTwo(a, b, rest);
    DrainApplies(s.table, a, Stream(Bodies(b)) + rest);
    EnterReads(s, k, file, line);
    EnterStops(s, k, file, line);
  }

  lemma {:induction false} StreamOfTwo(a: seq<DaemonMsg>, b: seq<DaemonMsg>, rest: string)
    ensures Stream(Bodies(a + b)) + rest == Stream(Bodies(a)) + (Stream(Bodies(b)) + rest)
    decreases |a|
  {
    if a == [] {
      assert a + b == b;
      NoBytes(Stream(Bodies(b)) + rest);
    } else {
      assert (a + b)[1..] == a[1..] + b;
      assert Bodies(a + b)[1..] == Bodies(a[1..] + b) && Bodies(a)[1..] == Bodies(a[1..]);
      StreamOfTwo(a[1..], b, rest);
      FramesFirst(WriteFrame(Print(a[0])), Stream(Bodies(a[1..] + b)), Stream(Bodies(a[1..])), rest, Stream(Bodies(b)) + rest);
    }
  }

  lemma NoBytes(s: string)
    ensures [] + s == s
  {
  }

  lemma FramesFirst(f: string, all: string, part: string, rest: string, more: string)
    requires all + rest == part + more
    ensures f + all + rest == f + part + more
  {
    assert f + all + rest == f + (all + rest) && f + part + more == f + (part + more);
  }
}
