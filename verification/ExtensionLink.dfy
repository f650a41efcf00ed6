/** The extension's end of the link: the pause loop over the socket, byte for byte. */
module ExtensionLink {
  import opened TraceModel
  import opened DaemonMessages
  import opened JsonSearch
  import opened WireRoundTrip
  import opened ExtensionTable
  import opened Framing
  import opened OutgoingJson
  import opened WireJson

  /** The type tag as a paused extension sees it: what was copied of it, whether or not the string ends. */
  function PauseTag(text: string): string {
    match ValueAfter(text, "type")
    case None => []
    case Some(v) => CopiedValue(v, 64)
  }

  /** A type that reads back is the tag seen. */
  lemma TagOfType(text: string)
    ensures BodyType(text).Some? ==> PauseTag(text) == BodyType(text).value
  {
  }

  /** Copying with room to spare stops at a quote or at the end of the text. */
  lemma {:induction false} CopyStops(s: string, room: nat)
    ensures |Copy(s, room).0| <= room
    ensures |Copy(s, room).0| < room ==> Copy(s, room).1 == [] || Copy(s, room).1[0] == '"'
    decreases |s|
  {
    if s == [] || room == 0 {
    } else if s[0] == '\\' && |s| > 1 {
      CopyStops(s[2..], room - 1);
    } else if s[0] != '"' {
      CopyStops(s[1..], room - 1);
    }
  }

  /** The value opens, unescapes to `continue`, and the text ends there. */
  predicate CutOff(v: string) {
    v != [] && v[0] == '"' && Copy(v[1..], 63) == (CONTINUE_TAG, [])
  }

  lemma CopiedContinueIff(v: string)
    ensures CopiedValue(v, 64) == CONTINUE_TAG <==> StringValue(v, 64) == Some(CONTINUE_TAG) || CutOff(v)
  {
    if v != [] && v[0] == '"' {
      CopyStops(v[1..], 63);
    }
  }

  /** A body releases the call if and only if its type reads as `continue`, or the text ends inside the type right
      after `continue`. */
  lemma ReleasesIff(text: string)
    ensures PauseTag(text) == CONTINUE_TAG
            <==> BodyType(text) == Some(CONTINUE_TAG) || (ValueAfter(text, "type").Some? && CutOff(ValueAfter(text, "type").value))
  {
    match ValueAfter(text, "type")
    case None =>
    case Some(v) => CopiedContinueIff(v);
  }

  /** What a paused extension does with a stream: apply frames to the table until `continue`.
      Yields whether it was released, the table then, and the unread rest; a broken stream closes the link. */
  function PauseOn(table: seq<Breakpoint>, stream: string): (r: (bool, seq<Breakpoint>, string))
    requires |table| <= MAX_BREAKPOINTS
    decreases |stream|
  {
    FrameShortens(stream);
    var (body, rest) := ReadFrame(stream);
    if body.None? then (false, [], rest)
    else if PauseTag(CString(body.value)) == CONTINUE_TAG then (true, table, rest)
    else
      TableFits(table, body.value);
      PauseOn(ApplyBody(table, body.value), rest)
  }

  lemma {:induction false} UnreleasedIsEmpty(table: seq<Breakpoint>, stream: string)
    requires |table| <= MAX_BREAKPOINTS
    ensures !PauseOn(table, stream).0 ==> PauseOn(table, stream).1 == []
    decreases |stream|
  {
    FrameShortens(stream);
    var (body, rest) := ReadFrame(stream);
    if body.Some? && PauseTag(CString(body.value)) != CONTINUE_TAG {
      TableFits(table, body.value);
      UnreleasedIsEmpty(ApplyBody(table, body.value), rest);
    }
  }

  lemma TableFits(table: seq<Breakpoint>, body: string)
    requires |table| <= MAX_BREAKPOINTS
    ensures |ApplyBody(table, body)| <= MAX_BREAKPOINTS
  {
    if BodyFile(CString(body)).Some? {
      OthersShorter(table, BodyFile(CString(body)).value);
    }
  }

  /** What reading `k` frames does on function entry: whether the link is still open, the table then, and the unread rest. */
  function DrainOn(table: seq<Breakpoint>, stream: string, k: nat): (r: (bool, seq<Breakpoint>, string))
    requires |table| <= MAX_BREAKPOINTS
    ensures |r.1| <= MAX_BREAKPOINTS
    decreases k
  {
    if k == 0 then (true, table, stream)
    else
      var (body, rest) := ReadFrame(stream);
      if body.None? then (false, [], rest)
      else
        TableFits(table, body.value);
        DrainOn(ApplyBody(table, body.value), rest, k - 1)
  }

  lemma DrainStep(table: seq<Breakpoint>, stream: string, k: nat)
    requires |table| <= MAX_BREAKPOINTS && k > 0
    ensures var (body, rest) := ReadFrame(stream);
            match body
            case None => DrainOn(table, stream, k) == (false, [], rest)
            case Some(b) => |ApplyBody(table, b)| <= MAX_BREAKPOINTS && DrainOn(table, stream, k) == DrainOn(ApplyBody(table, b), rest, k - 1)
  {
    if ReadFrame(stream).0.Some? {
      TableFits(table, ReadFrame(stream).0.value);
    }
  }

  /** `now` is `before` and one frame reporting a stop. */
  ghost predicate Reports(now: string, before: string, frameId: nat, file: string, line: nat) {
    exists body: string :: 0 < |body| < 1536 && now == before + WriteFrame(body) && ReadsHit(body, frameId, file, line)
  }

  class Link {
    var open: bool
    var sent: string
    const table: Table
    const socket: Socket

    ghost predicate Valid() reads this, table {
      table.Valid()
    }

    constructor (socket: Socket)
      ensures Valid() && open && sent == [] && this.socket == socket && fresh(table) && fresh(table.slots) && table.Contents() == []
    {
      open := true;
      sent := [];
      this.socket := socket;
      table := new Table();
    }

    method Close()
      requires Valid()
      modifies this, table
      ensures Valid() && !open && sent == old(sent) && table.Contents() == []
    {
      open := false;
      table.Reset();
    }

    /** Reports the stop, then blocks until a `continue` arrives, applying everything else meanwhile. What is sent is
        one frame that reads back as the frame id, the line and the file name as far as it fits. */
    method Pause(frameId: nat, file: string, line: nat) returns (released: bool)
      requires Valid() && frameId < 0x1_0000_0000 && line < 0x1_0000_0000 && NUL !in file
      modifies this, table, table.slots, socket
      ensures Valid()
      ensures !old(open) ==> !released && sent == old(sent)
      ensures old(open) ==> (released, table.Contents(), socket.pending) == PauseOn(old(table.Contents()), old(socket.pending))
      ensures old(open) ==> Reports(sent, old(sent), frameId, file[..Kept(file, 1024)], line)
      ensures released <==> open
      ensures old(open) && !released ==> table.Contents() == []
    {
      if !open { return false; }
      var msg := HitMessage(frameId, file, line);
      sent := sent + WriteFrame(msg.value);
      UnreleasedIsEmpty(table.Contents(), socket.pending);
      released := AwaitContinue();
    }

    /** Reads the frames that have arrived, `ready` of them, but at most 32. */
    method Drain(ready: nat)
      requires Valid() && open
      modifies this, table, table.slots, socket
      ensures Valid() && sent == old(sent)
      ensures (open, table.Contents(), socket.pending) == DrainOn(old(table.Contents()), old(socket.pending), Least(ready, 32))
    {
      var i := 0;
      ghost var n := Least(ready, 32);
      ghost var all := DrainOn(table.Contents(), socket.pending, n);
      while i < 32
        invariant Valid() && open && sent == old(sent) && i <= n
        invariant DrainOn(table.Contents(), socket.pending, n - i) == all
      {
        if i == ready { return; }
        DrainStep(table.Contents(), socket.pending, n - i);
        var body := socket.ReadFrameBlocking();
        if body.None? {
          Close();
          return;
        }
        table.ApplyDaemonMessage(body.value);
        i := i + 1;
      }
    }

    /** Function entry: read what has arrived, and pause if the line is then a breakpoint. */
    method EnterFunction(frameId: nat, file: string, line: nat, ready: nat) returns (stopped: bool)
      requires Valid() && frameId < 0x1_0000_0000 && line < 0x1_0000_0000 && NUL !in file
      modifies this, table, table.slots, socket
      ensures Valid()
      ensures !old(open) ==> !stopped && sent == old(sent) && table.Contents() == old(table.Contents())
      ensures old(open) ==>
                var (still, met, rest) := DrainOn(old(table.Contents()), old(socket.pending), Least(ready, 32));
                && (stopped <==> Breakpoint(file, line) in met)
                && (stopped ==> (open, table.Contents(), socket.pending) == PauseOn(met, rest)
                                && Reports(sent, old(sent), frameId, file[..Kept(file, 1024)], line))
                && (!stopped ==> (open, table.Contents(), socket.pending) == (still, met, rest) && sent == old(sent))
    {
      if !open { return false; }
      Drain(ready);
      stopped := table.IsBreakpoint(file, line);
      if stopped {
        DrainedOpen(old(table.Contents()), old(socket.pending), Least(ready, 32));
        var released := Pause(frameId, file, line);
      }
    }

    method AwaitContinue() returns (released: bool)
      requires Valid() && open
      modifies this, table, table.slots, socket
      ensures Valid() && sent == old(sent)
      ensures (released, table.Contents(), socket.pending) == PauseOn(old(table.Contents()), old(socket.pending))
      ensures released <==> open
    {
      while open
        invariant Valid() && open && sent == old(sent)
        invariant PauseOn(table.Contents(), socket.pending) == PauseOn(old(table.Contents()), old(socket.pending))
        decreases |socket.pending|
      {
        ghost var before := socket.pending;
        var body := socket.ReadFrameBlocking();
        if body.None? {
          Close();
          return false;
        }
        FrameShortens(before);
        var text := CString(body.value);
        var typeAt := JsonValueAfter(text, "type");
        var _, tag := JsonString(text, typeAt, 64);
        if tag == CONTINUE_TAG { return true; }
        table.ApplyDaemonMessage(body.value);
      }
      released := false;
    }
  }

  /** A closed link has no breakpoints. */
  lemma {:induction false} DrainedOpen(table: seq<Breakpoint>, stream: string, k: nat)
    requires |table| <= MAX_BREAKPOINTS
    ensures !DrainOn(table, stream, k).0 ==> DrainOn(table, stream, k).1 == []
    decreases k
  {
    if k > 0 && ReadFrame(stream).0.Some? {
      TableFits(table, ReadFrame(stream).0.value);
      DrainedOpen(ApplyBody(table, ReadFrame(stream).0.value), ReadFrame(stream).1, k - 1);
    }
  }

  lemma FrameShortens(stream: string)
    ensures ReadFrame(stream).0.Some? ==> |ReadFrame(stream).1| < |stream|
  {
  }

  // ---------- on streams the daemon writes ----------

  function Bodies(ms: seq<DaemonMsg>): seq<string> {
    if ms == [] then [] else [Print(ms[0])] + Bodies(ms[1..])
  }

  /** The table after a list of messages, in order. */
  function ApplyAll(table: seq<Breakpoint>, ms: seq<DaemonMsg>): (r: seq<Breakpoint>)
    requires |table| <= MAX_BREAKPOINTS
    ensures |r| <= MAX_BREAKPOINTS
    decreases |ms|
  {
    if ms == [] then table
    else
      TableFits(table, Print(ms[0]));
      ApplyAll(ApplyBody(table, Print(ms[0])), ms[1..])
  }

  lemma {:induction false} EscapeFits(s: string)
    ensures |Escape(s)| <= 6 * |s|
  {
    if s != [] {
      EscapeFits(s[1..]);
    }
  }

  lemma {:induction false} LinesFit(lines: seq<nat>)
    requires LinesInRange(lines)
    ensures |CommaJoined(lines)| <= 11 * |lines|
  {
    if lines != [] {
      assert Power10(10) == 10_000_000_000 by {
        assert Power10(5) == 100_000;
      }
      DecimalFits(lines[0], 10);
      LinesFit(lines[1..]);
    }
  }

  /** Every sendable message fits a frame. */
  lemma PrintedFits(m: DaemonMsg)
    requires Sendable(m)
    ensures 0 < |Print(m)| <= MAX_BODY
  {
    if m.SetBreakpoints? {
      EscapeFits(m.file);
      LinesFit(m.lines);
    }
  }

  /** A paused extension fed the daemon's set messages and then a `continue` applies exactly those,
      stops there, and leaves the rest of the stream unread. */
  lemma {:induction false} PauseAppliesAndStops(table: seq<Breakpoint>, sets: seq<DaemonMsg>, rest: string)
    requires |table| <= MAX_BREAKPOINTS
    requires forall m :: m in sets ==> m.SetBreakpoints? && Sendable(m)
    ensures PauseOn(table, Stream(Bodies(sets + [Continue])) + rest) == (true, ApplyAll(table, sets), rest)
    decreases |sets|
  {
    var ms := sets + [Continue];
    var m := ms[0];
    PrintedFits(m);
    var after := Stream(Bodies(ms[1..])) + rest;
    assert Bodies(ms)[1..] == Bodies(ms[1..]);
    assert Stream(Bodies(ms)) + rest == WriteFrame(Print(m)) + after;
    FrameReadsBack(Print(m), after);
    FrameShortens(WriteFrame(Print(m)) + after);
    PrintIsCString(m);
    TagOfType(Print(m));
    if sets == [] {
      PrintedContinueReads();
      assert ms[1..] == [];
      assert Stream(Bodies([])) + rest == rest;
    } else {
      assert m == sets[0] && m in sets;
      PrintedTypeReads(m.file, m.lines);
      TableFits(table, Print(m));
      assert ms[1..] == sets[1..] + [Continue];
      assert forall x :: x in sets[1..] ==> x in sets;
      PauseAppliesAndStops(ApplyBody(table, Print(m)), sets[1..], rest);
    }
  }

  lemma FirstFrame(ms: seq<DaemonMsg>, rest: string)
    requires ms != [] && Sendable(ms[0])
    ensures ReadFrame(Stream(Bodies(ms)) + rest) == (Some(Print(ms[0])), Stream(Bodies(ms[1..])) + rest)
  {
    PrintedFits(ms[0]);
    assert Bodies(ms)[1..] == Bodies(ms[1..]);
    Associate(WriteFrame(Print(ms[0])), Stream(Bodies(ms[1..])), rest);
    FrameReadsBack(Print(ms[0]), Stream(Bodies(ms[1..])) + rest);
  }

  /** Reading as many of the daemon's messages on function entry applies exactly those. */
  lemma {:induction false} DrainApplies(table: seq<Breakpoint>, ms: seq<DaemonMsg>, rest: string)
    requires |table| <= MAX_BREAKPOINTS && forall m :: m in ms ==> Sendable(m)
    ensures DrainOn(table, Stream(Bodies(ms)) + rest, |ms|) == (true, ApplyAll(table, ms), rest)
    decreases |ms|
  {
    if ms == [] {
      assert Stream(Bodies([])) + rest == rest;
    } else {
      FirstFrame(ms, rest);
      DrainStep(table, Stream(Bodies(ms)) + rest, |ms|);
      assert forall x :: x in ms[1..] ==> x in ms;
      DrainApplies(ApplyBody(table, Print(ms[0])), ms[1..], rest);
    }
  }

  /** The type of a body that breaks off inside the tag. */
  lemma CutTypeAt(tag: string)
    ensures ValueAfter(TYPE_PART + tag, "type") == Some(['"'] + tag)
  {
    var value := ['"'] + tag;
    var key := "\"type\":";
    assert "\"" + "type" + "\":" == key;
    assert TYPE_PART + tag == "{" + (key + value);
    SkipsTo("{", key + value, key);
    FoundHere(key, value);
  }

  lemma CopyAll(tag: string, room: nat)
    requires Plain(tag) && |tag| <= room
    ensures Copy(tag, room) == (tag, [])
  {
    CopyPlain(tag, [], room);
    NothingBehind(tag);
  }

  lemma NothingBehind(s: string)
    ensures s + [] == s
  {
  }

  lemma QuoteFirst(tag: string)
    ensures (['"'] + tag)[1..] == tag
  {
  }

  lemma TagFromValue(text: string, v: string)
    requires ValueAfter(text, "type") == Some(v)
    ensures PauseTag(text) == CopiedValue(v, 64) && BodyType(text) == StringValue(v, 64)
  {
  }

  lemma CutValueOf(v: string, tag: string)
    requires v != [] && v[0] == '"' && v[1..] == tag && Copy(tag, 63) == (tag, [])
    ensures CopiedValue(v, 64) == tag && StringValue(v, 64) == None
  {
  }

  lemma CutTagSeen(tag: string)
    requires Plain(tag) && |tag| < 64
    ensures PauseTag(TYPE_PART + tag) == tag && BodyType(TYPE_PART + tag) == None
  {
    var v := ['"'] + tag;
    CutTypeAt(tag);
    TagFromValue(TYPE_PART + tag, v);
    QuoteFirst(tag);
    CopyAll(tag, 63);
    CutValueOf(v, tag);
  }

  lemma ReleasedBy(table: seq<Breakpoint>, body: string, rest: string)
    requires |table| <= MAX_BREAKPOINTS && 0 < |body| <= MAX_BODY
    requires CString(body) == body && PauseTag(body) == CONTINUE_TAG
    ensures PauseOn(table, WriteFrame(body) + rest) == (true, table, rest)
  {
    FrameReadsBack(body, rest);
  }

  /** The pause loop does not ask whether the tag ended: a body that breaks off right after `continue` releases the
      call, though as a message it has no type. */
  lemma CutContinueReleases(table: seq<Breakpoint>, rest: string)
    requires |table| <= MAX_BREAKPOINTS
    ensures BodyType(TYPE_PART + CONTINUE_TAG) == None
    ensures PauseOn(table, WriteFrame(TYPE_PART + CONTINUE_TAG) + rest) == (true, table, rest)
  {
    PlainTag();
    CutTagSeen(CONTINUE_TAG);
    CStringWhole(TYPE_PART + CONTINUE_TAG);
    ReleasedBy(table, TYPE_PART + CONTINUE_TAG, rest);
  }

  lemma PlainTag()
    ensures Plain(CONTINUE_TAG)
  {
  }
}
