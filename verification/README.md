# Periscope: recorder, replay and live breakpoints

Periscope is a time-travel debugger for PHP. An extension inside the PHP process records every function call of a
request; a daemon indexes the finished trace and replays it; an IDE session sets breakpoints that the extension stops
on while the request is still running. This project models those three parts and proves what they promise each other.

- **Recorder** (`Recorder.dfy`, `RecorderInvariant.dfy`, `RecordedIds.dfy`, `RecordedRuns.dfy`, `RecordedCalls.dfy`,
  `RecordedEvents.dfy`, `EventPlaces.dfy`): the depth counter, the per-depth arrays, frames written on exit, events
  attributed to the open frame. `Globals` is the extension's state; `Exec` is a whole run.
- **Index** (`StableSort.dfy`, `CallForest.dfy`, `ParentChains.dfy`, `TraceIndexing.dfy`, `PreorderTheorems.dfy`,
  `TraceQueries.dfy`): building child lists and the pre-order walk with an explicit stack, and the three queries. A
  `Forest` is the reference for "the call tree".
- **From recording to answers** (`Spans.dfy`, `RecordedIndex.dfy`, `TimeLookup.dfy`, `DescentPaths.dfy`,
  `EndToEnd.dfy`, `SessionFacts.dfy`, `WholeSessions.dfy`): what was recorded is what the index describes, time
  lookups agree with a scan of all frames, and what they find is read off the recorded list. `WholeSessions` puts
  recorder, index, cursor and both reconstructions together, with no assumption on the index.
- **Replay** (`Cursor.dfy`, `CursorTheorems.dfy`, `Reconstruction.dfy`, `BrowserAgreement.dfy`): the cursor, the
  daemon's reconstruction of a state, and the browser's own one.
- **Live protocol** (`DaemonMessages.dfy`, `JsonSearch.dfy`, `WireRoundTrip.dfy`, `ExtensionTable.dfy`, `Framing.dfy`,
  `OutgoingJson.dfy`, `JsonReader.dfy`, `WireJson.dfy`, `ExtensionLink.dfy`, `LiveProtocol.dfy`, `DapSession.dfy`):
  from the bytes on the socket to a transition system with messages in flight.
- **Views** (`JsonValue.dfy`, `PayloadText.dfy`, `EventFilter.dfy`, `FilterTheorems.dfy`, `FilterGrammar.dfy`,
  `FilterJoin.dfy`, `FilterSearch.dfy`, `FilterErrors.dfy`, `Grouping.dfy`, `Capture.dfy`, `CaptureReading.dfy`,
  `CaptureTheorems.dfy`, `CaptureLimits.dfy`): the filter language, grouping by payload, and the rendering of PHP
  values.

Imperative code of the source is imperative here and is proved against specification functions; the laws are lemmas
about those functions.

## Where the code does not do what one might expect

- Events and checkpoints draw their ids from two counters that both start at 1, so ids are unique exactly when the two
  ranges drawn do not meet (`RecordedEvents.EventIdsDistinct`); in a fresh process they already collide
  (`RecordedEvents.FreshCountersCollide`).
- `frame_at` widens an empty frame to one microsecond. At the instant of an empty frame the lookup can answer with
  that frame instead of the one still running (`TimeLookup.EmptyFrameHides`). `TimeLookup.LookupIsDeepest` says
  exactly when it does not.
- The browser's scan uses closed windows, the daemon's half-open ones. Where no empty frame is exposed they show the
  same frame if and only if whatever ends at that instant ends above a frame that is still running
  (`BrowserAgreement.ScansAgreeIff`): at some exits they differ (`ExitInstantDiffers`), at others not
  (`ExitInstantAgrees`). The browser's frame is never the shallower one. At every time, exposed or not, they show the
  same frame if and only if no closed window has the time, or the first of the deepest closed windows that do is the
  one the daemon's descent is led to (`BrowserAgreement.BrowserAgrees`, with `DescentPaths.FoundUnder` for where it
  leads).
- An event recorded while no frame is open names the frame that used slot 0 last, a root that has ended or a frame of
  an earlier request (`EventPlaces.Placed`). Where the clock stands still, an event's time can lead to another frame
  than its own; `WholeSessions.OwnerOf` says exactly when it leads back.
- `on_continue` queues `Continue`, releases its lock, and only then clears `live_paused`. A hit delivered in between
  is forgotten and the request blocks for good: `LiveProtocol.StepKeepsHandshake` says this delivery is the only step
  that breaks the handshake, `LiveProtocol.LostWakeUp` gives a run from the start in which it happens.
  `LiveProtocol.ReleasableIff` says for every paused state whether any run still releases the call, and
  `LiveProtocol.NeverLost` that after a run without such a delivery one always does.
- The pause loop compares whatever it could copy of the message type, without asking whether the string ended, so a
  body cut off right after `continue` releases the call (`ExtensionLink.CutContinueReleases`).
  `ExtensionLink.ReleasesIff` says exactly which bodies release it. The daemon's serialiser never writes a cut one;
  `ExtensionLink.PauseAppliesAndStops` covers everything it does write.
- `step_over` with nothing behind the subtree stays where it is. The comment at `daemon/src/replay/cursor.rs:305-306`
  speaks of parking on the last frame; the code is followed.
- A filter whose last word is AND regroups when another is joined to it (`FilterGrammar.TrailingAndRegroups`).
  `FilterJoin.JoinIff` says exactly when the joined filter parses to the clauses of the first followed by those of the
  second; regrouped filters can do so too (`FilterJoin.JoinsThoughRegrouped`). That the joined filter matches exactly
  when both match is the weaker property. `FilterJoin.JoinMatches` gives a condition on the texts under which it holds
  for every event: that of `JoinIff`, and where the first filter's last piece is AND alone also that the second starts
  with an odd number of ANDs and then an empty piece. Two theorems say exactly when it holds, each for a wider notion
  of event and each told from the pieces of the two texts: for every assignment of truth values to clauses, if and
  only if the regrouped clauses are those of both as a set (`FilterJoin.JoinMatchesIff`); for every text and every
  assignment to path clauses, free text being searched for, if and only if they imply each other one by one, a needle
  by a needle that has it inside (`FilterSearch.JoinFindsIff`). An event is one such text and assignment, so it is the
  "if" halves that speak of every event. `FilterJoin.MatchesInAnotherOrder` shows that the condition on the texts is
  not needed, and `FilterSearch.FindsByOtherClauses` that equal sets are not: `"w and" AND w AND` joined with `v AND
  "and v"` finds what both find, by other clauses.
- A captured string that leaves out just five bytes reads like a longer one that ends in the mark for five
  (`CaptureReading.AloneTellsIff`); knowing the limit it can always be told (`CaptureReading.StringTells`).
- Once per object does not hold of every object in a capture. `CaptureLimits.OnceFromObjectsIff` and
  `CaptureLimits.OnceFromArraysIff` say for which bodies, under which options, it holds on every heap: rooted at an
  object it fails exactly for declared-slot objects without an initialised shown slot, rooted at an array for every
  object that can be expanded, wherever there is room for two.

Frame ids are unique exactly as long as function exits do not outnumber entries, apart from one early exit
(`RecordedIds.UniqueIdsIff`). The clamp at `extension/periscope.c:293-295` allows for an exit too many, but nothing in
the extension brings one about: both handlers are registered together (`extension/periscope.c:362-369`) and look at
the same flag, which is set at request start and which scripts cannot set (`extension/periscope.c:38`). An exit too
many would take an engine that ends a call it never began.

## Model

| member | source | states |
|---|---|---|
| Recorder.Globals.RequestInit | extension/periscope.c:520-562 | a request starts at depth 0 with id counter 0 and its own start time; arrays and event counters are kept from earlier requests |
| Recorder.Globals.FcallBegin | extension/periscope.c:232-242 | the whole new state after an entry: id and enter time stored below the depth cap, depth counted past it |
| Recorder.Globals.FcallEnd | extension/periscope.c:288-336 | the whole new state after an exit: depth clamped at 0, one frame written below the cap with parent slot and offsets from the request start |
| Recorder.Globals.RecordEvent | extension/periscope_userland.c:81-139 | an event is appended under the next event id with the id in the innermost slot; without trace, or when the payload cannot be encoded, it is refused and nothing changes |
| Recorder.Globals.Checkpoint | extension/periscope_userland.c:32-72 | the same with the other id counter |
| RecorderInvariant.RecorderKeepsInv | extension/periscope.c:232-331 | over every prefix whose exits do not outnumber entries: open ids and times increase with depth, written ids are unique, a parent id is smaller than its child's and was open around it, depth is parent depth plus one, written intervals are nested or apart |
| RecorderInvariant.StepKeepsInv | extension/periscope.c:232-331 | one entry, exit or event keeps that invariant |
| RecorderInvariant.InvAtRequestStart | extension/periscope.c:552-556 | the invariant holds after a request start, whatever the arrays still hold |
| RecorderInvariant.StrayExitRepeatsId | extension/periscope.c:293-295 | the shortest run with an exit too many: the root is written again under its id |
| RecordedIds.UniqueIdsIff | extension/periscope.c:232-331 | for every list of entries, exits and events: the ids written are distinct if and only if exits never outnumber entries, or only one early exit does and the stale id in slot 0 is not the number of a call above the cap that is left again |
| RecordedIds.EnteredIdsIff | extension/periscope.c:232-331 | from a first entry on: distinct if and only if exits never outnumber entries |
| RecordedIds.FreshIdsIff | extension/periscope.c:232-331 | in a fresh process: if and only if there is at most one early exit and later exits never outnumber entries |
| RecordedRuns.BalancedIsRun | extension/periscope.c:232-336 | every balanced list of entries, exits and events is a tree of calls |
| RecordedRuns.RunLeaves | extension/periscope.c:232-336 | running a call tree appends exactly its frames in return order, below the depth cap, and leaves the open slots alone |
| RecordedRuns.RunEvents | extension/periscope_userland.c:117-139 | under a clock that always moves, each event recorded at depth 1 to the cap names the frame that runs at its time in the recorded tree |
| EventPlaces.RunPlaces | extension/periscope_userland.c:117-139 | under a clock that may stand still, every event of a run: inside a recorded call it names that call and its time lies in it; past the cap it names none; outside all calls it names a root that has ended, or what slot 0 held before |
| RecordedRuns.WalkIsEntryOrder | extension/periscope.c:237-242 | the recorded tree read in pre-order is the list of entries above the cap, with their times and depths |
| RecordedEvents.EventIdsDistinct | extension/periscope_userland.c:117-124 | event ids of a request are distinct if and only if the id ranges of the two counters do not overlap |
| RecordedEvents.FreshCountersCollide | extension/periscope_userland.c:53-58 | one event and one checkpoint in a fresh process share an id |
| RecordedEvents.EventsInOrder | extension/periscope_userland.c:117-139 | events are recorded in time order |
| RecordedCalls.RequestTells | extension/periscope.c:232-331 | the recorded frames in walk order are exactly the entries of the first 4096 levels in the list of calls, in order: each carries the clock readings of its entry and of the exit that belongs to it less the request start, the file and line of that exit, the number of calls open as its depth, the numbers 1, 2, 3, ... as ids and the number of the call it was made in |
| RecordedCalls.NotesAreAll | extension/periscope_userland.c:117-139 | the notes meant here are all notes of the list, in order |
| RecordedCalls.RequestEventsTell | extension/periscope_userland.c:117-139 | the recorded events are exactly the notes in the list of calls, in order: each carries its reading less the request start and, on the first 4096 levels, the number of the innermost call around it; deeper it names none |
| RecordedCalls.OffRecordsNothing | extension/periscope.c:288-331 | while recording is off neither frames nor events are recorded |
| StableSort.SortSorts | daemon/src/replay/index.rs:66-69 | the sort orders by key and is a permutation |
| StableSort.SortKeepsOrder | daemon/src/replay/index.rs:66-69 | the sort is stable |
| StableSort.SortOfSorted | daemon/src/replay/index.rs:92-93 | a list already in order, ties included, is left as it is |
| CallForest.WalkPreorder | daemon/src/replay/index.rs:71-81 | the explicit-stack walk emits the pre-order of the tree that the child lists describe |
| ParentChains.RootedIffAcyclic | daemon/src/replay/index.rs:55-64 | every frame hangs below a root if and only if parents are present and no parent chain cycles |
| TraceIndexing.Build | daemon/src/replay/index.rs:46-105 | for distinct ids in any list order: child lists sorted by enter time, roots, pre-order walk, its inverse, events by time |
| PreorderTheorems.WalkVisitsEachOnce | daemon/src/replay/index.rs:71-86 | the walk holds exactly the frames that hang below a root, each once, each after its parent with nothing shallower in between; `preorder_pos` is its inverse |
| PreorderTheorems.AcyclicVisitsAll | daemon/src/replay/index.rs:71-86 | with parents present and no cycle the walk is a permutation of all ids |
| PreorderTheorems.SubtreeIsBlock | daemon/src/replay/index.rs:71-81 | a position is in the subtree of `p` if and only if it lies in the block that starts at `p` |
| PreorderTheorems.SiblingsInCallOrder | daemon/src/replay/index.rs:66-69 | siblings are walked by enter time, and in list order at equal times |
| TraceQueries.FrameAt | daemon/src/replay/index.rs:134-163 | the loop answers with the descent through the tree, first covering child first |
| TraceQueries.StackFrom | daemon/src/replay/index.rs:167-180 | the frame and its callers, innermost first, up to a missing or zero parent |
| TraceQueries.EventsBefore | daemon/src/replay/index.rs:183-191 | exactly the events not later than the time, in time order |
| RecordedIndex.IndexGivesBackForest | daemon/src/replay/index.rs:46-86 | the index of a list written in return order describes the very tree it was written from |
| TimeLookup.SpanToIsDeepest | daemon/src/replay/index.rs:131-163 | descending by half-open intervals finds the deepest frame of a scan over all frames, or none if none contains the time |
| TimeLookup.DescentsAgree | daemon/src/replay/index.rs:140-146 | the widened descent equals the half-open one if and only if no empty frame is in the way |
| TimeLookup.LookupIsDeepest | daemon/src/replay/index.rs:134-163 | `frame_at` is the deepest frame with enter <= t < exit if and only if no empty frame is exposed at t |
| TimeLookup.EmptyFrameHides | daemon/src/replay/index.rs:144-144 | two calls for which it is not |
| TimeLookup.StackListsRunning | daemon/src/replay/index.rs:167-180 | the stack of the frame found lists exactly the frames containing t, deepest first |
| DescentPaths.DescentIff | daemon/src/replay/index.rs:134-163 | the widened descent finds a frame if and only if it and all its callers have the time in their windows, no earlier sibling of any of them has, and no call of it has |
| DescentPaths.LookupIff | daemon/src/replay/index.rs:134-163 | so does the lookup on the index of every recorded trace, at every time |
| EndToEnd.RecordThenIndex | daemon/src/replay/index.rs:46-86 | for every balanced run under a clock that does not go back: the walk of the index is 1, 2, ..., n and its i-th frame is the i-th entry above the cap |
| EndToEnd.RecordThenLookUp | daemon/src/replay/index.rs:134-163 | for every such run and every time: the lookup is the deepest running frame if and only if no empty frame is exposed |
| EndToEnd.EventsFindTheirFrame | extension/periscope_userland.c:117-139 | under a clock that always moves, an event recorded at depth 1 to the cap is found in its own frame by looking up its time |
| EndToEnd.EventLookupIff | extension/periscope_userland.c:117-139 | under any clock that does not go back, for every event: looking up its time finds the frame it names if and only if that frame and its callers have the time in their windows and no earlier sibling and no call of it has |
| EndToEnd.RecordedDepthsStep | extension/periscope.c:298-331 | recorded depths meet what the stepping laws ask for |
| WholeSessions.ReplayOrder | daemon/src/replay/index.rs:46-86 | building the index of any finished request and walking it yields ids 1, 2, ..., n with the recorded frames of the entries above the cap, in entry order; frames and events recount the list of calls itself, readings, files, lines, depths, callers and owners; nothing is assumed of the index |
| WholeSessions.LookUp | daemon/src/replay/index.rs:134-163 | record, index, look a time up: the deepest running frame of a scan of everything recorded, if and only if no empty frame is exposed |
| WholeSessions.OwnerOf | extension/periscope_userland.c:117-139 | record, index, look up the time of any event: the event carries the reading of its note and names the innermost call around it; the lookup finds that frame if and only if it and its callers have the time in their windows and no earlier sibling and no call of it has; always so under a clock that always moves, for events recorded at depth 1 to the cap |
| WholeSessions.StepOutTwoWays | daemon/src/replay/cursor.rs:113-163 | in any recorded trace stepping out of a call ends where stepping over its caller ends |
| WholeSessions.StepInAndBack | daemon/src/dap.rs:598-625 | a session launched on any finished request, stepped in k times and then back j times, stands on call number k + 1, or the last, and then on the j-th call before it, or the first |
| WholeSessions.BothReconstruct | ui/src/lib/api.ts:202-242 | for any recorded request whose two event counters kept apart, at every time: the daemon's and the browser's events are the same, namely the front of the list up to that time, and so is the stack, reversed, when the frame is; the frame is the same if and only if no closed window has the time or the first of the deepest that do is where the descent leads; both show the deepest running frame if and only if no empty frame is exposed and whatever ends then ends above a running frame |
| Cursor.ReplayCursor.StepIn | daemon/src/replay/cursor.rs:104-110 | one position on, unless at the last; what that shows is `WholeSessions.StepInAndBack` |
| Cursor.ReplayCursor.StepOver | daemon/src/replay/cursor.rs:113-132 | the next position not deeper than the current frame, or stays |
| Cursor.ReplayCursor.StepOut | daemon/src/replay/cursor.rs:134-163 | the next shallower position, or the parent, or stays at a root |
| Cursor.ReplayCursor.StepBack | daemon/src/replay/cursor.rs:165-170 | one position back, unless at 0; what that shows is `WholeSessions.StepInAndBack` |
| Cursor.ReplayCursor.ForwardContinue | daemon/src/replay/cursor.rs:172-189 | the next matching position, or the last |
| Cursor.ReplayCursor.ReverseContinue | daemon/src/replay/cursor.rs:191-211 | the previous matching position, or 0 |
| Cursor.ReplayCursor.SeekTime | daemon/src/replay/cursor.rs:215-222 | the position of the frame looked up, or stays |
| Cursor.ReplayCursor.SeekFrame | daemon/src/replay/cursor.rs:224-229 | the position of the id, or stays |
| CursorTheorems.StepOverSkipsSubtree | daemon/src/replay/cursor.rs:113-132 | step over lands on the first position outside the current subtree and stays if and only if the rest of the walk is that subtree |
| CursorTheorems.StepOutIsParentThenOver | daemon/src/replay/cursor.rs:134-163 | step out of a frame with a caller is going to the caller and stepping over |
| CursorTheorems.SeekTimeParksOnFound | daemon/src/replay/cursor.rs:215-222 | seeking a time parks on the very frame the lookup found |
| CursorTheorems.HitsAreTheMatches | daemon/src/replay/cursor.rs:47-56 | the hit list is exactly the positions whose file and line are among the points, in order |
| CursorTheorems.ContinueVisitsAllHits | daemon/src/replay/cursor.rs:172-189 | k continues from position 0 stand on the k-th later match, and on the last frame when there are fewer |
| CursorTheorems.ReverseReturnsToPreviousHit | daemon/src/replay/cursor.rs:191-211 | reverse continue from a hit goes to the hit before, or to 0 |
| CursorTheorems.ReverseUndoesForward | daemon/src/replay/cursor.rs:172-211 | forward then reverse from a hit returns to it |
| Reconstruction.AtTime | daemon/src/replay/state.rs:38-41 | the state at a time: looked-up frame, its stack, the events so far |
| Reconstruction.AtFrame | daemon/src/replay/state.rs:43-46 | the state at a frame's enter time, or at 0 for an unknown id |
| Reconstruction.AtFrameInternal | daemon/src/replay/state.rs:48-82 | stack and events follow from the frame and the time through the index queries |
| Reconstruction.ScanCurrent | ui/src/lib/api.ts:205-216 | the two loops find a deepest frame of the closed windows, or none if there is none |
| Reconstruction.ReconstructStatic | ui/src/lib/api.ts:202-242 | the browser's state: that frame, its callers root first, all events not later |
| BrowserAgreement.BrowserAgrees | ui/src/lib/api.ts:202-242 | on recorded traces with unique event ids, at every time: same events, same stack reversed when the frame is the same, the browser never the shallower; same frame if and only if no closed window of the list has the time or the first of its deepest that do is where the descent leads, which is every exit being covered where no empty frame is exposed; both right if and only if every exit is covered and no empty frame is exposed |
| BrowserAgreement.ScansAgreeIff | ui/src/lib/api.ts:205-216 | the closed scan finds the deepest running frame if and only if whatever ends then ends above a frame that is still running |
| BrowserAgreement.ScanFindsDeepest | ui/src/lib/api.ts:205-216 | at no exit instant the scan's frame is the unique deepest running one |
| BrowserAgreement.EventsAgree | daemon/src/replay/index.rs:183-191 | with unique ids the looked-up events are the filtered list |
| BrowserAgreement.ExitInstantDiffers | ui/src/lib/api.ts:206-206 | an exit at which the two differ |
| BrowserAgreement.ExitInstantAgrees | ui/src/lib/api.ts:206-206 | an exit at which they agree |
| JsonSearch.JsonValueAfter | extension/periscope_daemon_link.c:171-181 | a pointer to the value behind the first match of the quoted key, blanks and colon skipped |
| JsonSearch.ValueIsFirst | extension/periscope_daemon_link.c:171-181 | a value is found exactly when the quoted key with its colon stands in the text, behind its first place and the blanks and tabs there; keys too long for the pattern buffer are not found |
| JsonSearch.JsonString | extension/periscope_daemon_link.c:184-209 | what is copied of the string value with its escapes undone, and whether the value ends within the buffer |
| JsonSearch.JsonIntArray | extension/periscope_daemon_link.c:212-227 | the non-negative numbers as 32-bit values, up to the capacity |
| WireRoundTrip.SignedRead | extension/periscope_daemon_link.c:212-227 | of numbers of either sign and any size between commas, those not negative are read, cut to 64-bit longs and then to 32 bits, up to the capacity |
| WireRoundTrip.SeparatorsSkipped | extension/periscope_daemon_link.c:218-218 | blanks, commas, tabs and line ends in any number stand between them |
| WireRoundTrip.StringReadsBack | extension/periscope_daemon_link.c:184-209 | a printed string reads back if and only if it has no control bytes but newline, CR and tab and fits |
| WireRoundTrip.NumbersRead | extension/periscope_daemon_link.c:212-227 | a printed list of 32-bit numbers reads back, cut to the capacity |
| WireRoundTrip.NoKeyInside | extension/periscope_daemon_link.c:171-181 | no match of the key starts inside a quoted path, whatever the path says |
| WireRoundTrip.LinesKeyIsReal | extension/periscope_daemon_link.c:171-181 | the first match of the `lines` key behind a path is the real key |
| ExtensionTable.FileKeyIsReal | extension/periscope_daemon_link.c:241-242 | so is that of the `file` key in a printed message |
| ExtensionTable.LinesValue | extension/periscope_daemon_link.c:245-246 | so is that of `lines` in a whole printed message, for every path |
| ExtensionTable.PrintedSetReads | extension/periscope_daemon_link.c:230-248 | type and first 64 lines of a printed message read back; the path does if and only if it is carried and shorter than 1024 |
| ExtensionTable.PrintedFileIs | extension/periscope_daemon_link.c:240-242 | for every path: what is read of it is what its bytes become one by one, or nothing when that is 1024 bytes or more |
| ExtensionTable.PrintIsCString | extension/periscope_daemon_link.c:230-233 | a printed message has no zero byte, so all of it is read |
| WireJson.PrintIsJson | daemon/src/ext_link.rs:53-63 | what the daemon's serialiser writes is read by an independent reader of JSON (RFC 8259) as an object with that `type`, `file` and `lines` |
| ExtensionTable.PrintThenApply | extension/periscope_daemon_link.c:230-269 | reading a printed message and applying it replaces the file's breakpoints |
| ExtensionTable.Table.Compact | extension/periscope_daemon_link.c:248-256 | in place, exactly the other files' entries remain, in order |
| ExtensionTable.Table.Append | extension/periscope_daemon_link.c:258-264 | the new lines are appended as far as the 256 slots reach |
| ExtensionTable.Table.ApplyDaemonMessage | extension/periscope_daemon_link.c:230-269 | the table after a message body is that of the specification, for every body, read up to its first zero byte |
| ExtensionTable.Table.IsBreakpoint | extension/periscope_daemon_link.c:366-375 | true if and only if file and line are in the table |
| Framing.FrameReadsBack | daemon/src/ext_link.rs:259-266 | a written frame reads back if and only if its body is not empty and at most 256 KiB |
| Framing.FrameIs | daemon/src/ext_link.rs:259-266 | a frame is four bytes that write the length in base 256, the first the most significant, and the body |
| Framing.StreamReadsBack | daemon/src/ext_link.rs:259-266 | a written list of such bodies reads back as the same list |
| Framing.Socket.ReadExact | extension/periscope_daemon_link.c:84-113 | exactly the bytes asked for, however they arrive |
| Framing.Socket.ReadFrameBlocking | extension/periscope_daemon_link.c:116-135 | one frame, however the stream is cut into pieces |
| OutgoingJson.EscapeJson | extension/periscope_daemon_link.c:35-58 | the buffer holds, as a C string, the escaped prefix that fits |
| OutgoingJson.EscapedFits | extension/periscope_daemon_link.c:39-57 | the terminator always fits |
| OutgoingJson.KeepsAllIff | extension/periscope_daemon_link.c:39-39 | nothing is cut off if and only if all but the last character leave more than eight bytes |
| OutgoingJson.ScanReads | extension/periscope_daemon_link.c:41-55 | a reader of JSON strings (section 7 of RFC 8259) gets the text back and stops at the closing quote |
| WireJson.HitMessage | extension/periscope_daemon_link.c:381-389 | the message never overflows its 1536 bytes, and an independent reader of JSON (RFC 8259) gets an object with `type` `breakpoint_hit`, `frame_id`, `line` and under `file` what 1024 bytes keep of the path |
| JsonReader.TextReads | daemon/src/grouping.rs:99-99 | that reader gets back every value from what the serialiser writes |
| ExtensionLink.Link.Pause | extension/periscope_daemon_link.c:377-417 | one frame reporting the stop is sent; table, unread bytes and result are those of the pause specification, on every stream; the link is open afterwards if and only if the call was released, so a broken stream closes it and empties the table |
| ExtensionLink.Link.EnterFunction | extension/periscope.c:250-260 | on function entry at most 32 arrived frames are read first; the call stops if and only if its file and line are in the table after that, and then reports the stop and pauses |
| ExtensionLink.DrainApplies | extension/periscope_daemon_link.c:349-364 | reading as many of the daemon's messages applies exactly those |
| ExtensionLink.Link.Close | extension/periscope_daemon_link.c:321-328 | the link is closed and the table empty |
| ExtensionLink.PauseAppliesAndStops | extension/periscope_daemon_link.c:394-415 | fed printed set messages and a `continue`, a paused extension applies exactly those, stops there and leaves the rest unread |
| ExtensionLink.CutContinueReleases | extension/periscope_daemon_link.c:404-411 | one such body: cut off right after `continue` it releases the call, though it has no readable type |
| ExtensionLink.ReleasesIff | extension/periscope_daemon_link.c:404-411 | for every text: it releases the call if and only if its type reads as `continue`, or the text ends inside the type right after `continue` |
| ExtensionLink.PrintedFits | extension/periscope_daemon_link.c:122-124 | every message within the limits fits a frame |
| LiveProtocol.StepKeepsHandshake | daemon/src/dap.rs:543-571 | every step keeps the handshake, except exactly a hit delivered between queueing `Continue` and clearing `live_paused` |
| LiveProtocol.HandshakeIffNotOvertaken | daemon/src/dap.rs:543-571 | a run keeps it in every state if and only if no hit overtakes a release; paused means exactly one of: hit in flight, `live_paused`, `Continue` queued |
| LiveProtocol.NoStaleContinue | extension/periscope_daemon_link.c:394-411 | under the handshake a running extension has no `Continue` waiting |
| LiveProtocol.OvertakenIsStuck | daemon/src/dap.rs:551-562 | after an overtaking hit the extension is stuck |
| LiveProtocol.StuckForever | daemon/src/dap.rs:543-571 | no step gets it out |
| LiveProtocol.LostWakeUp | daemon/src/dap.rs:551-562 | a run from the start ends stuck |
| LiveProtocol.ReleasableIff | daemon/src/dap.rs:543-571 | a paused extension, in any state, is released by some run if and only if a hit is in flight, a `Continue` is queued, or the session knows of the pause and is not just releasing another |
| LiveProtocol.NeverLost | daemon/src/dap.rs:543-571 | after every run from the start in which no hit overtakes a release, the extension runs or some run releases it |
| LiveProtocol.SetPointsIsReplace | daemon/src/dap.rs:648-656 | the session's update and the extension's agree as sets |
| LiveProtocol.ReplicaAgrees | daemon/src/dap.rs:648-663 | in every reachable state within the limits, the table after reading everything queued is, as a set, the session's breakpoints |
| LiveProtocol.CaughtUpStopsRight | extension/periscope_daemon_link.c:366-375 | an extension that has caught up stops on exactly the session's breakpoints |
| LiveProtocol.EnteredStopsIff | extension/periscope.c:250-260 | after every run within the limits: an entered call stops, with exactly one more hit, if and only if its line is among those last asked for in its file by the messages read by then, those it reads itself included |
| LiveProtocol.CaughtUpStops | extension/periscope.c:250-260 | when it reads everything sent: if and only if file and line are among the session's breakpoints, which are the lines last asked for |
| LiveProtocol.SessionAsked | daemon/src/dap.rs:648-656 | at every time the session's breakpoints are, file by file, the lines last asked for |
| LiveProtocol.EntryRefines | extension/periscope_daemon_link.c:349-375 | what function entry does byte by byte on the stream the daemon writes is what the step does |
| LiveProtocol.RequestAgreesIff | extension/periscope_daemon_link.c:241-264 | one request, of any path and any lines, leaves the two agreeing if and only if: the path carried, no line is only found past the part the table takes; the path too long, the file has just these lines already; the path read as another one, both have just what is asked of them already |
| LiveProtocol.AlwaysAgreesIff | daemon/src/dap.rs:648-663 | over whole runs, of any paths and 32-bit lines: extension and session agree after every step if and only if each request is harmless, in that sense, for the table the ones before it leave |
| DapSession.HandleLifetime | daemon/src/dap.rs:449-492 | a variable handle names its frame exactly until the next clearing, and no other frame after it, while fewer than 2^32 handles are issued |
| DapSession.HandleKept | daemon/src/dap.rs:494-506 | issuing other handles does not disturb one |
| DapSession.ScopesAnswer | daemon/src/dap.rs:449-541 | over every session: the handle `scopes` gave out answers `variables` with its frame until a launch, continue or step clears it, and with nothing from then on |
| DapSession.HandlersRefine | daemon/src/dap.rs:543-686 | every handler changes session and queue exactly as its steps of the live protocol do |
| DapSession.Session.OnLaunch | daemon/src/dap.rs:346-391 | a decoded trace starts a cursor on that trace at position 0 and clears handles; a missing file is answered with a failure; an undecodable one ends the session unanswered |
| DapSession.Session.OnScopes | daemon/src/dap.rs:449-492 | a fresh handle for the frame |
| DapSession.Session.OnVariables | daemon/src/dap.rs:494-541 | the frame behind the handle, or nothing for an unknown one |
| DapSession.Session.OnContinue | daemon/src/dap.rs:543-596 | when live-paused: `Continue` is queued, handles and the flag are cleared; else the cursor continues either way |
| DapSession.Session.OnStep | daemon/src/dap.rs:598-625 | the cursor moves by the step, each kind as the cursor law says, and handles are cleared |
| DapSession.Session.OnSetBreakpoints | daemon/src/dap.rs:627-686 | the file's points are replaced and the same list is queued |
| DapSession.Session.OnBreakpointHit | daemon/src/dap.rs:183-200 | the bus listener marks the session live-paused and reports the stop |
| EventFilter.SplitTopLevelAnd | daemon/src/event_filter.rs:83-120 | the loop splits at separators outside quotes, or reports an open quote |
| EventFilter.ParseClause | daemon/src/event_filter.rs:122-162 | a clause at its first unquoted colon, segments checked in order, or free text |
| EventFilter.Parse | daemon/src/event_filter.rs:52-66 | empty pieces are dropped, the first error wins |
| EventFilter.Matches | daemon/src/event_filter.rs:73-80 | an event matches if and only if every clause holds |
| EventFilter.LookupPath | daemon/src/event_filter.rs:195-206 | the value at the path through objects, or nothing |
| FilterTheorems.PathJoins | daemon/src/event_filter.rs:195-206 | a path is looked up in what its front leads to, and the empty path leads to the value itself |
| FilterTheorems.OneKey | daemon/src/event_filter.rs:199-201 | under one key an object has the value of its first field with that key, and nothing else has a value |
| FilterErrors.TrimTells | daemon/src/event_filter.rs:59-59 | trimming takes the white space of Unicode at both ends, and no more |
| FilterErrors.ClauseFailsIff | daemon/src/event_filter.rs:122-155 | a clause is refused if and only if it has a colon outside quotes and the text before the first one is blank or has, between dots, a blank segment or a character no identifier has |
| FilterErrors.FilterFailsIff | daemon/src/event_filter.rs:52-66 | a filter is refused if and only if it has an odd number of quotes or a piece that is such a clause |
| FilterTheorems.SplitLosesNothing | daemon/src/event_filter.rs:83-120 | pieces and removed separators, interleaved, are the input |
| FilterTheorems.PiecesAreClean | daemon/src/event_filter.rs:83-120 | no piece keeps a separator outside quotes |
| FilterTheorems.AndJoinsPieces | daemon/src/event_filter.rs:83-120 | joined texts split into the pieces of both if and only if the first one's last piece does not end in a blank and AND |
| FilterTheorems.WrittenSplits | daemon/src/event_filter.rs:100-112 | AND written in letters of either case between blanks or tabs separates two texts without quotes, unless the first ends in a blank and AND |
| FilterTheorems.AndIsConjunction | daemon/src/event_filter.rs:52-80 | unless the first one ends in AND, joined filters parse to the clauses of both, so an event matches exactly when it matches each |
| FilterJoin.JoinIff | daemon/src/event_filter.rs:52-120 | for trimmed filters that parse: the joined filter parses to the clauses of both if and only if the first one's last piece does not end in a blank and AND, or is AND alone and the second starts with an even number of ANDs and then an empty piece |
| FilterJoin.JoinedIs | daemon/src/event_filter.rs:52-120 | for trimmed filters that parse: what the joined filter parses to, told from the pieces of each |
| FilterJoin.JoinMatchesIff | daemon/src/event_filter.rs:73-80 | for every assignment of truth values to clauses, which is more than events make: the joined filter matches exactly when both do, if and only if its clauses, for trimmed texts those the pieces regroup into, are the clauses of both as a set |
| FilterJoin.JoinMatches | daemon/src/event_filter.rs:52-120 | for every assignment, so for every event, it does when the last piece of the first does not end in a blank and AND, or is AND alone and the second starts with ANDs, an even or odd number, and then an empty piece |
| FilterJoin.MatchesInAnotherOrder | daemon/src/event_filter.rs:83-120 | this is not needed: `AND AND` joined with `AND` is matched alike though neither holds |
| FilterSearch.FoundAlikeIff | daemon/src/event_filter.rs:173-178 | two lists of parsed clauses, free text searched for in a text and path clauses left open, match alike on every text if and only if each clause of one is in the other, is empty, or is searched for inside a needle of the other |
| FilterSearch.FoundInEitherCase | daemon/src/event_filter.rs:173-178 | free text is found exactly where it stands in the text, letters in either case |
| FilterSearch.JoinFindsIff | daemon/src/event_filter.rs:73-178 | for trimmed filters that parse, on every text: the joined filter matches exactly when both do, if and only if the first does not end in AND or the clauses the pieces regroup into and those of both imply each other in that sense |
| FilterSearch.FindsByOtherClauses | daemon/src/event_filter.rs:83-178 | for all bare words w and v: `"w and" AND w AND` joined with `v AND "and v"` finds on every text what both find, and has the clauses of both only if w and v are one word |
| FilterJoin.JoinsThoughRegrouped | daemon/src/event_filter.rs:83-120 | for all bare words, filters of the second kind |
| FilterGrammar.GrammarRoundTrip | daemon/src/event_filter.rs:8-22 | every filter of the documented grammar, printed and joined with AND, parses back to its clauses |
| FilterGrammar.ShownParses | daemon/src/event_filter.rs:122-162 | so does every single clause |
| FilterGrammar.TrailingAndRegroups | daemon/src/event_filter.rs:83-120 | for all bare words u and v, `u AND` joined with `v` is read as `u` and `AND v`, not as the two filters |
| Grouping.CanonicalIff | daemon/src/grouping.rs:118-136 | canonical forms are equal if and only if the payloads agree up to key order and timing keys at every depth |
| Grouping.SameGroupIff | daemon/src/grouping.rs:97-112 | the bytes hashed for two events are equal if and only if type and payload agree in that sense |
| Grouping.DifferingFieldIff | daemon/src/grouping.rs:27-42 | payloads that differ in the value of one key are the same exactly when the values are or the key is one of the fourteen timing keys |
| PayloadText.TextUnique | daemon/src/grouping.rs:99-99 | no two payloads are serialised alike, whatever follows |
| PayloadText.HashedUnique | daemon/src/grouping.rs:100-103 | type, the separator byte 1F and payload can be told apart in the hashed bytes, even when the type holds separators |
| Grouping.GroupEvents | daemon/src/grouping.rs:59-92 | the map-and-order loop yields one group per fingerprint in order of first occurrence; each has the count, ids, first time, sample and type of the events with its fingerprint, told by their positions in the list, and their latest time |
| Grouping.GroupHoldsItsEvents | daemon/src/grouping.rs:66-90 | a group has exactly the events of its fingerprint, and the last time is the maximum |
| Grouping.CountsAddUp | daemon/src/grouping.rs:59-92 | counts sum to the number of events |
| Grouping.FirstOccurrenceOrder | daemon/src/grouping.rs:59-92 | groups stand in the order of their first members |
| Grouping.KindsDistinct | daemon/src/grouping.rs:59-92 | no fingerprint has two groups |
| Capture.Renderer.AppendQuoted | extension/periscope_capture.c:27-55 | the buffer grows by the quoted string: true length, escapes, and how much was cut |
| Capture.Renderer.CaptureRecursive | extension/periscope_capture.c:304-365 | the buffer grows by exactly the text of the captured structure, and the visited table is left as specified, on every heap, cyclic or shared |
| Capture.Renderer.CaptureArray | extension/periscope_capture.c:75-130 | the same for arrays: item limit, depth limit, count of what was left out |
| Capture.Renderer.CaptureObject | extension/periscope_capture.c:132-302 | the same for objects: recursion mark, lazy objects, depth limit |
| Capture.Renderer.CaptureTable | extension/periscope_capture.c:268-301 | the property-table branch marks first; a table allocated here is gone afterwards |
| Capture.Renderer.CaptureDeclared | extension/periscope_capture.c:219-265 | the declared-slot branch marks only when it meets an initialised slot; statics are skipped |
| Capture.Renderer.CaptureTop | extension/periscope_capture.c:367-374 | a capture from the outside starts at depth 0 without a table |
| CaptureReading.StringTells | extension/periscope_capture.c:27-55 | for every byte string and every limit, an independent reader gets from the captured text the length, exactly the bytes up to the limit, and how many were left out |
| CaptureReading.AloneTellsIff | extension/periscope_capture.c:27-55 | a reader that does not know the limit gets them if and only if not just five bytes were left out |
| CaptureReading.ArrayTells | extension/periscope_capture.c:75-130 | an entered array tells its size, shows its first elements by their keys in order up to the limit, and tells how many are left out |
| CaptureReading.TableTells | extension/periscope_capture.c:268-301 | so does an entered property table |
| CaptureReading.DeclaredTells | extension/periscope_capture.c:219-265 | declared slots are shown in order without the static ones, up to the limit, and one without a value says so |
| CaptureReading.MarksTell | extension/periscope_capture.c:86-149 | what is not entered says why: visited before, lazy, too deep, empty; a reference says what it refers to |
| CaptureReading.ItemsTell | extension/periscope_capture.c:105-118 | items stand behind their keys with a comma and a blank between them |
| CaptureTheorems.LevelsWithinBudget | extension/periscope_capture.c:92-95 | from any depth and table, nesting stays within what is left of the depth limit |
| CaptureTheorems.NeverInsideItself | extension/periscope_capture.c:141-149 | whatever is being expanded is in the table handed down and is not expanded below; the table only grows |
| CaptureTheorems.CaptureIsBounded | extension/periscope_capture.c:367-374 | every capture nests at most `max_depth` deep and expands no object inside itself |
| CaptureTheorems.CountsMatchTable | extension/periscope_capture.c:268-275 | with a table, expansions of a marking object and its table entry are one ledger |
| CaptureTheorems.OncePerObject | extension/periscope_capture.c:132-302 | rooted at an object, an object that is marked is expanded at most once |
| CaptureLimits.OnceFromObjectsIff | extension/periscope_capture.c:132-302 | for every body and all options: rooted at an object it is expanded at most once on every heap if and only if it is not a declared-slot body without an initialised shown slot, or the options leave no room for two |
| CaptureLimits.OnceFromArraysIff | extension/periscope_capture.c:75-130 | rooted at an array, if and only if it is never expanded, or neither two items nor, for an unmarked body, two properties of an item can be shown |
| CaptureLimits.NeverExpanded | extension/periscope_capture.c:151-214 | enum cases, closures and lazy objects are never expanded |
| CaptureLimits.UnmarkedRepeats | extension/periscope_capture.c:248-258 | for every unmarked body and all options with room for two, a heap and an object from which it is expanded twice |
| CaptureLimits.ArrayRootRepeats | extension/periscope_capture.c:268-275 | for every body that can be expanded and all options that show two items, an array from which it is expanded twice |

## Left out

- JoinMatches: one direction, a condition on the two texts; for events themselves an exact one is out of reach while the truth of path clauses and the JSON text of an event are left out.
- JoinMatchesIff: about every assignment of truth values to clauses; one event ties clauses together, so its "only if" half does not speak of events.
- JoinFindsIff: about every text and every assignment to path clauses; the text of an event is its JSON, so its "only if" half does not speak of events.
- FoundAlikeIff: likewise.
- AndIsConjunction: one direction; the exact condition for the clause lists is `FilterJoin.JoinIff`, and for matching see JoinMatches.
- HandleLifetime: fewer than 2^32 handles between issue and use, because the source's counter wraps there.
- Build: lists with repeated ids are left out; the source keeps the last frame of an id, and its walk need not end on them.
- AtTime: without the scope variables, which copy the argument and return summaries.
- AtFrame: likewise.
- AtFrameInternal: likewise.
- ReconstructStatic: likewise.
- BothReconstruct: likewise.
- ParseClause: segments of ASCII letters and digits, where the source accepts all alphanumeric characters.
- SameGroupIff: the hash and its truncation to 64 bits are taken as injective; the bytes hashed are not.
- Matches: takes the truth of a clause on an event as a parameter; free text is modelled by `FilterSearch.Truth`, the literal comparison needs floating point and the JSON text of the event.
- Widths of frame ids (32 bits) and times (64 bits): unbounded here. Line numbers, frame lengths and handles are modelled at their widths.
- Text: one character is one byte; UTF-8 validity, Unicode case and letters beyond ASCII in filters are not modelled.
- Sending on the socket is taken to succeed; the extension drops the link when it does not.
- The non-blocking frame reader, which drops the link on a partial header; how many frames have arrived when a function is entered is a parameter.
- Several extensions at once, reconnects, full queues and broadcast lag; a fresh connection is not sent existing breakpoints.
- The sender list of the bus and its pruning: one queue, in order.
- Trace files: the Cap'n Proto encoding is a field-by-field copy; the model starts from the list of frames and events.
- Function names, argument and return summaries, the stderr mirror, and mode and path filters of the extension.
- The retention sweep over trace files: directory listing and deletion around one sort.
- DAP JSON bodies and the stack-trace and evaluate requests, which change no state.
- HTTP and WebSocket handlers, storage statistics, sidecar files, summaries, insights and the highlighter.
- Laravel hooks, the AI advisor, IDE plugins and the rest of the user interface.
