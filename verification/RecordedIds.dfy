/** When the ids of the frames a request writes are unique: for every list of entries, exits and events. */
module RecordedIds {
  import opened TraceModel
  import opened Recorder
  import opened RecorderInvariant

  ghost predicate UniqueIds(frames: seq<Frame>) {
    Distinct(FrameIds(frames))
  }

  /** The open ids grow with depth, and none of them is written yet. */
  ghost predicate IdInv(s: State) {
    && s.Recording() && UniqueIds(s.frames)
    && (forall i :: 0 <= i < Tracked(s) ==> 1 <= s.frameIdAt[i] <= s.nextFrameId)
    && (forall i, j :: 0 <= i < j < Tracked(s) ==> s.frameIdAt[i] < s.frameIdAt[j])
    && (forall f, i :: f in s.frames && 0 <= i < Tracked(s) ==> f.id != s.frameIdAt[i])
    && (forall f :: f in s.frames ==> 1 <= f.id <= s.nextFrameId)
  }

  ghost predicate Written(frames: seq<Frame>, id: nat) {
    exists f :: f in frames && f.id == id
  }

  /** With nothing open, what slot 0 last held is written. */
  ghost predicate RootWritten(s: State) {
    s.Recording() && (s.depth == 0 && s.nextFrameId > 0 ==> Written(s.frames, s.frameIdAt[0]))
  }

  lemma OneMore(frames: seq<Frame>, g: Frame)
    ensures UniqueIds(frames + [g]) <==> UniqueIds(frames) && !Written(frames, g.id)
  {
    var s := frames + [g];
    assert forall i :: 0 <= i < |frames| ==> FrameIds(s)[i] == FrameIds(frames)[i];
    assert FrameIds(s)[|frames|] == g.id;
    if UniqueIds(s) {
      forall f | f in frames ensures f.id != g.id {
        var i :| 0 <= i < |frames| && frames[i] == f;
        assert FrameIds(s)[i] == f.id;
      }
    }
    if UniqueIds(frames) && !Written(frames, g.id) {
      forall i | 0 <= i < |frames| ensures FrameIds(s)[i] != g.id {
        assert frames[i] in frames;
      }
    }
  }

  lemma LeaveKeepsIds(s: State, now: nat, fn: Func)
    requires IdInv(s) && s.depth > 0
    ensures IdInv(EndStep(s, now, fn)) && RootWritten(EndStep(s, now, fn))
  {
    var d := s.depth - 1;
    if d < MAX_DEPTH {
      var g := LeftFrame(s, d, now, fn);
      OneMore(s.frames, g);
      var t := EndStep(s, now, fn);
      assert t.frames == s.frames + [g] && g in t.frames;
      forall f, i | f in t.frames && 0 <= i < Tracked(t) ensures f.id != t.frameIdAt[i] {
        assert f in s.frames || f == g;
      }
    }
  }

  lemma StepKeepsIds(s: State, op: Op)
    requires IdInv(s) && RootWritten(s) && (op.Leave? ==> s.depth > 0)
    ensures IdInv(Apply(s, op)) && RootWritten(Apply(s, op))
  {
    if op.Leave? {
      LeaveKeepsIds(s, op.at, op.fn);
    }
  }

  /** Exits that never outnumber entries keep ids unique. */
  lemma {:induction false} BalancedIdsUnique(s: State, ops: seq<Op>)
    requires IdInv(s) && RootWritten(s) && NeverBelow(ops, s.depth)
    ensures IdInv(Exec(s, ops))
    decreases |ops|
  {
    if ops != [] {
      StepKeepsIds(s, ops[0]);
      BalancedIdsUnique(Apply(s, ops[0]), ops[1..]);
    }
  }

  /** An id written twice stays written twice. */
  lemma {:induction false} RepeatStays(s: State, ops: seq<Op>)
    requires s.Valid() && !UniqueIds(s.frames)
    ensures !UniqueIds(Exec(s, ops).frames)
    decreases |ops|
  {
    if ops != [] {
      if Apply(s, ops[0]).frames != s.frames {
        OneMore(s.frames, Apply(s, ops[0]).frames[|s.frames|]);
      }
      RepeatStays(Apply(s, ops[0]), ops[1..]);
    }
  }

  /** Once an id is drawn, an exit too many writes the last root again. */
  lemma {:induction false} StrayRepeats(s: State, ops: seq<Op>)
    requires IdInv(s) && RootWritten(s) && !NeverBelow(ops, s.depth)
    requires s.nextFrameId > 0 || ops[0].Enter?
    ensures !UniqueIds(Exec(s, ops).frames)
    decreases |ops|
  {
    var t := Apply(s, ops[0]);
    if ops[0].Leave? && s.depth == 0 {
      OneMore(s.frames, LeftFrame(s, 0, ops[0].at, ops[0].fn));
      RepeatStays(t, ops[1..]);
    } else {
      StepKeepsIds(s, ops[0]);
      StrayRepeats(t, ops[1..]);
    }
  }

  // ---------- exits before the first entry ----------

  /** From the first entry on. */
  function FromEntry(ops: seq<Op>): seq<Op>
    decreases |ops|
  {
    if ops == [] || ops[0].Enter? then ops else FromEntry(ops[1..])
  }

  /** The exits before the first entry. */
  function EarlyExits(ops: seq<Op>): nat
    decreases |ops|
  {
    if ops == [] || ops[0].Enter? then 0 else (if ops[0].Leave? then 1 else 0) + EarlyExits(ops[1..])
  }

  lemma {:induction false} EarlySplits(ops: seq<Op>)
    ensures NeverBelow(ops, 0) <==> EarlyExits(ops) == 0 && NeverBelow(FromEntry(ops), 0)
    ensures FromEntry(ops) == [] || FromEntry(ops)[0].Enter?
    decreases |ops|
  {
    if !(ops == [] || ops[0].Enter?) {
      EarlySplits(ops[1..]);
    }
  }

  /** The two states write the same frames from here on. */
  ghost predicate WriteAlike(s: State, t: State) {
    && s.Recording() && t.Recording() && s.start == t.start && s.depth == t.depth
    && s.nextFrameId == t.nextFrameId && s.enterUs == t.enterUs && s.frameIdAt == t.frameIdAt
  }

  lemma {:induction false} AlikeRuns(s: State, t: State, p: seq<Frame>, ops: seq<Op>)
    requires WriteAlike(s, t) && t.frames == p + s.frames
    ensures Exec(t, ops).frames == p + Exec(s, ops).frames
    decreases |ops|
  {
    if ops != [] {
      var s1, t1 := Apply(s, ops[0]), Apply(t, ops[0]);
      if ops[0].Leave? && s1.frames != s.frames {
        var g := s1.frames[|s.frames|];
        assert p + (s.frames + [g]) == p + s.frames + [g];
      }
      AlikeRuns(s1, t1, p, ops[1..]);
    }
  }

  /** Each early exit writes what slot 0 still holds. */
  lemma {:induction false} EarlyWrites(s: State, ops: seq<Op>) returns (t: State, p: seq<Frame>)
    requires s.Recording() && s.depth == 0
    ensures WriteAlike(s, t) && Exec(s, ops) == Exec(t, FromEntry(ops))
    ensures t.frames == s.frames + p && |p| == EarlyExits(ops)
    ensures forall f :: f in p ==> f.id == s.frameIdAt[0]
    decreases |ops|
  {
    if ops == [] || ops[0].Enter? {
      t, p := s, [];
    } else {
      var s1 := Apply(s, ops[0]);
      t, p := EarlyWrites(s1, ops[1..]);
      if ops[0].Leave? {
        var g := LeftFrame(s, 0, ops[0].at, ops[0].fn);
        assert s.frames + [g] + p == s.frames + ([g] + p);
        p := [g] + p;
      }
    }
  }

  lemma DistinctTail(p: seq<nat>, r: seq<nat>)
    requires Distinct(p + r)
    ensures Distinct(r)
  {
    forall i, j | 0 <= i < j < |r| ensures r[i] != r[j] {
      assert (p + r)[|p| + i] == r[i] && (p + r)[|p| + j] == r[j];
    }
  }

  lemma OneInFront(z: nat, r: seq<nat>)
    ensures Distinct([z] + r) <==> Distinct(r) && z !in r
  {
    var s := [z] + r;
    assert s[0] == z && forall i :: 0 <= i < |r| ==> s[i + 1] == r[i];
    if Distinct(s) {
      DistinctTail([z], r);
    }
  }

  lemma SameInFront(p: seq<nat>, r: seq<nat>, z: nat)
    requires forall i :: 0 <= i < |p| ==> p[i] == z
    ensures Distinct(p + r) <==> Distinct(r) && (|p| == 0 || (|p| == 1 && z !in r))
  {
    if |p| == 0 {
      assert p + r == r;
    } else if |p| == 1 {
      assert p == [z];
      OneInFront(z, r);
    } else {
      assert (p + r)[0] == (p + r)[1];
    }
  }

  lemma SameIdInFront(p: seq<Frame>, frames: seq<Frame>, z: nat)
    requires forall f :: f in p ==> f.id == z
    ensures UniqueIds(p + frames) <==> UniqueIds(frames) && (|p| == 0 || (|p| == 1 && !Written(frames, z)))
  {
    assert FrameIds(p + frames) == FrameIds(p) + FrameIds(frames);
    SameInFront(FrameIds(p), FrameIds(frames), z);
    WrittenIsIn(frames, z);
  }

  lemma WrittenIsIn(frames: seq<Frame>, z: nat)
    ensures Written(frames, z) <==> z in FrameIds(frames)
  {
    if Written(frames, z) {
      var f :| f in frames && f.id == z;
      var i :| 0 <= i < |frames| && frames[i] == f;
      assert FrameIds(frames)[i] == z;
    }
    if z in FrameIds(frames) {
      var i :| 0 <= i < |frames| && FrameIds(frames)[i] == z;
      assert frames[i] in frames;
    }
  }

  // ---------- the ids of calls left again ----------

  /** Calls above the depth cap are numbered as they are entered; these are the numbers of those left again. `open` holds
      the numbers of the calls still open, with 0 for those past the cap, and `next` is the last number given. */
  function LeftIds(ops: seq<Op>, open: seq<nat>, next: nat): set<nat>
    decreases |ops|
  {
    if ops == [] then {}
    else
      match ops[0]
      case Enter(_) => if |open| < MAX_DEPTH then LeftIds(ops[1..], open + [next + 1], next + 1) else LeftIds(ops[1..], open + [0], next)
      case Leave(_, _) =>
        if open == [] then {}
        else (if |open| <= MAX_DEPTH then {open[|open| - 1]} else {}) + LeftIds(ops[1..], open[..|open| - 1], next)
      case Note(_, _) => LeftIds(ops[1..], open, next)
  }

  /** The slots hold the numbers of the open calls. */
  ghost predicate HoldsOpen(s: State, open: seq<nat>) {
    s.Recording() && |open| == s.depth && forall i :: 0 <= i < Tracked(s) ==> s.frameIdAt[i] == open[i]
  }

  lemma OneMoreWritten(frames: seq<Frame>, g: Frame, z: nat)
    ensures Written(frames + [g], z) <==> Written(frames, z) || g.id == z
  {
    assert g in frames + [g];
    if Written(frames, z) {
      var f :| f in frames && f.id == z;
      assert f in frames + [g];
    }
  }

  /** The frames written carry the ids of the calls left, and no others. */
  lemma {:induction false} WrittenAreLeft(s: State, ops: seq<Op>, open: seq<nat>, z: nat)
    requires HoldsOpen(s, open) && NeverBelow(ops, s.depth)
    ensures Written(Exec(s, ops).frames, z) <==> Written(s.frames, z) || z in LeftIds(ops, open, s.nextFrameId)
    decreases |ops|
  {
    if ops != [] {
      var t := Apply(s, ops[0]);
      match ops[0]
      case Enter(_) => WrittenAreLeft(t, ops[1..], open + [if |open| < MAX_DEPTH then s.nextFrameId + 1 else 0], z);
      case Leave(now, fn) =>
        if s.depth <= MAX_DEPTH {
          OneMoreWritten(s.frames, LeftFrame(s, s.depth - 1, now, fn), z);
        }
        WrittenAreLeft(t, ops[1..], open[..|open| - 1], z);
      case Note(_, _) => WrittenAreLeft(t, ops[1..], open, z);
    }
  }

  // ---------- the whole request ----------

  lemma FromEntryIff(s: State, ops: seq<Op>)
    requires s.Recording() && s.depth == 0 && s.nextFrameId == 0 && s.frames == []
    requires ops == [] || ops[0].Enter?
    ensures UniqueIds(Exec(s, ops).frames) <==> NeverBelow(ops, 0)
  {
    if NeverBelow(ops, 0) {
      BalancedIdsUnique(s, ops);
    } else {
      StrayRepeats(s, ops);
    }
  }

  lemma UniqueIdsByRun(before: State, now: nat, ops: seq<Op>)
    requires before.Valid()
    ensures var s := InitStep(before, now, true, true);
            UniqueIds(Exec(s, ops).frames) <==>
              NeverBelow(ops, 0)
              || (EarlyExits(ops) == 1 && NeverBelow(FromEntry(ops), 0) && !Written(Exec(s, FromEntry(ops)).frames, before.frameIdAt[0]))
  {
    var s := InitStep(before, now, true, true);
    EarlySplits(ops);
    var t, p := EarlyWrites(s, ops);
    assert p + [] == p;
    AlikeRuns(s, t, p, FromEntry(ops));
    SameIdInFront(p, Exec(s, FromEntry(ops)).frames, before.frameIdAt[0]);
    FromEntryIff(s, FromEntry(ops));
  }

  lemma FreshRunWrites(before: State, now: nat, ops: seq<Op>, z: nat)
    requires before.Valid() && NeverBelow(ops, 0)
    ensures Written(Exec(InitStep(before, now, true, true), ops).frames, z) <==> z in LeftIds(ops, [], 0)
  {
    WrittenAreLeft(InitStep(before, now, true, true), ops, [], z);
  }

  /** The ids a request writes are unique if and only if its exits never outnumber its entries; or all but one never do,
      that one comes before the first entry, and the id it finds in slot 0 from an earlier request is not the number of a
      call above the cap that is left again. */
  lemma UniqueIdsIff(before: State, now: nat, ops: seq<Op>)
    requires before.Valid()
    ensures UniqueIds(Exec(InitStep(before, now, true, true), ops).frames) <==>
              NeverBelow(ops, 0)
              || (EarlyExits(ops) == 1 && NeverBelow(FromEntry(ops), 0) && before.frameIdAt[0] !in LeftIds(FromEntry(ops), [], 0))
  {
    UniqueIdsByRun(before, now, ops);
    if NeverBelow(FromEntry(ops), 0) {
      FreshRunWrites(before, now, FromEntry(ops), before.frameIdAt[0]);
    }
  }

  /** So from a first entry on, unique ids are the same as exits that never outnumber entries. */
  lemma EnteredIdsIff(before: State, now: nat, ops: seq<Op>)
    requires before.Valid() && EarlyExits(ops) == 0
    ensures UniqueIds(Exec(InitStep(before, now, true, true), ops).frames) <==> NeverBelow(ops, 0)
  {
    UniqueIdsByRun(before, now, ops);
  }

  /** In a fresh process slot 0 holds no id, so one early exit does no harm, and nothing else is forgiven. */
  lemma FreshIdsIff(before: State, now: nat, ops: seq<Op>)
    requires before.Valid() && before.frameIdAt[0] == 0
    ensures UniqueIds(Exec(InitStep(before, now, true, true), ops).frames) <==> EarlyExits(ops) <= 1 && NeverBelow(FromEntry(ops), 0)
  {
    var s := InitStep(before, now, true, true);
    UniqueIdsByRun(before, now, ops);
    EarlySplits(ops);
    if NeverBelow(FromEntry(ops), 0) {
      BalancedIdsUnique(s, FromEntry(ops));
    }
  }
}
