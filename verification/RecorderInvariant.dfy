/** What holds after every prefix of a request in which function exits never outnumber entries. */
module RecorderInvariant {
  import opened TraceModel
  import opened Recorder

  /** Entries minus exits. */
  function Height(ops: seq<Op>): int
    decreases |ops|
  {
    if ops == [] then 0
    else (if ops[0].Enter? then 1 else if ops[0].Leave? then -1 else 0) + Height(ops[1..])
  }

  /** Clock readings never go back, and start at `from` or later. */
  ghost predicate Monotone(ops: seq<Op>, from: nat)
    decreases |ops|
  {
    ops == [] || (from <= ops[0].at && Monotone(ops[1..], ops[0].at))
  }

  /** No prefix has more exits than `open` plus its entries. */
  ghost predicate NeverBelow(ops: seq<Op>, open: nat)
    decreases |ops|
  {
    ops == [] ||
    if ops[0].Enter? then NeverBelow(ops[1..], open + 1)
    else if ops[0].Leave? then open > 0 && NeverBelow(ops[1..], open - 1)
    else NeverBelow(ops[1..], open)
  }

  function Tracked(s: State): nat {
    if s.depth < MAX_DEPTH then s.depth else MAX_DEPTH
  }

  function EnteredAt(s: State, i: nat): nat
    requires s.Valid() && i < MAX_DEPTH
  {
    Since(s.start, s.enterUs[i])
  }

  /** `f` ran inside `g`. */
  ghost predicate Inside(f: Frame, g: Frame) {
    g.enter <= f.enter && f.exit <= g.exit
  }

  /** The open ids and enter times grow with depth. */
  ghost predicate OpenOrdered(s: State, now: nat)
    requires s.Valid()
  {
    && (forall i :: 0 <= i < Tracked(s) ==> 1 <= s.frameIdAt[i] <= s.nextFrameId && s.enterUs[i] <= now)
    && (forall i, j :: 0 <= i < j < Tracked(s) ==> s.frameIdAt[i] < s.frameIdAt[j])
    && (forall i, j :: 0 <= i < j < Tracked(s) ==> s.enterUs[i] <= s.enterUs[j])
  }

  /** A written frame lies wholly before an open one or wholly after its entry, and its id says which. */
  ghost predicate BeforeOrInside(f: Frame, id: nat, enter: nat) {
    || (f.id < id && f.exit <= enter)
    || (f.id > id && enter <= f.enter)
  }

  ghost predicate WrittenAroundOpen(s: State)
    requires s.Valid()
  {
    forall f, i :: f in s.frames && 0 <= i < Tracked(s) ==> BeforeOrInside(f, s.frameIdAt[i], EnteredAt(s, i))
  }

  /** The parent of `f` is still open one level up, or was written later and encloses `f`. */
  ghost predicate HasParent(s: State, f: Frame)
    requires s.Valid()
  {
    || (f.depth == 1 && f.parentId == 0)
    || (1 < f.depth <= Tracked(s) + 1 && f.parentId == s.frameIdAt[f.depth - 2] && EnteredAt(s, f.depth - 2) <= f.enter)
    || (exists g :: g in s.frames && g.id == f.parentId && g.depth + 1 == f.depth && Inside(f, g))
  }

  ghost predicate WrittenWellFormed(s: State, now: nat)
    requires s.Valid()
  {
    forall f :: f in s.frames ==>
      && 1 <= f.id <= s.nextFrameId && 1 <= f.depth <= MAX_DEPTH && f.parentId < f.id
      && f.enter <= f.exit <= Since(s.start, now)
      && HasParent(s, f)
  }

  /** Ids are unique, and any two intervals are nested or share at most an endpoint. */
  ghost predicate WrittenLaminar(s: State) {
    forall a, b :: 0 <= a < b < |s.frames| ==>
      && s.frames[a].id != s.frames[b].id
      && (s.frames[a].exit <= s.frames[b].enter || Inside(s.frames[a], s.frames[b]))
  }

  ghost predicate Inv(s: State, now: nat) {
    && s.Recording() && s.start <= now
    && OpenOrdered(s, now) && WrittenAroundOpen(s) && WrittenWellFormed(s, now) && WrittenLaminar(s)
  }

  lemma EnterKeepsInv(s: State, last: nat, now: nat)
    requires Inv(s, last) && last <= now
    ensures Inv(BeginStep(s, now), now)
  {
    var t := BeginStep(s, now);
    forall f | f in t.frames ensures HasParent(t, f) {
      if 1 < f.depth <= Tracked(s) + 1 && f.parentId == s.frameIdAt[f.depth - 2] {
        assert t.frameIdAt[f.depth - 2] == s.frameIdAt[f.depth - 2];
      }
    }
    forall f, i | f in t.frames && 0 <= i < Tracked(t) ensures BeforeOrInside(f, t.frameIdAt[i], EnteredAt(t, i)) {
      if i < Tracked(s) {
        assert BeforeOrInside(f, s.frameIdAt[i], EnteredAt(s, i));
      }
    }
  }

  lemma LeaveKeepsParents(s: State, last: nat, now: nat, fn: Func)
    requires Inv(s, last) && last <= now && 0 < s.depth <= MAX_DEPTH
    ensures WrittenWellFormed(EndStep(s, now, fn), now)
  {
    var t := EndStep(s, now, fn);
    var d := s.depth - 1;
    var g := LeftFrame(s, d, now, fn);
    assert t.frames == s.frames + [g];
    assert HasParent(t, g);
    forall f | f in s.frames ensures HasParent(t, f) {
      assert HasParent(s, f);
      assert BeforeOrInside(f, s.frameIdAt[d], EnteredAt(s, d));
      if f.depth == d + 2 && f.parentId == g.id {
        assert g in t.frames && Inside(f, g);
      } else if h :| h in s.frames && h.id == f.parentId && h.depth + 1 == f.depth && Inside(f, h) {
        assert h in t.frames;
      }
    }
  }

  lemma LeaveKeepsLaminar(s: State, last: nat, now: nat, fn: Func)
    requires Inv(s, last) && last <= now && 0 < s.depth <= MAX_DEPTH
    ensures WrittenLaminar(EndStep(s, now, fn))
  {
    var t := EndStep(s, now, fn);
    var d := s.depth - 1;
    var g := LeftFrame(s, d, now, fn);
    forall f | f in s.frames ensures f.id != g.id && (f.exit <= g.enter || Inside(f, g)) {
      assert BeforeOrInside(f, s.frameIdAt[d], EnteredAt(s, d));
    }
    forall a, b | 0 <= a < b < |t.frames|
      ensures t.frames[a].id != t.frames[b].id && (t.frames[a].exit <= t.frames[b].enter || Inside(t.frames[a], t.frames[b]))
    {
      assert s.frames[a] in s.frames;
    }
  }

  lemma LeaveKeepsAround(s: State, last: nat, now: nat, fn: Func)
    requires Inv(s, last) && last <= now && 0 < s.depth <= MAX_DEPTH
    ensures WrittenAroundOpen(EndStep(s, now, fn))
  {
    var t := EndStep(s, now, fn);
    var d := s.depth - 1;
    var g := LeftFrame(s, d, now, fn);
    forall f, i | f in t.frames && 0 <= i < Tracked(t) ensures BeforeOrInside(f, t.frameIdAt[i], EnteredAt(t, i)) {
      if f in s.frames {
        assert BeforeOrInside(f, s.frameIdAt[i], EnteredAt(s, i));
      } else {
        assert s.frameIdAt[i] < s.frameIdAt[d] && s.enterUs[i] <= s.enterUs[d];
      }
    }
  }

  lemma SameFramesKeepsInv(s: State, last: nat, now: nat, t: State)
    requires Inv(s, last) && last <= now && Tracked(t) == Tracked(s)
    requires t.Recording() && t.start == s.start && t.frames == s.frames && t.nextFrameId == s.nextFrameId
    requires t.enterUs == s.enterUs && t.frameIdAt == s.frameIdAt
    ensures Inv(t, now)
  {
    forall f | f in t.frames ensures HasParent(t, f) {
      assert HasParent(s, f);
    }
    forall f, i | f in t.frames && 0 <= i < Tracked(t) ensures BeforeOrInside(f, t.frameIdAt[i], EnteredAt(t, i)) {
      assert BeforeOrInside(f, s.frameIdAt[i], EnteredAt(s, i));
    }
  }

  lemma LeaveKeepsInv(s: State, last: nat, now: nat, fn: Func)
    requires Inv(s, last) && last <= now && s.depth > 0
    ensures Inv(EndStep(s, now, fn), now)
  {
    if s.depth <= MAX_DEPTH {
      LeaveKeepsParents(s, last, now, fn);
      LeaveKeepsAround(s, last, now, fn);
      LeaveKeepsLaminar(s, last, now, fn);
    } else {
      SameFramesKeepsInv(s, last, now, EndStep(s, now, fn));
    }
  }

  lemma StepKeepsInv(s: State, last: nat, op: Op)
    requires Inv(s, last) && last <= op.at && (op.Leave? ==> s.depth > 0)
    ensures Inv(Apply(s, op), op.at)
    ensures Apply(s, op).depth == s.depth + Height([op])
  {
    match op
    case Enter(at) => EnterKeepsInv(s, last, at);
    case Leave(at, fn) => LeaveKeepsInv(s, last, at, fn);
    case Note(at, checkpoint) => SameFramesKeepsInv(s, last, at, NoteStep(s, at, checkpoint));
  }

  function LastTime(ops: seq<Op>, from: nat): nat {
    if ops == [] then from else ops[|ops| - 1].at
  }

  /** The invariant holds from request start through any such run, at every point. */
  lemma {:induction false} RecorderKeepsInv(s: State, now: nat, ops: seq<Op>)
    requires Inv(s, now) && Monotone(ops, now) && NeverBelow(ops, s.depth)
    ensures Inv(Exec(s, ops), LastTime(ops, now))
    ensures Exec(s, ops).depth == s.depth + Height(ops)
    decreases |ops|
  {
    if ops != [] {
      StepKeepsInv(s, now, ops[0]);
      RecorderKeepsInv(Apply(s, ops[0]), ops[0].at, ops[1..]);
    }
  }

  lemma InvAtRequestStart(s: State, now: nat)
    requires s.Valid()
    ensures Inv(InitStep(s, now, true, true), now)
  {
  }

  /** With one exit too many the ids stop being unique: the last root is written again. */
  lemma StrayExitRepeatsId(s: State, now: nat, fn: Func)
    requires s.Recording() && s.depth == 0
    ensures var t := Exec(s, [Enter(now), Leave(now, fn), Leave(now, fn)]);
            |t.frames| == |s.frames| + 2 && t.frames[|s.frames|].id == t.frames[|s.frames| + 1].id
  {
    var ops := [Enter(now), Leave(now, fn), Leave(now, fn)];
    var s1 := Apply(s, ops[0]);
    var s2 := Apply(s1, ops[1]);
    var s3 := Apply(s2, ops[2]);
    assert ops[1..] == [Leave(now, fn), Leave(now, fn)] && ops[1..][1..] == [Leave(now, fn)] && ops[1..][1..][1..] == [];
    assert Exec(s, ops) == Exec(s1, ops[1..]);
    assert Exec(s1, ops[1..]) == Exec(s2, ops[1..][1..]);
    assert Exec(s2, ops[1..][1..]) == Exec(s3, []);
  }
}
