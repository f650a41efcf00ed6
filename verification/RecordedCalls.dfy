/** The recorded trace read off the list of calls itself: which entry, which exit and which event a frame or an event of the
    trace stands for, by clock reading, without the tree. */
module RecordedCalls {
  import opened TraceModel
  import opened CallForest
  import opened Recorder
  import opened RecorderInvariant
  import opened RecordedRuns
  import opened Spans

  /** The exit at `q` belongs to the entry at `p`: what lies between is balanced. */
  ghost predicate Closes(ops: seq<Op>, p: int, q: int) {
    0 <= p < q < |ops| && ops[p].Enter? && ops[q].Leave? && Balanced(ops[p + 1..q])
  }

  /** How many calls are open before position `p`. */
  function OpenAt(ops: seq<Op>, p: nat): int
    requires p <= |ops|
  {
    Height(ops[..p])
  }

  /** A frame, and where in the list its call is entered and left. */
  datatype Told = Told(frame: Frame, enter: nat, leave: nat)

  /** The frame is that call: readings counted from `start`, file and line from the exit, depth by the calls open. */
  ghost predicate TellsCall(t: Told, ops: seq<Op>, start: nat) {
    && Closes(ops, t.enter, t.leave)
    && t.frame.enter + start == ops[t.enter].at && t.frame.exit + start == ops[t.leave].at
    && t.frame.file == ops[t.leave].fn.file && t.frame.line == ops[t.leave].fn.line
    && t.frame.depth == OpenAt(ops, t.enter) + 1
  }

  /** The call of `t` was made in the call of `u`. */
  ghost predicate MadeIn(t: Told, u: Told) {
    t.frame.parentId == u.frame.id && u.enter < t.enter && t.leave < u.leave && u.frame.depth + 1 == t.frame.depth
  }

  // ---------- a run inside a longer list ----------

  function Width(run: Run): nat {
    match run
    case Done => 0
    case Mark(_, _, rest) => 1 + Width(rest)
    case Call(_, inner, _, _, rest) => 2 + Width(inner) + Width(rest)
  }

  /** `run` stands in `ops` at position `k`. */
  ghost predicate StandsAt(ops: seq<Op>, run: Run, k: nat) {
    match run
    case Done => k <= |ops|
    case Mark(at, checkpoint, rest) => k < |ops| && ops[k] == Note(at, checkpoint) && StandsAt(ops, rest, k + 1)
    case Call(e, inner, x, fn, rest) =>
      var m := k + 1 + Width(inner);
      && k < |ops| && ops[k] == Enter(e) && StandsAt(ops, inner, k + 1)
      && m < |ops| && ops[m] == Leave(x, fn) && StandsAt(ops, rest, m + 1)
  }

  lemma {:induction false} RunWidth(run: Run)
    ensures |Ops(run)| == Width(run)
  {
    match run
    case Done =>
    case Mark(_, _, rest) => RunWidth(rest);
    case Call(_, inner, _, _, rest) => RunWidth(inner); RunWidth(rest);
  }

  lemma Split(pre: seq<Op>, a: Op, more: seq<Op>)
    ensures var ops := pre + ([a] + more); ops[|pre|] == a && ops == (pre + [a]) + more
  {
  }

  lemma {:induction false} RunStands(pre: seq<Op>, run: Run, post: seq<Op>)
    ensures StandsAt(pre + (Ops(run) + post), run, |pre|)
    decreases run
  {
    match run
    case Done =>
    case Mark(at, checkpoint, rest) =>
      Associate([Note(at, checkpoint)], Ops(rest), post);
      Split(pre, Note(at, checkpoint), Ops(rest) + post);
      RunStands(pre + [Note(at, checkpoint)], rest, post);
    case Call(e, inner, x, fn, rest) =>
      var late := [Leave(x, fn)] + (Ops(rest) + post);
      var front := (pre + [Enter(e)]) + Ops(inner);
      RunWidth(inner);
      CallRegroups(e, Ops(inner), x, fn, Ops(rest), post);
      Split(pre, Enter(e), Ops(inner) + late);
      RunStands(pre + [Enter(e)], inner, late);
      Associate(pre + [Enter(e)], Ops(inner), late);
      Split(front, Leave(x, fn), Ops(rest) + post);
      RunStands(front + [Leave(x, fn)], rest, post);
  }

  lemma CallRegroups(e: nat, inner: seq<Op>, x: nat, fn: Func, rest: seq<Op>, post: seq<Op>)
    ensures [Enter(e)] + inner + [Leave(x, fn)] + rest + post == [Enter(e)] + (inner + ([Leave(x, fn)] + (rest + post)))
  {
  }

  lemma WholeStands(run: Run)
    ensures StandsAt(Ops(run), run, 0)
  {
    RunStands([], run, []);
    assert [] + (Ops(run) + []) == Ops(run);
  }

  lemma {:induction false} Within(ops: seq<Op>, run: Run, k: nat)
    requires StandsAt(ops, run, k)
    ensures k + Width(run) <= |ops|
  {
    match run
    case Done =>
    case Mark(_, _, rest) => Within(ops, rest, k + 1);
    case Call(_, inner, _, _, rest) => Within(ops, rest, k + 2 + Width(inner));
  }

  lemma PartCons(ops: seq<Op>, k: nat, m: nat)
    requires k < m <= |ops|
    ensures ops[k..m] == [ops[k]] + ops[k + 1..m]
  {
  }

  lemma PartJoin(ops: seq<Op>, k: nat, m: nat, n: nat)
    requires k <= m <= n <= |ops|
    ensures ops[k..n] == ops[k..m] + ops[m..n]
  {
  }

  lemma MarkIsPart(ops: seq<Op>, k: nat, n: nat, at: nat, checkpoint: bool, rest: Run)
    requires k < n <= |ops| && ops[k] == Note(at, checkpoint) && ops[k + 1..n] == Ops(rest)
    ensures ops[k..n] == Ops(Mark(at, checkpoint, rest))
  {
    PartCons(ops, k, n);
  }

  /** What stands there is the run. */
  lemma {:induction false} PartIsRun(ops: seq<Op>, run: Run, k: nat)
    requires StandsAt(ops, run, k)
    ensures k + Width(run) <= |ops| && ops[k..k + Width(run)] == Ops(run)
  {
    match run
    case Done =>
    case Mark(at, checkpoint, rest) =>
      PartIsRun(ops, rest, k + 1);
      MarkIsPart(ops, k, k + 1 + Width(rest), at, checkpoint, rest);
    case Call(e, inner, x, fn, rest) =>
      var m := k + 1 + Width(inner);
      PartIsRun(ops, inner, k + 1);
      PartIsRun(ops, rest, m + 1);
      CallIsPart(ops, k, m, m + 1 + Width(rest), e, inner, x, fn, rest);
  }

  lemma CallIsPart(ops: seq<Op>, k: nat, m: nat, n: nat, e: nat, inner: Run, x: nat, fn: Func, rest: Run)
    requires k < m < n <= |ops| && ops[k] == Enter(e) && ops[k + 1..m] == Ops(inner) && ops[m] == Leave(x, fn) && ops[m + 1..n] == Ops(rest)
    ensures ops[k..n] == Ops(Call(e, inner, x, fn, rest))
  {
    CallPart(ops, k, m, n, Ops(inner), Ops(rest));
  }

  lemma CallPart(ops: seq<Op>, k: nat, m: nat, n: nat, a: seq<Op>, b: seq<Op>)
    requires k < m < n <= |ops| && ops[k + 1..m] == a && ops[m + 1..n] == b
    ensures ops[k..n] == [ops[k]] + a + [ops[m]] + b
  {
    PartCons(ops, k, n);
    PartJoin(ops, k + 1, m, n);
    PartCons(ops, m, n);
    Regroup([ops[k]], a, [ops[m]], b);
  }

  // ---------- open calls ----------

  lemma OneMore(ops: seq<Op>, k: nat)
    requires k < |ops|
    ensures OpenAt(ops, k + 1) == OpenAt(ops, k) + if ops[k].Enter? then 1 else if ops[k].Leave? then -1 else 0
  {
    assert ops[..k + 1] == ops[..k] + [ops[k]];
    HeightAppend(ops[..k], [ops[k]]);
    assert [ops[k]][1..] == [];
  }

  /** A run leaves as many calls open as before it, and never fewer in between. */
  lemma {:induction false} OpenInside(ops: seq<Op>, run: Run, k: nat)
    requires StandsAt(ops, run, k)
    ensures k + Width(run) <= |ops| && OpenAt(ops, k + Width(run)) == OpenAt(ops, k)
    ensures forall y: nat :: k <= y <= k + Width(run) ==> OpenAt(ops, y) >= OpenAt(ops, k)
  {
    match run
    case Done =>
    case Mark(_, _, rest) =>
      OneMore(ops, k);
      OpenInside(ops, rest, k + 1);
    case Call(_, inner, _, _, rest) =>
      var m := k + 1 + Width(inner);
      OneMore(ops, k);
      OpenInside(ops, inner, k + 1);
      OneMore(ops, m);
      OpenInside(ops, rest, m + 1);
  }

  lemma OneBelow(a: Op, more: seq<Op>, open: nat)
    ensures NeverBelow([a] + more, open)
            <==> if a.Enter? then NeverBelow(more, open + 1) else if a.Leave? then open > 0 && NeverBelow(more, open - 1) else NeverBelow(more, open)
  {
    assert ([a] + more)[1..] == more;
  }

  lemma {:induction false} RunNeverBelow(run: Run, post: seq<Op>, open: nat)
    requires NeverBelow(post, open)
    ensures NeverBelow(Ops(run) + post, open)
    decreases run
  {
    match run
    case Done => assert Ops(run) + post == post;
    case Mark(at, checkpoint, rest) =>
      RunNeverBelow(rest, post, open);
      Associate([Note(at, checkpoint)], Ops(rest), post);
      OneBelow(Note(at, checkpoint), Ops(rest) + post, open);
    case Call(e, inner, x, fn, rest) =>
      var late := [Leave(x, fn)] + (Ops(rest) + post);
      RunNeverBelow(rest, post, open);
      OneBelow(Leave(x, fn), Ops(rest) + post, open + 1);
      RunNeverBelow(inner, late, open + 1);
      OneBelow(Enter(e), Ops(inner) + late, open);
      CallRegroups(e, Ops(inner), x, fn, Ops(rest), post);
  }

  lemma RunIsBalanced(run: Run)
    ensures Balanced(Ops(run))
  {
    RunHeight(run);
    RunNeverBelow(run, [], 0);
    assert Ops(run) + [] == Ops(run);
  }

  // ---------- the calls of a run ----------

  /** The recorded calls of a run at depth `d` under `parent`, in order of entry, when the run stands at `k`. */
  function ToldOf(run: Run, d: nat, parent: nat, next: nat, start: nat, k: nat): seq<Told> {
    match run
    case Done => []
    case Mark(_, _, rest) => ToldOf(rest, d, parent, next, start, k + 1)
    case Call(_, inner, _, _, rest) =>
      var m := k + 1 + Width(inner);
      if d < MAX_DEPTH then
        var f := Recorded(run, d, parent, next, start);
        [Told(f.frame, k, m)] + ToldOf(inner, d + 1, next + 1, next + 1, start, k + 1)
          + ToldOf(rest, d, parent, next + 1 + Size(f.kids), start, m + 1)
      else ToldOf(rest, d, parent, next, start, m + 1)
  }

  ghost predicate Framed(ts: seq<Told>, fs: seq<Frame>) {
    |ts| == |fs| && forall i :: 0 <= i < |ts| ==> ts[i].frame == fs[i]
  }

  lemma FramedJoin(t: Told, a: seq<Told>, fa: seq<Frame>, b: seq<Told>, fb: seq<Frame>)
    requires Framed(a, fa) && Framed(b, fb)
    ensures Framed([t] + a + b, [t.frame] + fa + fb)
  {
  }

  lemma {:induction false} ToldFrames(run: Run, d: nat, parent: nat, next: nat, start: nat, k: nat)
    ensures Framed(ToldOf(run, d, parent, next, start, k), PreFrames(Recorded(run, d, parent, next, start)))
  {
    match run
    case Done =>
    case Mark(_, _, rest) => ToldFrames(rest, d, parent, next, start, k + 1);
    case Call(_, inner, _, _, rest) =>
      var m := k + 1 + Width(inner);
      if d < MAX_DEPTH {
        var f := Recorded(run, d, parent, next, start);
        ToldFrames(inner, d + 1, next + 1, next + 1, start, k + 1);
        ToldFrames(rest, d, parent, next + 1 + Size(f.kids), start, m + 1);
        FramedJoin(Told(f.frame, k, m), ToldOf(inner, d + 1, next + 1, next + 1, start, k + 1), PreFrames(f.kids),
                   ToldOf(rest, d, parent, next + 1 + Size(f.kids), start, m + 1), PreFrames(f.rest));
      } else {
        ToldFrames(rest, d, parent, next, start, m + 1);
      }
  }

  // ---------- call by call ----------

  /** Around and inside a call. */
  lemma CallLevels(ops: seq<Op>, inner: Run, k: nat)
    requires k < |ops| && ops[k].Enter? && StandsAt(ops, inner, k + 1) && k + 1 + Width(inner) < |ops| && ops[k + 1 + Width(inner)].Leave?
    ensures OpenAt(ops, k + 1) == OpenAt(ops, k) + 1 && OpenAt(ops, k + 2 + Width(inner)) == OpenAt(ops, k)
  {
    OneMore(ops, k);
    OpenInside(ops, inner, k + 1);
    OneMore(ops, k + 1 + Width(inner));
  }

  lemma LevelInside(ops: seq<Op>, inner: Run, k: nat, y: nat)
    requires k < |ops| && ops[k].Enter? && StandsAt(ops, inner, k + 1) && k <= y <= k + 1 + Width(inner) <= |ops|
    ensures OpenAt(ops, y) >= OpenAt(ops, k)
  {
    OneMore(ops, k);
    OpenInside(ops, inner, k + 1);
  }

  lemma {:induction false} LiesInRun(run: Run, d: nat, parent: nat, next: nat, start: nat, k: nat, t: Told)
    requires t in ToldOf(run, d, parent, next, start, k)
    ensures k <= t.enter < t.leave < k + Width(run)
  {
    match run
    case Mark(_, _, rest) => LiesInRun(rest, d, parent, next, start, k + 1, t);
    case Call(_, inner, _, _, rest) =>
      var m := k + 1 + Width(inner);
      if d < MAX_DEPTH {
        var f := Recorded(run, d, parent, next, start);
        if t in ToldOf(inner, d + 1, next + 1, next + 1, start, k + 1) {
          LiesInRun(inner, d + 1, next + 1, next + 1, start, k + 1, t);
        } else if t in ToldOf(rest, d, parent, next + 1 + Size(f.kids), start, m + 1) {
          LiesInRun(rest, d, parent, next + 1 + Size(f.kids), start, m + 1, t);
        }
      } else {
        LiesInRun(rest, d, parent, next, start, m + 1, t);
      }
  }

  lemma SinceIs(start: nat, at: nat)
    requires start <= at
    ensures Since(start, at) + start == at
  {
  }

  lemma HeadTells(ops: seq<Op>, inner: Run, f: Frame, start: nat, k: nat)
    requires var m := k + 1 + Width(inner); m < |ops| && ops[k].Enter? && StandsAt(ops, inner, k + 1) && ops[m].Leave?
    requires var m := k + 1 + Width(inner);
             && start <= ops[k].at <= ops[m].at && f.enter == Since(start, ops[k].at) && f.exit == Since(start, ops[m].at)
             && f.file == ops[m].fn.file && f.line == ops[m].fn.line && f.depth == OpenAt(ops, k) + 1
    ensures TellsCall(Told(f, k, k + 1 + Width(inner)), ops, start)
  {
    PartIsRun(ops, inner, k + 1);
    RunIsBalanced(inner);
    SinceIs(start, ops[k].at);
    SinceIs(start, ops[k + 1 + Width(inner)].at);
  }

  /** Every recorded frame is a call of the list, on a tracked level. */
  lemma {:induction false} CallIsTold(ops: seq<Op>, run: Run, d: nat, parent: nat, next: nat, start: nat, from: nat, k: nat, t: Told)
    requires StandsAt(ops, run, k) && OpenAt(ops, k) == d && start <= from && Clocked(false, run, from)
    requires t in ToldOf(run, d, parent, next, start, k)
    ensures TellsCall(t, ops, start) && t.frame.depth <= MAX_DEPTH
  {
    match run
    case Mark(at, _, rest) =>
      OneMore(ops, k);
      CallIsTold(ops, rest, d, parent, next, start, at, k + 1, t);
    case Call(e, inner, x, _, rest) =>
      var m := k + 1 + Width(inner);
      CallLevels(ops, inner, k);
      TimesGrow(false, inner, e);
      if d < MAX_DEPTH {
        var f := Recorded(run, d, parent, next, start);
        if t in ToldOf(inner, d + 1, next + 1, next + 1, start, k + 1) {
          CallIsTold(ops, inner, d + 1, next + 1, next + 1, start, e, k + 1, t);
        } else if t in ToldOf(rest, d, parent, next + 1 + Size(f.kids), start, m + 1) {
          CallIsTold(ops, rest, d, parent, next + 1 + Size(f.kids), start, x, m + 1, t);
        } else {
          HeadTells(ops, inner, f.frame, start, k);
        }
      } else {
        CallIsTold(ops, rest, d, parent, next, start, x, m + 1, t);
      }
  }

  /** An entry on a tracked level. */
  ghost predicate IsTracked(ops: seq<Op>, x: nat) {
    x < |ops| && ops[x].Enter? && OpenAt(ops, x) < 4096
  }

  lemma InCallTold(e: nat, inner: Run, y: nat, fn: Func, rest: Run, d: nat, parent: nat, next: nat, start: nat, k: nat, t: Told)
    requires d < MAX_DEPTH
    requires var f := Recorded(Call(e, inner, y, fn, rest), d, parent, next, start);
             || t == Told(f.frame, k, k + 1 + Width(inner)) || t in ToldOf(inner, d + 1, next + 1, next + 1, start, k + 1)
             || t in ToldOf(rest, d, parent, next + 1 + Size(f.kids), start, k + 2 + Width(inner))
    ensures t in ToldOf(Call(e, inner, y, fn, rest), d, parent, next, start, k)
  {
  }

  /** And every such entry has its frame. */
  lemma {:induction false} EntryIsTold(ops: seq<Op>, run: Run, d: nat, parent: nat, next: nat, start: nat, k: nat, x: nat) returns (t: Told)
    requires StandsAt(ops, run, k) && OpenAt(ops, k) == d && k <= x < k + Width(run) && IsTracked(ops, x)
    ensures t in ToldOf(run, d, parent, next, start, k) && t.enter == x
  {
    match run
    case Mark(_, _, rest) =>
      OneMore(ops, k);
      t := EntryIsTold(ops, rest, d, parent, next, start, k + 1, x);
    case Call(e, inner, y, fn, rest) =>
      var m := k + 1 + Width(inner);
      CallLevels(ops, inner, k);
      if d < MAX_DEPTH {
        var f := Recorded(run, d, parent, next, start);
        if x == k {
          t := Told(f.frame, k, m);
        } else if x < m {
          t := EntryIsTold(ops, inner, d + 1, next + 1, next + 1, start, k + 1, x);
        } else {
          t := EntryIsTold(ops, rest, d, parent, next + 1 + Size(f.kids), start, m + 1, x);
        }
        InCallTold(e, inner, y, fn, rest, d, parent, next, start, k, t);
      } else {
        if x < m {
          LevelInside(ops, inner, k, x);
        }
        t := EntryIsTold(ops, rest, d, parent, next, start, m + 1, x);
      }
  }

  /** Every frame names the call it was made in. */
  lemma {:induction false} CallerIsTold(run: Run, d: nat, parent: nat, next: nat, start: nat, k: nat, t: Told) returns (u: Told)
    requires t in ToldOf(run, d, parent, next, start, k)
    ensures t.frame.depth >= d + 1
    ensures if t.frame.depth == d + 1 then t.frame.parentId == parent else u in ToldOf(run, d, parent, next, start, k) && MadeIn(t, u)
  {
    match run
    case Mark(_, _, rest) => u := CallerIsTold(rest, d, parent, next, start, k + 1, t);
    case Call(_, inner, _, _, rest) =>
      var m := k + 1 + Width(inner);
      if d < MAX_DEPTH {
        var f := Recorded(run, d, parent, next, start);
        if t in ToldOf(inner, d + 1, next + 1, next + 1, start, k + 1) {
          u := CallerIsTold(inner, d + 1, next + 1, next + 1, start, k + 1, t);
          LiesInRun(inner, d + 1, next + 1, next + 1, start, k + 1, t);
          if t.frame.depth == d + 2 {
            u := Told(f.frame, k, m);
          }
        } else if t in ToldOf(rest, d, parent, next + 1 + Size(f.kids), start, m + 1) {
          u := CallerIsTold(rest, d, parent, next + 1 + Size(f.kids), start, m + 1, t);
        } else {
          u := t;
        }
      } else {
        u := CallerIsTold(rest, d, parent, next, start, m + 1, t);
      }
  }

  lemma {:induction false} IdInRange(run: Run, d: nat, parent: nat, next: nat, start: nat, k: nat, t: Told)
    requires t in ToldOf(run, d, parent, next, start, k)
    ensures next < t.frame.id <= next + Size(Recorded(run, d, parent, next, start))
  {
    match run
    case Mark(_, _, rest) => IdInRange(rest, d, parent, next, start, k + 1, t);
    case Call(_, inner, _, _, rest) =>
      var m := k + 1 + Width(inner);
      if d < MAX_DEPTH {
        var f := Recorded(run, d, parent, next, start);
        if t in ToldOf(inner, d + 1, next + 1, next + 1, start, k + 1) {
          IdInRange(inner, d + 1, next + 1, next + 1, start, k + 1, t);
        } else if t in ToldOf(rest, d, parent, next + 1 + Size(f.kids), start, m + 1) {
          IdInRange(rest, d, parent, next + 1 + Size(f.kids), start, m + 1, t);
        }
      } else {
        IdInRange(rest, d, parent, next, start, m + 1, t);
      }
  }

  /** Ids are given in order of entry. */
  lemma {:induction false} EntersRise(run: Run, d: nat, parent: nat, next: nat, start: nat, k: nat, t: Told, u: Told)
    requires t in ToldOf(run, d, parent, next, start, k) && u in ToldOf(run, d, parent, next, start, k) && t.frame.id < u.frame.id
    ensures t.enter < u.enter
  {
    match run
    case Mark(_, _, rest) => EntersRise(rest, d, parent, next, start, k + 1, t, u);
    case Call(_, inner, _, _, rest) =>
      var m := k + 1 + Width(inner);
      if d < MAX_DEPTH {
        var f := Recorded(run, d, parent, next, start);
        var later := next + 1 + Size(f.kids);
        if u in ToldOf(inner, d + 1, next + 1, next + 1, start, k + 1) {
          LiesInRun(inner, d + 1, next + 1, next + 1, start, k + 1, u);
          IdInRange(inner, d + 1, next + 1, next + 1, start, k + 1, u);
          if t in ToldOf(inner, d + 1, next + 1, next + 1, start, k + 1) {
            EntersRise(inner, d + 1, next + 1, next + 1, start, k + 1, t, u);
          } else if t in ToldOf(rest, d, parent, later, start, m + 1) {
            IdInRange(rest, d, parent, later, start, m + 1, t);
          }
        } else if u in ToldOf(rest, d, parent, later, start, m + 1) {
          LiesInRun(rest, d, parent, later, start, m + 1, u);
          if t in ToldOf(rest, d, parent, later, start, m + 1) {
            EntersRise(rest, d, parent, later, start, m + 1, t, u);
          } else if t in ToldOf(inner, d + 1, next + 1, next + 1, start, k + 1) {
            LiesInRun(inner, d + 1, next + 1, next + 1, start, k + 1, t);
          }
        } else {
          IdInRange(run, d, parent, next, start, k, t);
        }
      } else {
        EntersRise(rest, d, parent, next, start, m + 1, t, u);
      }
  }

  // ---------- a whole request ----------

  ghost predicate EnteredIn(ts: seq<Told>, x: nat) {
    exists t :: t in ts && t.enter == x
  }

  ghost predicate HasCaller(t: Told, ts: seq<Told>) {
    exists u :: u in ts && MadeIn(t, u)
  }

  /** The calls `ts` are the entries of `ops` on the first 4096 levels, in order, each with the exit that belongs to it; their
      frames carry readings, file, line and depth, are numbered 1, 2, 3, ..., and name the call they were made in, or 0. */
  ghost predicate TellsRequest(ts: seq<Told>, ops: seq<Op>, start: nat) {
    && (forall i, j :: 0 <= i < j < |ts| ==> ts[i].enter < ts[j].enter)
    && (forall x: nat :: EnteredIn(ts, x) <==> IsTracked(ops, x))
    && (forall t :: t in ts ==> TellsCall(t, ops, start))
    && (forall i :: 0 <= i < |ts| ==> ts[i].frame.id == i + 1)
    && (forall t :: t in ts ==> if t.frame.depth == 1 then t.frame.parentId == 0 else HasCaller(t, ts))
  }

  lemma EntriesTold(run: Run, now: nat)
    ensures forall x: nat :: IsTracked(Ops(run), x) ==> EnteredIn(ToldOf(run, 0, 0, 0, now, 0), x)
  {
    WholeStands(run);
    RunWidth(run);
    forall x: nat | IsTracked(Ops(run), x) ensures EnteredIn(ToldOf(run, 0, 0, 0, now, 0), x) {
      var t := EntryIsTold(Ops(run), run, 0, 0, 0, now, 0, x);
    }
  }

  lemma CallsTold(run: Run, now: nat, t: Told)
    requires Clocked(false, run, now) && t in ToldOf(run, 0, 0, 0, now, 0)
    ensures TellsCall(t, Ops(run), now) && IsTracked(Ops(run), t.enter)
    ensures if t.frame.depth == 1 then t.frame.parentId == 0 else HasCaller(t, ToldOf(run, 0, 0, 0, now, 0))
  {
    WholeStands(run);
    CallIsTold(Ops(run), run, 0, 0, 0, now, now, 0, t);
    var u := CallerIsTold(run, 0, 0, 0, now, 0, t);
  }

  lemma NumberedTold(run: Run, now: nat)
    ensures var ts := ToldOf(run, 0, 0, 0, now, 0); forall i :: 0 <= i < |ts| ==> ts[i].frame.id == i + 1
  {
    var f := Recorded(run, 0, 0, 0, now);
    ToldFrames(run, 0, 0, 0, now, 0);
    RecordedIsNumbered(run, 0, 0, 0, now);
    NumberedWalk(f, 0, 0, 1);
    PreFramesIds(f);
  }

  /** The recorded tree of a request, read in pre-order. */
  lemma RequestTells(run: Run, now: nat)
    requires Clocked(false, run, now)
    ensures TellsRequest(ToldOf(run, 0, 0, 0, now, 0), Ops(run), now)
    ensures Framed(ToldOf(run, 0, 0, 0, now, 0), PreFrames(Recorded(run, 0, 0, 0, now)))
  {
    var ts := ToldOf(run, 0, 0, 0, now, 0);
    ToldFrames(run, 0, 0, 0, now, 0);
    NumberedTold(run, now);
    EntriesTold(run, now);
    forall i, j | 0 <= i < j < |ts| ensures ts[i].enter < ts[j].enter {
      EntersRise(run, 0, 0, 0, now, 0, ts[i], ts[j]);
    }
    forall t | t in ts
      ensures TellsCall(t, Ops(run), now) && IsTracked(Ops(run), t.enter)
      ensures if t.frame.depth == 1 then t.frame.parentId == 0 else HasCaller(t, ts)
    {
      CallsTold(run, now, t);
    }
  }

  // ---------- events ----------

  /** The positions of the events from `k` on. */
  function NotesFrom(ops: seq<Op>, k: nat): (p: seq<nat>)
    requires k <= |ops|
    ensures forall x :: x in p ==> k <= x < |ops| && ops[x].Note?
    decreases |ops| - k
  {
    if k == |ops| then [] else (if ops[k].Note? then [k] else []) + NotesFrom(ops, k + 1)
  }

  lemma {:induction false} NoteIsThere(ops: seq<Op>, k: nat, x: nat)
    requires k <= x < |ops| && ops[x].Note?
    ensures x in NotesFrom(ops, k)
    decreases |ops| - k
  {
    if k < x {
      NoteIsThere(ops, k + 1, x);
    }
  }

  lemma {:induction false} NotesRise(ops: seq<Op>, k: nat, i: nat, j: nat)
    requires k <= |ops| && i < j < |NotesFrom(ops, k)|
    ensures NotesFrom(ops, k)[i] < NotesFrom(ops, k)[j]
    decreases |ops| - k
  {
    var p := NotesFrom(ops, k + 1);
    if ops[k].Note? {
      assert NotesFrom(ops, k) == [k] + p && p[j - 1] in p;
      if i > 0 {
        NotesRise(ops, k + 1, i - 1, j - 1);
      }
    } else {
      assert NotesFrom(ops, k) == p;
      NotesRise(ops, k + 1, i, j);
    }
  }

  /** These are all, in order. */
  lemma NotesAreAll(ops: seq<Op>)
    ensures forall x: nat :: x in NotesFrom(ops, 0) <==> x < |ops| && ops[x].Note?
    ensures forall i, j :: 0 <= i < j < |NotesFrom(ops, 0)| ==> NotesFrom(ops, 0)[i] < NotesFrom(ops, 0)[j]
  {
    forall x: nat | x < |ops| && ops[x].Note? ensures x in NotesFrom(ops, 0) {
      NoteIsThere(ops, 0, x);
    }
    forall i, j | 0 <= i < j < |NotesFrom(ops, 0)| ensures NotesFrom(ops, 0)[i] < NotesFrom(ops, 0)[j] {
      NotesRise(ops, 0, i, j);
    }
  }

  lemma ExecOne(s: State, ops: seq<Op>, k: nat, m: nat)
    requires s.Valid() && k < m <= |ops|
    ensures Exec(s, ops[k..m]) == Exec(Apply(s, ops[k]), ops[k + 1..m])
  {
    PartCons(ops, k, m);
    assert ops[k..m][1..] == ops[k + 1..m];
  }

  lemma StepEvents(s: State, op: Op)
    requires s.Recording()
    ensures var t := Apply(s, op);
            && t.Recording() && t.start == s.start
            && (!op.Note? ==> t.events == s.events)
            && (op.Note? ==> |t.events| == |s.events| + 1 && t.events[..|s.events|] == s.events
                             && t.events[|s.events|].at == Since(s.start, op.at) && t.events[|s.events|].inFrame == OwnerSlot(s))
  {
  }

  lemma ExecFrom(s: State, ops: seq<Op>, k: nat)
    requires s.Valid() && k < |ops|
    ensures Exec(s, ops[k..]) == Exec(Apply(s, ops[k]), ops[k + 1..])
  {
    assert ops[k..][1..] == ops[k + 1..];
  }

  /** Recording from `k` on keeps the events there are and appends one for each note. */
  lemma {:induction false} EventsRecorded(s: State, ops: seq<Op>, k: nat)
    requires s.Recording() && k <= |ops|
    ensures |Exec(s, ops[k..]).events| == |s.events| + |NotesFrom(ops, k)|
    ensures Exec(s, ops[k..]).events[..|s.events|] == s.events
    decreases |ops| - k
  {
    if k == |ops| {
      assert ops[k..] == [];
    } else {
      var t := Apply(s, ops[k]);
      ExecFrom(s, ops, k);
      StepEvents(s, ops[k]);
      EventsRecorded(t, ops, k + 1);
      PrefixOfPrefix(Exec(s, ops[k..]).events, t.events, s.events);
    }
  }

  lemma PrefixOfPrefix<T>(es: seq<T>, b: seq<T>, a: seq<T>)
    requires |a| <= |b| <= |es| && es[..|b|] == b && b[..|a|] == a
    ensures es[..|a|] == a
    ensures forall i :: 0 <= i < |b| ==> es[i] == b[i]
  {
    assert es[..|b|][..|a|] == es[..|a|];
    forall i | 0 <= i < |b| ensures es[i] == b[i] {
      assert es[..|b|][i] == es[i];
    }
  }

  /** `e` carries the reading of the note at `x` and the frame of the slot the recorder `r` was at. */
  ghost predicate IsNote(e: Event, start: nat, op: Op, r: State)
    requires r.Valid()
  {
    e.at == Since(start, op.at) && e.inFrame == OwnerSlot(r)
  }

  lemma FirstEvent(s: State, ops: seq<Op>, k: nat)
    requires s.Recording() && k < |ops| && ops[k].Note?
    ensures |Exec(s, ops[k..]).events| > |s.events| && IsNote(Exec(s, ops[k..]).events[|s.events|], s.start, ops[k], s)
  {
    var t := Apply(s, ops[k]);
    ExecFrom(s, ops, k);
    StepEvents(s, ops[k]);
    EventsRecorded(t, ops, k + 1);
    PrefixOfPrefix(Exec(s, ops[k..]).events, t.events, s.events);
  }

  /** The event number `i` recorded from `k` on is the note at `x`. */
  ghost predicate EventIs(s: State, ops: seq<Op>, k: nat, i: nat, x: nat)
    requires s.Valid()
  {
    && k <= x < |ops| && |s.events| + i < |Exec(s, ops[k..]).events|
    && IsNote(Exec(s, ops[k..]).events[|s.events| + i], s.start, ops[x], Exec(s, ops[k..x]))
  }

  lemma EventLater(s: State, t: State, ops: seq<Op>, k: nat, i: nat, j: nat, x: nat)
    requires s.Valid() && t.Valid() && k < x && EventIs(t, ops, k + 1, j, x) && t.start == s.start && |s.events| + i == |t.events| + j
    requires Exec(s, ops[k..]) == Exec(t, ops[k + 1..]) && Exec(s, ops[k..x]) == Exec(t, ops[k + 1..x])
    ensures EventIs(s, ops, k, i, x)
  {
  }

  lemma StepCounts(s: State, op: Op)
    requires s.Recording()
    ensures var t := Apply(s, op); t.Recording() && t.start == s.start && |t.events| == |s.events| + if op.Note? then 1 else 0
  {
  }

  /** The events are the notes, in order. */
  lemma {:induction false} EventRecorded(s: State, ops: seq<Op>, k: nat, i: nat)
    requires s.Recording() && k <= |ops| && i < |NotesFrom(ops, k)|
    ensures EventIs(s, ops, k, i, NotesFrom(ops, k)[i])
    decreases |ops| - k
  {
    if ops[k].Note? && i == 0 {
      FirstEvent(s, ops, k);
      assert ops[k..k] == [];
    } else {
      var j, x := NoteLater(ops, k, i);
      StepCounts(s, ops[k]);
      EventRecorded(Apply(s, ops[k]), ops, k + 1, j);
      ExecFrom(s, ops, k);
      ExecOne(s, ops, k, x);
      EventLater(s, Apply(s, ops[k]), ops, k, i, j, x);
    }
  }

  /** A note that is not the first thing is one of the rest. */
  lemma NoteLater(ops: seq<Op>, k: nat, i: nat) returns (j: nat, x: nat)
    requires k < |ops| && i < |NotesFrom(ops, k)| && !(ops[k].Note? && i == 0)
    ensures j < |NotesFrom(ops, k + 1)| && x == NotesFrom(ops, k)[i] == NotesFrom(ops, k + 1)[j] && k < x < |ops|
    ensures i == j + if ops[k].Note? then 1 else 0
  {
    var rest := NotesFrom(ops, k + 1);
    j := if ops[k].Note? then i - 1 else i;
    assert NotesFrom(ops, k) == (if ops[k].Note? then [k] + rest else rest);
    x := rest[j];
    assert rest[j] in rest;
  }

  // ---------- which call an event lies in ----------

  /** The note at `x` lies in the call of `t`, and in no call further in. */
  ghost predicate Around(t: Told, ops: seq<Op>, x: nat)
    requires x <= |ops|
  {
    t.enter < x < t.leave && t.frame.depth == OpenAt(ops, x)
  }

  ghost predicate OwnedBy(ts: seq<Told>, ops: seq<Op>, x: nat, id: nat)
    requires x <= |ops|
  {
    exists t :: t in ts && t.frame.id == id && Around(t, ops, x)
  }

  /** What the slot holds that an event at `x` finds, in a run at depth `d` with `slot` around it: past the cap nothing; on the
      level of the run what is around it; deeper the innermost call of `ts` around. */
  ghost predicate Finds(d: nat, slot: nat, ts: seq<Told>, ops: seq<Op>, x: nat, id: nat)
    requires x <= |ops|
  {
    && (OpenAt(ops, x) > MAX_DEPTH ==> id == 0)
    && (d < OpenAt(ops, x) <= MAX_DEPTH ==> OwnedBy(ts, ops, x, id))
    && (1 <= OpenAt(ops, x) == d <= MAX_DEPTH ==> id == slot)
  }

  lemma SlotHere(s: State, ts: seq<Told>, ops: seq<Op>, x: nat)
    requires s.Valid() && x <= |ops| && OpenAt(ops, x) == s.depth
    ensures Finds(s.depth, ParentSlot(s), ts, ops, x, OwnerSlot(s))
  {
  }

  lemma OwnedMore(t: Told, a: seq<Told>, b: seq<Told>, ops: seq<Op>, x: nat, id: nat)
    requires x <= |ops| && (OwnedBy(a, ops, x, id) || OwnedBy(b, ops, x, id) || (t.frame.id == id && Around(t, ops, x)))
    ensures OwnedBy([t] + a + b, ops, x, id)
  {
    var s := [t] + a + b;
    assert t in s && (forall u :: u in a ==> u in s) && (forall u :: u in b ==> u in s);
  }

  /** The state after a call. */
  function AfterCall(s: State, e: nat, inner: Run, x: nat, fn: Func): State
    requires s.Valid()
  {
    EndStep(Exec(BeginStep(s, e), Ops(inner)), x, fn)
  }

  lemma CallLeavesState(s: State, e: nat, inner: Run, x: nat, fn: Func)
    requires s.Recording()
    ensures var s1, s3 := BeginStep(s, e), AfterCall(s, e, inner, x, fn);
            && s1.Recording() && s1.depth == s.depth + 1 && s1.start == s.start
            && s3.Recording() && s3.depth == s.depth && s3.start == s.start && ParentSlot(s3) == ParentSlot(s)
            && s3.nextFrameId == if s.depth < MAX_DEPTH then s.nextFrameId + 1 + Size(RecordedBy(s1, inner)) else s.nextFrameId
  {
    var s1 := BeginStep(s, e);
    RunLeaves(s1, inner);
    CallRecorded(s, e, inner, x, fn, Done, s1, Exec(s1, Ops(inner)), AfterCall(s, e, inner, x, fn));
    if s.depth >= MAX_DEPTH {
      RecordedBelowCap(inner, s1.depth, ParentSlot(s1), s1.nextFrameId, s.start);
    }
  }

  lemma ExecInner(s: State, inner: Run, ops: seq<Op>, k: nat, y: nat)
    requires s.Valid() && StandsAt(ops, inner, k) && k + Width(inner) <= y <= |ops|
    ensures Exec(s, ops[k..y]) == Exec(Exec(s, Ops(inner)), ops[k + Width(inner)..y])
  {
    PartIsRun(ops, inner, k);
    PartJoin(ops, k, k + Width(inner), y);
    ExecAppend(s, Ops(inner), ops[k + Width(inner)..y]);
  }

  lemma ExecParts(s: State, inner: Run, ops: seq<Op>, k: nat, y: nat)
    requires s.Valid() && k < |ops| && StandsAt(ops, inner, k + 1) && k + 1 + Width(inner) < y <= |ops|
    ensures var m := k + 1 + Width(inner);
            Exec(s, ops[k..y]) == Exec(Apply(Exec(Apply(s, ops[k]), Ops(inner)), ops[m]), ops[m + 1..y])
  {
    var s1 := Apply(s, ops[k]);
    ExecOne(s, ops, k, y);
    ExecInner(s1, inner, ops, k + 1, y);
    ExecOne(Exec(s1, Ops(inner)), ops, k + 1 + Width(inner), y);
  }

  lemma ExecAfterCall(s: State, e: nat, inner: Run, x: nat, fn: Func, ops: seq<Op>, k: nat, y: nat)
    requires s.Valid() && StandsAt(ops, inner, k + 1) && k < |ops| && ops[k] == Enter(e)
    requires var m := k + 1 + Width(inner); m < y <= |ops| && ops[m] == Leave(x, fn)
    ensures Exec(s, ops[k..y]) == Exec(AfterCall(s, e, inner, x, fn), ops[k + 2 + Width(inner)..y])
  {
    ExecParts(s, inner, ops, k, y);
  }

  lemma FindsInside(d: nat, slot: nat, t: Told, a: seq<Told>, b: seq<Told>, ops: seq<Op>, x: nat, id: nat)
    requires x <= |ops| && Finds(d + 1, t.frame.id, a, ops, x, id) && OpenAt(ops, x) > d
    requires d < MAX_DEPTH && t.enter < x < t.leave && t.frame.depth == d + 1
    ensures Finds(d, slot, [t] + a + b, ops, x, id)
  {
    if OpenAt(ops, x) <= MAX_DEPTH {
      OwnedMore(t, a, b, ops, x, id);
    }
  }

  lemma FindsAfter(d: nat, slot: nat, t: Told, a: seq<Told>, b: seq<Told>, ops: seq<Op>, x: nat, id: nat)
    requires x <= |ops| && Finds(d, slot, b, ops, x, id)
    ensures Finds(d, slot, [t] + a + b, ops, x, id)
  {
    if d < OpenAt(ops, x) <= MAX_DEPTH {
      OwnedMore(t, a, b, ops, x, id);
    }
  }

  /** The calls of a call: itself, those inside, those after. */
  lemma ToldOfCall(e: nat, inner: Run, x: nat, fn: Func, rest: Run, d: nat, parent: nat, next: nat, start: nat, k: nat) returns (t: Told)
    requires d < MAX_DEPTH
    ensures var later := next + 1 + Size(Recorded(inner, d + 1, next + 1, next + 1, start));
            ToldOf(Call(e, inner, x, fn, rest), d, parent, next, start, k)
            == [t] + ToldOf(inner, d + 1, next + 1, next + 1, start, k + 1) + ToldOf(rest, d, parent, later, start, k + 2 + Width(inner))
    ensures t.enter == k && t.leave == k + 1 + Width(inner) && t.frame.id == next + 1 && t.frame.depth == d + 1
  {
    t := Told(Recorded(Call(e, inner, x, fn, rest), d, parent, next, start).frame, k, k + 1 + Width(inner));
  }

  /** What an event inside a call finds, and one after it, seen from before the call. */
  lemma CallFindsInside(d: nat, slot: nat, n: nat, start: nat, e: nat, inner: Run, y: nat, fn: Func, rest: Run, ops: seq<Op>, k: nat, x: nat, id: nat)
    requires k < x < k + 1 + Width(inner) && x <= |ops| && OpenAt(ops, x) > d
    requires d < MAX_DEPTH ==> Finds(d + 1, n + 1, ToldOf(inner, d + 1, n + 1, n + 1, start, k + 1), ops, x, id)
    requires d >= MAX_DEPTH ==> id == 0
    ensures Finds(d, slot, ToldOf(Call(e, inner, y, fn, rest), d, slot, n, start, k), ops, x, id)
  {
    if d < MAX_DEPTH {
      var t := ToldOfCall(e, inner, y, fn, rest, d, slot, n, start, k);
      var later := n + 1 + Size(Recorded(inner, d + 1, n + 1, n + 1, start));
      FindsInside(d, slot, t, ToldOf(inner, d + 1, n + 1, n + 1, start, k + 1), ToldOf(rest, d, slot, later, start, k + 2 + Width(inner)), ops, x, id);
    }
  }

  lemma CallFindsAfter(d: nat, slot: nat, n: nat, start: nat, e: nat, inner: Run, y: nat, fn: Func, rest: Run, ops: seq<Op>, k: nat, x: nat, id: nat)
    requires x <= |ops|
    requires var later := if d < MAX_DEPTH then n + 1 + Size(Recorded(inner, d + 1, n + 1, n + 1, start)) else n;
             Finds(d, slot, ToldOf(rest, d, slot, later, start, k + 2 + Width(inner)), ops, x, id)
    ensures Finds(d, slot, ToldOf(Call(e, inner, y, fn, rest), d, slot, n, start, k), ops, x, id)
  {
    if d < MAX_DEPTH {
      var t := ToldOfCall(e, inner, y, fn, rest, d, slot, n, start, k);
      var later := n + 1 + Size(Recorded(inner, d + 1, n + 1, n + 1, start));
      FindsAfter(d, slot, t, ToldOf(inner, d + 1, n + 1, n + 1, start, k + 1), ToldOf(rest, d, slot, later, start, k + 2 + Width(inner)), ops, x, id);
    }
  }

  /** The recorder inside a call, and after it, on its way to a note at `x`. */
  lemma StatesOfCall(s: State, e: nat, inner: Run, y: nat, fn: Func, ops: seq<Op>, k: nat, x: nat) returns (s1: State, s3: State)
    requires s.Recording() && StandsAt(ops, inner, k + 1) && k < x < |ops| && ops[k] == Enter(e) && ops[x].Note? && OpenAt(ops, k) == s.depth
    requires var m := k + 1 + Width(inner); m < |ops| && ops[m] == Leave(y, fn)
    ensures s1.Recording() && s1.depth == s.depth + 1 && s1.start == s.start
    ensures s.depth < MAX_DEPTH ==> ParentSlot(s1) == s.nextFrameId + 1 == s1.nextFrameId
    ensures s3.Recording() && s3.depth == s.depth && s3.start == s.start && ParentSlot(s3) == ParentSlot(s)
    ensures var d, n := s.depth, s.nextFrameId;
            s3.nextFrameId == if d < MAX_DEPTH then n + 1 + Size(Recorded(inner, d + 1, n + 1, n + 1, s.start)) else n
    ensures OpenAt(ops, k + 1) == s1.depth && OpenAt(ops, k + 2 + Width(inner)) == s3.depth
    ensures x < k + 1 + Width(inner) ==> Exec(s, ops[k..x]) == Exec(s1, ops[k + 1..x]) && OpenAt(ops, x) > s.depth
    ensures x >= k + 1 + Width(inner) ==> x > k + 1 + Width(inner) && Exec(s, ops[k..x]) == Exec(s3, ops[k + 2 + Width(inner)..x])
  {
    s1, s3 := BeginStep(s, e), AfterCall(s, e, inner, y, fn);
    CallLeavesState(s, e, inner, y, fn);
    CallLevels(ops, inner, k);
    if x < k + 1 + Width(inner) {
      OneMore(ops, k);
      OpenInside(ops, inner, k + 1);
      ExecOne(s, ops, k, x);
    } else {
      ExecAfterCall(s, e, inner, y, fn, ops, k, x);
    }
  }

  lemma StateAfterNote(s: State, at: nat, checkpoint: bool, ops: seq<Op>, k: nat, x: nat) returns (s1: State)
    requires s.Recording() && k < x < |ops| && ops[k] == Note(at, checkpoint)
    ensures s1.Recording() && s1.depth == s.depth && s1.start == s.start && s1.nextFrameId == s.nextFrameId && ParentSlot(s1) == ParentSlot(s)
    ensures Exec(s, ops[k..x]) == Exec(s1, ops[k + 1..x]) && OpenAt(ops, k + 1) == OpenAt(ops, k)
  {
    s1 := NoteStep(s, at, checkpoint);
    OneMore(ops, k);
    ExecOne(s, ops, k, x);
  }

  /** The same seen from the states: `d1`, `slot1`, `n1` and `start1` are those inside the call, `n3` and `start3` those after it. */
  lemma InsideSeen(d: nat, slot: nat, n: nat, start: nat, d1: nat, slot1: nat, n1: nat, start1: nat,
                   e: nat, inner: Run, y: nat, fn: Func, rest: Run, ops: seq<Op>, k: nat, x: nat, id: nat)
    requires k < x < k + 1 + Width(inner) && x <= |ops| && OpenAt(ops, x) > d
    requires d1 == d + 1 && (d < MAX_DEPTH ==> slot1 == n1 == n + 1) && start1 == start
    requires Finds(d1, slot1, ToldOf(inner, d1, slot1, n1, start1, k + 1), ops, x, id)
    ensures Finds(d, slot, ToldOf(Call(e, inner, y, fn, rest), d, slot, n, start, k), ops, x, id)
  {
    CallFindsInside(d, slot, n, start, e, inner, y, fn, rest, ops, k, x, id);
  }

  lemma AfterSeen(d: nat, slot: nat, n: nat, start: nat, d3: nat, slot3: nat, n3: nat, start3: nat,
                  e: nat, inner: Run, y: nat, fn: Func, rest: Run, ops: seq<Op>, k: nat, x: nat, id: nat)
    requires x <= |ops| && d3 == d && slot3 == slot && start3 == start
    requires n3 == if d < MAX_DEPTH then n + 1 + Size(Recorded(inner, d + 1, n + 1, n + 1, start)) else n
    requires Finds(d3, slot3, ToldOf(rest, d3, slot3, n3, start3, k + 2 + Width(inner)), ops, x, id)
    ensures Finds(d, slot, ToldOf(Call(e, inner, y, fn, rest), d, slot, n, start, k), ops, x, id)
  {
    CallFindsAfter(d, slot, n, start, e, inner, y, fn, rest, ops, k, x, id);
  }

  lemma NoteSeen(d: nat, slot: nat, n: nat, start: nat, d1: nat, slot1: nat, n1: nat, start1: nat,
                 at: nat, checkpoint: bool, rest: Run, ops: seq<Op>, k: nat, x: nat, id: nat)
    requires x <= |ops| && d1 == d && slot1 == slot && n1 == n && start1 == start
    requires Finds(d1, slot1, ToldOf(rest, d1, slot1, n1, start1, k + 1), ops, x, id)
    ensures Finds(d, slot, ToldOf(Mark(at, checkpoint, rest), d, slot, n, start, k), ops, x, id)
  {
  }

  /** What an event finds. */
  lemma {:induction false} NoteFinds(s: State, run: Run, ops: seq<Op>, k: nat, x: nat)
    requires s.Recording() && StandsAt(ops, run, k) && OpenAt(ops, k) == s.depth && k <= x < k + Width(run) && x < |ops| && ops[x].Note?
    ensures Finds(s.depth, ParentSlot(s), ToldOf(run, s.depth, ParentSlot(s), s.nextFrameId, s.start, k), ops, x, OwnerSlot(Exec(s, ops[k..x])))
    decreases run
  {
    match run
    case Mark(at, checkpoint, rest) =>
      if x == k {
        assert ops[k..k] == [];
        SlotHere(s, ToldOf(run, s.depth, ParentSlot(s), s.nextFrameId, s.start, k), ops, x);
      } else {
        var s1 := StateAfterNote(s, at, checkpoint, ops, k, x);
        NoteFinds(s1, rest, ops, k + 1, x);
        NoteSeen(s.depth, ParentSlot(s), s.nextFrameId, s.start, s1.depth, ParentSlot(s1), s1.nextFrameId, s1.start,
                 at, checkpoint, rest, ops, k, x, OwnerSlot(Exec(s1, ops[k + 1..x])));
      }
    case Call(e, inner, y, fn, rest) =>
      var s1, s3 := StatesOfCall(s, e, inner, y, fn, ops, k, x);
      if x < k + 1 + Width(inner) {
        NoteFinds(s1, inner, ops, k + 1, x);
        InsideSeen(s.depth, ParentSlot(s), s.nextFrameId, s.start, s1.depth, ParentSlot(s1), s1.nextFrameId, s1.start,
                   e, inner, y, fn, rest, ops, k, x, OwnerSlot(Exec(s1, ops[k + 1..x])));
      } else {
        NoteFinds(s3, rest, ops, k + 2 + Width(inner), x);
        AfterSeen(s.depth, ParentSlot(s), s.nextFrameId, s.start, s3.depth, ParentSlot(s3), s3.nextFrameId, s3.start,
                  e, inner, y, fn, rest, ops, k, x, OwnerSlot(Exec(s3, ops[k + 2 + Width(inner)..x])));
      }
  }

  // ---------- the events of a request ----------

  /** The events are the notes of `ops` in order, each with its reading; on the first 4096 levels it names the innermost call
      around it, and deeper none. */
  ghost predicate TellsEvents(es: seq<Event>, ts: seq<Told>, ops: seq<Op>, start: nat) {
    |es| == |NotesFrom(ops, 0)| && forall i :: 0 <= i < |es| ==> TellsEvent(es[i], ts, ops, start, NotesFrom(ops, 0)[i])
  }

  lemma {:induction false} ReadingsLater(ops: seq<Op>, from: nat, x: nat)
    requires InOrder(false, ops, from) && x < |ops|
    ensures from <= ops[x].at
    decreases |ops|
  {
    if x > 0 {
      ReadingsLater(ops[1..], ops[0].at, x - 1);
    }
  }

  /** `e` is the note at `x`. */
  ghost predicate TellsEvent(e: Event, ts: seq<Told>, ops: seq<Op>, start: nat, x: nat) {
    && x < |ops| && ops[x].Note? && e.at + start == ops[x].at
    && (1 <= OpenAt(ops, x) <= 4096 ==> OwnedBy(ts, ops, x, e.inFrame))
    && (OpenAt(ops, x) > 4096 ==> e.inFrame == 0)
  }

  lemma NoteTold(s: State, ts: seq<Told>, ops: seq<Op>, x: nat, e: Event, r: State)
    requires s.Valid() && s.depth == 0 && r.Valid() && x < |ops| && ops[x].Note? && s.start <= ops[x].at
    requires IsNote(e, s.start, ops[x], r) && Finds(0, 0, ts, ops, x, OwnerSlot(r))
    ensures TellsEvent(e, ts, ops, s.start, x)
  {
    SinceIs(s.start, ops[x].at);
  }

  lemma EventTold(s: State, run: Run, i: nat)
    requires s.Recording() && s.depth == 0 && s.events == [] && s.nextFrameId == 0 && InOrder(false, Ops(run), s.start) && i < |NotesFrom(Ops(run), 0)|
    ensures i < |Exec(s, Ops(run)).events|
    ensures TellsEvent(Exec(s, Ops(run)).events[i], ToldOf(run, 0, 0, 0, s.start, 0), Ops(run), s.start, NotesFrom(Ops(run), 0)[i])
  {
    var ops := Ops(run);
    var x := NotesFrom(ops, 0)[i];
    assert x in NotesFrom(ops, 0) && ops[0..] == ops;
    EventRecorded(s, ops, 0, i);
    WholeStands(run);
    RunWidth(run);
    NoteFinds(s, run, ops, 0, x);
    ReadingsLater(ops, s.start, x);
    NoteTold(s, ToldOf(run, 0, 0, 0, s.start, 0), ops, x, Exec(s, ops).events[i], Exec(s, ops[0..x]));
  }

  lemma RequestEventsTell(s: State, run: Run)
    requires s.Recording() && s.depth == 0 && s.events == [] && s.nextFrameId == 0 && InOrder(false, Ops(run), s.start)
    ensures TellsEvents(Exec(s, Ops(run)).events, ToldOf(run, 0, 0, 0, s.start, 0), Ops(run), s.start)
  {
    assert Ops(run)[0..] == Ops(run);
    EventsRecorded(s, Ops(run), 0);
    forall i | 0 <= i < |NotesFrom(Ops(run), 0)|
      ensures TellsEvent(Exec(s, Ops(run)).events[i], ToldOf(run, 0, 0, 0, s.start, 0), Ops(run), s.start, NotesFrom(Ops(run), 0)[i])
    {
      EventTold(s, run, i);
    }
  }

  /** The frames `fs`, in walk order, and the events `es` are the calls and the notes of `ops`. */
  ghost predicate Recounts(fs: seq<Frame>, es: seq<Event>, ops: seq<Op>, start: nat) {
    exists ts :: Framed(ts, fs) && TellsRequest(ts, ops, start) && TellsEvents(es, ts, ops, start)
  }

  /** `e` is the note at `x`, in a request whose calls have their frames among `frames`. */
  ghost predicate RecountsNote(e: Event, frames: seq<Frame>, ops: seq<Op>, start: nat, x: nat) {
    exists ts: seq<Told> :: TellsRequest(ts, ops, start) && FramesAmong(ts, frames) && TellsEvent(e, ts, ops, start, x)
  }

  ghost predicate FramesAmong(ts: seq<Told>, frames: seq<Frame>) {
    forall t :: t in ts ==> t.frame in frames
  }

  lemma NoteRecounted(fs: seq<Frame>, frames: seq<Frame>, es: seq<Event>, ops: seq<Op>, start: nat, i: nat)
    requires Recounts(fs, es, ops, start) && i < |es| && forall f :: f in fs ==> f in frames
    ensures |NotesFrom(ops, 0)| == |es| && RecountsNote(es[i], frames, ops, start, NotesFrom(ops, 0)[i])
  {
    var ts :| Framed(ts, fs) && TellsRequest(ts, ops, start) && TellsEvents(es, ts, ops, start);
    assert FramesAmong(ts, frames);
  }

  lemma RequestRecounts(s: State, run: Run)
    requires s.Recording() && s.depth == 0 && s.events == [] && s.nextFrameId == 0
    requires InOrder(false, Ops(run), s.start) && Clocked(false, run, s.start)
    ensures Recounts(PreFrames(Recorded(run, 0, 0, 0, s.start)), Exec(s, Ops(run)).events, Ops(run), s.start)
  {
    RequestTells(run, s.start);
    RequestEventsTell(s, run);
  }

  /** Nothing is recorded while recording is off. */
  lemma {:induction false} OffRecordsNothing(s: State, ops: seq<Op>)
    requires s.Valid() && !(s.enabled && s.tracing)
    ensures Exec(s, ops).frames == s.frames && Exec(s, ops).events == s.events
    decreases |ops|
  {
    if ops != [] {
      OffRecordsNothing(Apply(s, ops[0]), ops[1..]);
    }
  }
}
