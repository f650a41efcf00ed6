/** What the cursor moves mean on the call tree, and over whole replay sessions. */
module CursorTheorems {
  import opened TraceModel
  import opened CallForest
  import opened ParentChains
  import opened TraceIndexing
  import opened TraceQueries
  import opened PreorderTheorems
  import opened Cursor

  /** Roots have depth 1 and every other frame is one deeper than its parent. */
  ghost predicate DepthsFromParents(m: Table) {
    forall x :: x in m ==>
      if m[x].parentId == 0 then m[x].depth == 1 else m[x].parentId in m && m[m[x].parentId].depth + 1 == m[x].depth
  }

  lemma {:induction false} DepthIsChain(m: Table, x: nat)
    requires DepthsFromParents(m) && x in m
    ensures ChainLen(m, x, m[x].depth)
    decreases m[x].depth
  {
    if m[x].parentId != 0 {
      DepthIsChain(m, m[x].parentId);
    }
  }

  lemma DepthIsLevel(m: Table, x: nat)
    requires DepthsFromParents(m) && x in m
    ensures Rooted(m, x) && Level(m, x) == m[x].depth
  {
    DepthIsChain(m, x);
    LevelIs(m, x, m[x].depth);
  }

  /** `a` is `x` or one of its callers. */
  ghost predicate Under(m: Table, a: nat, x: nat) {
    Rooted(m, x) && Within(m, a, x)
  }

  /** `pre` is a walk of `m` in which positions can be compared by recorded depth. */
  ghost predicate DepthWalk(idx: TraceIndex, m: Table, pre: seq<nat>) {
    && pre == idx.preorder && Distinct(pre) && Nested(m, pre, 1)
    && forall i: nat :: i < |pre| ==> pre[i] in m && FrameAtPos(idx, i) == Some(m[pre[i]]) && Level(m, pre[i]) == m[pre[i]].depth
  }

  lemma WalkWithDepths(idx: TraceIndex)
    requires Indexed(idx) && DepthsFromParents(TableOf(idx))
    ensures DepthWalk(idx, TableOf(idx), idx.preorder)
  {
    var m, pre := TableOf(idx), idx.preorder;
    WalkVisitsEachOnce(idx);
    forall i: nat | i < |pre|
      ensures pre[i] in m && FrameAtPos(idx, i) == Some(m[pre[i]]) && Level(m, pre[i]) == m[pre[i]].depth
    {
      ParentLevel(m, pre[i]);
      DepthIsLevel(m, pre[i]);
    }
  }

  lemma {:induction false} NextIsBlockEnd(idx: TraceIndex, m: Table, pre: seq<nat>, p: nat, q: nat)
    requires DepthWalk(idx, m, pre) && p < q <= |pre|
    ensures NextShallower(idx, q, m[pre[p]].depth + 1) == BlockEnd(m, pre, p, q)
    decreases |pre| - q
  {
    if q < |pre| {
      assert FrameAtPos(idx, q) == Some(m[pre[q]]);
      NextIsBlockEnd(idx, m, pre, p, q + 1);
    }
  }

  /** Step over lands on the first later position outside the current frame's subtree, and stays put
      exactly when the rest of the walk is that subtree. */
  lemma StepOverSkipsSubtree(idx: TraceIndex, p: nat)
    requires Indexed(idx) && DepthsFromParents(TableOf(idx)) && p < |idx.preorder|
    ensures p <= OverFrom(idx, p) < |idx.preorder|
    ensures OverFrom(idx, p) > p ==> !Under(TableOf(idx), idx.preorder[p], idx.preorder[OverFrom(idx, p)])
    ensures forall j :: p < j < OverFrom(idx, p) ==> Under(TableOf(idx), idx.preorder[p], idx.preorder[j])
    ensures OverFrom(idx, p) == p <==> forall j :: p < j < |idx.preorder| ==> Under(TableOf(idx), idx.preorder[p], idx.preorder[j])
  {
    WalkWithDepths(idx);
    OverInWalk(idx, TableOf(idx), idx.preorder, p);
  }

  lemma UnderIsBlock(m: Table, pre: seq<nat>, p: nat)
    requires Nested(m, pre, 1) && Distinct(pre) && p < |pre|
    ensures forall j :: p < j < |pre| ==> (Under(m, pre[p], pre[j]) <==> j < BlockEnd(m, pre, p, p + 1))
  {
    forall j: nat | p < j < |pre| ensures Under(m, pre[p], pre[j]) <==> j < BlockEnd(m, pre, p, p + 1) {
      SubtreeIsBlock(m, pre, p, j);
    }
  }

  lemma OverIsBlockEnd(idx: TraceIndex, m: Table, pre: seq<nat>, p: nat)
    requires DepthWalk(idx, m, pre) && p < |pre|
    ensures var e := BlockEnd(m, pre, p, p + 1); OverFrom(idx, p) == if e < |pre| then e else p
  {
    NextIsBlockEnd(idx, m, pre, p, p + 1);
    OverIsNext(idx, m[pre[p]], p);
  }

  lemma OverIsNext(idx: TraceIndex, f: Frame, p: nat)
    requires p < |idx.preorder| && FrameAtPos(idx, p) == Some(f)
    ensures var q := NextShallower(idx, p + 1, f.depth + 1); OverFrom(idx, p) == if q < |idx.preorder| then q else p
  {
  }

  lemma OverInWalk(idx: TraceIndex, m: Table, pre: seq<nat>, p: nat)
    requires DepthWalk(idx, m, pre) && p < |pre|
    ensures p <= OverFrom(idx, p) < |pre|
    ensures OverFrom(idx, p) > p ==> !Under(m, pre[p], pre[OverFrom(idx, p)])
    ensures forall j :: p < j < OverFrom(idx, p) ==> Under(m, pre[p], pre[j])
    ensures OverFrom(idx, p) == p <==> forall j :: p < j < |pre| ==> Under(m, pre[p], pre[j])
  {
    OverIsBlockEnd(idx, m, pre, p);
    UnderIsBlock(m, pre, p);
    BlockStops(m, pre, p, BlockEnd(m, pre, p, p + 1), OverFrom(idx, p));
  }

  /** Where the block at `p` ends, in terms of `Under` alone. */
  lemma BlockStops(m: Table, pre: seq<nat>, p: nat, e: nat, over: nat)
    requires p < e <= |pre| && over == if e < |pre| then e else p
    requires forall x :: x in pre ==> Rooted(m, x)
    requires forall j :: p < j < |pre| ==> (Under(m, pre[p], pre[j]) <==> j < e)
    ensures p <= over < |pre|
    ensures over > p ==> !Under(m, pre[p], pre[over])
    ensures forall j :: p < j < over ==> Under(m, pre[p], pre[j])
    ensures over == p <==> forall j :: p < j < |pre| ==> Under(m, pre[p], pre[j])
  {
  }

  lemma {:induction false} NextSkips(idx: TraceIndex, a: nat, b: nat, depth: nat)
    requires a <= b <= |idx.preorder| && forall j :: a <= j < b ==> !Shallower(idx, j, depth)
    ensures NextShallower(idx, a, depth) == NextShallower(idx, b, depth)
    decreases b - a
  {
    if a < b {
      NextSkips(idx, a + 1, b, depth);
    }
  }

  /** The caller's position, for a frame that has one. */
  lemma CallerPosition(idx: TraceIndex, m: Table, pre: seq<nat>, p: nat) returns (pp: nat)
    requires DepthWalk(idx, m, pre) && p < |pre| && m[pre[p]].parentId != 0
    ensures ParentBefore(m, pre, pp, p) && pre[pp] == m[pre[p]].parentId
    ensures OutFrom(idx, p) == var q := NextShallower(idx, pp + 1, m[pre[p]].depth); if q < |pre| then q
                               else if pre[pp] in idx.preorderPos then idx.preorderPos[pre[pp]] else p
    ensures OverFrom(idx, pp) == var q := NextShallower(idx, pp + 1, m[pre[p]].depth); if q < |pre| then q else pp
  {
    ParentLevel(m, pre[p]);
    assert HasParentBefore(m, pre, p);
    pp :| ParentBefore(m, pre, pp, p);
    assert FrameAtPos(idx, p) == Some(m[pre[p]]) && FrameAtPos(idx, pp) == Some(m[pre[pp]]);
    OutInWalk(idx, m, pre, p, pp);
  }

  /** Step out of a frame with a caller is: go to the caller, step over. */
  lemma StepOutIsParentThenOver(idx: TraceIndex, p: nat)
    requires Indexed(idx) && DepthsFromParents(TableOf(idx)) && p < |idx.preorder|
    requires FrameAtPos(idx, p).Some? && FrameAtPos(idx, p).value.parentId != 0
    ensures FrameAtPos(idx, p).value.parentId in idx.preorderPos
    ensures OutFrom(idx, p) == OverFrom(idx, idx.preorderPos[FrameAtPos(idx, p).value.parentId])
  {
    WalkWithDepths(idx);
    PositionInverse(idx);
    assert FrameAtPos(idx, p) == Some(TableOf(idx)[idx.preorder[p]]);
    var pp := CallerPosition(idx, TableOf(idx), idx.preorder, p);
  }

  lemma PositionInverse(idx: TraceIndex)
    requires Indexed(idx)
    ensures forall i: nat :: i < |idx.preorder| ==> idx.preorder[i] in idx.preorderPos && idx.preorderPos[idx.preorder[i]] == i
  {
    WalkVisitsEachOnce(idx);
  }

  lemma OutInWalk(idx: TraceIndex, m: Table, pre: seq<nat>, p: nat, pp: nat)
    requires DepthWalk(idx, m, pre) && p < |pre| && ParentBefore(m, pre, pp, p)
    ensures NextShallower(idx, pp + 1, m[pre[p]].depth) == NextShallower(idx, p + 1, m[pre[p]].depth)
  {
    forall j: nat | pp + 1 <= j < p + 1 ensures !Shallower(idx, j, m[pre[p]].depth) {
      assert FrameAtPos(idx, j) == Some(m[pre[j]]);
    }
    NextSkips(idx, pp + 1, p + 1, m[pre[p]].depth);
  }

  lemma {:induction false} DescentInWalk(f: Forest, t: nat)
    requires DescendTo(f, t).Some?
    ensures DescendTo(f, t).value in PreIds(f)
  {
    match f
    case Nil =>
    case Cons(x, kids, rest) =>
      if Covers(x, t) {
        if DescendTo(kids, t).Some? {
          DescentInWalk(kids, t);
        }
      } else {
        DescentInWalk(rest, t);
      }
  }

  /** Seeking a time parks the cursor on the very frame the time lookup found. */
  lemma SeekTimeParksOnFound(idx: TraceIndex, t: nat)
    requires Indexed(idx) && DescendTo(ForestOf(idx), t).Some?
    ensures DescendTo(ForestOf(idx), t).value in idx.preorderPos
    ensures IdAtPos(idx, idx.preorderPos[DescendTo(ForestOf(idx), t).value]) == DescendTo(ForestOf(idx), t)
  {
    DescentInWalk(ForestOf(idx), t);
    PositionInverse(idx);
  }

  // ---------- whole continue runs ----------

  lemma {:induction false} HitsAreTheMatches(idx: TraceIndex, bps: BreakpointSet, from: nat)
    requires from <= |idx.preorder|
    ensures var h := HitsFrom(idx, bps, from);
            && (forall i, j :: 0 <= i < j < |h| ==> h[i] < h[j])
            && (forall q: nat :: q in h <==> from <= q < |idx.preorder| && Hit(idx, bps, q))
            && forall q: nat :: Hit(idx, bps, q) <==>
                 FrameAtPos(idx, q).Some? && (FrameAtPos(idx, q).value.file, FrameAtPos(idx, q).value.line) in bps.points
    decreases |idx.preorder| - from
  {
    if from < |idx.preorder| {
      HitsAreTheMatches(idx, bps, from + 1);
      var t := HitsFrom(idx, bps, from + 1);
      assert forall i :: 0 <= i < |t| ==> t[i] in t;
    }
  }

  /** `k` forward continues in a row. */
  function ForwardTimes(idx: TraceIndex, bps: BreakpointSet, pos: nat, k: nat): nat {
    if k == 0 then pos else ForwardFrom(idx, bps, ForwardTimes(idx, bps, pos, k - 1))
  }

  lemma {:induction false} HitsAfterHit(idx: TraceIndex, bps: BreakpointSet, from: nat, i: nat)
    requires from <= |idx.preorder| && i < |HitsFrom(idx, bps, from)|
    ensures HitsFrom(idx, bps, from)[i] < |idx.preorder|
    ensures HitsFrom(idx, bps, HitsFrom(idx, bps, from)[i] + 1) == HitsFrom(idx, bps, from)[i + 1..]
    decreases |idx.preorder| - from
  {
    if from < |idx.preorder| {
      if Hit(idx, bps, from) {
        if i > 0 {
          HitsAfterHit(idx, bps, from + 1, i - 1);
        }
      } else {
        HitsAfterHit(idx, bps, from + 1, i);
      }
    }
  }

  /** From position 0, repeated forward continues visit exactly the later matching positions, in order,
      and then park on the last frame. */
  lemma {:induction false} ContinueVisitsAllHits(idx: TraceIndex, bps: BreakpointSet, k: nat)
    requires idx.preorder != []
    ensures var h := HitsFrom(idx, bps, 1);
            ForwardTimes(idx, bps, 0, k) == if k == 0 then 0 else if k <= |h| then h[k - 1] else |idx.preorder| - 1
  {
    var h, n := HitsFrom(idx, bps, 1), |idx.preorder|;
    if k > 0 {
      ContinueVisitsAllHits(idx, bps, k - 1);
      if 1 < k <= |h| + 1 {
        HitsAfterHit(idx, bps, 1, k - 2);
      } else if k > |h| + 1 {
        assert HitsFrom(idx, bps, n) == [];
      }
    }
  }

  lemma {:induction false} ReverseSkips(idx: TraceIndex, bps: BreakpointSet, a: nat, b: nat)
    requires a <= b && forall j :: a <= j < b ==> !Hit(idx, bps, j)
    ensures ReverseFrom(idx, bps, b) == ReverseFrom(idx, bps, a)
    decreases b - a
  {
    if a < b {
      ReverseSkips(idx, bps, a, b - 1);
    }
  }

  /** A reverse continue from a hit goes to the previous hit, or to position 0 when there is none. */
  lemma ReverseReturnsToPreviousHit(idx: TraceIndex, bps: BreakpointSet, i: nat)
    requires idx.preorder != [] && i < |HitsFrom(idx, bps, 1)|
    ensures var h := HitsFrom(idx, bps, 1);
            ReverseFrom(idx, bps, h[i]) == if i == 0 then 0 else h[i - 1]
  {
    var h := HitsFrom(idx, bps, 1);
    HitsAreTheMatches(idx, bps, 1);
    assert h[i] in h;
    var from := if i == 0 then 1 else h[i - 1] + 1;
    if i > 0 {
      assert h[i - 1] in h;
    }
    forall j | from <= j < h[i] ensures !Hit(idx, bps, j) {
      forall k | 0 <= k < |h| ensures h[k] != j {
        if k >= i {
          assert h[i] <= h[k];
        } else {
          assert h[k] <= h[i - 1];
        }
      }
    }
    ReverseSkips(idx, bps, from, h[i]);
  }

  /** Going forward to the next hit and back again returns to the hit one came from. */
  lemma ReverseUndoesForward(idx: TraceIndex, bps: BreakpointSet, i: nat)
    requires idx.preorder != [] && i + 1 < |HitsFrom(idx, bps, 1)|
    ensures var h := HitsFrom(idx, bps, 1);
            ForwardFrom(idx, bps, h[i]) == h[i + 1] && ReverseFrom(idx, bps, ForwardFrom(idx, bps, h[i])) == h[i]
  {
    HitsAfterHit(idx, bps, 1, i);
    ReverseReturnsToPreviousHit(idx, bps, i + 1);
  }
}
