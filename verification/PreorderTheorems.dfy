/** What the stack walk yields for an arbitrary frame list: which frames, how often, in what shape. */
module PreorderTheorems {
  import opened TraceModel
  import opened StableSort
  import opened CallForest
  import opened ParentChains
  import opened TraceIndexing

  /** Position `p` holds the parent of position `q`, and nothing in between is shallower than `q`. */
  ghost predicate ParentBefore(m: Table, pre: seq<nat>, p: nat, q: nat)
    requires forall x :: x in pre ==> Rooted(m, x)
  {
    && p < q < |pre| && pre[p] == ParentOf(m, pre[q])
    && forall j :: p < j < q ==> Level(m, pre[j]) >= Level(m, pre[q])
  }

  ghost predicate HasParentBefore(m: Table, pre: seq<nat>, q: nat)
    requires forall x :: x in pre ==> Rooted(m, x)
  {
    exists p: nat :: ParentBefore(m, pre, p, q)
  }

  /** Every entry is at level `l` or has its parent before it. */
  ghost predicate Nested(m: Table, pre: seq<nat>, l: nat) {
    && (forall x :: x in pre ==> Rooted(m, x) && Level(m, x) >= l)
    && (forall q: nat {:trigger HasParentBefore(m, pre, q)} :: q < |pre| && Level(m, pre[q]) > l ==> HasParentBefore(m, pre, q))
  }

  ghost predicate RootsAmong(m: Table, pre: seq<nat>, l: nat, s: seq<nat>)
    requires forall x :: x in pre ==> Rooted(m, x)
  {
    forall x :: x in pre && Level(m, x) == l ==> x in s
  }

  lemma NestedShift(m: Table, b: seq<nat>, l: nat, q: nat, c: seq<nat>, d: nat, i: nat)
    requires Nested(m, b, l) && (forall x :: x in c ==> Rooted(m, x))
    requires q < |b| && Level(m, b[q]) > l
    requires d + |b| <= |c| && c[d..d + |b|] == b && i == d + q
    ensures HasParentBefore(m, c, i)
  {
    assert HasParentBefore(m, b, q);
    var p: nat :| ParentBefore(m, b, p, q);
    assert c[d + p] == b[p] && c[i] == b[q];
    forall j | d + p < j < i ensures Level(m, c[j]) >= Level(m, c[i]) {
      assert c[j] == b[j - d];
    }
    assert ParentBefore(m, c, d + p, i);
  }

  /** A node in front of the walk of its children and of its later siblings. */
  lemma NestedCons(m: Table, x: nat, k: seq<nat>, r: seq<nat>, l: nat)
    requires Rooted(m, x) && Level(m, x) == l
    requires Nested(m, k, l + 1) && Nested(m, r, l)
    requires forall y :: y in k && Level(m, y) == l + 1 ==> ParentOf(m, y) == x
    ensures Nested(m, [x] + k + r, l)
  {
    var pre := [x] + k + r;
    assert forall y :: y in pre ==> y == x || y in k || y in r;
    forall q: nat | q < |pre| && Level(m, pre[q]) > l ensures HasParentBefore(m, pre, q) {
      if q >= 1 + |k| {
        assert pre[q] == r[q - 1 - |k|];
        assert pre[1 + |k|..1 + |k| + |r|] == r;
        NestedShift(m, r, l, q - 1 - |k|, pre, 1 + |k|, q);
      } else {
        assert pre[q] == k[q - 1];
        if Level(m, pre[q]) == l + 1 {
          FirstParent(m, x, k, r, l, q);
        } else {
          assert pre[1..1 + |k|] == k;
          NestedShift(m, k, l + 1, q - 1, pre, 1, q);
        }
      }
    }
  }

  lemma FirstParent(m: Table, x: nat, k: seq<nat>, r: seq<nat>, l: nat, q: nat)
    requires Nested(m, k, l + 1)
    requires forall y :: y in [x] + k + r ==> Rooted(m, y)
    requires 1 <= q <= |k| && Level(m, k[q - 1]) == l + 1 && ParentOf(m, k[q - 1]) == x
    ensures ParentBefore(m, [x] + k + r, 0, q)
  {
    var pre := [x] + k + r;
    forall j | 0 < j < q ensures Level(m, pre[j]) >= l + 1 {
      assert pre[j] == k[j - 1];
    }
  }

  lemma {:induction false} WalkIsNested(m: Table, children: map<nat, seq<nat>>, roots: seq<nat>, f: Forest, s: seq<nat>, l: nat)
    requires Linked(m, children, roots) && Grows(m, children, f, s)
    requires forall x :: x in s ==> ChainLen(m, x, l)
    ensures Nested(m, PreIds(f), l) && RootsAmong(m, PreIds(f), l, s)
  {
    match f
    case Nil =>
    case Cons(x, kids, rest) =>
      var ks := KidsOf(children, x.id);
      LevelIs(m, x.id, l);
      forall k | k in ks ensures ChainLen(m, k, l + 1) {
        assert m[k].parentId == x.id;
      }
      WalkIsNested(m, children, roots, kids, ks, l + 1);
      WalkIsNested(m, children, roots, rest, s[1..], l);
      NestedCons(m, x.id, PreIds(kids), PreIds(rest), l);
  }

  lemma {:induction false} SharedUpwards(m: Table, x: nat, k: seq<nat>, r: seq<nat>, l: nat, y: nat)
    requires Nested(m, k, l + 1) && Nested(m, r, l) && x !in r
    requires forall z :: z in k && Level(m, z) == l + 1 ==> ParentOf(m, z) == x
    requires y in k && y in r
    ensures false
    decreases Level(m, y)
  {
    ParentLevel(m, y);
    var i: nat :| i < |r| && r[i] == y;
    assert HasParentBefore(m, r, i);
    var p: nat :| ParentBefore(m, r, p, i);
    if Level(m, y) > l + 1 {
      var j: nat :| j < |k| && k[j] == y;
      assert HasParentBefore(m, k, j);
      var q: nat :| ParentBefore(m, k, q, j);
      SharedUpwards(m, x, k, r, l, m[y].parentId);
    }
  }

  lemma {:induction false} WalkIsDistinct(m: Table, children: map<nat, seq<nat>>, roots: seq<nat>, f: Forest, s: seq<nat>, l: nat)
    requires Linked(m, children, roots) && Grows(m, children, f, s) && Distinct(s)
    requires forall x :: x in s ==> ChainLen(m, x, l)
    ensures Distinct(PreIds(f))
  {
    match f
    case Nil =>
    case Cons(x, kids, rest) =>
      var ks := KidsOf(children, x.id);
      LevelIs(m, x.id, l);
      forall k | k in ks ensures ChainLen(m, k, l + 1) {
        assert m[k].parentId == x.id;
      }
      WalkIsDistinct(m, children, roots, kids, ks, l + 1);
      WalkIsDistinct(m, children, roots, rest, s[1..], l);
      WalkIsNested(m, children, roots, kids, ks, l + 1);
      WalkIsNested(m, children, roots, rest, s[1..], l);
      var k, r := PreIds(kids), PreIds(rest);
      assert x.id !in s[1..];
      forall y | y in k && y in r ensures false {
        SharedUpwards(m, x.id, k, r, l, y);
      }
      DistinctAppend([x.id], k);
      DistinctAppend([x.id] + k, r);
  }

  lemma DistinctAppend(a: seq<nat>, b: seq<nat>)
    requires Distinct(a) && Distinct(b) && forall y :: !(y in a && y in b)
    ensures Distinct(a + b)
  {
    var s := a + b;
    forall i, j | 0 <= i < j < |s| ensures s[i] != s[j] {
      assert i < |a| ==> s[i] in a;
      assert j >= |a| ==> s[j] == b[j - |a|] && s[j] in b;
    }
  }

  lemma SameMembers(a: seq<nat>, b: seq<nat>)
    requires Distinct(a) && Distinct(b) && forall x :: x in a <==> x in b
    ensures multiset(a) == multiset(b) && |a| == |b|
  {
    DistinctCounts(a);
    DistinctCounts(b);
    forall x ensures multiset(a)[x] == multiset(b)[x] {
      assert x in multiset(a) <==> x in a;
      assert x in multiset(b) <==> x in b;
    }
    assert multiset(a) == multiset(b);
    assert |multiset(a)| == |a| && |multiset(b)| == |b|;
  }

  lemma {:induction false} WalkReachesKids(m: Table, children: map<nat, seq<nat>>, f: Forest, s: seq<nat>, p: nat, y: nat)
    requires Grows(m, children, f, s)
    requires p in PreIds(f) && y in KidsOf(children, p)
    ensures y in PreIds(f)
  {
    match f
    case Nil =>
    case Cons(x, kids, rest) =>
      if p == x.id {
        RootsWalked(m, children, kids, KidsOf(children, x.id));
      } else if p in PreIds(kids) {
        WalkReachesKids(m, children, kids, KidsOf(children, x.id), p, y);
      } else {
        WalkReachesKids(m, children, rest, s[1..], p, y);
      }
  }

  lemma {:induction false} RootsWalked(m: Table, children: map<nat, seq<nat>>, f: Forest, s: seq<nat>)
    requires Grows(m, children, f, s)
    ensures forall x :: x in s ==> x in PreIds(f)
  {
    match f
    case Nil =>
    case Cons(_, _, rest) =>
      RootsWalked(m, children, rest, s[1..]);
      assert s == [s[0]] + s[1..];
  }

  lemma {:induction false} RootedIsWalked(idx: TraceIndex, x: nat)
    requires Indexed(idx) && Rooted(TableOf(idx), x)
    ensures x in idx.preorder
    decreases Level(TableOf(idx), x)
  {
    var m := TableOf(idx);
    LinkedParts(idx.frames, idx.framePos, idx.children, idx.roots);
    ParentLevel(m, x);
    if m[x].parentId == 0 {
      RootsWalked(m, idx.children, ForestOf(idx), idx.roots);
    } else {
      RootedIsWalked(idx, m[x].parentId);
      WalkReachesKids(m, idx.children, ForestOf(idx), idx.roots, m[x].parentId, x);
    }
  }

  /** The walk emits exactly the frames hanging below a root, each once, parents before
      children, and the inverse map is the inverse. This holds in any list order. */
  lemma WalkVisitsEachOnce(idx: TraceIndex)
    requires Indexed(idx)
    ensures forall x :: x in idx.preorder <==> Rooted(TableOf(idx), x)
    ensures Distinct(idx.preorder)
    ensures Nested(TableOf(idx), idx.preorder, 1)
    ensures forall x :: x in idx.preorderPos <==> x in idx.preorder
    ensures forall i: nat :: i < |idx.preorder| ==> idx.preorderPos[idx.preorder[i]] == i
  {
    var m := TableOf(idx);
    LinkedParts(idx.frames, idx.framePos, idx.children, idx.roots);
    forall x | x in idx.roots ensures ChainLen(m, x, 1) {}
    WalkIsNested(m, idx.children, idx.roots, ForestOf(idx), idx.roots, 1);
    WalkIsDistinct(m, idx.children, idx.roots, ForestOf(idx), idx.roots, 1);
    forall x | Rooted(m, x) ensures x in idx.preorder {
      RootedIsWalked(idx, x);
    }
  }

  /** With parents present and no cycle, every frame of the list is visited exactly once. */
  lemma AcyclicVisitsAll(idx: TraceIndex)
    requires Indexed(idx)
    requires forall f :: f in idx.frames ==> f.id != 0
    requires ParentsPresent(TableOf(idx)) && NoParentCycle(TableOf(idx))
    ensures multiset(idx.preorder) == multiset(FrameIds(idx.frames))
    ensures |idx.preorder| == |idx.frames|
  {
    var m := TableOf(idx);
    var ids := FrameIds(idx.frames);
    LookupFacts(idx.frames, idx.framePos);
    RootedIffAcyclic(m);
    WalkVisitsEachOnce(idx);
    forall x ensures x in idx.preorder <==> x in ids {
      if x in idx.preorder {
        ParentLevel(m, x);
        var i :| 0 <= i < |idx.frames| && idx.frames[i].id == x;
        assert ids[i] == x;
      }
      if x in ids {
        assert x in m;
      }
    }
    SameMembers(idx.preorder, ids);
  }

  // ---------- siblings in call order ----------

  lemma PrecedesWithin(a: seq<nat>, b: seq<nat>, c: seq<nat>, x: nat, y: nat)
    requires Precedes(b, x, y)
    ensures Precedes(a + b + c, x, y)
  {
    var i, j :| 0 <= i < j < |b| && b[i] == x && b[j] == y;
    var s := a + b + c;
    assert s[|a| + i] == x && s[|a| + j] == y;
  }

  lemma {:induction false} RootsInOrder(m: Table, children: map<nat, seq<nat>>, f: Forest, s: seq<nat>, x: nat, y: nat)
    requires Grows(m, children, f, s) && Precedes(s, x, y)
    ensures Precedes(PreIds(f), x, y)
  {
    var k, r := PreIds(f.kids), PreIds(f.rest);
    PrecedesTail(s, x, y);
    if s[0] == x && y in s[1..] {
      RootsWalked(m, children, f.rest, s[1..]);
      PrecedesCons(x, k + r, x, y);
      assert [x] + (k + r) == [x] + k + r;
    } else {
      RootsInOrder(m, children, f.rest, s[1..], x, y);
      PrecedesWithin([s[0]] + k, r, [], x, y);
      assert [s[0]] + k + r + [] == [s[0]] + k + r;
    }
  }

  lemma {:induction false} KidsInOrder(m: Table, children: map<nat, seq<nat>>, f: Forest, s: seq<nat>, p: nat, x: nat, y: nat)
    requires Grows(m, children, f, s) && p in PreIds(f) && Precedes(KidsOf(children, p), x, y)
    ensures Precedes(PreIds(f), x, y)
  {
    var id, k, r := f.frame.id, PreIds(f.kids), PreIds(f.rest);
    if p == id {
      RootsInOrder(m, children, f.kids, KidsOf(children, id), x, y);
      PrecedesWithin([id], k, r, x, y);
    } else if p in k {
      KidsInOrder(m, children, f.kids, KidsOf(children, id), p, x, y);
      PrecedesWithin([id], k, r, x, y);
    } else {
      KidsInOrder(m, children, f.rest, s[1..], p, x, y);
      PrecedesWithin([id] + k, r, [], x, y);
      assert [id] + k + r + [] == [id] + k + r;
    }
  }

  /** Siblings are visited by enter time, and in list order when the times are equal. */
  lemma SiblingsInCallOrder(idx: TraceIndex, i: nat, j: nat)
    requires Indexed(idx) && i < |idx.frames| && j < |idx.frames|
    requires idx.frames[i].parentId == idx.frames[j].parentId
    requires idx.frames[i].enter < idx.frames[j].enter || (idx.frames[i].enter == idx.frames[j].enter && i < j)
    requires Rooted(TableOf(idx), idx.frames[i].id)
    ensures Precedes(idx.preorder, idx.frames[i].id, idx.frames[j].id)
  {
    var m := TableOf(idx);
    var x, y, p := idx.frames[i].id, idx.frames[j].id, idx.frames[i].parentId;
    var key, ids := EnterKey(m), ChildIds(idx.frames, p);
    LookupFacts(idx.frames, idx.framePos);
    ChildIdsMembers(idx.frames, p);
    if idx.frames[i].enter < idx.frames[j].enter {
      SortOrders(key, ids, x, y);
    } else {
      ChildIdsKeepOrder(idx.frames, p, i, j);
      SortKeepsOrder(key, ids, x, y);
    }
    if p == 0 {
      RootsInOrder(m, idx.children, ForestOf(idx), idx.roots, x, y);
    } else {
      ParentLevel(m, x);
      RootedIsWalked(idx, p);
      KidsInOrder(m, idx.children, ForestOf(idx), idx.roots, p, x, y);
    }
  }

  // ---------- one contiguous block per subtree ----------

  /** The first position after `p` that is not deeper than `p`, or the end of the walk. */
  ghost function BlockEnd(m: Table, pre: seq<nat>, p: nat, q: nat): (e: nat)
    requires p < q <= |pre| && forall x :: x in pre ==> Rooted(m, x)
    ensures q <= e <= |pre|
    ensures forall j :: q <= j < e ==> Level(m, pre[j]) > Level(m, pre[p])
    ensures e < |pre| ==> Level(m, pre[e]) <= Level(m, pre[p])
    decreases |pre| - q
  {
    if q == |pre| || Level(m, pre[q]) <= Level(m, pre[p]) then q else BlockEnd(m, pre, p, q + 1)
  }

  lemma {:induction false} DeeperIsWithin(m: Table, pre: seq<nat>, p: nat, q: nat)
    requires Nested(m, pre, 1) && p <= q < |pre|
    requires forall j :: p < j <= q ==> Level(m, pre[j]) > Level(m, pre[p])
    ensures Within(m, pre[p], pre[q])
    decreases q
  {
    if q > p {
      assert HasParentBefore(m, pre, q);
      var pp: nat :| ParentBefore(m, pre, pp, q);
      ParentLevel(m, pre[q]);
      assert pp >= p;
      DeeperIsWithin(m, pre, p, pp);
    }
  }

  lemma WithinParent(m: Table, a: nat, x: nat)
    requires Rooted(m, x) && Within(m, a, x) && a != x
    ensures ParentOf(m, x) != 0 && Rooted(m, ParentOf(m, x)) && Within(m, a, ParentOf(m, x))
    ensures Level(m, ParentOf(m, x)) + 1 == Level(m, x) > 1
  {
    ParentLevel(m, x);
  }

  lemma SamePosition(pre: seq<nat>, p: nat, q: nat)
    requires Distinct(pre) && p < |pre| && q < |pre| && pre[p] == pre[q]
    ensures p == q
  {
  }

  lemma DeeperThrough(m: Table, pre: seq<nat>, p: nat, pp: nat, q: nat)
    requires forall x :: x in pre ==> Rooted(m, x)
    requires p <= pp && ParentBefore(m, pre, pp, q) && Level(m, pre[q]) > Level(m, pre[p])
    requires forall j :: p < j <= pp ==> Level(m, pre[j]) > Level(m, pre[p])
    ensures forall j :: p < j <= q ==> Level(m, pre[j]) > Level(m, pre[p])
  {
    forall j | pp < j <= q ensures Level(m, pre[j]) > Level(m, pre[p]) {
      assert j < q ==> Level(m, pre[j]) >= Level(m, pre[q]);
    }
  }

  lemma {:induction false} WithinIsDeeper(m: Table, pre: seq<nat>, p: nat, q: nat)
    requires Nested(m, pre, 1) && Distinct(pre) && p < |pre| && q < |pre|
    requires Within(m, pre[p], pre[q])
    ensures p <= q
    ensures forall j :: p < j <= q ==> Level(m, pre[j]) > Level(m, pre[p])
    decreases q
  {
    if pre[p] == pre[q] {
      SamePosition(pre, p, q);
    } else {
      WithinParent(m, pre[p], pre[q]);
      assert HasParentBefore(m, pre, q);
      var pp: nat :| ParentBefore(m, pre, pp, q);
      WithinIsDeeper(m, pre, p, pp);
      assert Level(m, pre[pp]) >= Level(m, pre[p]);
      DeeperThrough(m, pre, p, pp, q);
    }
  }

  /** The descendants of the frame at `p`, itself included, are exactly the positions from `p` up to the block end. */
  lemma SubtreeIsBlock(m: Table, pre: seq<nat>, p: nat, q: nat)
    requires Nested(m, pre, 1) && Distinct(pre) && p < |pre| && q < |pre|
    ensures Within(m, pre[p], pre[q]) <==> p <= q < BlockEnd(m, pre, p, p + 1)
  {
    var e := BlockEnd(m, pre, p, p + 1);
    if Within(m, pre[p], pre[q]) {
      WithinIsDeeper(m, pre, p, q);
    }
    if p <= q < e {
      DeeperIsWithin(m, pre, p, q);
    }
  }
}
