/** The in-memory index over a decoded trace: built once by loops, then queried. */
module TraceIndexing {
  import opened TraceModel
  import opened StableSort
  import opened CallForest
  import opened ParentChains

  datatype TraceIndex = TraceIndex(
    frames: seq<Frame>,
    events: seq<Event>,
    framePos: map<nat, nat>,
    children: map<nat, seq<nat>>,
    preorder: seq<nat>,
    preorderPos: map<nat, nat>,
    eventsByTime: seq<nat>,
    eventPos: map<nat, nat>,
    roots: seq<nat>)
  {
    function FrameById(id: nat): Option<Frame> {
      if id in framePos && framePos[id] < |frames| then Some(frames[framePos[id]]) else None
    }

    function EventById(id: nat): Option<Event> {
      if id in eventPos && eventPos[id] < |events| then Some(events[eventPos[id]]) else None
    }
  }

  // ---------- what the parts of an index are ----------

  /** The ids of the frames that name `p` as their parent, in list order; `p == 0` gives the roots. */
  function ChildIds(frames: seq<Frame>, p: nat): seq<nat> {
    if frames == [] then []
    else
      var last := frames[|frames| - 1];
      ChildIds(frames[..|frames| - 1], p) + (if last.parentId == p then [last.id] else [])
  }

  /** `pos` sends every id to its last position in `ids`, and nothing else. */
  ghost predicate PositionMap(ids: seq<nat>, pos: map<nat, nat>) {
    && (forall i :: 0 <= i < |ids| ==> ids[i] in pos && i <= pos[ids[i]])
    && (forall x :: x in pos ==> pos[x] < |ids| && ids[pos[x]] == x)
  }

  function Lookup(frames: seq<Frame>, pos: map<nat, nat>): Table {
    map x | x in pos && pos[x] < |frames| :: frames[pos[x]]
  }

  function EnterKey(m: Table): map<nat, nat> {
    map x | x in m :: m[x].enter
  }

  function TimeKey(events: seq<Event>, pos: map<nat, nat>): map<nat, nat> {
    map x | x in pos && pos[x] < |events| :: events[pos[x]].at
  }

  ghost function TableOf(idx: TraceIndex): Table {
    Lookup(idx.frames, idx.framePos)
  }

  ghost predicate HasForest(idx: TraceIndex) {
    exists f :: Grows(TableOf(idx), idx.children, f, idx.roots)
  }

  /** The call forest the index describes. */
  ghost function ForestOf(idx: TraceIndex): (f: Forest)
    requires HasForest(idx)
    ensures Grows(TableOf(idx), idx.children, f, idx.roots)
  {
    var f :| Grows(TableOf(idx), idx.children, f, idx.roots); f
  }

  lemma ForestIs(idx: TraceIndex, f: Forest)
    requires Grows(TableOf(idx), idx.children, f, idx.roots)
    ensures HasForest(idx) && ForestOf(idx) == f
  {
    GrowsUnique(TableOf(idx), idx.children, ForestOf(idx), f, idx.roots);
  }

  ghost predicate ChildrenIndexed(frames: seq<Frame>, m: Table, children: map<nat, seq<nat>>) {
    && 0 !in children
    && forall p {:trigger ChildIds(frames, p)} ::
         p != 0 ==> KidsOf(children, p) == Sort(EnterKey(m), ChildIds(frames, p))
  }

  ghost predicate EventsIndexed(idx: TraceIndex) {
    && PositionMap(EventIds(idx.events), idx.eventPos)
    && idx.eventsByTime == Sort(TimeKey(idx.events, idx.eventPos), EventIds(idx.events))
  }

  /** `idx` is the index of the trace it holds. */
  ghost predicate Indexed(idx: TraceIndex) {
    && Distinct(FrameIds(idx.frames))
    && PositionMap(FrameIds(idx.frames), idx.framePos)
    && idx.roots == Sort(EnterKey(TableOf(idx)), ChildIds(idx.frames, 0))
    && ChildrenIndexed(idx.frames, TableOf(idx), idx.children)
    && HasForest(idx)
    && idx.preorder == PreIds(ForestOf(idx))
    && PositionMap(idx.preorder, idx.preorderPos)
    && EventsIndexed(idx)
  }

  // ---------- facts about the parts ----------

  lemma {:induction false} ChildIdsMembers(frames: seq<Frame>, p: nat)
    ensures forall x :: x in ChildIds(frames, p) <==> exists i :: 0 <= i < |frames| && frames[i].id == x && frames[i].parentId == p
  {
    if frames != [] {
      var front := frames[..|frames| - 1];
      ChildIdsMembers(front, p);
      forall x
        ensures x in ChildIds(frames, p) <==> exists i :: 0 <= i < |frames| && frames[i].id == x && frames[i].parentId == p
      {
        if x in ChildIds(front, p) {
          var i :| 0 <= i < |front| && front[i].id == x && front[i].parentId == p;
          assert frames[i] == front[i];
        }
        if i :| 0 <= i < |frames| && frames[i].id == x && frames[i].parentId == p {
          assert i < |front| ==> front[i] == frames[i];
        }
      }
    }
  }

  lemma {:induction false} ChildIdsDistinct(frames: seq<Frame>, p: nat)
    requires Distinct(FrameIds(frames))
    ensures Distinct(ChildIds(frames, p))
  {
    if frames != [] {
      var n := |frames| - 1;
      var front := frames[..n];
      assert FrameIds(front) == FrameIds(frames)[..n];
      ChildIdsDistinct(front, p);
      ChildIdsMembers(front, p);
      forall i | 0 <= i < n ensures front[i].id != frames[n].id {
        assert FrameIds(frames)[i] != FrameIds(frames)[n];
      }
      var s := ChildIds(front, p);
      forall i, j | 0 <= i < j < |s + [frames[n].id]| ensures (s + [frames[n].id])[i] != (s + [frames[n].id])[j] {
        assert s[i] in s;
      }
      assert frames[n].parentId != p ==> ChildIds(frames, p) == ChildIds(front, p);
    }
  }

  /** Child lists keep list order. */
  lemma {:induction false} ChildIdsKeepOrder(frames: seq<Frame>, p: nat, i: nat, j: nat)
    requires i < j < |frames| && frames[i].parentId == p && frames[j].parentId == p
    ensures Precedes(ChildIds(frames, p), frames[i].id, frames[j].id)
  {
    var n := |frames| - 1;
    var front := ChildIds(frames[..n], p);
    if j < n {
      ChildIdsKeepOrder(frames[..n], p, i, j);
      var a, b :| 0 <= a < b < |front| && front[a] == frames[i].id && front[b] == frames[j].id;
      assert ChildIds(frames, p)[a] == front[a] && ChildIds(frames, p)[b] == front[b];
    } else {
      ChildIdsMembers(frames[..n], p);
      assert frames[..n][i] == frames[i];
      assert frames[i].id in front;
      var a :| 0 <= a < |front| && front[a] == frames[i].id;
      assert ChildIds(frames, p)[a] == front[a] && ChildIds(frames, p)[|front|] == frames[j].id;
    }
  }

  lemma LookupFacts(frames: seq<Frame>, pos: map<nat, nat>)
    requires PositionMap(FrameIds(frames), pos)
    ensures forall x :: x in Lookup(frames, pos) <==> exists i :: 0 <= i < |frames| && frames[i].id == x
    ensures forall x :: x in Lookup(frames, pos) ==> Lookup(frames, pos)[x].id == x && Lookup(frames, pos)[x] in frames
    ensures Distinct(FrameIds(frames)) ==>
              forall i :: 0 <= i < |frames| ==> frames[i].id in Lookup(frames, pos) && Lookup(frames, pos)[frames[i].id] == frames[i]
  {
    var ids := FrameIds(frames);
    forall i | 0 <= i < |frames|
      ensures frames[i].id in Lookup(frames, pos)
      ensures Distinct(ids) ==> Lookup(frames, pos)[frames[i].id] == frames[i]
    {
      assert ids[i] in pos && ids[pos[ids[i]]] == ids[i];
    }
  }

  /** Child lists and table agree: `k` is listed under `p` exactly when `k`'s frame names `p`. */
  ghost predicate Linked(m: Table, children: map<nat, seq<nat>>, roots: seq<nat>) {
    && (forall x :: x in m ==> m[x].id == x)
    && (forall x :: x in roots <==> x in m && m[x].parentId == 0)
    && 0 !in children
    && (forall p, x {:trigger x in KidsOf(children, p)} :: p != 0 ==> (x in KidsOf(children, p) <==> x in m && m[x].parentId == p))
    && Distinct(roots)
    && (forall p {:trigger KidsOf(children, p)} :: Distinct(KidsOf(children, p)))
  }

  lemma DistinctSort(key: map<nat, nat>, s: seq<nat>)
    requires Distinct(s)
    ensures Distinct(Sort(key, s))
  {
    SortSorts(key, s);
    DistinctCounts(s);
    DistinctCounts(Sort(key, s));
  }

  lemma {:induction false} DistinctCounts(s: seq<nat>)
    ensures Distinct(s) <==> forall x :: multiset(s)[x] <= 1
  {
    if s == [] {
    } else {
      var front, last := s[..|s| - 1], s[|s| - 1];
      DistinctCounts(front);
      assert s == front + [last];
      if Distinct(s) {
        assert last !in front;
      } else if Distinct(front) {
        var i, j :| 0 <= i < j < |s| && s[i] == s[j];
        assert j == |s| - 1 && front[i] == last;
        assert multiset(front)[last] >= 1;
        assert multiset(s)[last] >= 2;
      } else {
        var x :| multiset(front)[x] > 1;
        assert multiset(s)[x] > 1;
      }
    }
  }

  lemma SortedChildIds(frames: seq<Frame>, pos: map<nat, nat>, key: map<nat, nat>, p: nat)
    requires Distinct(FrameIds(frames)) && PositionMap(FrameIds(frames), pos)
    ensures forall x :: x in Sort(key, ChildIds(frames, p)) <==> x in Lookup(frames, pos) && Lookup(frames, pos)[x].parentId == p
    ensures Distinct(Sort(key, ChildIds(frames, p)))
  {
    LookupFacts(frames, pos);
    ChildIdsMembers(frames, p);
    ChildIdsDistinct(frames, p);
    SortMembers(key, ChildIds(frames, p));
    DistinctSort(key, ChildIds(frames, p));
  }

  lemma LinkedParts(frames: seq<Frame>, pos: map<nat, nat>, children: map<nat, seq<nat>>, roots: seq<nat>)
    requires Distinct(FrameIds(frames)) && PositionMap(FrameIds(frames), pos)
    requires roots == Sort(EnterKey(Lookup(frames, pos)), ChildIds(frames, 0))
    requires ChildrenIndexed(frames, Lookup(frames, pos), children)
    ensures Linked(Lookup(frames, pos), children, roots)
  {
    var m := Lookup(frames, pos);
    LookupFacts(frames, pos);
    SortedChildIds(frames, pos, EnterKey(m), 0);
    forall p
      ensures Distinct(KidsOf(children, p))
      ensures p != 0 ==> forall x :: x in KidsOf(children, p) <==> x in m && m[x].parentId == p
    {
      SortedChildIds(frames, pos, EnterKey(m), p);
      assert p != 0 ==> KidsOf(children, p) == Sort(EnterKey(m), ChildIds(frames, p));
    }
  }

  /** The part of the table below `above` unfolds to a forest; `above` holds the frames already on
      the path, and a child cannot be among them because its parent is not. */
  lemma {:induction false} GrowForest(m: Table, children: map<nat, seq<nat>>, roots: seq<nat>, s: seq<nat>, above: set<nat>) returns (f: Forest)
    requires Linked(m, children, roots)
    requires above <= m.Keys && forall a :: a in above ==> m[a].parentId == 0 || m[a].parentId in above
    requires forall x :: x in s ==> x in m && x !in above && (m[x].parentId == 0 || m[x].parentId in above)
    ensures Grows(m, children, f, s)
    decreases m.Keys - above, |s|
  {
    if s == [] {
      f := Nil;
    } else {
      var x := s[0];
      var kids := KidsOf(children, x);
      forall k | k in kids ensures k in m && k !in above + {x} && m[k].parentId in above + {x} {
        assert m[k].parentId == x;
        assert x != 0;
      }
      assert m.Keys - (above + {x}) < m.Keys - above by {
        assert x in m.Keys - above;
      }
      var k := GrowForest(m, children, roots, kids, above + {x});
      var r := GrowForest(m, children, roots, s[1..], above);
      f := Cons(m[x], k, r);
    }
  }

  // ---------- building ----------

  method InvertPositions(ids: seq<nat>) returns (pos: map<nat, nat>)
    ensures PositionMap(ids, pos)
  {
    pos := map[];
    for i := 0 to |ids|
      invariant forall j :: 0 <= j < i ==> ids[j] in pos && j <= pos[ids[j]]
      invariant forall x :: x in pos ==> pos[x] < i && ids[pos[x]] == x
    {
      pos := pos[ids[i] := i];
    }
  }

  method LinkChildren(frames: seq<Frame>) returns (children: map<nat, seq<nat>>, roots: seq<nat>)
    ensures roots == ChildIds(frames, 0)
    ensures 0 !in children
    ensures forall p :: p != 0 ==> KidsOf(children, p) == ChildIds(frames, p)
  {
    children, roots := map[], [];
    for i := 0 to |frames|
      invariant roots == ChildIds(frames[..i], 0)
      invariant 0 !in children
      invariant forall p :: p != 0 ==> KidsOf(children, p) == ChildIds(frames[..i], p)
    {
      assert frames[..i + 1][..i] == frames[..i];
      var f := frames[i];
      if f.parentId == 0 {
        roots := roots + [f.id];
      } else {
        children := children[f.parentId := KidsOf(children, f.parentId) + [f.id]];
      }
    }
    assert frames[..|frames|] == frames;
  }

  method SortChildren(children: map<nat, seq<nat>>, key: map<nat, nat>) returns (sorted: map<nat, seq<nat>>)
    ensures sorted.Keys == children.Keys
    ensures forall p :: p in children ==> sorted[p] == Sort(key, children[p])
  {
    sorted := children;
    var todo := children.Keys;
    while todo != {}
      invariant todo <= children.Keys == sorted.Keys
      invariant forall p :: p in children ==> sorted[p] == if p in todo then children[p] else Sort(key, children[p])
    {
      var p :| p in todo;
      sorted := sorted[p := Sort(key, sorted[p])];
      todo := todo - {p};
    }
  }

  /** Builds the index. Distinct ids are what the tree walk needs to stop. */
  method Build(frames: seq<Frame>, events: seq<Event>) returns (idx: TraceIndex)
    requires Distinct(FrameIds(frames))
    ensures idx.frames == frames && idx.events == events
    ensures Indexed(idx)
  {
    var framePos := InvertPositions(FrameIds(frames));
    var key := EnterKey(Lookup(frames, framePos));
    var unsorted, rootList := LinkChildren(frames);
    var children := SortChildren(unsorted, key);
    var roots := Sort(key, rootList);
    assert ChildrenIndexed(frames, Lookup(frames, framePos), children) by {
      forall p | p != 0 ensures KidsOf(children, p) == Sort(key, ChildIds(frames, p)) {
        assert KidsOf(unsorted, p) == ChildIds(frames, p);
      }
    }
    LinkedParts(frames, framePos, children, roots);
    ghost var m := Lookup(frames, framePos);
    ghost var f := GrowForest(m, children, roots, roots, {});
    var preorder := WalkPreorder(children, roots, m, f);
    var preorderPos := InvertPositions(preorder);
    var eventPos := InvertPositions(EventIds(events));
    var eventsByTime := Sort(TimeKey(events, eventPos), EventIds(events));
    idx := TraceIndex(frames, events, framePos, children, preorder, preorderPos, eventsByTime, eventPos, roots);
    ForestIs(idx, f);
  }
}
