/** Indexing a list of frames written in return order gives back the call forest it came from. */
module RecordedIndex {
  import opened TraceModel
  import opened StableSort
  import opened CallForest
  import opened ParentChains
  import opened TraceIndexing
  import opened Spans

  lemma {:induction false} ChildIdsAppend(a: seq<Frame>, b: seq<Frame>, p: nat)
    ensures ChildIds(a + b, p) == ChildIds(a, p) + ChildIds(b, p)
  {
    if b == [] {
      assert a + b == a;
    } else {
      assert (a + b)[..|a + b| - 1] == a + b[..|b| - 1];
      ChildIdsAppend(a, b[..|b| - 1], p);
    }
  }

  /** Ids and parents in a numbered forest stay in its range. */
  lemma {:induction false} NumberedRange(f: Forest, parent: nat, next: nat, depth: nat)
    requires Numbered(f, parent, next, depth)
    ensures forall x :: x in PostFrames(f) ==> next < x.id <= next + Size(f) && (x.parentId == parent || next < x.parentId < x.id)
    ensures forall x :: x in PostFrames(f) ==> x.depth >= depth
  {
    match f
    case Nil =>
    case Cons(x, kids, rest) =>
      NumberedRange(kids, x.id, next + 1, depth + 1);
      NumberedRange(rest, parent, next + 1 + Size(kids), depth);
  }

  lemma {:induction false} NoChildren(frames: seq<Frame>, p: nat)
    requires forall x :: x in frames ==> x.parentId != p
    ensures ChildIds(frames, p) == []
  {
    if frames != [] {
      var front := frames[..|frames| - 1];
      assert forall x :: x in front ==> x in frames;
      NoChildren(front, p);
      assert frames[|frames| - 1] in frames;
    }
  }

  lemma OnlyChild(x: Frame)
    ensures ChildIds([x], x.parentId) == [x.id]
  {
    assert [x][..0] == [];
  }

  lemma {:induction false} ChildIdsOfForest(f: Forest, parent: nat, next: nat, depth: nat)
    requires Numbered(f, parent, next, depth) && parent <= next
    ensures ChildIds(PostFrames(f), parent) == RootIds(f)
  {
    match f
    case Nil =>
    case Cons(x, kids, rest) =>
      NumberedRange(kids, x.id, next + 1, depth + 1);
      NoChildren(PostFrames(kids), parent);
      ChildIdsOfForest(rest, parent, next + 1 + Size(kids), depth);
      ChildIdsAppend(PostFrames(kids), [x], parent);
      ChildIdsAppend(PostFrames(kids) + [x], PostFrames(rest), parent);
      OnlyChild(x);
      assert [] + [x.id] == [x.id];
  }

  lemma {:induction false} RecordedIdsDistinct(f: Forest, parent: nat, next: nat, depth: nat)
    requires Numbered(f, parent, next, depth)
    ensures Distinct(FrameIds(PostFrames(f)))
  {
    match f
    case Nil =>
    case Cons(x, kids, rest) =>
      RecordedIdsDistinct(kids, x.id, next + 1, depth + 1);
      RecordedIdsDistinct(rest, parent, next + 1 + Size(kids), depth);
      NumberedRange(kids, x.id, next + 1, depth + 1);
      NumberedRange(rest, parent, next + 1 + Size(kids), depth);
      IdsJoin(PostFrames(kids), x, PostFrames(rest), next + 1 + Size(kids));
  }

  lemma IdsJoin(a: seq<Frame>, x: Frame, b: seq<Frame>, mid: nat)
    requires Distinct(FrameIds(a)) && Distinct(FrameIds(b))
    requires forall y :: y in a ==> x.id < y.id <= mid
    requires x.id <= mid && forall y :: y in b ==> mid < y.id
    ensures Distinct(FrameIds(a + [x] + b))
  {
    var s := a + [x] + b;
    forall i, j | 0 <= i < j < |s| ensures s[i].id != s[j].id {
      if j < |a| {
        assert FrameIds(a)[i] != FrameIds(a)[j];
      } else if i > |a| {
        assert FrameIds(b)[i - |a| - 1] != FrameIds(b)[j - |a| - 1];
      } else {
        assert i < |a| ==> s[i] in a;
        assert j > |a| ==> s[j] == b[j - |a| - 1] && s[j] in b;
      }
    }
  }

  /** The frames of `f` are in the table under their ids. */
  ghost predicate Tabled(m: Table, f: Forest) {
    match f
    case Nil => true
    case Cons(x, kids, rest) => x.id in m && m[x.id] == x && Tabled(m, kids) && Tabled(m, rest)
  }

  lemma {:induction false} TabledFrames(m: Table, f: Forest)
    requires forall x :: x in PostFrames(f) ==> x.id in m && m[x.id] == x
    ensures Tabled(m, f)
  {
    match f
    case Nil =>
    case Cons(x, kids, rest) =>
      assert x in PostFrames(f);
      forall y | y in PostFrames(kids) || y in PostFrames(rest) ensures y in PostFrames(f) {}
      TabledFrames(m, kids);
      TabledFrames(m, rest);
  }

  lemma {:induction false} RootsSorted(m: Table, f: Forest, lo: nat, hi: nat)
    requires Timed(f, lo, hi) && Tabled(m, f)
    ensures SortedBy(EnterKey(m), RootIds(f))
    ensures forall x :: x in RootIds(f) ==> lo <= KeyOf(EnterKey(m), x)
  {
    match f
    case Nil =>
    case Cons(x, kids, rest) =>
      RootsSorted(m, rest, x.exit, hi);
      ConsSorted(EnterKey(m), x.id, RootIds(rest));
  }

  lemma ChildIdsInside(pre: seq<Frame>, kids: Forest, post: seq<Frame>, p: nat, depth: nat)
    requires Numbered(kids, p, p, depth)
    requires forall y :: y in pre || y in post ==> y.parentId != p
    ensures ChildIds(pre + PostFrames(kids) + post, p) == RootIds(kids)
  {
    NoChildren(pre, p);
    NoChildren(post, p);
    ChildIdsAppend(pre, PostFrames(kids), p);
    ChildIdsAppend(pre + PostFrames(kids), post, p);
    ChildIdsOfForest(kids, p, p, depth);
  }

  /** The child list of a node of the forest, wherever its frames sit in the list. */
  lemma KidsAreRoots(frames: seq<Frame>, m: Table, children: map<nat, seq<nat>>, x: Frame, kids: Forest, pre: seq<Frame>, post: seq<Frame>, depth: nat)
    requires frames == pre + PostFrames(kids) + post
    requires x.id != 0 && KidsOf(children, x.id) == Sort(EnterKey(m), ChildIds(frames, x.id))
    requires Numbered(kids, x.id, x.id, depth) && Timed(kids, x.enter, x.exit) && Tabled(m, kids)
    requires forall y :: y in pre || y in post ==> y.parentId != x.id
    ensures KidsOf(children, x.id) == RootIds(kids)
  {
    ChildIdsInside(pre, kids, post, x.id, depth);
    RootsSorted(m, kids, x.enter, x.exit);
    SortOfSorted(EnterKey(m), RootIds(kids));
  }

  /** No frame of `s` names a parent in `(lo, hi]`. */
  ghost predicate ParentsOutside(s: seq<Frame>, lo: nat, hi: nat) {
    forall y :: y in s ==> y.parentId <= lo || y.parentId > hi
  }

  /** The children and the later siblings of a node name no parents in each other's id range. */
  lemma Surroundings(f: Forest, parent: nat, next: nat, depth: nat, pre: seq<Frame>, post: seq<Frame>)
    requires f.Cons? && Numbered(f, parent, next, depth) && parent <= next
    requires ParentsOutside(pre, next, next + Size(f)) && ParentsOutside(post, next, next + Size(f))
    ensures ParentsOutside([f.frame] + PostFrames(f.rest) + post, next, next + 1 + Size(f.kids))
    ensures ParentsOutside(pre + PostFrames(f.kids) + [f.frame], next + 1 + Size(f.kids), next + Size(f))
  {
    NumberedRange(f.kids, f.frame.id, next + 1, depth + 1);
    NumberedRange(f.rest, parent, next + 1 + Size(f.kids), depth);
  }

  lemma FramesAround(pre: seq<Frame>, k: seq<Frame>, x: Frame, r: seq<Frame>, post: seq<Frame>)
    ensures pre + (k + [x] + r) + post == pre + k + ([x] + r + post)
    ensures pre + (k + [x] + r) + post == (pre + k + [x]) + r + post
  {
  }

  lemma KidsAreLinked(frames: seq<Frame>, m: Table, children: map<nat, seq<nat>>, x: Frame, kids: Forest, pre: seq<Frame>, post: seq<Frame>,
                      hi: nat, depth: nat)
    requires frames == pre + PostFrames(kids) + post && ChildrenIndexed(frames, m, children)
    requires x.id != 0 && Numbered(kids, x.id, x.id, depth) && Timed(kids, x.enter, x.exit) && Tabled(m, kids)
    requires ParentsOutside(pre, x.id - 1, hi) && ParentsOutside(post, x.id - 1, hi) && x.id <= hi
    ensures KidsOf(children, x.id) == RootIds(kids)
  {
    assert KidsOf(children, x.id) == Sort(EnterKey(m), ChildIds(frames, x.id));
    KidsAreRoots(frames, m, children, x, kids, pre, post, depth);
  }

  lemma {:induction false} LinkForest(frames: seq<Frame>, m: Table, children: map<nat, seq<nat>>, f: Forest, parent: nat, next: nat, depth: nat,
                                      lo: nat, hi: nat, pre: seq<Frame>, post: seq<Frame>)
    requires frames == pre + PostFrames(f) + post && ChildrenIndexed(frames, m, children)
    requires Numbered(f, parent, next, depth) && Timed(f, lo, hi) && Tabled(m, f) && parent <= next
    requires ParentsOutside(pre, next, next + Size(f)) && ParentsOutside(post, next, next + Size(f))
    ensures Grows(m, children, f, RootIds(f))
  {
    match f
    case Nil =>
    case Cons(x, kids, rest) =>
      Surroundings(f, parent, next, depth, pre, post);
      FramesAround(pre, PostFrames(kids), x, PostFrames(rest), post);
      var post1, pre1 := [x] + PostFrames(rest) + post, pre + PostFrames(kids) + [x];
      KidsAreLinked(frames, m, children, x, kids, pre, post1, next + 1 + Size(kids), depth + 1);
      LinkForest(frames, m, children, kids, x.id, next + 1, depth + 1, x.enter, x.exit, pre, post1);
      LinkForest(frames, m, children, rest, parent, next + 1 + Size(kids), depth, x.exit, hi, pre1, post);
      assert RootIds(f)[1..] == RootIds(rest);
  }

  lemma RecordedTable(idx: TraceIndex, f: Forest)
    requires Indexed(idx) && idx.frames == PostFrames(f) && Numbered(f, 0, 0, 1)
    ensures Tabled(TableOf(idx), f) && 0 !in TableOf(idx)
  {
    LookupFacts(idx.frames, idx.framePos);
    NumberedRange(f, 0, 0, 1);
    TabledFrames(TableOf(idx), f);
  }

  lemma LinkRoots(m: Table, children: map<nat, seq<nat>>, roots: seq<nat>, f: Forest, lo: nat, hi: nat)
    requires ChildrenIndexed(PostFrames(f), m, children) && roots == Sort(EnterKey(m), ChildIds(PostFrames(f), 0))
    requires Numbered(f, 0, 0, 1) && Timed(f, lo, hi) && Tabled(m, f)
    ensures Grows(m, children, f, roots)
  {
    assert [] + PostFrames(f) + [] == PostFrames(f);
    LinkForest(PostFrames(f), m, children, f, 0, 0, 1, lo, hi, [], []);
    ChildIdsOfForest(f, 0, 0, 1);
    RootsSorted(m, f, lo, hi);
    SortOfSorted(EnterKey(m), RootIds(f));
  }

  /** The index of the frames of `f`, written in return order, describes `f`. */
  lemma IndexGivesBackForest(idx: TraceIndex, f: Forest, lo: nat, hi: nat)
    requires Indexed(idx) && idx.frames == PostFrames(f)
    requires Numbered(f, 0, 0, 1) && Timed(f, lo, hi)
    ensures ForestOf(idx) == f
    ensures Tabled(TableOf(idx), f) && 0 !in TableOf(idx)
  {
    RecordedTable(idx, f);
    LinkRoots(TableOf(idx), idx.children, idx.roots, f, lo, hi);
    ForestIs(idx, f);
  }
}
