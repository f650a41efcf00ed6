/** The queries on an index: the frame at a time, the stack of a frame, the events up to a time. */
module TraceQueries {
  import opened TraceModel
  import opened StableSort
  import opened CallForest
  import opened ParentChains
  import opened TraceIndexing

  /** The window `FrameAt` tests: the span, with empty spans widened to one microsecond. */
  predicate Covers(f: Frame, t: nat) {
    f.enter <= t && t < if f.exit > f.enter + 1 then f.exit else f.enter + 1
  }

  /** The descent by window: into the first sibling whose window has `t`. */
  function DescendTo(f: Forest, t: nat): Option<nat> {
    match f
    case Nil => None
    case Cons(x, kids, rest) =>
      if Covers(x, t) then
        match DescendTo(kids, t)
        case Some(i) => Some(i)
        case None => Some(x.id)
      else DescendTo(rest, t)
  }

  function OrElse(a: Option<nat>, b: Option<nat>): Option<nat> {
    if a.Some? then a else b
  }

  lemma FrameLookup(idx: TraceIndex, id: nat)
    requires Indexed(idx)
    ensures id in TableOf(idx) ==> idx.FrameById(id) == Some(TableOf(idx)[id])
    ensures id !in TableOf(idx) ==> idx.FrameById(id) == None
  {
  }

  /** The first candidate whose window has `time`. */
  method FirstCovering(idx: TraceIndex, candidates: seq<nat>, time: nat, ghost g: Forest) returns (found: Option<nat>, ghost at: Forest)
    requires Indexed(idx) && Grows(TableOf(idx), idx.children, g, candidates)
    ensures DescendTo(g, time) == DescendTo(at, time) && Size(at) <= Size(g)
    ensures found.None? ==> at == Nil
    ensures found.Some? ==> found.value in candidates && found.value in TableOf(idx) && Covers(TableOf(idx)[found.value], time)
    ensures found.Some? ==> at.Cons? && at.frame.id == found.value && Covers(at.frame, time)
    ensures found.Some? ==> Grows(TableOf(idx), idx.children, at.kids, KidsOf(idx.children, found.value))
  {
    found, at := None, g;
    for i := 0 to |candidates|
      invariant Grows(TableOf(idx), idx.children, at, candidates[i..])
      invariant DescendTo(g, time) == DescendTo(at, time) && Size(at) <= Size(g)
    {
      var id := candidates[i];
      FrameLookup(idx, id);
      var f := idx.FrameById(id);
      if f.Some? && Covers(f.value, time) {
        found := Some(id);
        return;
      }
      assert candidates[i..][1..] == candidates[i + 1..];
      at := at.rest;
    }
  }

  /** The deepest frame whose window has `time`, found by walking down the call tree. */
  method FrameAt(idx: TraceIndex, time: nat) returns (current: Option<nat>)
    requires Indexed(idx)
    ensures current == DescendTo(ForestOf(idx), time)
  {
    current := None;
    var candidates := idx.roots;
    ghost var g := ForestOf(idx);
    while true
      invariant Grows(TableOf(idx), idx.children, g, candidates)
      invariant DescendTo(ForestOf(idx), time) == OrElse(DescendTo(g, time), current)
      decreases Size(g)
    {
      ghost var at;
      var found;
      found, at := FirstCovering(idx, candidates, time, g);
      if found.None? { break; }
      current := found;
      candidates := KidsOf(idx.children, found.value);
      g := at.kids;
      if candidates == [] { break; }
    }
  }

  // ---------- the stack of a frame ----------

  /** Following parents from `x` stops after `k` frames, at 0 or at an id that is not there. */
  ghost predicate ChainEnds(m: Table, x: nat, k: nat)
    decreases k
  {
    if x == 0 || x !in m then k == 0 else k > 0 && ChainEnds(m, m[x].parentId, k - 1)
  }

  ghost function Chain(m: Table, x: nat, k: nat): seq<nat>
    requires ChainEnds(m, x, k)
    decreases k
  {
    if k == 0 then [] else [x] + Chain(m, m[x].parentId, k - 1)
  }

  /** `m` is the table that frame lookups in `idx` go to. */
  ghost predicate LooksUp(idx: TraceIndex, m: Table) {
    forall id {:trigger idx.FrameById(id)} :: idx.FrameById(id) == if id in m then Some(m[id]) else None
  }

  lemma IndexLooksUp(idx: TraceIndex)
    requires Indexed(idx)
    ensures LooksUp(idx, TableOf(idx))
  {
    forall id ensures idx.FrameById(id) == if id in TableOf(idx) then Some(TableOf(idx)[id]) else None {
      FrameLookup(idx, id);
    }
  }

  /** The frame and its callers, the frame itself first. */
  method StackFrom(idx: TraceIndex, frameId: nat, ghost m: Table, ghost k: nat) returns (out: seq<nat>)
    requires LooksUp(idx, m) && ChainEnds(m, frameId, k)
    ensures out == Chain(m, frameId, k)
  {
    out := [];
    var next := frameId;
    ghost var left := k;
    while next != 0
      invariant ChainEnds(m, next, left)
      invariant out + Chain(m, next, left) == Chain(m, frameId, k)
      decreases left
    {
      var f := idx.FrameById(next);
      if f.None? { break; }
      out := out + [next];
      next := f.value.parentId;
      left := left - 1;
    }
  }

  // ---------- the events up to a time ----------

  function UpTo(key: map<nat, nat>, s: seq<nat>, time: nat): seq<nat> {
    if s == [] then []
    else (if KeyOf(key, s[0]) <= time then [s[0]] else []) + UpTo(key, s[1..], time)
  }

  lemma {:induction false} UpToPrefix(key: map<nat, nat>, s: seq<nat>, time: nat, c: nat)
    requires c <= |s|
    requires forall i :: 0 <= i < c ==> KeyOf(key, s[i]) <= time
    requires forall i :: c <= i < |s| ==> KeyOf(key, s[i]) > time
    ensures UpTo(key, s, time) == s[..c]
  {
    if s != [] {
      UpToPrefix(key, s[1..], time, if c > 0 then c - 1 else 0);
      if c > 0 {
        assert s[..c] == [s[0]] + s[1..][..c - 1];
      }
    }
  }

  ghost function TimesOf(idx: TraceIndex): map<nat, nat> {
    TimeKey(idx.events, idx.eventPos)
  }

  ghost predicate EventTimes(idx: TraceIndex, s: seq<nat>, key: map<nat, nat>) {
    SortedBy(key, s) && forall id :: id in s ==> idx.EventById(id).Some? && idx.EventById(id).value.at == KeyOf(key, id)
  }

  lemma IndexedEventTimes(idx: TraceIndex)
    requires EventsIndexed(idx)
    ensures EventTimes(idx, idx.eventsByTime, TimesOf(idx))
  {
    var ids := EventIds(idx.events);
    SortSorts(TimesOf(idx), ids);
    SortMembers(TimesOf(idx), ids);
    forall id | id in idx.eventsByTime ensures idx.EventById(id).Some? && idx.EventById(id).value.at == KeyOf(TimesOf(idx), id) {
      var i :| 0 <= i < |ids| && ids[i] == id;
      assert id in idx.eventPos;
    }
  }

  /** The part of `s`, events in time order, up to `time`: a binary search for where to cut. */
  method CutAt(idx: TraceIndex, s: seq<nat>, time: nat, ghost key: map<nat, nat>) returns (ids: seq<nat>)
    requires EventTimes(idx, s, key)
    ensures ids == UpTo(key, s, time)
  {
    var lo, hi := 0, |s|;
    while lo < hi
      invariant 0 <= lo <= hi <= |s|
      invariant lo > 0 ==> KeyOf(key, s[lo - 1]) <= time
      invariant hi < |s| ==> KeyOf(key, s[hi]) > time
    {
      var mid := lo + (hi - lo) / 2;
      var e := idx.EventById(s[mid]);
      if e.Some? && e.value.at <= time {
        lo := mid + 1;
      } else {
        hi := mid;
      }
    }
    UpToPrefix(key, s, time, lo);
    ids := s[..lo];
  }

  /** The events that happened no later than `time`, in time order. */
  method EventsBefore(idx: TraceIndex, time: nat) returns (ids: seq<nat>)
    requires EventsIndexed(idx)
    ensures ids == UpTo(TimesOf(idx), idx.eventsByTime, time)
  {
    IndexedEventTimes(idx);
    ids := CutAt(idx, idx.eventsByTime, time, TimesOf(idx));
  }
}
