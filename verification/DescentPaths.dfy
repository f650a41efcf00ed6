/** The time lookup read off the list of frames: for every recorded trace, every time and every frame, exposed instants
    included. */
module DescentPaths {
  import opened TraceModel
  import opened CallForest
  import opened Spans
  import opened TraceIndexing
  import opened TraceQueries
  import opened RecordedIndex
  import opened TimeLookup

  /** `x` has the time in its window, and no earlier sibling has. */
  ghost predicate First(frames: seq<Frame>, t: nat, x: Frame) {
    Covers(x, t) && forall s :: s in frames && s.parentId == x.parentId && s.id < x.id ==> !Covers(s, t)
  }

  /** So it is with `x` and with every caller of it up to `top`. */
  ghost predicate LedTo(frames: seq<Frame>, top: nat, t: nat, x: Frame)
    decreases x.id
  {
    && x in frames && First(frames, t, x)
    && (x.parentId == top || exists p :: p in frames && p.id == x.parentId && p.id < x.id && LedTo(frames, top, t, p))
  }

  /** No call of `id` has the time in its window. */
  ghost predicate Lowest(frames: seq<Frame>, t: nat, id: nat) {
    forall c :: c in frames && c.parentId == id ==> !Covers(c, t)
  }

  /** The frame with that id is led to, and it is the lowest. */
  ghost predicate FoundUnder(frames: seq<Frame>, top: nat, t: nat, id: nat) {
    exists x :: x in frames && x.id == id && LedTo(frames, top, t, x) && Lowest(frames, t, id)
  }

  // ---------- one tree and its later siblings ----------

  /** `f` is numbered, starts with a call, and its ids lie apart. */
  ghost predicate Parts(f: Forest, parent: nat, next: nat) {
    && f.Cons? && parent <= next && f.frame.id == next + 1 && f.frame.parentId == parent
    && (forall y :: y in PostFrames(f.kids) ==> next + 1 < y.id <= next + 1 + Size(f.kids) && (y.parentId == next + 1 || next + 1 < y.parentId < y.id))
    && (forall y :: y in PostFrames(f.rest) ==> next + 1 + Size(f.kids) < y.id && (y.parentId == parent || next + 1 + Size(f.kids) < y.parentId < y.id))
  }

  lemma NumberedParts(f: Forest, parent: nat, next: nat, depth: nat)
    requires f.Cons? && Numbered(f, parent, next, depth) && parent <= next
    ensures Parts(f, parent, next)
  {
    NumberedRange(f.kids, f.frame.id, next + 1, depth + 1);
    NumberedRange(f.rest, parent, next + 1 + Size(f.kids), depth);
  }

  lemma InParts(f: Forest, y: Frame)
    requires f.Cons?
    ensures y in PostFrames(f) <==> y == f.frame || y in PostFrames(f.kids) || y in PostFrames(f.rest)
  {
  }

  lemma FirstOfKids(f: Forest, parent: nat, next: nat, t: nat, y: Frame)
    requires Parts(f, parent, next) && y in PostFrames(f.kids)
    ensures First(PostFrames(f), t, y) <==> First(PostFrames(f.kids), t, y)
  {
    forall s | s in PostFrames(f) && s.parentId == y.parentId ensures s in PostFrames(f.kids) {
      InParts(f, s);
    }
    forall s | s in PostFrames(f.kids) ensures s in PostFrames(f) {
      InParts(f, s);
    }
  }

  lemma FirstOfRest(f: Forest, parent: nat, next: nat, t: nat, y: Frame)
    requires Parts(f, parent, next) && y in PostFrames(f.rest)
    ensures First(PostFrames(f), t, y) <==> First(PostFrames(f.rest), t, y) && (y.parentId == parent ==> !Covers(f.frame, t))
  {
    InParts(f, f.frame);
    forall s | s in PostFrames(f) && s.parentId == y.parentId ensures s in PostFrames(f.rest) || (s == f.frame && y.parentId == parent) {
      InParts(f, s);
    }
    forall s | s in PostFrames(f.rest) ensures s in PostFrames(f) {
      InParts(f, s);
    }
  }

  lemma FirstOfHead(f: Forest, parent: nat, next: nat, t: nat)
    requires Parts(f, parent, next)
    ensures LedTo(PostFrames(f), parent, t, f.frame) <==> Covers(f.frame, t)
  {
    InParts(f, f.frame);
    forall s | s in PostFrames(f) && s.parentId == parent ensures s.id >= f.frame.id {
      InParts(f, s);
    }
  }

  lemma {:induction false} LedToKids(f: Forest, parent: nat, next: nat, t: nat, y: Frame)
    requires Parts(f, parent, next) && y in PostFrames(f.kids)
    ensures LedTo(PostFrames(f), parent, t, y) <==> LedTo(PostFrames(f.kids), f.frame.id, t, y) && Covers(f.frame, t)
    decreases y.id
  {
    var a, k := PostFrames(f), PostFrames(f.kids);
    InParts(f, y);
    InParts(f, f.frame);
    FirstOfKids(f, parent, next, t, y);
    FirstOfHead(f, parent, next, t);
    if y.parentId == f.frame.id {
      forall p | p in a && p.id == y.parentId ensures p == f.frame {
        InParts(f, p);
      }
    } else {
      forall p | p in a && p.id == y.parentId && p.id < y.id ensures p in k && (LedTo(a, parent, t, p) <==> LedTo(k, f.frame.id, t, p) && Covers(f.frame, t)) {
        InParts(f, p);
        LedToKids(f, parent, next, t, p);
      }
      forall p | p in k ensures p in a {
        InParts(f, p);
      }
    }
  }

  lemma {:induction false} LedToRest(f: Forest, parent: nat, next: nat, t: nat, y: Frame)
    requires Parts(f, parent, next) && y in PostFrames(f.rest)
    ensures LedTo(PostFrames(f), parent, t, y) <==> LedTo(PostFrames(f.rest), parent, t, y) && !Covers(f.frame, t)
    decreases y.id
  {
    var a, r := PostFrames(f), PostFrames(f.rest);
    InParts(f, y);
    FirstOfRest(f, parent, next, t, y);
    if y.parentId != parent {
      forall p | p in a && p.id == y.parentId && p.id < y.id ensures p in r && (LedTo(a, parent, t, p) <==> LedTo(r, parent, t, p) && !Covers(f.frame, t)) {
        InParts(f, p);
        LedToRest(f, parent, next, t, p);
      }
      forall p | p in r ensures p in a {
        InParts(f, p);
      }
    }
  }

  lemma LowestInKids(f: Forest, parent: nat, next: nat, t: nat, id: nat)
    requires Parts(f, parent, next) && next + 1 <= id <= next + 1 + Size(f.kids)
    ensures Lowest(PostFrames(f), t, id) <==> Lowest(PostFrames(f.kids), t, id)
  {
    forall c | c in PostFrames(f) && c.parentId == id ensures c in PostFrames(f.kids) {
      InParts(f, c);
    }
    forall c | c in PostFrames(f.kids) ensures c in PostFrames(f) {
      InParts(f, c);
    }
  }

  lemma LowestInRest(f: Forest, parent: nat, next: nat, t: nat, id: nat)
    requires Parts(f, parent, next) && next + 1 + Size(f.kids) < id
    ensures Lowest(PostFrames(f), t, id) <==> Lowest(PostFrames(f.rest), t, id)
  {
    forall c | c in PostFrames(f) && c.parentId == id ensures c in PostFrames(f.rest) {
      InParts(f, c);
    }
    forall c | c in PostFrames(f.rest) ensures c in PostFrames(f) {
      InParts(f, c);
    }
  }

  /** The descent ends at once exactly when no root has the time in its window. */
  lemma {:induction false} NoneIff(f: Forest, parent: nat, next: nat, depth: nat, t: nat)
    requires Numbered(f, parent, next, depth) && parent <= next
    ensures DescendTo(f, t) == None <==> Lowest(PostFrames(f), t, parent)
  {
    if f.Cons? {
      NumberedParts(f, parent, next, depth);
      NoneIff(f.rest, parent, next + 1 + Size(f.kids), depth, t);
      InParts(f, f.frame);
      forall c | c in PostFrames(f) && c.parentId == parent ensures c == f.frame || c in PostFrames(f.rest) {
        InParts(f, c);
      }
      forall c | c in PostFrames(f.rest) ensures c in PostFrames(f) {
        InParts(f, c);
      }
    }
  }

  lemma FoundBelow(f: Forest, parent: nat, next: nat, t: nat, id: nat)
    requires Parts(f, parent, next) && Covers(f.frame, t)
    ensures FoundUnder(PostFrames(f), parent, t, id)
            <==> FoundUnder(PostFrames(f.kids), f.frame.id, t, id) || (id == f.frame.id && Lowest(PostFrames(f.kids), t, f.frame.id))
  {
    var a, k := PostFrames(f), PostFrames(f.kids);
    FirstOfHead(f, parent, next, t);
    InParts(f, f.frame);
    LowestInKids(f, parent, next, t, f.frame.id);
    forall y | y in k ensures y in a && (LedTo(a, parent, t, y) <==> LedTo(k, f.frame.id, t, y)) && (Lowest(a, t, y.id) <==> Lowest(k, t, y.id)) {
      InParts(f, y);
      LedToKids(f, parent, next, t, y);
      LowestInKids(f, parent, next, t, y.id);
    }
    forall y | y in a && y != f.frame && LedTo(a, parent, t, y) ensures y in k {
      InParts(f, y);
      if y in PostFrames(f.rest) {
        LedToRest(f, parent, next, t, y);
      }
    }
    if id == f.frame.id && Lowest(k, t, id) {
      assert FoundUnder(a, parent, t, id);
    }
  }

  lemma FoundBeside(f: Forest, parent: nat, next: nat, t: nat, id: nat)
    requires Parts(f, parent, next) && !Covers(f.frame, t)
    ensures FoundUnder(PostFrames(f), parent, t, id) <==> FoundUnder(PostFrames(f.rest), parent, t, id)
  {
    var a, r := PostFrames(f), PostFrames(f.rest);
    FirstOfHead(f, parent, next, t);
    forall y | y in r ensures y in a && (LedTo(a, parent, t, y) <==> LedTo(r, parent, t, y)) && (Lowest(a, t, y.id) <==> Lowest(r, t, y.id)) {
      InParts(f, y);
      LedToRest(f, parent, next, t, y);
      LowestInRest(f, parent, next, t, y.id);
    }
    forall y | y in a && LedTo(a, parent, t, y) ensures y in r {
      InParts(f, y);
      if y in PostFrames(f.kids) {
        LedToKids(f, parent, next, t, y);
      }
    }
  }

  /** The descent finds a frame if and only if it and all its callers have the time in their windows, no earlier sibling of
      any of them has, and no call of it has. */
  lemma {:induction false} DescentIff(f: Forest, parent: nat, next: nat, depth: nat, t: nat, id: nat)
    requires Numbered(f, parent, next, depth) && parent <= next
    ensures DescendTo(f, t) == Some(id) <==> FoundUnder(PostFrames(f), parent, t, id)
  {
    match f
    case Nil =>
    case Cons(x, kids, rest) =>
      NumberedParts(f, parent, next, depth);
      if Covers(x, t) {
        FoundBelow(f, parent, next, t, id);
        NoneIff(kids, x.id, next + 1, depth + 1, t);
        DescentIff(kids, x.id, next + 1, depth + 1, t, id);
        KidsAreOthers(f, parent, next, t);
      } else {
        FoundBeside(f, parent, next, t, id);
        DescentIff(rest, parent, next + 1 + Size(kids), depth, t, id);
      }
  }

  lemma KidsAreOthers(f: Forest, parent: nat, next: nat, t: nat)
    requires Parts(f, parent, next)
    ensures !FoundUnder(PostFrames(f.kids), f.frame.id, t, f.frame.id)
  {
  }

  /** So it is with the time lookup on the index of a recorded trace. */
  lemma LookupIff(idx: TraceIndex, f: Forest, end: nat, t: nat, id: nat)
    requires IndexOfRun(idx, f, end)
    ensures DescendTo(ForestOf(idx), t) == Some(id) <==> FoundUnder(idx.frames, 0, t, id)
  {
    IndexGivesBackForest(idx, f, 0, end);
    DescentIff(f, 0, 0, 1, t, id);
  }
}
