/** Time spans of frames, and the descent that finds the frame running at a time. */
module Spans {
  import opened TraceModel
  import opened CallForest

  /** `f` was running at `t`. */
  predicate InSpan(f: Frame, t: nat) {
    f.enter <= t < f.exit
  }

  /** The descent by span: into the first sibling running at `t`, as deep as it goes. */
  function SpanTo(f: Forest, t: nat): Option<nat> {
    match f
    case Nil => None
    case Cons(x, kids, rest) =>
      if InSpan(x, t) then
        match SpanTo(kids, t)
        case Some(i) => Some(i)
        case None => Some(x.id)
      else SpanTo(rest, t)
  }

  /** Siblings run one after the other within `[lo, hi]`, and calls run inside their caller. */
  ghost predicate Timed(f: Forest, lo: nat, hi: nat) {
    match f
    case Nil => true
    case Cons(x, kids, rest) =>
      lo <= x.enter <= x.exit <= hi && Timed(kids, x.enter, x.exit) && Timed(rest, x.exit, hi)
  }

  /** Ids count calls in the order they were entered, from `next + 1`; parents and depths are the caller's. */
  ghost predicate Numbered(f: Forest, parent: nat, next: nat, depth: nat) {
    match f
    case Nil => true
    case Cons(x, kids, rest) =>
      && x.id == next + 1 && x.parentId == parent && x.depth == depth
      && Numbered(kids, x.id, next + 1, depth + 1)
      && Numbered(rest, parent, next + 1 + Size(kids), depth)
  }

  /** In a numbered forest the walk is 1, 2, 3, ... */
  lemma {:induction false} NumberedWalk(f: Forest, parent: nat, next: nat, depth: nat)
    requires Numbered(f, parent, next, depth)
    ensures |PreIds(f)| == Size(f)
    ensures forall i :: 0 <= i < Size(f) ==> PreIds(f)[i] == next + 1 + i
  {
    match f
    case Nil =>
    case Cons(x, kids, rest) =>
      NumberedWalk(kids, x.id, next + 1, depth + 1);
      NumberedWalk(rest, parent, next + 1 + Size(kids), depth);
  }
}
