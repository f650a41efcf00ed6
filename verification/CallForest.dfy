/** Call forests: first-child / next-sibling trees of frames, and what it means
    for child lists to describe one. */
module CallForest {
  import opened TraceModel

  /** A list of sibling calls: the first call, the calls it made, the later siblings. */
  datatype Forest = Nil | Cons(frame: Frame, kids: Forest, rest: Forest)

  function Size(f: Forest): nat {
    match f
    case Nil => 0
    case Cons(_, kids, rest) => 1 + Size(kids) + Size(rest)
  }

  /** The ids in call order. */
  function PreIds(f: Forest): seq<nat> {
    match f
    case Nil => []
    case Cons(x, kids, rest) => [x.id] + PreIds(kids) + PreIds(rest)
  }

  /** The frames in the order the calls returned. */
  function PostFrames(f: Forest): seq<Frame> {
    match f
    case Nil => []
    case Cons(x, kids, rest) => PostFrames(kids) + [x] + PostFrames(rest)
  }

  function RootIds(f: Forest): seq<nat> {
    match f
    case Nil => []
    case Cons(x, _, rest) => [x.id] + RootIds(rest)
  }

  function Append(f: Forest, g: Forest): Forest {
    match f
    case Nil => g
    case Cons(x, kids, rest) => Cons(x, kids, Append(rest, g))
  }

  lemma {:induction false} AppendFacts(f: Forest, g: Forest)
    ensures PreIds(Append(f, g)) == PreIds(f) + PreIds(g)
    ensures Size(Append(f, g)) == Size(f) + Size(g)
  {
    match f
    case Nil =>
    case Cons(_, _, rest) => AppendFacts(rest, g);
  }

  lemma {:induction false} PreLength(f: Forest)
    ensures |PreIds(f)| == Size(f)
  {
    match f
    case Nil =>
    case Cons(_, kids, rest) => PreLength(kids); PreLength(rest);
  }

  function KidsOf(children: map<nat, seq<nat>>, id: nat): seq<nat> {
    if id in children then children[id] else []
  }

  /** `f` is the forest that starting at the ids `s` and following `children` unfolds to,
      with the frames of `table`. */
  ghost predicate Grows(table: map<nat, Frame>, children: map<nat, seq<nat>>, f: Forest, s: seq<nat>) {
    match f
    case Nil => s == []
    case Cons(x, kids, rest) =>
      && s != [] && x.id == s[0] && x.id in table && table[x.id] == x
      && Grows(table, children, kids, KidsOf(children, x.id))
      && Grows(table, children, rest, s[1..])
  }

  lemma {:induction false} GrowsAppend(table: map<nat, Frame>, children: map<nat, seq<nat>>, f: Forest, s: seq<nat>, g: Forest, t: seq<nat>)
    requires Grows(table, children, f, s) && Grows(table, children, g, t)
    ensures Grows(table, children, Append(f, g), s + t)
  {
    match f
    case Nil => assert s + t == t;
    case Cons(_, _, rest) =>
      GrowsAppend(table, children, rest, s[1..], g, t);
      assert (s + t)[1..] == s[1..] + t;
  }

  lemma {:induction false} GrowsUnique(table: map<nat, Frame>, children: map<nat, seq<nat>>, f: Forest, g: Forest, s: seq<nat>)
    requires Grows(table, children, f, s) && Grows(table, children, g, s)
    ensures f == g
  {
    match f
    case Nil =>
    case Cons(x, kids, rest) =>
      GrowsUnique(table, children, kids, g.kids, KidsOf(children, x.id));
      GrowsUnique(table, children, rest, g.rest, s[1..]);
  }

  /** Pushes the children on the stack, last to first. */
  method PushReversed(stack: seq<nat>, kids: seq<nat>) returns (pushed: seq<nat>)
    ensures Reverse(pushed) == kids + Reverse(stack)
  {
    pushed := stack;
    var j := |kids|;
    while j > 0
      invariant 0 <= j <= |kids|
      invariant Reverse(pushed) == kids[j..] + Reverse(stack)
    {
      j := j - 1;
      assert kids[j..] == [kids[j]] + kids[j + 1..];
      assert Reverse(pushed + [kids[j]]) == [kids[j]] + Reverse(pushed);
      pushed := pushed + [kids[j]];
    }
  }

  /** The explicit-stack walk: pop an id, emit it, push its children last to first. */
  method WalkPreorder(children: map<nat, seq<nat>>, roots: seq<nat>, ghost table: map<nat, Frame>, ghost f: Forest)
    returns (preorder: seq<nat>)
    requires Grows(table, children, f, roots)
    ensures preorder == PreIds(f)
  {
    preorder := [];
    var stack := Reverse(roots);
    ghost var g := f;
    ReverseTwice(roots);
    while stack != []
      invariant Grows(table, children, g, Reverse(stack))
      invariant preorder + PreIds(g) == PreIds(f)
      decreases Size(g)
    {
      var id := stack[|stack| - 1];
      var below := stack[..|stack| - 1];
      ReverseTop(stack);
      ghost var emitted := preorder;
      preorder := preorder + [id];
      stack := PushReversed(below, KidsOf(children, id));
      PopStep(table, children, g, id, Reverse(below));
      g := Append(g.kids, g.rest);
      Associate(emitted, [id], PreIds(g));
    }
  }

  lemma ReverseTwice(s: seq<nat>)
    ensures Reverse(Reverse(s)) == s
  {
  }

  lemma ReverseTop(s: seq<nat>)
    requires s != []
    ensures Reverse(s) == [s[|s| - 1]] + Reverse(s[..|s| - 1])
  {
  }

  lemma PopStep(table: map<nat, Frame>, children: map<nat, seq<nat>>, g: Forest, id: nat, below: seq<nat>)
    requires Grows(table, children, g, [id] + below)
    ensures g.Cons?
    ensures Grows(table, children, Append(g.kids, g.rest), KidsOf(children, id) + below)
    ensures PreIds(g) == [id] + PreIds(Append(g.kids, g.rest))
    ensures Size(Append(g.kids, g.rest)) < Size(g)
  {
    assert ([id] + below)[1..] == below;
    GrowsAppend(table, children, g.kids, KidsOf(children, id), g.rest, below);
    AppendFacts(g.kids, g.rest);
  }
}
