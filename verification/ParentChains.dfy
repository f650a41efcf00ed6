/** Parent chains in a frame table, and which tables have no parent cycle. */
module ParentChains {
  import opened TraceModel

  type Table = map<nat, Frame>

  /** Following parents from `x` reaches a root, and `x` is the `k`-th frame of that chain, the root being the first. */
  ghost predicate ChainLen(m: Table, x: nat, k: nat)
    decreases k
  {
    && k > 0 && x in m
    && (if m[x].parentId == 0 then k == 1 else ChainLen(m, m[x].parentId, k - 1))
  }

  ghost predicate Rooted(m: Table, x: nat) {
    exists k: nat :: ChainLen(m, x, k)
  }

  ghost predicate AllRooted(m: Table) {
    forall x :: x in m ==> Rooted(m, x)
  }

  lemma {:induction false} LevelUnique(m: Table, x: nat, j: nat, k: nat)
    requires ChainLen(m, x, j) && ChainLen(m, x, k)
    ensures j == k
    decreases j
  {
    if m[x].parentId == 0 {
    } else {
      LevelUnique(m, m[x].parentId, j - 1, k - 1);
    }
  }

  ghost function Level(m: Table, x: nat): (k: nat)
    requires Rooted(m, x)
    ensures ChainLen(m, x, k)
  {
    var k: nat :| ChainLen(m, x, k); k
  }

  lemma LevelIs(m: Table, x: nat, k: nat)
    requires ChainLen(m, x, k)
    ensures Rooted(m, x) && Level(m, x) == k
  {
    LevelUnique(m, x, k, Level(m, x));
  }

  lemma ParentLevel(m: Table, x: nat)
    requires Rooted(m, x)
    ensures x in m
    ensures m[x].parentId == 0 ==> Level(m, x) == 1
    ensures m[x].parentId != 0 ==> Rooted(m, m[x].parentId) && Level(m, m[x].parentId) + 1 == Level(m, x)
  {
    var k := Level(m, x);
    if m[x].parentId != 0 {
      LevelIs(m, m[x].parentId, k - 1);
    }
  }

  function ParentOf(m: Table, x: nat): nat {
    if x in m then m[x].parentId else 0
  }

  /** `a` is `x` or a (transitive) caller of `x`. */
  ghost predicate Within(m: Table, a: nat, x: nat)
    requires Rooted(m, x)
    decreases Level(m, x)
  {
    a == x || (ParentLevel(m, x); m[x].parentId != 0 && Within(m, a, m[x].parentId))
  }

  /** Every parent that is named is there. */
  ghost predicate ParentsPresent(m: Table) {
    forall x :: x in m && m[x].parentId != 0 ==> m[x].parentId in m
  }

  /** No cycle: no non-empty set of frames contains the parents of all its members. */
  ghost predicate NoParentCycle(m: Table) {
    forall s: set<nat> :: s != {} && s <= m.Keys ==> exists x :: x in s && m[x].parentId !in s
  }

  /** Present parents and no cycle is the same as: every frame hangs below a root. (Id 0 is nobody's id.) */
  lemma RootedIffAcyclic(m: Table)
    requires 0 !in m
    ensures AllRooted(m) <==> ParentsPresent(m) && NoParentCycle(m)
  {
    if AllRooted(m) {
      RootedHasNoCycle(m);
    } else if ParentsPresent(m) && NoParentCycle(m) {
      AcyclicIsRooted(m);
      assert false;
    }
  }

  lemma RootedBelow(m: Table, x: nat)
    requires x in m && (m[x].parentId == 0 || Rooted(m, m[x].parentId))
    ensures Rooted(m, x)
  {
    if m[x].parentId == 0 {
      assert ChainLen(m, x, 1);
    } else {
      assert ChainLen(m, x, Level(m, m[x].parentId) + 1);
    }
  }

  lemma AcyclicIsRooted(m: Table)
    requires ParentsPresent(m) && NoParentCycle(m)
    ensures AllRooted(m)
  {
    var s := set x | x in m && !Rooted(m, x);
    if s != {} {
      assert s <= m.Keys;
      var x :| x in s && m[x].parentId !in s;
      RootedBelow(m, x);
      assert false;
    }
    forall x | x in m ensures Rooted(m, x) {
      assert x !in s;
    }
  }

  lemma RootedHasNoCycle(m: Table)
    requires 0 !in m && AllRooted(m)
    ensures ParentsPresent(m) && NoParentCycle(m)
  {
    forall x | x in m && m[x].parentId != 0 ensures m[x].parentId in m {
      ParentLevel(m, x);
    }
    forall s: set<nat> | s != {} && s <= m.Keys ensures exists x :: x in s && m[x].parentId !in s {
      var x :| x in s;
      TopOfSet(m, s, x);
    }
  }

  lemma {:induction false} TopOfSet(m: Table, s: set<nat>, x: nat)
    requires 0 !in m && x in s && s <= m.Keys && Rooted(m, x)
    ensures exists y :: y in s && m[y].parentId !in s
    decreases Level(m, x)
  {
    ParentLevel(m, x);
    if m[x].parentId in s {
      TopOfSet(m, s, m[x].parentId);
    }
  }
}
