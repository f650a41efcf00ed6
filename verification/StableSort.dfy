/** The stable sort by key that the index uses for siblings (by enter time) and
    for events (by time). An id without a key sorts as 0. */
module StableSort {

  function KeyOf(key: map<nat, nat>, id: nat): nat {
    if id in key then key[id] else 0
  }

  ghost predicate SortedBy(key: map<nat, nat>, s: seq<nat>) {
    forall i, j :: 0 <= i <= j < |s| ==> KeyOf(key, s[i]) <= KeyOf(key, s[j])
  }

  /** Puts `x` in front of the first id whose key is at least its own. */
  function Insert(key: map<nat, nat>, x: nat, s: seq<nat>): seq<nat> {
    if s == [] || KeyOf(key, x) <= KeyOf(key, s[0]) then [x] + s
    else [s[0]] + Insert(key, x, s[1..])
  }

  function Sort(key: map<nat, nat>, s: seq<nat>): seq<nat> {
    if s == [] then [] else Insert(key, s[0], Sort(key, s[1..]))
  }

  lemma {:induction false} InsertMembers(key: map<nat, nat>, x: nat, s: seq<nat>)
    ensures multiset(Insert(key, x, s)) == multiset(s) + multiset{x}
    ensures forall y :: y in Insert(key, x, s) ==> y == x || y in s
  {
    if s == [] || KeyOf(key, x) <= KeyOf(key, s[0]) {
    } else {
      InsertMembers(key, x, s[1..]);
      assert s == [s[0]] + s[1..];
    }
  }

  lemma {:induction false} ConsSorted(key: map<nat, nat>, x: nat, s: seq<nat>)
    requires SortedBy(key, s)
    requires forall y :: y in s ==> KeyOf(key, x) <= KeyOf(key, y)
    ensures SortedBy(key, [x] + s)
  {
    var r := [x] + s;
    forall i, j | 0 <= i <= j < |r| ensures KeyOf(key, r[i]) <= KeyOf(key, r[j]) {
      if i > 0 {
        assert r[i] == s[i - 1] && r[j] == s[j - 1];
      } else if j > 0 {
        assert r[j] == s[j - 1];
      }
    }
  }

  lemma {:induction false} InsertSorted(key: map<nat, nat>, x: nat, s: seq<nat>)
    requires SortedBy(key, s)
    ensures SortedBy(key, Insert(key, x, s))
  {
    if s == [] || KeyOf(key, x) <= KeyOf(key, s[0]) {
      ConsSorted(key, x, s);
    } else {
      InsertSorted(key, x, s[1..]);
      InsertMembers(key, x, s[1..]);
      ConsSorted(key, s[0], Insert(key, x, s[1..]));
    }
  }

  /** The sort sorts and loses nothing. */
  lemma {:induction false} SortSorts(key: map<nat, nat>, s: seq<nat>)
    ensures SortedBy(key, Sort(key, s))
    ensures multiset(Sort(key, s)) == multiset(s)
  {
    if s == [] {
    } else {
      SortSorts(key, s[1..]);
      InsertSorted(key, s[0], Sort(key, s[1..]));
      InsertMembers(key, s[0], Sort(key, s[1..]));
      assert s == [s[0]] + s[1..];
    }
  }

  /** `x` stands somewhere in front of `y`. */
  ghost predicate Precedes(s: seq<nat>, x: nat, y: nat) {
    exists i, j :: 0 <= i < j < |s| && s[i] == x && s[j] == y
  }

  lemma PrecedesCons(z: nat, s: seq<nat>, x: nat, y: nat)
    requires Precedes(s, x, y) || (z == x && y in s)
    ensures Precedes([z] + s, x, y)
  {
    var t := [z] + s;
    if Precedes(s, x, y) {
      var i, j :| 0 <= i < j < |s| && s[i] == x && s[j] == y;
      assert t[i + 1] == x && t[j + 1] == y;
    } else {
      var j :| 0 <= j < |s| && s[j] == y;
      assert t[0] == x && t[j + 1] == y;
    }
  }

  lemma PrecedesTail(s: seq<nat>, x: nat, y: nat)
    requires Precedes(s, x, y)
    ensures (s[0] == x && y in s[1..]) || Precedes(s[1..], x, y)
  {
    var i, j :| 0 <= i < j < |s| && s[i] == x && s[j] == y;
    assert s[1..][j - 1] == y;
    if i > 0 {
      assert s[1..][i - 1] == x;
    }
  }

  lemma {:induction false} InsertInFront(key: map<nat, nat>, x: nat, s: seq<nat>, y: nat)
    requires y in s && KeyOf(key, x) <= KeyOf(key, y)
    ensures Precedes(Insert(key, x, s), x, y)
    requires SortedBy(key, s)
  {
    if KeyOf(key, x) <= KeyOf(key, s[0]) {
      PrecedesCons(x, s, x, y);
    } else {
      InsertInFront(key, x, s[1..], y);
      PrecedesCons(s[0], Insert(key, x, s[1..]), x, y);
    }
  }

  lemma {:induction false} InsertKeeps(key: map<nat, nat>, z: nat, s: seq<nat>, x: nat, y: nat)
    requires Precedes(s, x, y)
    ensures Precedes(Insert(key, z, s), x, y)
  {
    if KeyOf(key, z) <= KeyOf(key, s[0]) {
      PrecedesCons(z, s, x, y);
    } else {
      PrecedesTail(s, x, y);
      InsertMembers(key, z, s[1..]);
      if s[0] == x && y in s[1..] {
        assert y in multiset(Insert(key, z, s[1..]));
      } else {
        InsertKeeps(key, z, s[1..], x, y);
      }
      PrecedesCons(s[0], Insert(key, z, s[1..]), x, y);
    }
  }

  /** Stability: of two ids whose keys do not decrease, the earlier one stays earlier. */
  lemma {:induction false} SortKeepsOrder(key: map<nat, nat>, s: seq<nat>, x: nat, y: nat)
    requires Precedes(s, x, y) && KeyOf(key, x) <= KeyOf(key, y)
    ensures Precedes(Sort(key, s), x, y)
  {
    PrecedesTail(s, x, y);
    SortSorts(key, s[1..]);
    if s[0] == x && y in s[1..] {
      SortMembers(key, s[1..]);
      InsertInFront(key, x, Sort(key, s[1..]), y);
    } else {
      SortKeepsOrder(key, s[1..], x, y);
      InsertKeeps(key, s[0], Sort(key, s[1..]), x, y);
    }
  }

  /** Sorting: of two ids with different keys, the smaller one comes first wherever they stood. */
  lemma SortOrders(key: map<nat, nat>, s: seq<nat>, x: nat, y: nat)
    requires x in s && y in s && KeyOf(key, x) < KeyOf(key, y)
    ensures Precedes(Sort(key, s), x, y)
  {
    SortSorts(key, s);
    SortMembers(key, s);
    var r := Sort(key, s);
    var i :| 0 <= i < |r| && r[i] == x;
    var j :| 0 <= j < |r| && r[j] == y;
    assert i < j;
  }

  /** A list already in key order is left alone, ties included. */
  lemma {:induction false} SortOfSorted(key: map<nat, nat>, s: seq<nat>)
    requires SortedBy(key, s)
    ensures Sort(key, s) == s
  {
    if s == [] {
    } else {
      SortOfSorted(key, s[1..]);
    }
  }

  lemma SortMembers(key: map<nat, nat>, s: seq<nat>)
    ensures |Sort(key, s)| == |s|
    ensures forall x :: x in Sort(key, s) <==> x in s
  {
    SortSorts(key, s);
    var r := Sort(key, s);
    assert |multiset(r)| == |r| && |multiset(s)| == |s|;
    forall x ensures x in r <==> x in s {
      assert x in multiset(r) <==> x in multiset(s);
    }
  }
}
