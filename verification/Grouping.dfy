/** Grouping of events that are the same up to key order and timing fields. */
module Grouping {
  import opened TraceModel
  import opened JsonValue
  import PayloadText

  const TIMING_KEYS: seq<string> := [
    "at", "at_micros", "at_unix_micros", "duration_micros", "duration_ms", "elapsed_ms", "ended_at",
    "enter_micros", "exit_micros", "fired_at", "started_at", "time", "time_ms", "timestamp"]

  predicate Timing(key: string) { key in TIMING_KEYS }

  // ---------- key order ----------

  /** Lexicographic order of keys. */
  predicate Before(a: string, b: string) {
    if b == [] then false
    else if a == [] then true
    else a[0] < b[0] || (a[0] == b[0] && Before(a[1..], b[1..]))
  }

  lemma {:induction false} BeforeTransitive(a: string, b: string, c: string)
    requires Before(a, b) && Before(b, c)
    ensures Before(a, c)
  {
    if a != [] && a[0] == b[0] == c[0] {
      BeforeTransitive(a[1..], b[1..], c[1..]);
    }
  }

  lemma {:induction false} BeforeTotal(a: string, b: string)
    ensures Before(a, b) || a == b || Before(b, a)
    ensures !(Before(a, b) && Before(b, a)) && !Before(a, a)
  {
    if a != [] {
      BeforeTotal(a[1..], a[1..]);
      if b != [] && a[0] == b[0] {
        BeforeTotal(a[1..], b[1..]);
        assert a == [a[0]] + a[1..] && b == [b[0]] + b[1..];
      }
    }
  }

  function InsertField(x: Field, s: seq<Field>): seq<Field> {
    if s == [] || !Before(s[0].key, x.key) then [x] + s else [s[0]] + InsertField(x, s[1..])
  }

  function SortFields(s: seq<Field>): seq<Field> {
    if s == [] then [] else InsertField(s[0], SortFields(s[1..]))
  }

  // ---------- canonical form ----------

  /** Timing keys dropped and keys sorted, at every depth. */
  function Canonical(v: Json): Json
    decreases v, 1
  {
    match v
    case Obj(fields) => Obj(SortFields(CanonicalFields(fields)))
    case Arr(items) => Arr(CanonicalItems(items))
    case _ => v
  }

  function CanonicalFields(fields: seq<Field>): seq<Field>
    decreases fields, 0
  {
    if fields == [] then []
    else
      (if Timing(fields[0].key) then [] else [Field(fields[0].key, Canonical(fields[0].value))]) + CanonicalFields(fields[1..])
  }

  function CanonicalItems(items: seq<Json>): (r: seq<Json>)
    ensures |r| == |items|
    decreases items, 0
  {
    if items == [] then [] else [Canonical(items[0])] + CanonicalItems(items[1..])
  }

  ghost predicate DistinctKeys(fields: seq<Field>) {
    forall i, j :: 0 <= i < j < |fields| ==> fields[i].key != fields[j].key
  }

  /** Objects are maps: no key twice, at any depth. */
  ghost predicate Maps(v: Json) {
    match v
    case Obj(fields) => DistinctKeys(fields) && forall i :: 0 <= i < |fields| ==> Maps(fields[i].value)
    case Arr(items) => forall i :: 0 <= i < |items| ==> Maps(items[i])
    case _ => true
  }

  /** The same payload up to key order and timing keys at every depth. */
  ghost predicate Equivalent(v: Json, w: Json)
    decreases v, 1
  {
    match (v, w)
    case (Obj(f), Obj(g)) => Paired(f, g) && KeysIn(g, f)
    case (Arr(a), Arr(b)) => |a| == |b| && forall i :: 0 <= i < |a| ==> Equivalent(a[i], b[i])
    case _ => v == w && !v.Obj? && !v.Arr?
  }

  /** Every field of `f` that counts has an equivalent one under its key in `g`. */
  ghost predicate Paired(f: seq<Field>, g: seq<Field>)
    decreases f, 0
  {
    forall i :: 0 <= i < |f| && !Timing(f[i].key) ==> exists j :: 0 <= j < |g| && g[j].key == f[i].key && Equivalent(f[i].value, g[j].value)
  }

  /** Every key of `g` that counts is one of `f`. */
  ghost predicate KeysIn(g: seq<Field>, f: seq<Field>) {
    forall j :: 0 <= j < |g| && !Timing(g[j].key) ==> exists i :: 0 <= i < |f| && f[i].key == g[j].key
  }

  lemma {:induction false} CanonicalFieldsMembers(fields: seq<Field>, x: Field)
    ensures x in CanonicalFields(fields) <==> exists i :: 0 <= i < |fields| && !Timing(fields[i].key) && x == Field(fields[i].key, Canonical(fields[i].value))
  {
    if fields != [] {
      CanonicalFieldsMembers(fields[1..], x);
      if x in CanonicalFields(fields[1..]) {
        var i :| 0 <= i < |fields[1..]| && !Timing(fields[1..][i].key) && x == Field(fields[1..][i].key, Canonical(fields[1..][i].value));
        assert fields[i + 1] == fields[1..][i];
      }
      if i :| 0 <= i < |fields| && !Timing(fields[i].key) && x == Field(fields[i].key, Canonical(fields[i].value)) {
        if i > 0 {
          assert fields[1..][i - 1] == fields[i];
        }
      }
    }
  }

  lemma {:induction false} InsertFieldMembers(x: Field, s: seq<Field>)
    ensures forall y :: y in InsertField(x, s) <==> y == x || y in s
  {
    if s != [] && Before(s[0].key, x.key) {
      InsertFieldMembers(x, s[1..]);
      assert s == [s[0]] + s[1..];
    }
  }

  lemma {:induction false} SortFieldsMembers(s: seq<Field>)
    ensures forall y :: y in SortFields(s) <==> y in s
  {
    if s != [] {
      SortFieldsMembers(s[1..]);
      InsertFieldMembers(s[0], SortFields(s[1..]));
      assert s == [s[0]] + s[1..];
    }
  }

  /** Keys strictly ascending. */
  ghost predicate Ascending(s: seq<Field>) {
    s == [] || ((forall y :: y in s[1..] ==> Before(s[0].key, y.key)) && Ascending(s[1..]))
  }

  lemma {:induction false} InsertAscends(x: Field, s: seq<Field>)
    requires Ascending(s) && forall y :: y in s ==> y.key != x.key
    ensures Ascending(InsertField(x, s))
  {
    if s == [] {
    } else {
      BeforeTotal(s[0].key, x.key);
      if Before(s[0].key, x.key) {
        InsertAscends(x, s[1..]);
        InsertFieldMembers(x, s[1..]);
        assert InsertField(x, s)[1..] == InsertField(x, s[1..]);
      } else {
        assert s[0] in s;
        assert ([x] + s)[1..] == s;
        forall y | y in s ensures Before(x.key, y.key) {
          if y != s[0] {
            BeforeTransitive(x.key, s[0].key, y.key);
          }
        }
      }
    }
  }

  lemma {:induction false} SortAscends(fields: seq<Field>)
    requires DistinctKeys(fields)
    ensures Ascending(SortFields(CanonicalFields(fields)))
  {
    if fields != [] {
      var k, v := fields[0].key, fields[0].value;
      var rest := CanonicalFields(fields[1..]);
      SortAscends(fields[1..]);
      if Timing(k) {
        assert [] + rest == rest;
      } else {
        var x := Field(k, Canonical(v));
        assert CanonicalFields(fields) == [x] + rest && ([x] + rest)[1..] == rest;
        SortFieldsMembers(rest);
        forall y | y in SortFields(rest) ensures y.key != k {
          CanonicalFieldsMembers(fields[1..], y);
        }
        InsertAscends(x, SortFields(rest));
      }
    }
  }

  /** Ascending lists with the same members are the same list. */
  lemma {:induction false} AscendingUnique(a: seq<Field>, b: seq<Field>)
    requires Ascending(a) && Ascending(b) && forall y :: y in a <==> y in b
    ensures a == b
  {
    assert |b| > 0 ==> b[0] in b;
    if a == [] {
    } else {
      assert a[0] in a && a[0] in b && b != [] && b[0] in b && b[0] in a;
      BeforeTotal(a[0].key, b[0].key);
      assert a[0] == b[0];
      forall y ensures y in a[1..] <==> y in b[1..] {
        BeforeTotal(a[0].key, a[0].key);
        assert y in a <==> y == a[0] || y in a[1..];
        assert y in b <==> y == b[0] || y in b[1..];
      }
      AscendingUnique(a[1..], b[1..]);
      assert a == [a[0]] + a[1..] && b == [b[0]] + b[1..];
    }
  }

  lemma {:induction false} ItemsAt(items: seq<Json>, i: nat)
    requires i < |items|
    ensures CanonicalItems(items)[i] == Canonical(items[i])
  {
    if i > 0 {
      ItemsAt(items[1..], i - 1);
    }
  }

  /** A field of `g` has the key and the canonical value of `x`. */
  ghost predicate HasMatch(g: seq<Field>, x: Field) {
    exists j :: 0 <= j < |g| && g[j].key == x.key && Canonical(x.value) == Canonical(g[j].value)
  }

  /** Every field of `f` that counts has its match in `g`. */
  ghost predicate Matched(f: seq<Field>, g: seq<Field>) {
    forall i {:trigger HasMatch(g, f[i])} :: 0 <= i < |f| && !Timing(f[i].key) ==> HasMatch(g, f[i])
  }

  lemma MatchedFields(f: seq<Field>, g: seq<Field>, y: Field)
    requires Matched(f, g) && y in CanonicalFields(f)
    ensures y in CanonicalFields(g)
  {
    CanonicalFieldsMembers(f, y);
    CanonicalFieldsMembers(g, y);
    var i :| 0 <= i < |f| && !Timing(f[i].key) && y == Field(f[i].key, Canonical(f[i].value));
    assert HasMatch(g, f[i]);
    var j :| 0 <= j < |g| && g[j].key == f[i].key && Canonical(f[i].value) == Canonical(g[j].value);
    assert y == Field(g[j].key, Canonical(g[j].value));
  }

  lemma FieldsMatch(f: seq<Field>, g: seq<Field>)
    requires forall y :: y in CanonicalFields(f) ==> y in CanonicalFields(g)
    ensures Matched(f, g)
  {
    forall i | 0 <= i < |f| && !Timing(f[i].key)
      ensures HasMatch(g, f[i])
    {
      var y := Field(f[i].key, Canonical(f[i].value));
      CanonicalFieldsMembers(f, y);
      CanonicalFieldsMembers(g, y);
      var j :| 0 <= j < |g| && !Timing(g[j].key) && y == Field(g[j].key, Canonical(g[j].value));
    }
  }

  /** Sorted canonical fields are equal exactly when the fields match both ways. */
  lemma SameFieldsIff(f: seq<Field>, g: seq<Field>)
    requires DistinctKeys(f) && DistinctKeys(g)
    ensures SortFields(CanonicalFields(f)) == SortFields(CanonicalFields(g)) <==> Matched(f, g) && Matched(g, f)
  {
    var cf, cg := CanonicalFields(f), CanonicalFields(g);
    SortFieldsMembers(cf);
    SortFieldsMembers(cg);
    if Matched(f, g) && Matched(g, f) {
      forall y ensures y in cf <==> y in cg {
        if y in cf { MatchedFields(f, g, y); }
        if y in cg { MatchedFields(g, f, y); }
      }
      SortAscends(f);
      SortAscends(g);
      AscendingUnique(SortFields(cf), SortFields(cg));
    } else if SortFields(cf) == SortFields(cg) {
      assert forall y :: y in cf <==> y in SortFields(cf);
      FieldsMatch(f, g);
      FieldsMatch(g, f);
      assert false;
    }
  }

  /** Canonical values are equal exactly for equivalent values of these fields. */
  ghost predicate ValuesAgree(f: seq<Field>, g: seq<Field>) {
    forall i, j :: 0 <= i < |f| && 0 <= j < |g| ==> (Canonical(f[i].value) == Canonical(g[j].value) <==> Equivalent(f[i].value, g[j].value))
  }

  lemma PairedIsMatched(f: seq<Field>, g: seq<Field>)
    requires ValuesAgree(f, g)
    ensures Paired(f, g) <==> Matched(f, g)
  {
    if Paired(f, g) {
      forall i | 0 <= i < |f| && !Timing(f[i].key)
        ensures HasMatch(g, f[i])
      {
        var j :| 0 <= j < |g| && g[j].key == f[i].key && Equivalent(f[i].value, g[j].value);
      }
    }
    if Matched(f, g) {
      forall i | 0 <= i < |f| && !Timing(f[i].key)
        ensures exists j :: 0 <= j < |g| && g[j].key == f[i].key && Equivalent(f[i].value, g[j].value)
      {
        assert HasMatch(g, f[i]);
        var j :| 0 <= j < |g| && g[j].key == f[i].key && Canonical(f[i].value) == Canonical(g[j].value);
      }
    }
  }

  lemma KeysInIsMatched(f: seq<Field>, g: seq<Field>)
    requires DistinctKeys(g) && Matched(f, g) && KeysIn(g, f)
    ensures Matched(g, f)
  {
    forall j | 0 <= j < |g| && !Timing(g[j].key)
      ensures HasMatch(f, g[j])
    {
      var i :| 0 <= i < |f| && f[i].key == g[j].key;
      assert HasMatch(g, f[i]);
      var k :| 0 <= k < |g| && g[k].key == f[i].key && Canonical(f[i].value) == Canonical(g[k].value);
      assert k == j;
    }
  }

  lemma MatchedHasKeys(g: seq<Field>, f: seq<Field>)
    requires Matched(g, f)
    ensures KeysIn(g, f)
  {
    forall j | 0 <= j < |g| && !Timing(g[j].key) ensures exists i :: 0 <= i < |f| && f[i].key == g[j].key {
      assert HasMatch(f, g[j]);
    }
  }

  /** Objects whose values agree are equivalent exactly when their fields match both ways. */
  lemma EquivalentIffMatched(f: seq<Field>, g: seq<Field>)
    requires DistinctKeys(g) && ValuesAgree(f, g)
    ensures Equivalent(Obj(f), Obj(g)) <==> Matched(f, g) && Matched(g, f)
  {
    PairedIsMatched(f, g);
    if Matched(f, g) && KeysIn(g, f) {
      KeysInIsMatched(f, g);
    }
    if Matched(g, f) {
      MatchedHasKeys(g, f);
    }
  }

  /** Canonical forms are equal exactly for payloads that are the same up to key order and timing keys at every depth. */
  lemma {:induction false} CanonicalIff(v: Json, w: Json)
    requires Maps(v) && Maps(w)
    ensures Canonical(v) == Canonical(w) <==> Equivalent(v, w)
    decreases v
  {
    match (v, w)
    case (Obj(f), Obj(g)) =>
      forall i, j | 0 <= i < |f| && 0 <= j < |g| ensures Canonical(f[i].value) == Canonical(g[j].value) <==> Equivalent(f[i].value, g[j].value) {
        CanonicalIff(f[i].value, g[j].value);
      }
      SameFieldsIff(f, g);
      EquivalentIffMatched(f, g);
    case (Arr(a), Arr(b)) =>
      forall i | 0 <= i < |a| && i < |b|
        ensures CanonicalItems(a)[i] == Canonical(a[i]) && CanonicalItems(b)[i] == Canonical(b[i])
        ensures Canonical(a[i]) == Canonical(b[i]) <==> Equivalent(a[i], b[i])
      {
        ItemsAt(a, i);
        ItemsAt(b, i);
        CanonicalIff(a[i], b[i]);
      }
      if |a| == |b| && forall i :: 0 <= i < |a| ==> Canonical(a[i]) == Canonical(b[i]) {
        assert CanonicalItems(a) == CanonicalItems(b);
      }
    case _ =>
  }

  // ---------- grouping ----------

  datatype PayloadEvent = PayloadEvent(id: nat, at: nat, tag: string, payload: Json)

  /** The bytes that are hashed stand for the fingerprint: the hash is taken as injective. */
  type Fingerprint = string

  datatype Group = Group(fingerprint: Fingerprint, tag: string, count: nat, firstAt: nat, lastAt: nat, sample: PayloadEvent, ids: seq<nat>)

  function FingerprintOf(e: PayloadEvent): Fingerprint {
    PayloadText.Hashed(e.tag, Canonical(e.payload))
  }

  /** The fingerprints of a list, each once, by first occurrence. */
  function Kinds(events: seq<PayloadEvent>): seq<Fingerprint> {
    if events == [] then []
    else
      var before, k := Kinds(events[..|events| - 1]), FingerprintOf(events[|events| - 1]);
      if k in before then before else before + [k]
  }

  /** The events of one fingerprint, in list order. */
  function Members(events: seq<PayloadEvent>, k: Fingerprint): seq<PayloadEvent> {
    if events == [] then []
    else
      var last := events[|events| - 1];
      Members(events[..|events| - 1], k) + (if FingerprintOf(last) == k then [last] else [])
  }

  function Latest(events: seq<PayloadEvent>): nat {
    if events == [] then 0
    else
      var before, at := Latest(events[..|events| - 1]), events[|events| - 1].at;
      if at > before then at else before
  }

  function IdsOf(events: seq<PayloadEvent>): seq<nat> {
    seq(|events|, i requires 0 <= i < |events| => events[i].id)
  }

  /** The group of a list of events with the same fingerprint. */
  function GroupOf(k: Fingerprint, members: seq<PayloadEvent>): Group
    requires members != []
  {
    Group(k, members[0].tag, |members|, members[0].at, Latest(members), members[0], IdsOf(members))
  }

  lemma {:induction false} KindsHaveMembers(events: seq<PayloadEvent>, k: Fingerprint)
    ensures k in Kinds(events) <==> Members(events, k) != []
  {
    if events != [] {
      KindsHaveMembers(events[..|events| - 1], k);
    }
  }

  lemma {:induction false} KindsDistinct(events: seq<PayloadEvent>)
    ensures Distinct(Kinds(events))
  {
    if events != [] {
      KindsDistinct(events[..|events| - 1]);
    }
  }

  /** Adding an event to its group. */
  lemma GroupGrows(k: Fingerprint, members: seq<PayloadEvent>, e: PayloadEvent)
    requires members != []
    ensures var g, h := GroupOf(k, members), GroupOf(k, members + [e]);
            && h.fingerprint == g.fingerprint && h.tag == g.tag && h.sample == g.sample && h.firstAt == g.firstAt
            && h.count == g.count + 1 && h.ids == g.ids + [e.id] && h.lastAt == if e.at > g.lastAt then e.at else g.lastAt
  {
    assert (members + [e])[..|members|] == members;
    assert IdsOf(members + [e]) == IdsOf(members) + [e.id];
  }

  function GroupsOf(events: seq<PayloadEvent>, kinds: seq<Fingerprint>): seq<Group>
    requires forall i :: 0 <= i < |kinds| ==> Members(events, kinds[i]) != []
  {
    seq(|kinds|, i requires 0 <= i < |kinds| => GroupOf(kinds[i], Members(events, kinds[i])))
  }

  lemma AllKindsHaveMembers(events: seq<PayloadEvent>)
    ensures forall i :: 0 <= i < |Kinds(events)| ==> Members(events, Kinds(events)[i]) != []
  {
    forall i | 0 <= i < |Kinds(events)| ensures Members(events, Kinds(events)[i]) != [] {
      KindsHaveMembers(events, Kinds(events)[i]);
    }
  }

  /** One group for every fingerprint met, in the order they were met. */
  function Grouped(events: seq<PayloadEvent>): seq<Group> {
    AllKindsHaveMembers(events);
    GroupsOf(events, Kinds(events))
  }

  ghost predicate IsGroup(events: seq<PayloadEvent>, k: Fingerprint, g: Group) {
    Members(events, k) != [] && g == GroupOf(k, Members(events, k))
  }

  /** `groups` holds the group of every fingerprint met so far. */
  ghost predicate Collected(events: seq<PayloadEvent>, order: seq<Fingerprint>, groups: map<Fingerprint, Group>) {
    && order == Kinds(events)
    && (forall k :: k in groups <==> k in order)
    && (forall k :: k in groups ==> IsGroup(events, k, groups[k]))
  }

  lemma OwnGroupGrows(events: seq<PayloadEvent>, ev: PayloadEvent, g: Group)
    requires IsGroup(events, FingerprintOf(ev), g)
    ensures IsGroup(events + [ev], FingerprintOf(ev),
              g.(count := g.count + 1, lastAt := if ev.at > g.lastAt then ev.at else g.lastAt, ids := g.ids + [ev.id]))
  {
    MembersMore(events, ev, FingerprintOf(ev));
    GroupGrows(FingerprintOf(ev), Members(events, FingerprintOf(ev)), ev);
  }

  lemma OtherGroupStays(events: seq<PayloadEvent>, ev: PayloadEvent, k: Fingerprint, g: Group)
    requires IsGroup(events, k, g) && k != FingerprintOf(ev)
    ensures IsGroup(events + [ev], k, g)
  {
    MembersMore(events, ev, k);
  }

  lemma OwnGroupStarts(events: seq<PayloadEvent>, ev: PayloadEvent)
    requires Members(events, FingerprintOf(ev)) == []
    ensures IsGroup(events + [ev], FingerprintOf(ev), Group(FingerprintOf(ev), ev.tag, 1, ev.at, ev.at, ev, [ev.id]))
  {
    MembersMore(events, ev, FingerprintOf(ev));
    assert [] + [ev] == [ev];
    GroupOfOne(ev);
  }

  lemma OtherGroupsStay(events: seq<PayloadEvent>, ev: PayloadEvent, groups: map<Fingerprint, Group>)
    requires forall k :: k in groups ==> IsGroup(events, k, groups[k])
    ensures forall k :: k in groups && k != FingerprintOf(ev) ==> IsGroup(events + [ev], k, groups[k])
  {
    forall k | k in groups && k != FingerprintOf(ev) ensures IsGroup(events + [ev], k, groups[k]) {
      OtherGroupStays(events, ev, k, groups[k]);
    }
  }

  lemma CollectedWith(events: seq<PayloadEvent>, ev: PayloadEvent, order: seq<Fingerprint>, groups: map<Fingerprint, Group>, g: Group)
    requires Collected(events, order, groups) && IsGroup(events + [ev], FingerprintOf(ev), g)
    ensures Collected(events + [ev], Kinds(events + [ev]), groups[FingerprintOf(ev) := g])
  {
    KindsMore(events, ev);
    OtherGroupsStay(events, ev, groups);
  }

  lemma CollectedMore(events: seq<PayloadEvent>, ev: PayloadEvent, order: seq<Fingerprint>, groups: map<Fingerprint, Group>)
    requires Collected(events, order, groups) && FingerprintOf(ev) in groups
    ensures var k := FingerprintOf(ev);
            var g := groups[k];
            Collected(events + [ev], order,
              groups[k := g.(count := g.count + 1, lastAt := if ev.at > g.lastAt then ev.at else g.lastAt, ids := g.ids + [ev.id])])
  {
    var g := groups[FingerprintOf(ev)];
    KindsMore(events, ev);
    OwnGroupGrows(events, ev, g);
    CollectedWith(events, ev, order, groups,
      g.(count := g.count + 1, lastAt := if ev.at > g.lastAt then ev.at else g.lastAt, ids := g.ids + [ev.id]));
  }

  lemma CollectedNew(events: seq<PayloadEvent>, ev: PayloadEvent, order: seq<Fingerprint>, groups: map<Fingerprint, Group>)
    requires Collected(events, order, groups) && FingerprintOf(ev) !in groups
    ensures var k := FingerprintOf(ev);
            Collected(events + [ev], order + [k], groups[k := Group(k, ev.tag, 1, ev.at, ev.at, ev, [ev.id])])
  {
    var k := FingerprintOf(ev);
    KindsHaveMembers(events, k);
    KindsMore(events, ev);
    OwnGroupStarts(events, ev);
    CollectedWith(events, ev, order, groups, Group(k, ev.tag, 1, ev.at, ev.at, ev, [ev.id]));
  }

  lemma CollectedAt(events: seq<PayloadEvent>, order: seq<Fingerprint>, groups: map<Fingerprint, Group>, i: nat)
    requires Collected(events, order, groups) && i < |order|
    requires forall j :: 0 <= j < |order| ==> Members(events, order[j]) != []
    ensures order[i] in groups && GroupsOf(events, order[..i + 1]) == GroupsOf(events, order[..i]) + [groups[order[i]]]
  {
    assert IsGroup(events, order[i], groups[order[i]]);
  }

  lemma MembersMore(events: seq<PayloadEvent>, ev: PayloadEvent, k: Fingerprint)
    ensures Members(events + [ev], k) == if k == FingerprintOf(ev) then Members(events, k) + [ev] else Members(events, k)
  {
    assert (events + [ev])[..|events|] == events;
    assert Members(events, k) + [] == Members(events, k);
  }

  lemma KindsMore(events: seq<PayloadEvent>, ev: PayloadEvent)
    ensures Kinds(events + [ev]) == if FingerprintOf(ev) in Kinds(events) then Kinds(events) else Kinds(events) + [FingerprintOf(ev)]
  {
    assert (events + [ev])[..|events|] == events;
  }

  lemma GroupOfOne(ev: PayloadEvent)
    ensures GroupOf(FingerprintOf(ev), [ev]) == Group(FingerprintOf(ev), ev.tag, 1, ev.at, ev.at, ev, [ev.id])
  {
    assert [ev][..0] == [];
    assert Latest([]) == 0 && Latest([ev]) == ev.at;
    assert IdsOf([ev]) == [ev.id];
  }

  // ---------- which fields count ----------

  lemma {:induction false} EquivalentSelf(v: Json)
    ensures Equivalent(v, v)
    decreases v
  {
    match v
    case Obj(f) =>
      forall i | 0 <= i < |f| ensures Equivalent(f[i].value, f[i].value) {
        EquivalentSelf(f[i].value);
      }
    case Arr(a) =>
      forall i | 0 <= i < |a| ensures Equivalent(a[i], a[i]) {
        EquivalentSelf(a[i]);
      }
    case _ =>
  }

  /** The keys that time things. */
  predicate Times(key: string) {
    || key == "at" || key == "at_micros" || key == "at_unix_micros" || key == "duration_micros" || key == "duration_ms"
    || key == "elapsed_ms" || key == "ended_at" || key == "enter_micros" || key == "exit_micros" || key == "fired_at"
    || key == "started_at" || key == "time" || key == "time_ms" || key == "timestamp"
  }

  lemma TimingIs(key: string)
    ensures Timing(key) <==> Times(key)
  {
  }

  /** Apart from the last value the two lists are the same, and no other key is the last one. */
  ghost predicate AlikeButLast(a: seq<Field>, b: seq<Field>) {
    && |a| == |b| > 0 && a[|a| - 1].key == b[|a| - 1].key
    && forall i :: 0 <= i < |a| - 1 ==> a[i] == b[i] && a[i].key != a[|a| - 1].key && Equivalent(a[i].value, b[i].value)
  }

  lemma LastCounts(a: seq<Field>, b: seq<Field>)
    requires AlikeButLast(a, b) && Paired(a, b) && !Timing(a[|a| - 1].key)
    ensures Equivalent(a[|a| - 1].value, b[|a| - 1].value)
  {
    var n := |a| - 1;
    var j :| 0 <= j < |b| && b[j].key == a[n].key && Equivalent(a[n].value, b[j].value);
    assert j == n;
  }

  lemma LastMayDiffer(a: seq<Field>, b: seq<Field>)
    requires AlikeButLast(a, b) && (Timing(a[|a| - 1].key) || Equivalent(a[|a| - 1].value, b[|a| - 1].value))
    ensures Paired(a, b) && KeysIn(b, a)
  {
    forall i | 0 <= i < |a| && !Timing(a[i].key) ensures b[i].key == a[i].key && Equivalent(a[i].value, b[i].value) {}
    forall j | 0 <= j < |b| ensures a[j].key == b[j].key {}
  }

  /** Two payloads that differ in the value of one key are the same if and only if the values are, or the key times things. */
  lemma DifferingFieldIff(f: seq<Field>, key: string, v: Json, w: Json)
    requires DistinctKeys(f + [Field(key, v)])
    ensures Equivalent(Obj(f + [Field(key, v)]), Obj(f + [Field(key, w)])) <==> Equivalent(v, w) || Times(key)
  {
    TimingIs(key);
    OneValueDiffers(f, key, v, w);
    LastDecides(f + [Field(key, v)], f + [Field(key, w)]);
  }

  lemma OneValueDiffers(f: seq<Field>, key: string, v: Json, w: Json)
    requires DistinctKeys(f + [Field(key, v)])
    ensures var a, b := f + [Field(key, v)], f + [Field(key, w)];
            AlikeButLast(a, b) && a[|a| - 1] == Field(key, v) && b[|a| - 1] == Field(key, w)
  {
    var a, b := f + [Field(key, v)], f + [Field(key, w)];
    forall i | 0 <= i < |f| ensures a[i] == b[i] && a[i].key != a[|f|].key && Equivalent(a[i].value, b[i].value) {
      EquivalentSelf(f[i].value);
    }
  }

  lemma LastDecides(a: seq<Field>, b: seq<Field>)
    requires AlikeButLast(a, b)
    ensures Equivalent(Obj(a), Obj(b)) <==> Equivalent(a[|a| - 1].value, b[|a| - 1].value) || Timing(a[|a| - 1].key)
  {
    if Equivalent(a[|a| - 1].value, b[|a| - 1].value) || Timing(a[|a| - 1].key) {
      LastMayDiffer(a, b);
    } else if Paired(a, b) {
      LastCounts(a, b);
    }
  }

  // ---------- what a group tells ----------

  /** The positions of the events with that fingerprint, in order. */
  ghost predicate MembersAt(events: seq<PayloadEvent>, k: Fingerprint, at: seq<nat>) {
    && (forall i, j :: 0 <= i < j < |at| ==> at[i] < at[j])
    && (forall x: nat :: x in at <==> x < |events| && FingerprintOf(events[x]) == k)
  }

  /** The events `ms` are those at the positions `at`. */
  ghost predicate Picked(ms: seq<PayloadEvent>, events: seq<PayloadEvent>, at: seq<nat>) {
    |ms| == |at| && forall i :: 0 <= i < |at| ==> at[i] < |events| && ms[i] == events[at[i]]
  }

  /** Count, ids, first, sample and last of a group are those of the events with its fingerprint. */
  ghost predicate TellsGroup(g: Group, events: seq<PayloadEvent>) {
    exists at :: MembersAt(events, g.fingerprint, at) && at != [] && TellsMembers(g, events, at)
  }

  ghost predicate TellsMembers(g: Group, events: seq<PayloadEvent>, at: seq<nat>)
    requires at != []
  {
    && (forall i :: 0 <= i < |at| ==> at[i] < |events|) && g.count == |at| == |g.ids|
    && (forall i :: 0 <= i < |at| ==> g.ids[i] == events[at[i]].id && events[at[i]].at <= g.lastAt)
    && (exists i :: 0 <= i < |at| && events[at[i]].at == g.lastAt)
    && g.sample == events[at[0]] && g.firstAt == events[at[0]].at && g.tag == events[at[0]].tag
  }

  lemma MembersSkip(front: seq<PayloadEvent>, last: PayloadEvent, k: Fingerprint, at: seq<nat>, ms: seq<PayloadEvent>)
    requires MembersAt(front, k, at) && Picked(ms, front, at) && FingerprintOf(last) != k
    ensures MembersAt(front + [last], k, at) && Picked(ms, front + [last], at)
  {
    var all := front + [last];
    assert (forall i :: 0 <= i < |front| ==> all[i] == front[i]) && all[|front|] == last;
  }

  lemma MembersAdd(front: seq<PayloadEvent>, last: PayloadEvent, k: Fingerprint, at: seq<nat>, ms: seq<PayloadEvent>)
    requires MembersAt(front, k, at) && Picked(ms, front, at) && FingerprintOf(last) == k
    ensures MembersAt(front + [last], k, at + [|front|]) && Picked(ms + [last], front + [last], at + [|front|])
  {
    var all, more := front + [last], at + [|front|];
    assert (forall i :: 0 <= i < |front| ==> all[i] == front[i]) && all[|front|] == last;
    forall x: nat ensures x in more <==> x < |all| && FingerprintOf(all[x]) == k {
      assert x in more <==> x in at || x == |front|;
    }
    forall i, j | 0 <= i < j < |more| ensures more[i] < more[j] {
      assert more[i] == at[i] && at[i] in at;
    }
  }

  lemma {:induction false} MembersArePicked(events: seq<PayloadEvent>, k: Fingerprint) returns (at: seq<nat>)
    ensures MembersAt(events, k, at) && Picked(Members(events, k), events, at)
  {
    at := [];
    if events != [] {
      var front, last := events[..|events| - 1], events[|events| - 1];
      at := MembersArePicked(front, k);
      assert events == front + [last];
      if FingerprintOf(last) == k {
        MembersAdd(front, last, k, at, Members(front, k));
        at := at + [|front|];
      } else {
        MembersSkip(front, last, k, at, Members(front, k));
        assert Members(front, k) + [] == Members(front, k);
      }
    }
  }

  lemma {:induction false} LatestIsMax(ms: seq<PayloadEvent>)
    ensures forall i :: 0 <= i < |ms| ==> ms[i].at <= Latest(ms)
    ensures ms != [] ==> exists i :: 0 <= i < |ms| && ms[i].at == Latest(ms)
  {
    if ms != [] {
      var n := |ms| - 1;
      LatestIsMax(ms[..n]);
      if n > 0 && ms[n].at <= Latest(ms[..n]) {
        var i :| 0 <= i < n && ms[..n][i].at == Latest(ms[..n]);
        assert ms[i].at == Latest(ms);
      } else {
        assert ms[n].at == Latest(ms);
      }
    }
  }

  lemma GroupTells(events: seq<PayloadEvent>, k: Fingerprint)
    requires Members(events, k) != []
    ensures TellsGroup(GroupOf(k, Members(events, k)), events)
  {
    var ms, g := Members(events, k), GroupOf(k, Members(events, k));
    var at := MembersArePicked(events, k);
    LatestIsMax(ms);
    var i :| 0 <= i < |ms| && ms[i].at == Latest(ms);
    assert events[at[i]].at == g.lastAt;
    assert TellsMembers(g, events, at);
  }

  lemma GroupsTell(events: seq<PayloadEvent>)
    ensures forall j :: 0 <= j < |Grouped(events)| ==> TellsGroup(Grouped(events)[j], events)
  {
    AllKindsHaveMembers(events);
    forall j | 0 <= j < |Grouped(events)| ensures TellsGroup(Grouped(events)[j], events) {
      GroupTells(events, Kinds(events)[j]);
    }
  }

  /** Collapses a list of events into groups, in order of first occurrence. */
  method GroupEvents(events: seq<PayloadEvent>) returns (result: seq<Group>)
    ensures result == Grouped(events) && forall j :: 0 <= j < |result| ==> TellsGroup(result[j], events)
  {
    GroupsTell(events);
    var order: seq<Fingerprint> := [];
    var groups: map<Fingerprint, Group> := map[];
    for i := 0 to |events|
      invariant Collected(events[..i], order, groups)
    {
      assert events[..i + 1] == events[..i] + [events[i]];
      var ev := events[i];
      var k := FingerprintOf(ev);
      if k in groups {
        CollectedMore(events[..i], ev, order, groups);
        var g := groups[k];
        groups := groups[k := g.(count := g.count + 1, lastAt := if ev.at > g.lastAt then ev.at else g.lastAt, ids := g.ids + [ev.id])];
      } else {
        CollectedNew(events[..i], ev, order, groups);
        order := order + [k];
        groups := groups[k := Group(k, ev.tag, 1, ev.at, ev.at, ev, [ev.id])];
      }
    }
    assert events[..|events|] == events;
    result := [];
    AllKindsHaveMembers(events);
    for i := 0 to |order|
      invariant result == GroupsOf(events, order[..i])
    {
      CollectedAt(events, order, groups, i);
      result := result + [groups[order[i]]];
    }
    assert order[..|order|] == order;
  }

  // ---------- what the groups are ----------

  function Total(groups: seq<Group>): nat {
    if groups == [] then 0 else groups[|groups| - 1].count + Total(groups[..|groups| - 1])
  }

  function TotalOver(events: seq<PayloadEvent>, kinds: seq<Fingerprint>): nat {
    if kinds == [] then 0 else |Members(events, kinds[|kinds| - 1])| + TotalOver(events, kinds[..|kinds| - 1])
  }

  lemma {:induction false} TotalIsOver(events: seq<PayloadEvent>, kinds: seq<Fingerprint>)
    requires forall i :: 0 <= i < |kinds| ==> Members(events, kinds[i]) != []
    ensures Total(GroupsOf(events, kinds)) == TotalOver(events, kinds)
  {
    if kinds != [] {
      var n := |kinds| - 1;
      TotalIsOver(events, kinds[..n]);
      assert GroupsOf(events, kinds)[..n] == GroupsOf(events, kinds[..n]);
    }
  }

  /** One more event adds one to the group of its fingerprint and nothing elsewhere. */
  lemma {:induction false} TotalGrows(events: seq<PayloadEvent>, e: PayloadEvent, kinds: seq<Fingerprint>)
    requires Distinct(kinds)
    ensures TotalOver(events + [e], kinds) == TotalOver(events, kinds) + if FingerprintOf(e) in kinds then 1 else 0
  {
    if kinds != [] {
      var n := |kinds| - 1;
      TotalGrows(events, e, kinds[..n]);
      assert (events + [e])[..|events|] == events;
      assert kinds == kinds[..n] + [kinds[n]];
      assert FingerprintOf(e) == kinds[n] ==> FingerprintOf(e) !in kinds[..n];
    }
  }

  lemma TotalOfMore(events: seq<PayloadEvent>, kinds: seq<Fingerprint>, k: Fingerprint)
    ensures TotalOver(events, kinds + [k]) == |Members(events, k)| + TotalOver(events, kinds)
  {
    assert (kinds + [k])[..|kinds|] == kinds;
  }

  lemma {:induction false} TotalOfKinds(events: seq<PayloadEvent>)
    ensures TotalOver(events, Kinds(events)) == |events|
  {
    if events != [] {
      var front, e := events[..|events| - 1], events[|events| - 1];
      var k, before := FingerprintOf(e), Kinds(front);
      TotalOfKinds(front);
      KindsDistinct(front);
      TotalGrows(front, e, before);
      assert events == front + [e];
      KindsMore(front, e);
      if k !in before {
        KindsHaveMembers(front, k);
        MembersMore(front, e, k);
        TotalOfMore(events, before, k);
      }
    }
  }

  /** The counts of the groups add up to the number of events. */
  lemma CountsAddUp(events: seq<PayloadEvent>)
    ensures Total(Grouped(events)) == |events|
  {
    AllKindsHaveMembers(events);
    TotalIsOver(events, Kinds(events));
    TotalOfKinds(events);
  }

  /** A group holds exactly the events of its fingerprint, and its last time is the maximum of theirs. */
  lemma {:induction false} GroupHoldsItsEvents(events: seq<PayloadEvent>, k: Fingerprint)
    ensures forall e :: e in Members(events, k) <==> e in events && FingerprintOf(e) == k
    ensures forall e :: e in events ==> e.at <= Latest(events)
    ensures events != [] ==> exists e :: e in events && e.at == Latest(events)
  {
    if events != [] {
      var front, last := events[..|events| - 1], events[|events| - 1];
      GroupHoldsItsEvents(front, k);
      assert events == front + [last];
      if last.at > Latest(front) || front == [] {
        assert last in events;
      } else {
        var e :| e in front && e.at == Latest(front);
        assert e in events;
      }
    }
  }

  lemma {:induction false} CanonicalNumeric(v: Json)
    requires PayloadText.Numeric(v)
    ensures PayloadText.Numeric(Canonical(v))
    decreases v
  {
    match v
    case Obj(fields) =>
      var sorted := SortFields(CanonicalFields(fields));
      forall k | 0 <= k < |sorted| ensures PayloadText.Numeric(sorted[k].value) {
        assert sorted[k] in sorted;
        SortFieldsMembers(CanonicalFields(fields));
        CanonicalFieldsMembers(fields, sorted[k]);
        var i :| 0 <= i < |fields| && !Timing(fields[i].key) && sorted[k] == Field(fields[i].key, Canonical(fields[i].value));
        CanonicalNumeric(fields[i].value);
      }
    case Arr(items) =>
      forall k | 0 <= k < |items| ensures PayloadText.Numeric(CanonicalItems(items)[k]) {
        ItemsAt(items, k);
        CanonicalNumeric(items[k]);
      }
    case _ =>
  }

  /** Two events fall into the same group exactly when they have the same type and payloads that are the same up
      to key order and timing keys at every depth. */
  lemma SameGroupIff(a: PayloadEvent, b: PayloadEvent)
    requires Maps(a.payload) && Maps(b.payload) && PayloadText.Numeric(a.payload) && PayloadText.Numeric(b.payload)
    ensures FingerprintOf(a) == FingerprintOf(b) <==> a.tag == b.tag && Equivalent(a.payload, b.payload)
  {
    CanonicalNumeric(a.payload);
    CanonicalNumeric(b.payload);
    PayloadText.HashedUnique(a.tag, Canonical(a.payload), b.tag, Canonical(b.payload));
    CanonicalIff(a.payload, b.payload);
  }

  /** Groups come in order of first occurrence: the first members of two groups stand in list order. */
  lemma FirstOccurrenceOrder(events: seq<PayloadEvent>, p: nat, q: nat)
    requires p < q < |Kinds(events)|
    ensures exists i, j :: 0 <= i < j < |events| && FirstOf(events, i, Kinds(events)[p]) && FirstOf(events, j, Kinds(events)[q])
  {
    var i, j := FirstOccurrences(events, p, q);
  }

  lemma {:induction false} FirstOccurrences(events: seq<PayloadEvent>, p: nat, q: nat) returns (i: nat, j: nat)
    requires p < q < |Kinds(events)|
    ensures i < j < |events| && FirstOf(events, i, Kinds(events)[p]) && FirstOf(events, j, Kinds(events)[q])
  {
    var front := events[..|events| - 1];
    var before := Kinds(front);
    KindsGrow(events);
    if q < |before| {
      i, j := FirstOccurrences(front, p, q);
      FirstStays(events, j, before[q]);
    } else {
      i := KindOccurs(front, p);
      j := |events| - 1;
      KindsCover(front);
      LastIsFirst(events);
    }
    FirstStays(events, i, before[p]);
  }

  lemma KindsGrow(events: seq<PayloadEvent>)
    requires events != []
    ensures var before := Kinds(events[..|events| - 1]);
            && |before| <= |Kinds(events)| <= |before| + 1 && (forall p :: 0 <= p < |before| ==> Kinds(events)[p] == before[p])
            && (|Kinds(events)| > |before| ==> Kinds(events)[|before|] == FingerprintOf(events[|events| - 1]) && FingerprintOf(events[|events| - 1]) !in before)
  {
  }

  lemma FirstStays(events: seq<PayloadEvent>, i: int, k: Fingerprint)
    requires events != [] && FirstOf(events[..|events| - 1], i, k)
    ensures FirstOf(events, i, k)
  {
    var front := events[..|events| - 1];
    assert front[i] == events[i];
    forall j | 0 <= j < i ensures FingerprintOf(events[j]) != k {
      assert front[j] == events[j];
    }
  }

  lemma LastIsFirst(events: seq<PayloadEvent>)
    requires events != []
    requires var front := events[..|events| - 1];
             (forall i :: 0 <= i < |front| ==> FingerprintOf(front[i]) in Kinds(front)) && FingerprintOf(events[|events| - 1]) !in Kinds(front)
    ensures FirstOf(events, |events| - 1, FingerprintOf(events[|events| - 1]))
  {
    var front := events[..|events| - 1];
    forall j | 0 <= j < |front| ensures FingerprintOf(events[j]) != FingerprintOf(events[|events| - 1]) {
      assert front[j] == events[j];
    }
  }

  /** Position `i` is where fingerprint `k` occurs first. */
  ghost predicate FirstOf(events: seq<PayloadEvent>, i: int, k: Fingerprint) {
    0 <= i < |events| && FingerprintOf(events[i]) == k && forall j :: 0 <= j < i ==> FingerprintOf(events[j]) != k
  }

  lemma {:induction false} KindsCover(events: seq<PayloadEvent>)
    ensures forall i :: 0 <= i < |events| ==> FingerprintOf(events[i]) in Kinds(events)
  {
    if events != [] {
      KindsCover(events[..|events| - 1]);
    }
  }

  lemma {:induction false} KindOccurs(events: seq<PayloadEvent>, p: nat) returns (i: nat)
    requires p < |Kinds(events)|
    ensures FirstOf(events, i, Kinds(events)[p])
  {
    var front := events[..|events| - 1];
    KindsGrow(events);
    if p < |Kinds(front)| {
      i := KindOccurs(front, p);
      FirstStays(events, i, Kinds(front)[p]);
    } else {
      i := |events| - 1;
      KindsCover(front);
      LastIsFirst(events);
    }
  }
}
