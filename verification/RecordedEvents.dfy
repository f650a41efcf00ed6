/** The ids and times of the events a request records. */
module RecordedEvents {
  import opened TraceModel
  import opened Recorder
  import opened RecordedRuns

  /** For each event of an op list, whether it was a checkpoint. */
  function Kinds(ops: seq<Op>): seq<bool>
    decreases |ops|
  {
    if ops == [] then []
    else (if ops[0].Note? then [ops[0].checkpoint] else []) + Kinds(ops[1..])
  }

  function Count(kinds: seq<bool>, kind: bool): nat {
    if kinds == [] then 0 else (if kinds[0] == kind then 1 else 0) + Count(kinds[1..], kind)
  }

  /** The ids drawn from the two counters, plain events from `a`, checkpoints from `b`. */
  function DrawnIds(kinds: seq<bool>, a: nat, b: nat): seq<nat> {
    if kinds == [] then []
    else if kinds[0] then [b] + DrawnIds(kinds[1..], a, b + 1)
    else [a] + DrawnIds(kinds[1..], a + 1, b)
  }

  lemma StepDraws(s: State, op: Op) returns (es: seq<Event>)
    requires s.Recording()
    ensures Apply(s, op).Recording() && Apply(s, op).events == s.events + es
    ensures !op.Note? ==> es == [] && Apply(s, op).nextEventId == s.nextEventId && Apply(s, op).nextCheckpointId == s.nextCheckpointId
    ensures op.Note? ==> |es| == 1 && es[0].id == if op.checkpoint then s.nextCheckpointId else s.nextEventId
    ensures op.Note? ==> Apply(s, op).nextCheckpointId == s.nextCheckpointId + if op.checkpoint then 1 else 0
    ensures op.Note? ==> Apply(s, op).nextEventId == s.nextEventId + if op.checkpoint then 0 else 1
  {
    es := if op.Note? then [Apply(s, op).events[|s.events|]] else [];
  }

  lemma {:induction false} EventsDraw(s: State, ops: seq<Op>) returns (new_: seq<Event>)
    requires s.Recording()
    ensures Exec(s, ops).events == s.events + new_
    ensures EventIds(new_) == DrawnIds(Kinds(ops), s.nextEventId, s.nextCheckpointId)
    decreases |ops|
  {
    if ops == [] {
      new_ := [];
    } else {
      var es := StepDraws(s, ops[0]);
      var rest := EventsDraw(Apply(s, ops[0]), ops[1..]);
      new_ := es + rest;
      EventsJoin(s.events, es, rest);
      assert EventIds(new_) == EventIds(es) + EventIds(rest);
      if ops[0].Note? {
        assert Kinds(ops) == [ops[0].checkpoint] + Kinds(ops[1..]);
        assert EventIds(es) == [es[0].id];
      } else {
        assert Kinds(ops) == [] + Kinds(ops[1..]) == Kinds(ops[1..]);
        assert EventIds(new_) == EventIds(rest);
      }
    }
  }

  lemma {:induction false} DrawnMembers(kinds: seq<bool>, a: nat, b: nat)
    ensures forall x :: x in DrawnIds(kinds, a, b) <==> a <= x < a + Count(kinds, false) || b <= x < b + Count(kinds, true)
  {
    if kinds != [] {
      DrawnMembers(kinds[1..], if kinds[0] then a else a + 1, if kinds[0] then b + 1 else b);
    }
  }

  lemma DistinctCons(x: nat, s: seq<nat>)
    ensures Distinct([x] + s) <==> x !in s && Distinct(s)
  {
    var t := [x] + s;
    if Distinct(t) {
      forall i, j | 0 <= i < j < |s| ensures s[i] != s[j] {
        assert t[i + 1] != t[j + 1];
      }
      forall i | 0 <= i < |s| ensures s[i] != x {
        assert t[0] != t[i + 1];
      }
    }
  }

  /** The id ranges handed out by the two counters do not overlap. */
  predicate RangesApart(kinds: seq<bool>, nextEventId: nat, nextCheckpointId: nat) {
    var m, n := Count(kinds, false), Count(kinds, true);
    m == 0 || n == 0 || nextEventId + m <= nextCheckpointId || nextCheckpointId + n <= nextEventId
  }

  lemma {:induction false} DrawnDistinct(kinds: seq<bool>, a: nat, b: nat)
    ensures Distinct(DrawnIds(kinds, a, b)) <==> RangesApart(kinds, a, b)
  {
    if kinds != [] {
      var a', b' := if kinds[0] then a else a + 1, if kinds[0] then b + 1 else b;
      DrawnDistinct(kinds[1..], a', b');
      DrawnMembers(kinds[1..], a', b');
      DistinctCons(if kinds[0] then b else a, DrawnIds(kinds[1..], a', b'));
    }
  }

  lemma RequestDraws(s: State, ops: seq<Op>)
    requires s.Recording() && s.events == []
    ensures EventIds(Exec(s, ops).events) == DrawnIds(Kinds(ops), s.nextEventId, s.nextCheckpointId)
  {
    var es := EventsDraw(s, ops);
    assert [] + es == es;
  }

  /** The events of one request have distinct ids exactly when the id ranges its two counters hand out do not overlap. */
  lemma EventIdsDistinct(s: State, ops: seq<Op>)
    requires s.Recording() && s.events == []
    ensures Distinct(EventIds(Exec(s, ops).events)) <==> RangesApart(Kinds(ops), s.nextEventId, s.nextCheckpointId)
  {
    RequestDraws(s, ops);
    DrawnDistinct(Kinds(ops), s.nextEventId, s.nextCheckpointId);
  }

  /** In a fresh process one event and one checkpoint already share an id. */
  lemma FreshCountersCollide(now: nat)
    ensures !Distinct(DrawnIds(Kinds([Note(now, false), Note(now, true)]), 1, 1))
  {
    var ops := [Note(now, false), Note(now, true)];
    assert ops[1..] == [Note(now, true)] && ops[1..][1..] == [];
    assert Kinds(ops[1..]) == [true] + Kinds([]) == [true];
    assert Kinds(ops) == [false, true];
    DrawnDistinct([false, true], 1, 1);
    assert [false, true][1..] == [true] && [true][1..] == [];
    assert Count([true], true) == 1 && Count([true], false) == 0;
  }

  /** Events are recorded in time order. */
  lemma {:induction false} EventsInOrder(s: State, ops: seq<Op>, from: nat)
    requires s.Recording() && InOrder(false, ops, from)
    requires InTimeOrder(s.events) && forall e :: e in s.events ==> e.at <= Since(s.start, from)
    ensures InTimeOrder(Exec(s, ops).events)
    decreases |ops|
  {
    if ops != [] {
      var t := Apply(s, ops[0]);
      forall i, j | 0 <= i <= j < |t.events| ensures t.events[i].at <= t.events[j].at {
        assert i < |s.events| ==> t.events[i] == s.events[i] && s.events[i] in s.events;
        assert j < |s.events| ==> t.events[j] == s.events[j];
      }
      EventsInOrder(t, ops[1..], ops[0].at);
    }
  }
}
