/** The decoded trace: the recorded calls (frames) and observability events.
    Text fields that no modelled code looks at are left out. */
module TraceModel {

  datatype Option<+T> = None | Some(value: T)

  /** One finished call. `enter` and `exit` are microseconds since the request started. */
  datatype Frame = Frame(
    id: nat, parentId: nat,
    enter: nat, exit: nat, depth: nat,
    file: string, line: nat)

  /** One observability event, attributed to the frame that was running. */
  datatype Event = Event(id: nat, at: nat, inFrame: nat)

  function FrameIds(frames: seq<Frame>): (r: seq<nat>)
    ensures |r| == |frames|
    ensures forall i :: 0 <= i < |r| ==> r[i] == frames[i].id
  {
    seq(|frames|, i requires 0 <= i < |frames| => frames[i].id)
  }

  function EventIds(events: seq<Event>): (r: seq<nat>)
    ensures |r| == |events|
    ensures forall i :: 0 <= i < |r| ==> r[i] == events[i].id
  {
    seq(|events|, i requires 0 <= i < |events| => events[i].id)
  }

  ghost predicate Distinct<T>(s: seq<T>) {
    forall i, j :: 0 <= i < j < |s| ==> s[i] != s[j]
  }

  function Reverse<T>(s: seq<T>): (r: seq<T>)
    ensures |r| == |s|
    ensures forall i :: 0 <= i < |s| ==> r[i] == s[|s| - 1 - i]
  {
    seq(|s|, i requires 0 <= i < |s| => s[|s| - 1 - i])
  }

  ghost predicate InTimeOrder(events: seq<Event>) {
    forall i, j :: 0 <= i <= j < |events| ==> events[i].at <= events[j].at
  }

  lemma Associate<T>(a: seq<T>, b: seq<T>, c: seq<T>)
    ensures a + b + c == a + (b + c)
  {
  }

  lemma Regroup<T>(a: seq<T>, b: seq<T>, c: seq<T>, d: seq<T>)
    ensures a + b + c + d == a + (b + (c + d))
  {
  }
}
