/** Exactly which objects one capture expands at most once: by their body and by the options, on every heap. */
module CaptureLimits {
  import opened TraceModel
  import opened Capture
  import opened CaptureTheorems

  predicate Expandable(b: Body) {
    b.Table? || b.Declared?
  }

  /** A body with declared slots none of which, as far as they are shown, is initialised. */
  predicate Unmarked(o: Options, b: Body) {
    b.Declared? && !AnyInitialised(Declareds(b.slots), ShownOf(o, b.slots))
  }

  lemma MarkedOr(h: Heap, o: Options, x: nat)
    ensures Marks(h, o, x) <==> Expandable(h.ObjectAt(x)) && !Unmarked(o, h.ObjectAt(x))
  {
  }

  // ---------- what is not expanded ----------

  /** At the depth limit nothing is expanded. */
  lemma {:induction false} BottomCount(h: Heap, o: Options, v: Value, depth: nat, vis: Visited, x: nat)
    requires h.Valid() && depth >= o.maxDepth
    ensures Count(CaptureValue(h, o, v, depth, vis).0, x) == 0
    decreases if v.Ref? then 1 else 0
  {
    if v.Ref? {
      BottomCount(h, o, h.CellAt(v.cell), depth, vis, x);
    }
  }

  lemma {:induction false} BottomEntries(h: Heap, o: Options, entries: seq<Entry>, n: nat, depth: nat, vis: Visited, x: nat)
    requires h.Valid() && n <= |entries| && depth >= o.maxDepth
    ensures CountOf(CaptureEntries(h, o, entries, n, depth, vis).0, x) == 0
    decreases n
  {
    if n > 0 {
      var (before, mid) := CaptureEntries(h, o, entries, n - 1, depth, vis);
      BottomEntries(h, o, entries, n - 1, depth, vis, x);
      BottomCount(h, o, entries[n - 1].value, depth, mid, x);
      CountOfMore(before, CaptureEntries(h, o, entries, n, depth, vis).0[n - 1], x);
    }
  }

  lemma {:induction false} BottomSlots(h: Heap, o: Options, slots: seq<Slot>, n: nat, depth: nat, handle: nat, vis: Visited, x: nat)
    requires h.Valid() && n <= |slots| && depth >= o.maxDepth
    ensures CountOf(CaptureSlots(h, o, slots, n, depth, handle, vis).0, x) == 0
    decreases n
  {
    if n > 0 {
      var (before, mid) := CaptureSlots(h, o, slots, n - 1, depth, handle, vis);
      BottomSlots(h, o, slots, n - 1, depth, handle, vis, x);
      if !slots[n - 1].value.Undef? {
        BottomCount(h, o, slots[n - 1].value, depth, Add(mid, handle), x);
      }
      CountOfMore(before, CaptureSlots(h, o, slots, n, depth, handle, vis).0[n - 1], x);
    }
  }

  /** Enum cases, closures and lazy objects are never expanded. */
  lemma {:induction false} NeverExpanded(h: Heap, o: Options, v: Value, depth: nat, vis: Visited, x: nat)
    requires h.Valid() && !Expandable(h.ObjectAt(x))
    ensures Count(CaptureValue(h, o, v, depth, vis).0, x) == 0
    decreases Budget(o, depth), if v.Ref? then 2 else 1, 0
  {
    match v
    case Ref(cell) => NeverExpanded(h, o, h.CellAt(cell), depth, vis, x);
    case Arr(table) =>
      var entries := h.ArrayAt(table);
      if entries != [] && depth < o.maxDepth {
        EntriesNeverExpand(h, o, entries, Cap(o.maxItems, |entries|), depth + 1, vis, x);
      }
    case Obj(handle) =>
      if depth < o.maxDepth {
        match h.ObjectAt(handle)
        case Table(_, props) => EntriesNeverExpand(h, o, props, Cap(o.maxProps, |props|), depth + 1, Add(vis, handle), x);
        case Declared(_, slots) => SlotsNeverExpand(h, o, Declareds(slots), ShownOf(o, slots), depth + 1, handle, vis, x);
        case _ =>
      }
    case _ =>
  }

  lemma {:induction false} EntriesNeverExpand(h: Heap, o: Options, entries: seq<Entry>, n: nat, depth: nat, vis: Visited, x: nat)
    requires h.Valid() && n <= |entries| && !Expandable(h.ObjectAt(x))
    ensures CountOf(CaptureEntries(h, o, entries, n, depth, vis).0, x) == 0
    decreases Budget(o, depth), 3, n
  {
    if n > 0 {
      var (before, mid) := CaptureEntries(h, o, entries, n - 1, depth, vis);
      EntriesNeverExpand(h, o, entries, n - 1, depth, vis, x);
      NeverExpanded(h, o, entries[n - 1].value, depth, mid, x);
      CountOfMore(before, CaptureEntries(h, o, entries, n, depth, vis).0[n - 1], x);
    }
  }

  lemma {:induction false} SlotsNeverExpand(h: Heap, o: Options, slots: seq<Slot>, n: nat, depth: nat, handle: nat, vis: Visited, x: nat)
    requires h.Valid() && n <= |slots| && !Expandable(h.ObjectAt(x))
    ensures CountOf(CaptureSlots(h, o, slots, n, depth, handle, vis).0, x) == 0
    decreases Budget(o, depth), 3, n
  {
    if n > 0 {
      var (before, mid) := CaptureSlots(h, o, slots, n - 1, depth, handle, vis);
      SlotsNeverExpand(h, o, slots, n - 1, depth, handle, vis, x);
      if !slots[n - 1].value.Undef? {
        NeverExpanded(h, o, slots[n - 1].value, depth, Add(mid, handle), x);
      }
      CountOfMore(before, CaptureSlots(h, o, slots, n, depth, handle, vis).0[n - 1], x);
    }
  }

  /** Uninitialised slots show nothing and mark nothing. */
  lemma {:induction false} UninitialisedSlots(h: Heap, o: Options, slots: seq<Slot>, n: nat, depth: nat, handle: nat, vis: Visited, x: nat)
    requires h.Valid() && n <= |slots| && !AnyInitialised(slots, n)
    ensures CountOf(CaptureSlots(h, o, slots, n, depth, handle, vis).0, x) == 0
    ensures CaptureSlots(h, o, slots, n, depth, handle, vis).1 == vis
    decreases n
  {
    if n > 0 {
      var before := CaptureSlots(h, o, slots, n - 1, depth, handle, vis).0;
      UninitialisedSlots(h, o, slots, n - 1, depth, handle, vis, x);
      CountOfMore(before, CaptureSlots(h, o, slots, n, depth, handle, vis).0[n - 1], x);
    }
  }

  // ---------- where there is no room for two ----------

  lemma FirstEntry(h: Heap, o: Options, entries: seq<Entry>, n: nat, depth: nat, vis: Visited, x: nat)
    requires h.Valid() && n <= |entries| && n <= 1
    ensures CountOf(CaptureEntries(h, o, entries, n, depth, vis).0, x)
            == if n == 0 then 0 else Count(CaptureValue(h, o, entries[0].value, depth, vis).0, x)
  {
    if n == 1 {
      assert CaptureEntries(h, o, entries, 0, depth, vis) == ([], vis);
      CountOfMore([], CaptureEntries(h, o, entries, 1, depth, vis).0[0], x);
    }
  }

  lemma FirstSlot(h: Heap, o: Options, slots: seq<Slot>, n: nat, depth: nat, handle: nat, vis: Visited, x: nat)
    requires h.Valid() && n <= |slots| && n <= 1
    ensures CountOf(CaptureSlots(h, o, slots, n, depth, handle, vis).0, x)
            == if n == 0 || slots[0].value.Undef? then 0 else Count(CaptureValue(h, o, slots[0].value, depth, Add(vis, handle)).0, x)
  {
    if n == 1 {
      assert CaptureSlots(h, o, slots, 0, depth, handle, vis) == ([], vis);
      CountOfMore([], CaptureSlots(h, o, slots, 1, depth, handle, vis).0[0], x);
    }
  }

  /** An object is expanded once for itself and then as often as below it, if at all. */
  lemma TableCount(h: Heap, o: Options, handle: nat, depth: nat, vis: Visited, x: nat)
    requires h.Valid() && h.ObjectAt(handle).Table?
    ensures var props := h.ObjectAt(handle).props;
            Count(CaptureValue(h, o, Obj(handle), depth, vis).0, x)
            <= (if handle == x then 1 else 0) + CountOf(CaptureEntries(h, o, props, Cap(o.maxProps, |props|), depth + 1, Add(vis, handle)).0, x)
  {
  }

  lemma DeclaredCount(h: Heap, o: Options, handle: nat, depth: nat, vis: Visited, x: nat)
    requires h.Valid() && h.ObjectAt(handle).Declared?
    ensures var slots := h.ObjectAt(handle).slots;
            Count(CaptureValue(h, o, Obj(handle), depth, vis).0, x)
            <= (if handle == x then 1 else 0) + CountOf(CaptureSlots(h, o, Declareds(slots), ShownOf(o, slots), depth + 1, handle, vis).0, x)
  {
  }

  lemma PlainCount(h: Heap, o: Options, handle: nat, depth: nat, vis: Visited, x: nat)
    requires h.Valid() && !Expandable(h.ObjectAt(handle))
    ensures Count(CaptureValue(h, o, Obj(handle), depth, vis).0, x) == 0
  {
  }

  lemma LastObjectOnce(h: Heap, o: Options, handle: nat, depth: nat, vis: Visited, x: nat)
    requires h.Valid() && depth + 1 >= o.maxDepth
    ensures Count(CaptureValue(h, o, Obj(handle), depth, vis).0, x) <= 1
  {
    match h.ObjectAt(handle)
    case Table(_, props) =>
      TableCount(h, o, handle, depth, vis, x);
      BottomEntries(h, o, props, Cap(o.maxProps, |props|), depth + 1, Add(vis, handle), x);
    case Declared(_, slots) =>
      DeclaredCount(h, o, handle, depth, vis, x);
      BottomSlots(h, o, Declareds(slots), ShownOf(o, slots), depth + 1, handle, vis, x);
    case _ => PlainCount(h, o, handle, depth, vis, x);
  }

  /** One level above the limit only the value itself is expanded. */
  lemma {:induction false} LastLevelOnce(h: Heap, o: Options, v: Value, depth: nat, vis: Visited, x: nat)
    requires h.Valid() && depth + 1 >= o.maxDepth
    ensures Count(CaptureValue(h, o, v, depth, vis).0, x) <= 1
    decreases if v.Ref? then 1 else 0
  {
    match v
    case Ref(cell) => LastLevelOnce(h, o, h.CellAt(cell), depth, vis, x);
    case Arr(table) =>
      var entries := h.ArrayAt(table);
      BottomEntries(h, o, entries, Cap(o.maxItems, |entries|), depth + 1, vis, x);
    case Obj(handle) => LastObjectOnce(h, o, handle, depth, vis, x);
    case _ =>
  }

  /** From `v` on, every level shows one thing, but for the last one or two. */
  predicate Slim(h: Heap, o: Options, v: Value, depth: nat) {
    || (o.maxItems == 1 && o.maxProps == 1)
    || depth + 1 >= o.maxDepth
    || (depth + 2 >= o.maxDepth && ((v.Obj? && o.maxProps == 1) || (v.Arr? && o.maxItems == 1)))
  }

  lemma {:induction false} SlimOnce(h: Heap, o: Options, v: Value, depth: nat, vis: Visited, x: nat)
    requires h.Valid() && Unmarked(o, h.ObjectAt(x)) && Slim(h, o, v, depth)
    ensures Count(CaptureValue(h, o, v, depth, vis).0, x) <= 1
    decreases Budget(o, depth), if v.Ref? then 2 else 1
  {
    if depth + 1 >= o.maxDepth {
      LastLevelOnce(h, o, v, depth, vis, x);
    } else {
      match v
      case Ref(cell) => SlimOnce(h, o, h.CellAt(cell), depth, vis, x);
      case Arr(table) =>
        var entries := h.ArrayAt(table);
        if entries != [] {
          FirstEntry(h, o, entries, Cap(o.maxItems, |entries|), depth + 1, vis, x);
          SlimOnce(h, o, entries[0].value, depth + 1, vis, x);
        }
      case Obj(handle) => SlimObjectOnce(h, o, handle, depth, vis, x);
      case _ =>
    }
  }

  lemma {:induction false} SlimObjectOnce(h: Heap, o: Options, handle: nat, depth: nat, vis: Visited, x: nat)
    requires h.Valid() && Unmarked(o, h.ObjectAt(x)) && Slim(h, o, Obj(handle), depth) && depth + 1 < o.maxDepth
    ensures Count(CaptureValue(h, o, Obj(handle), depth, vis).0, x) <= 1
    decreases Budget(o, depth), 0
  {
    match h.ObjectAt(handle)
    case Table(_, _) =>
      TableCount(h, o, handle, depth, vis, x);
      SlimTableOnce(h, o, handle, depth, vis, x);
    case Declared(_, slots) =>
      DeclaredCount(h, o, handle, depth, vis, x);
      if handle == x {
        UninitialisedSlots(h, o, Declareds(slots), ShownOf(o, slots), depth + 1, handle, vis, x);
      } else {
        SlimSlotsOnce(h, o, handle, depth, vis, x);
      }
    case _ => PlainCount(h, o, handle, depth, vis, x);
  }

  lemma {:induction false} SlimTableOnce(h: Heap, o: Options, handle: nat, depth: nat, vis: Visited, x: nat)
    requires h.Valid() && Unmarked(o, h.ObjectAt(x)) && Slim(h, o, Obj(handle), depth) && depth + 1 < o.maxDepth
    requires h.ObjectAt(handle).Table?
    ensures var props := h.ObjectAt(handle).props;
            CountOf(CaptureEntries(h, o, props, Cap(o.maxProps, |props|), depth + 1, Add(vis, handle)).0, x) <= 1
    decreases Budget(o, depth + 1), 4
  {
    var props := h.ObjectAt(handle).props;
    var n := Cap(o.maxProps, |props|);
    FirstEntry(h, o, props, n, depth + 1, Add(vis, handle), x);
    if n > 0 {
      SlimOnce(h, o, props[0].value, depth + 1, Add(vis, handle), x);
    }
  }

  lemma {:induction false} SlimSlotsOnce(h: Heap, o: Options, handle: nat, depth: nat, vis: Visited, x: nat)
    requires h.Valid() && Unmarked(o, h.ObjectAt(x)) && Slim(h, o, Obj(handle), depth) && depth + 1 < o.maxDepth
    requires h.ObjectAt(handle).Declared?
    ensures var slots := h.ObjectAt(handle).slots;
            CountOf(CaptureSlots(h, o, Declareds(slots), ShownOf(o, slots), depth + 1, handle, vis).0, x) <= 1
    decreases Budget(o, depth + 1), 4
  {
    var slots := h.ObjectAt(handle).slots;
    FirstSlot(h, o, Declareds(slots), ShownOf(o, slots), depth + 1, handle, vis, x);
    if ShownOf(o, slots) > 0 {
      SlimOnce(h, o, Declareds(slots)[0].value, depth + 1, Add(vis, handle), x);
    }
  }

  /** Arrays that show one item lead to one object, so a marking object is still expanded at most once. */
  lemma {:induction false} ChainOnce(h: Heap, o: Options, v: Value, depth: nat, x: nat)
    requires h.Valid() && Marks(h, o, x) && o.maxItems == 1
    ensures Count(CaptureValue(h, o, v, depth, None).0, x) <= 1
    decreases Budget(o, depth), if v.Ref? then 2 else 1
  {
    match v
    case Ref(cell) => ChainOnce(h, o, h.CellAt(cell), depth, x);
    case Arr(table) =>
      var entries := h.ArrayAt(table);
      if entries != [] && depth < o.maxDepth {
        FirstEntry(h, o, entries, Cap(o.maxItems, |entries|), depth + 1, None, x);
        ChainOnce(h, o, entries[0].value, depth + 1, x);
      }
    case Obj(handle) => ObjectOnce(h, o, handle, depth, x);
    case _ =>
  }

  // ---------- heaps that repeat ----------

  /** Two references to the object with handle 1. */
  function Twice(): seq<Entry> {
    [Entry("a: ", Obj(1)), Entry("b: ", Obj(1))]
  }

  /** The object with handle 1 is expanded once by a reference at `depth`, and leaves the table as it was. */
  ghost predicate ExpandsAgain(h: Heap, o: Options, depth: nat, vis: Visited)
    requires h.Valid()
  {
    Count(CaptureValue(h, o, Obj(1), depth, vis).0, 1) == 1 && CaptureValue(h, o, Obj(1), depth, vis).1 == vis
  }

  lemma UnmarkedExpandsAgain(h: Heap, o: Options, depth: nat, vis: Visited)
    requires h.Valid() && Unmarked(o, h.ObjectAt(1)) && 1 !in Handles(vis) && depth < o.maxDepth
    ensures ExpandsAgain(h, o, depth, vis)
  {
    var slots := h.ObjectAt(1).slots;
    UninitialisedSlots(h, o, Declareds(slots), ShownOf(o, slots), depth + 1, 1, vis, 1);
  }

  lemma FreshExpandsAgain(h: Heap, o: Options, depth: nat)
    requires h.Valid() && Expandable(h.ObjectAt(1)) && depth < o.maxDepth
    ensures ExpandsAgain(h, o, depth, None)
  {
    if Unmarked(o, h.ObjectAt(1)) {
      UnmarkedExpandsAgain(h, o, depth, None);
    } else {
      ObjectOnce(h, o, 1, depth, 1);
    }
  }

  lemma TwiceCounts(h: Heap, o: Options, depth: nat, vis: Visited)
    requires h.Valid() && ExpandsAgain(h, o, depth, vis)
    ensures CountOf(CaptureEntries(h, o, Twice(), 2, depth, vis).0, 1) == 2
  {
    var es := Twice();
    FirstEntry(h, o, es, 1, depth, vis, 1);
    assert CaptureEntries(h, o, es, 0, depth, vis) == ([], vis);
    assert CaptureEntries(h, o, es, 1, depth, vis).1 == vis;
    CountOfMore(CaptureEntries(h, o, es, 1, depth, vis).0, CaptureEntries(h, o, es, 2, depth, vis).0[1], 1);
  }

  /** An object with two properties, both the same unmarked object. */
  lemma TableTwice(h: Heap, o: Options, depth: nat)
    requires h.Valid() && Unmarked(o, h.ObjectAt(1)) && h.ObjectAt(0) == Table("R", Twice())
    requires o.maxProps != 1 && depth + 1 < o.maxDepth
    ensures Count(CaptureValue(h, o, Obj(0), depth, None).0, 1) == 2
  {
    UnmarkedExpandsAgain(h, o, depth + 1, Add(None, 0));
    TwiceCounts(h, o, depth + 1, Add(None, 0));
  }

  lemma OneEntry(h: Heap, o: Options, v: Value, depth: nat, vis: Visited, x: nat)
    requires h.Valid()
    ensures CountOf(CaptureEntries(h, o, [Entry("l: ", v)], 1, depth, vis).0, x) == Count(CaptureValue(h, o, v, depth, vis).0, x)
  {
    FirstEntry(h, o, [Entry("l: ", v)], 1, depth, vis, x);
  }

  /** The object with handle 1 expanded twice from an object. */
  ghost predicate RepeatsFromObject(o: Options, b: Body) {
    exists h: Heap, root :: h.Valid() && 1 in h.objects && h.objects[1] == b && Count(CaptureValue(h, o, Obj(root), 0, None).0, 1) == 2
  }

  lemma RepeatsInTable(o: Options, b: Body)
    requires Unmarked(o, b) && o.maxDepth > 1 && o.maxProps != 1
    ensures RepeatsFromObject(o, b)
  {
    var h := Heap(map[], map[0 := Table("R", Twice()), 1 := b], map[]);
    TableTwice(h, o, 0);
  }

  lemma RepeatsInArray(o: Options, b: Body)
    requires Unmarked(o, b) && o.maxDepth > 2 && o.maxItems != 1
    ensures RepeatsFromObject(o, b)
  {
    var h := Heap(map[0 := Twice()], map[0 := Table("R", [Entry("l: ", Arr(0))]), 1 := b], map[]);
    UnmarkedExpandsAgain(h, o, 2, Add(None, 0));
    TwiceCounts(h, o, 2, Add(None, 0));
    OneEntry(h, o, Arr(0), 1, Add(None, 0), 1);
    assert Count(CaptureValue(h, o, Obj(0), 0, None).0, 1) == 2;
  }

  /** Rooted at an object, every unmarked body can be expanded twice, when two things fit below it. */
  lemma UnmarkedRepeats(o: Options, b: Body)
    requires Unmarked(o, b) && ObjectRoom(o)
    ensures RepeatsFromObject(o, b)
  {
    if o.maxProps != 1 {
      RepeatsInTable(o, b);
    } else {
      RepeatsInArray(o, b);
    }
  }

  /** Rooted at an array there is no shared table: every body that can be expanded can be expanded twice, when two items fit. */
  lemma ArrayRootRepeats(o: Options, b: Body)
    requires Expandable(b) && o.maxDepth > 1 && o.maxItems != 1
    ensures exists h: Heap, root :: h.Valid() && 1 in h.objects && h.objects[1] == b && Count(CaptureValue(h, o, Arr(root), 0, None).0, 1) == 2
  {
    var h := Heap(map[0 := Twice()], map[1 := b], map[]);
    FreshExpandsAgain(h, o, 1);
    TwiceCounts(h, o, 1, None);
    assert Count(CaptureValue(h, o, Arr(0), 0, None).0, 1) == 2;
  }

  lemma ArrayOfTableRepeats(o: Options, b: Body)
    requires Unmarked(o, b) && o.maxDepth > 2 && o.maxProps != 1
    ensures exists h: Heap, root :: h.Valid() && 1 in h.objects && h.objects[1] == b && Count(CaptureValue(h, o, Arr(root), 0, None).0, 1) == 2
  {
    var h := Heap(map[0 := [Entry("l: ", Obj(0))]], map[0 := Table("R", Twice()), 1 := b], map[]);
    TableTwice(h, o, 1);
    OneEntry(h, o, Obj(0), 1, None, 1);
    assert Count(CaptureValue(h, o, Arr(0), 0, None).0, 1) == 2;
  }

  // ---------- exactly when ----------

  /** On every heap, from every object, an object with this body is expanded at most once. */
  ghost predicate OnceFromObjects(o: Options, b: Body) {
    forall h: Heap, root, x :: h.Valid() && x in h.objects && h.objects[x] == b ==> Count(CaptureValue(h, o, Obj(root), 0, None).0, x) <= 1
  }

  ghost predicate OnceFromArrays(o: Options, b: Body) {
    forall h: Heap, root, x :: h.Valid() && x in h.objects && h.objects[x] == b ==> Count(CaptureValue(h, o, Arr(root), 0, None).0, x) <= 1
  }

  /** Two things can be shown below an object that is itself shown. */
  predicate ObjectRoom(o: Options) {
    (o.maxDepth > 1 && o.maxProps != 1) || (o.maxDepth > 2 && o.maxItems != 1)
  }

  /** Rooted at an object, a body is expanded at most once, on every heap, if and only if it is not a declared-slot body
      without an initialised shown slot, or the options leave no room for two. */
  lemma OnceFromObjectsIff(o: Options, b: Body)
    ensures OnceFromObjects(o, b) <==> !Unmarked(o, b) || !ObjectRoom(o)
  {
    if Unmarked(o, b) && ObjectRoom(o) {
      UnmarkedRepeats(o, b);
    } else {
      forall h: Heap, root, x | h.Valid() && x in h.objects && h.objects[x] == b
        ensures Count(CaptureValue(h, o, Obj(root), 0, None).0, x) <= 1
      {
        MarkedOr(h, o, x);
        if !Expandable(b) {
          NeverExpanded(h, o, Obj(root), 0, None, x);
        } else if Unmarked(o, b) {
          SlimOnce(h, o, Obj(root), 0, None, x);
        } else {
          ObjectOnce(h, o, root, 0, x);
        }
      }
    }
  }

  /** Rooted at an array, it is if and only if the body is never expanded at all, or neither two items of the array nor,
      for an unmarked body, two properties of an item can be shown. */
  lemma OnceFromArraysIff(o: Options, b: Body)
    ensures OnceFromArrays(o, b) <==>
              !Expandable(b) || o.maxDepth <= 1
              || (o.maxItems == 1 && (!Unmarked(o, b) || o.maxDepth <= 2 || o.maxProps == 1))
  {
    if Expandable(b) && o.maxDepth > 1 && o.maxItems != 1 {
      ArrayRootRepeats(o, b);
    } else if Unmarked(o, b) && o.maxDepth > 2 && o.maxProps != 1 {
      ArrayOfTableRepeats(o, b);
    } else {
      forall h: Heap, root, x | h.Valid() && x in h.objects && h.objects[x] == b
        ensures Count(CaptureValue(h, o, Arr(root), 0, None).0, x) <= 1
      {
        MarkedOr(h, o, x);
        if !Expandable(b) {
          NeverExpanded(h, o, Arr(root), 0, None, x);
        } else if o.maxDepth <= 1 {
          LastLevelOnce(h, o, Arr(root), 0, None, x);
        } else if Unmarked(o, b) {
          SlimOnce(h, o, Arr(root), 0, None, x);
        } else {
          ChainOnce(h, o, Arr(root), 0, x);
        }
      }
    }
  }
}
