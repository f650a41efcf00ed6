/** Capture is bounded in depth, never expands an object inside itself, and expands each marking object once. */
module CaptureTheorems {
  import opened TraceModel
  import opened Capture

  // ---------- readings of a rendered structure ----------

  function Max(a: nat, b: nat): nat { if a < b then b else a }

  /** How deep expansions are nested. */
  function Levels(out: Out): nat
    decreases out, 1
  {
    match out
    case Text(_) => 0
    case Deref(inner) => Levels(inner)
    case Nest(_, _, items, _) => 1 + LevelsOf(items)
  }

  function LevelsOf(items: seq<Item>): nat
    decreases items, 0
  {
    if items == [] then 0 else Max(LevelsOf(items[..|items| - 1]), Levels(items[|items| - 1].out))
  }

  /** How many times object `x` is expanded. */
  function Count(out: Out, x: nat): nat
    decreases out, 1
  {
    match out
    case Text(_) => 0
    case Deref(inner) => Count(inner, x)
    case Nest(_, owner, items, _) => (if owner == Some(x) then 1 else 0) + CountOf(items, x)
  }

  function CountOf(items: seq<Item>, x: nat): nat
    decreases items, 0
  {
    if items == [] then 0 else CountOf(items[..|items| - 1], x) + Count(items[|items| - 1].out, x)
  }

  /** No object of `open` is expanded, and none is expanded inside its own expansion. */
  predicate Unnested(out: Out, open: set<nat>)
    decreases out, 1
  {
    match out
    case Text(_) => true
    case Deref(inner) => Unnested(inner, open)
    case Nest(_, owner, items, _) =>
      match owner
      case None => UnnestedAll(items, open)
      case Some(x) => x !in open && UnnestedAll(items, open + {x})
  }

  predicate UnnestedAll(items: seq<Item>, open: set<nat>)
    decreases items, 0
  {
    items == [] || (UnnestedAll(items[..|items| - 1], open) && Unnested(items[|items| - 1].out, open))
  }

  lemma LevelsOfMore(items: seq<Item>, more: Item)
    ensures LevelsOf(items + [more]) == Max(LevelsOf(items), Levels(more.out))
  {
    assert (items + [more])[..|items|] == items;
  }

  lemma CountOfMore(items: seq<Item>, more: Item, x: nat)
    ensures CountOf(items + [more], x) == CountOf(items, x) + Count(more.out, x)
  {
    assert (items + [more])[..|items|] == items;
  }

  lemma UnnestedMore(items: seq<Item>, more: Item, open: set<nat>)
    ensures UnnestedAll(items + [more], open) == (UnnestedAll(items, open) && Unnested(more.out, open))
  {
    assert (items + [more])[..|items|] == items;
  }

  // ---------- which objects are marked as visited ----------

  predicate AnyInitialised(slots: seq<Slot>, n: nat)
    requires n <= |slots|
  {
    exists i :: 0 <= i < n && !slots[i].value.Undef?
  }

  /** How many of the declared slots are shown. */
  function ShownOf(o: Options, slots: seq<Slot>): nat {
    Cap(o.maxProps, |Declareds(slots)|)
  }

  /** An object is marked when its property table exists or one of the declared slots shown is initialised. */
  predicate Marks(h: Heap, o: Options, handle: nat) {
    match h.ObjectAt(handle)
    case Table(_, _) => true
    case Declared(_, slots) => AnyInitialised(Declareds(slots), ShownOf(o, slots))
    case _ => false
  }

  function Handles(vis: Visited): set<nat> {
    if vis.None? then {} else vis.value
  }

  function In(x: nat, vis: Visited): nat {
    if x in Handles(vis) then 1 else 0
  }

  lemma AddedIsIn(x: nat, vis: Visited, handle: nat)
    ensures In(x, Add(vis, handle)) == if x == handle then 1 else In(x, vis)
  {
  }

  // ---------- nesting ----------

  lemma {:induction false} LevelsWithinBudget(h: Heap, o: Options, v: Value, depth: nat, vis: Visited)
    requires h.Valid()
    ensures Levels(CaptureValue(h, o, v, depth, vis).0) <= Budget(o, depth)
    decreases Budget(o, depth), if v.Ref? then 2 else 1, 0
  {
    match v
    case Ref(cell) => LevelsWithinBudget(h, o, h.CellAt(cell), depth, vis);
    case Arr(table) =>
      var entries := h.ArrayAt(table);
      if entries != [] && depth < o.maxDepth {
        EntriesWithinBudget(h, o, entries, Cap(o.maxItems, |entries|), depth + 1, vis);
      }
    case Obj(handle) =>
      if depth < o.maxDepth {
        match h.ObjectAt(handle)
        case Table(_, props) => EntriesWithinBudget(h, o, props, Cap(o.maxProps, |props|), depth + 1, Add(vis, handle));
        case Declared(_, slots) => SlotsWithinBudget(h, o, Declareds(slots), ShownOf(o, slots), depth + 1, handle, vis);
        case _ =>
      }
    case _ =>
  }

  lemma {:induction false} EntriesWithinBudget(h: Heap, o: Options, entries: seq<Entry>, n: nat, depth: nat, vis: Visited)
    requires h.Valid() && n <= |entries|
    ensures LevelsOf(CaptureEntries(h, o, entries, n, depth, vis).0) <= Budget(o, depth)
    decreases Budget(o, depth), 3, n
  {
    if n > 0 {
      var (before, mid) := CaptureEntries(h, o, entries, n - 1, depth, vis);
      EntriesWithinBudget(h, o, entries, n - 1, depth, vis);
      LevelsWithinBudget(h, o, entries[n - 1].value, depth, mid);
      LevelsOfMore(before, CaptureEntries(h, o, entries, n, depth, vis).0[n - 1]);
    }
  }

  lemma {:induction false} SlotsWithinBudget(h: Heap, o: Options, slots: seq<Slot>, n: nat, depth: nat, handle: nat, vis: Visited)
    requires h.Valid() && n <= |slots|
    ensures LevelsOf(CaptureSlots(h, o, slots, n, depth, handle, vis).0) <= Budget(o, depth)
    decreases Budget(o, depth), 3, n
  {
    if n > 0 {
      var (before, mid) := CaptureSlots(h, o, slots, n - 1, depth, handle, vis);
      SlotsWithinBudget(h, o, slots, n - 1, depth, handle, vis);
      if !slots[n - 1].value.Undef? {
        LevelsWithinBudget(h, o, slots[n - 1].value, depth, Add(mid, handle));
      }
      LevelsOfMore(before, CaptureSlots(h, o, slots, n, depth, handle, vis).0[n - 1]);
    }
  }

  // ---------- no expansion inside itself ----------

  ghost predicate Grown(before: Visited, after: Visited) {
    before.None? == after.None? && Handles(before) <= Handles(after)
  }

  /** Whatever is being expanded is in the table handed down, so it is not expanded again below. */
  lemma {:induction false} NeverInsideItself(h: Heap, o: Options, v: Value, depth: nat, vis: Visited, open: set<nat>)
    requires h.Valid() && open <= Handles(vis)
    ensures Unnested(CaptureValue(h, o, v, depth, vis).0, open)
    ensures Grown(vis, CaptureValue(h, o, v, depth, vis).1)
    decreases Budget(o, depth), if v.Ref? then 2 else 1, 0
  {
    match v
    case Ref(cell) => NeverInsideItself(h, o, h.CellAt(cell), depth, vis, open);
    case Arr(table) =>
      var entries := h.ArrayAt(table);
      if entries != [] && depth < o.maxDepth {
        EntriesUnnested(h, o, entries, Cap(o.maxItems, |entries|), depth + 1, vis, open);
      }
    case Obj(handle) =>
      if handle !in Handles(vis) && depth < o.maxDepth {
        match h.ObjectAt(handle)
        case Table(_, props) => EntriesUnnested(h, o, props, Cap(o.maxProps, |props|), depth + 1, Add(vis, handle), open + {handle});
        case Declared(_, slots) => SlotsUnnested(h, o, Declareds(slots), ShownOf(o, slots), depth + 1, handle, vis, open);
        case _ =>
      }
    case _ =>
  }

  lemma {:induction false} EntriesUnnested(h: Heap, o: Options, entries: seq<Entry>, n: nat, depth: nat, vis: Visited, open: set<nat>)
    requires h.Valid() && n <= |entries| && open <= Handles(vis)
    ensures UnnestedAll(CaptureEntries(h, o, entries, n, depth, vis).0, open)
    ensures Grown(vis, CaptureEntries(h, o, entries, n, depth, vis).1)
    decreases Budget(o, depth), 3, n
  {
    if n > 0 {
      var (before, mid) := CaptureEntries(h, o, entries, n - 1, depth, vis);
      EntriesUnnested(h, o, entries, n - 1, depth, vis, open);
      NeverInsideItself(h, o, entries[n - 1].value, depth, mid, open);
      UnnestedMore(before, CaptureEntries(h, o, entries, n, depth, vis).0[n - 1], open);
    }
  }

  lemma {:induction false} SlotUnnested(h: Heap, o: Options, v: Value, depth: nat, handle: nat, mid: Visited, open: set<nat>)
    requires h.Valid() && open <= Handles(mid)
    ensures var (out, after) := CaptureValue(h, o, v, depth, Add(mid, handle));
            Unnested(out, open + {handle}) && Handles(mid) <= Handles(after) && after.Some?
    decreases Budget(o, depth), 2, 1
  {
    NeverInsideItself(h, o, v, depth, Add(mid, handle), open + {handle});
  }

  /** The slots shown so far, one more, and the table each of them leaves. */
  lemma SlotsUnfold(h: Heap, o: Options, slots: seq<Slot>, n: nat, depth: nat, handle: nat, vis: Visited)
    requires h.Valid() && 0 < n <= |slots|
    ensures var (before, mid) := CaptureSlots(h, o, slots, n - 1, depth, handle, vis);
            var (out, after) := if slots[n - 1].value.Undef? then (Text("<uninit>"), mid)
                                else CaptureValue(h, o, slots[n - 1].value, depth, Add(mid, handle));
            CaptureSlots(h, o, slots, n, depth, handle, vis) == (before + [Item(slots[n - 1].key, out)], after)
  {
  }

  /** Whatever was in the table stays, and a table stays a table. */
  ghost predicate Kept(before: Visited, after: Visited) {
    Handles(before) <= Handles(after) && (before.Some? ==> after.Some?)
  }

  lemma {:induction false} SlotsUnnested(h: Heap, o: Options, slots: seq<Slot>, n: nat, depth: nat, handle: nat, vis: Visited, open: set<nat>)
    requires h.Valid() && n <= |slots| && open <= Handles(vis)
    ensures UnnestedAll(CaptureSlots(h, o, slots, n, depth, handle, vis).0, open + {handle})
    ensures Kept(vis, CaptureSlots(h, o, slots, n, depth, handle, vis).1)
    decreases Budget(o, depth), 3, n
  {
    if n > 0 {
      var before, mid := CaptureSlots(h, o, slots, n - 1, depth, handle, vis).0, CaptureSlots(h, o, slots, n - 1, depth, handle, vis).1;
      var key, v := slots[n - 1].key, slots[n - 1].value;
      SlotsUnnested(h, o, slots, n - 1, depth, handle, vis, open);
      SlotsUnfold(h, o, slots, n, depth, handle, vis);
      if v.Undef? {
        UnnestedMore(before, Item(key, Text("<uninit>")), open + {handle});
      } else {
        SlotUnnested(h, o, v, depth, handle, mid, open);
        UnnestedMore(before, Item(key, CaptureValue(h, o, v, depth, Add(mid, handle)).0), open + {handle});
      }
    }
  }

  // ---------- each marking object once ----------

  /** Expansions of a marking object and its entry in the table are one ledger. */
  lemma {:induction false} CountsMatchTable(h: Heap, o: Options, v: Value, depth: nat, vis: Visited, x: nat)
    requires h.Valid() && Marks(h, o, x) && vis.Some?
    ensures CaptureValue(h, o, v, depth, vis).1.Some?
    ensures Count(CaptureValue(h, o, v, depth, vis).0, x) + In(x, vis) == In(x, CaptureValue(h, o, v, depth, vis).1)
    decreases Budget(o, depth), if v.Ref? then 2 else 1, 0
  {
    match v
    case Ref(cell) => CountsMatchTable(h, o, h.CellAt(cell), depth, vis, x);
    case Arr(table) =>
      var entries := h.ArrayAt(table);
      if entries != [] && depth < o.maxDepth {
        EntriesMatchTable(h, o, entries, Cap(o.maxItems, |entries|), depth + 1, vis, x);
      }
    case Obj(handle) =>
      if handle !in vis.value && depth < o.maxDepth {
        ObjectMatchesTable(h, o, handle, depth, vis, x);
      }
    case _ =>
  }

  lemma {:induction false} ObjectMatchesTable(h: Heap, o: Options, handle: nat, depth: nat, vis: Visited, x: nat)
    requires h.Valid() && Marks(h, o, x) && vis.Some? && handle !in vis.value && depth < o.maxDepth
    ensures CaptureValue(h, o, Obj(handle), depth, vis).1.Some?
    ensures Count(CaptureValue(h, o, Obj(handle), depth, vis).0, x) + In(x, vis) == In(x, CaptureValue(h, o, Obj(handle), depth, vis).1)
    decreases Budget(o, depth), 0, 1
  {
    match h.ObjectAt(handle)
    case Table(_, props) =>
      AddedIsIn(x, vis, handle);
      EntriesMatchTable(h, o, props, Cap(o.maxProps, |props|), depth + 1, Add(vis, handle), x);
    case Declared(_, slots) =>
      if x == handle {
        OwnSlotsMatchTable(h, o, Declareds(slots), ShownOf(o, slots), depth + 1, vis, x);
      } else {
        SlotsMatchTable(h, o, Declareds(slots), ShownOf(o, slots), depth + 1, handle, vis, x);
      }
    case _ =>
  }

  /** The entries shown so far, one more, and the table it leaves. */
  lemma EntriesUnfold(h: Heap, o: Options, entries: seq<Entry>, n: nat, depth: nat, vis: Visited)
    requires h.Valid() && 0 < n <= |entries|
    ensures var (before, mid) := CaptureEntries(h, o, entries, n - 1, depth, vis);
            var (out, after) := CaptureValue(h, o, entries[n - 1].value, depth, mid);
            CaptureEntries(h, o, entries, n, depth, vis) == (before + [Item(entries[n - 1].key, out)], after)
  {
  }

  lemma {:induction false} EntriesMatchTable(h: Heap, o: Options, entries: seq<Entry>, n: nat, depth: nat, vis: Visited, x: nat)
    requires h.Valid() && n <= |entries| && Marks(h, o, x) && vis.Some?
    ensures CaptureEntries(h, o, entries, n, depth, vis).1.Some?
    ensures CountOf(CaptureEntries(h, o, entries, n, depth, vis).0, x) + In(x, vis) == In(x, CaptureEntries(h, o, entries, n, depth, vis).1)
    decreases Budget(o, depth), 3, n
  {
    if n > 0 {
      var before, mid := CaptureEntries(h, o, entries, n - 1, depth, vis).0, CaptureEntries(h, o, entries, n - 1, depth, vis).1;
      EntriesMatchTable(h, o, entries, n - 1, depth, vis, x);
      CountsMatchTable(h, o, entries[n - 1].value, depth, mid, x);
      EntriesUnfold(h, o, entries, n, depth, vis);
      CountOfMore(before, Item(entries[n - 1].key, CaptureValue(h, o, entries[n - 1].value, depth, mid).0), x);
    }
  }

  /** In the slots of another object the ledger is kept. */
  lemma {:induction false} SlotsMatchTable(h: Heap, o: Options, slots: seq<Slot>, n: nat, depth: nat, handle: nat, vis: Visited, x: nat)
    requires h.Valid() && n <= |slots| && Marks(h, o, x) && x != handle
    ensures vis.Some? ==> CaptureSlots(h, o, slots, n, depth, handle, vis).1.Some?
    ensures CountOf(CaptureSlots(h, o, slots, n, depth, handle, vis).0, x) + In(x, vis) == In(x, CaptureSlots(h, o, slots, n, depth, handle, vis).1)
    decreases Budget(o, depth), 3, n
  {
    if n > 0 {
      var (before, mid) := CaptureSlots(h, o, slots, n - 1, depth, handle, vis);
      SlotsMatchTable(h, o, slots, n - 1, depth, handle, vis, x);
      if !slots[n - 1].value.Undef? {
        AddedIsIn(x, mid, handle);
        CountsMatchTable(h, o, slots[n - 1].value, depth, Add(mid, handle), x);
      }
      CountOfMore(before, CaptureSlots(h, o, slots, n, depth, handle, vis).0[n - 1], x);
    }
  }

  lemma {:induction false} OwnSlotMatchesTable(h: Heap, o: Options, v: Value, depth: nat, mid: Visited, x: nat)
    requires h.Valid() && Marks(h, o, x)
    ensures var (out, after) := CaptureValue(h, o, v, depth, Add(mid, x)); Count(out, x) == 0 && after.Some? && In(x, after) == 1
    decreases Budget(o, depth), 2, 1
  {
    AddedIsIn(x, mid, x);
    CountsMatchTable(h, o, v, depth, Add(mid, x), x);
  }

  /** In the slots of `x` itself the only new entry is its mark. */
  lemma {:induction false} OwnSlotsMatchTable(h: Heap, o: Options, slots: seq<Slot>, n: nat, depth: nat, vis: Visited, x: nat)
    requires h.Valid() && n <= |slots| && Marks(h, o, x)
    ensures vis.Some? ==> CaptureSlots(h, o, slots, n, depth, x, vis).1.Some?
    ensures CountOf(CaptureSlots(h, o, slots, n, depth, x, vis).0, x) == 0
    ensures In(x, CaptureSlots(h, o, slots, n, depth, x, vis).1) == if AnyInitialised(slots, n) then 1 else In(x, vis)
    decreases Budget(o, depth), 3, n
  {
    if n > 0 {
      var (before, mid) := CaptureSlots(h, o, slots, n - 1, depth, x, vis);
      OwnSlotsMatchTable(h, o, slots, n - 1, depth, vis, x);
      if !slots[n - 1].value.Undef? {
        OwnSlotMatchesTable(h, o, slots[n - 1].value, depth, mid, x);
        assert AnyInitialised(slots, n);
      }
      CountOfMore(before, CaptureSlots(h, o, slots, n, depth, x, vis).0[n - 1], x);
    }
  }

  // ---------- a capture from the outside ----------

  /** Every capture, of every value on every heap, nests at most `maxDepth` deep and nothing inside itself. */
  lemma CaptureIsBounded(h: Heap, o: Options, v: Value)
    requires h.Valid()
    ensures Levels(CaptureValue(h, o, v, 0, None).0) <= if o.maxDepth > 0 then o.maxDepth else 0
    ensures Unnested(CaptureValue(h, o, v, 0, None).0, {})
  {
    LevelsWithinBudget(h, o, v, 0, None);
    NeverInsideItself(h, o, v, 0, None, {});
  }

  /** An object at any depth, with no table handed down, expands a marking object at most once. */
  lemma ObjectOnce(h: Heap, o: Options, root: nat, depth: nat, x: nat)
    requires h.Valid() && Marks(h, o, x)
    ensures Count(CaptureValue(h, o, Obj(root), depth, None).0, x) <= 1
  {
    if depth < o.maxDepth {
      match h.ObjectAt(root)
      case Table(_, props) => EntriesMatchTable(h, o, props, Cap(o.maxProps, |props|), depth + 1, Add(None, root), x);
      case Declared(_, slots) =>
        if x == root {
          OwnSlotsMatchTable(h, o, Declareds(slots), ShownOf(o, slots), depth + 1, None, x);
        } else {
          SlotsMatchTable(h, o, Declareds(slots), ShownOf(o, slots), depth + 1, root, None, x);
        }
      case _ =>
    }
  }

  /** Rooted at an object, a capture expands an object twice only if that object is never marked. */
  lemma OncePerObject(h: Heap, o: Options, root: nat, x: nat)
    requires h.Valid()
    ensures Count(CaptureValue(h, o, Obj(root), 0, None).0, x) > 1 ==> !Marks(h, o, x)
  {
    if Marks(h, o, x) {
      ObjectOnce(h, o, root, 0, x);
    }
  }
}
