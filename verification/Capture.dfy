/** Rendering of PHP values into bounded text: depth-limited, and safe on cyclic heaps. */
module Capture {
  import opened TraceModel
  import opened DaemonMessages

  datatype Options = Options(maxDepth: int, maxString: int, maxItems: int, maxProps: int)

  /** A value as the engine holds it: arrays, objects and references point into the heap.
      `Scalar` is any value whose text depends on nothing else. */
  datatype Value = Undef | Scalar(text: string) | Str(bytes: string) | Arr(table: nat) | Obj(handle: nat) | Ref(cell: nat)

  datatype Entry = Entry(key: string, value: Value)
  datatype Slot = Slot(isStatic: bool, key: string, value: Value)

  /** What the renderer looks at in an object. */
  datatype Body =
    | Special(text: string)                             // enum case or closure: a fixed text
    | Lazy(name: string)                                // has __get
    | Table(name: string, props: seq<Entry>)            // property table built
    | Declared(name: string, slots: seq<Slot>)          // declared slots only

  datatype Heap = Heap(arrays: map<nat, seq<Entry>>, objects: map<nat, Body>, cells: map<nat, Value>) {
    /** A reference never holds a reference. */
    ghost predicate Valid() {
      forall c :: c in cells ==> !cells[c].Ref?
    }

    function ArrayAt(a: nat): seq<Entry> { if a in arrays then arrays[a] else [] }
    function ObjectAt(o: nat): Body { if o in objects then objects[o] else Special("") }
    function CellAt(c: nat): Value { if c in cells then cells[c] else Undef }
  }

  // ---------- texts ----------

  // An ellipsis is the bytes E2 80 A6, an open circle arrow E2 86 BB.

  function HexByte(c: char): string
    requires c as int < 256
  {
    ['\\', 'x', HexDigit(c as int / 16), HexDigit(c as int % 16)]
  }

  function QuotedChar(c: char): string {
    if c == '"' || c == '\\' then ['\\', c]
    else if c as int < 32 || c as int == 127 then HexByte(c)
    else [c]
  }

  function QuotedBody(s: string): string {
    if s == [] then [] else QuotedBody(s[..|s| - 1]) + QuotedChar(s[|s| - 1])
  }

  function Shown(len: nat, max: int): nat {
    if max > 0 && len > max then max else len
  }

  function QuotedString(s: string, max: int): string {
    var shown := Shown(|s|, max);
    QuotedHead(|s|) + QuotedBody(s[..shown]) + QuotedFoot(|s|, shown)
  }

  function QuotedHead(total: nat): string {
    "string(" + Decimal(total) + ") \""
  }

  function QuotedFoot(total: nat, shown: nat): string {
    if total > shown then "\U{E2}\U{80}\U{A6}+" + Decimal(total - shown) + "\"" else "\""
  }

  lemma Enclose(a: string, h: string, s: string, i: string, f: string)
    ensures a + h + s + i + f == a + (h + s + i + f)
  {
  }

  lemma AppendItem(a: string, i: string, s: string, k: string, r: string)
    ensures a + i + s + k + r == a + (i + s + k + r)
  {
  }

  lemma AppendParts(a: string, b: string, c: string, d: string)
    ensures a + b + c + d == a + (b + c + d)
  {
  }

  function DepthMark(): string {
    " <\U{E2}\U{80}\U{A6}depth>"
  }

  function ArrayHead(total: nat): string {
    "array(" + Decimal(total) + ")"
  }

  function ArrayFoot(shown: nat, total: nat): string {
    if shown < total then ", <\U{E2}\U{80}\U{A6}items+" + Decimal(total - shown) + ">]" else "]"
  }

  function ObjectHead(name: string, handle: nat): string {
    "object(" + name + ")#" + Decimal(handle)
  }

  function ObjectFoot(shown: nat, total: nat): string {
    if shown < total then ", <\U{E2}\U{80}\U{A6}props+" + Decimal(total - shown) + ">}" else "}"
  }

  function RecursionMark(handle: nat): string {
    "<recursion \U{E2}\U{86}\U{BB} #" + Decimal(handle) + ">"
  }

  // ---------- the rendered structure ----------

  datatype Out =
    | Text(text: string)
    | Deref(value: Out)
    | Nest(head: string, owner: Option<nat>, items: seq<Item>, foot: string)
  datatype Item = Item(key: string, out: Out)

  function Render(out: Out): string
    decreases out, 1
  {
    match out
    case Text(text) => text
    case Deref(value) => "ref->" + Render(value)
    case Nest(head, _, items, foot) => head + RenderItems(items) + foot
  }

  function RenderItems(items: seq<Item>): string
    decreases items, 0
  {
    if items == [] then []
    else
      RenderItems(items[..|items| - 1]) + Comma(|items| - 1) + items[|items| - 1].key + Render(items[|items| - 1].out)
  }

  function Comma(i: nat): string {
    if i > 0 then ", " else ""
  }

  // ---------- what capturing computes ----------

  type Visited = Option<set<nat>>

  function Add(vis: Visited, handle: nat): Visited {
    Some((if vis.Some? then vis.value else {}) + {handle})
  }

  /** What the caller sees of its own visited table; without one, whatever was allocated below stays below. */
  function Seen(before: Visited, after: Visited): Visited {
    if before.None? then None else after
  }

  function Budget(o: Options, depth: nat): nat {
    if depth < o.maxDepth then o.maxDepth - depth else 0
  }

  function Cap(limit: int, total: nat): nat {
    if 0 < limit < total then limit else total
  }

  function Declareds(slots: seq<Slot>): seq<Slot> {
    if slots == [] then [] else Declareds(slots[..|slots| - 1]) + (if slots[|slots| - 1].isStatic then [] else [slots[|slots| - 1]])
  }

  function CaptureValue(h: Heap, o: Options, v: Value, depth: nat, vis: Visited): (r: (Out, Visited))
    requires h.Valid()
    decreases Budget(o, depth), if v.Ref? then 2 else 1, 0
  {
    match v
    case Undef => (Text("undef"), vis)
    case Scalar(text) => (Text(text), vis)
    case Str(bytes) => (Text(QuotedString(bytes, o.maxString)), vis)
    case Ref(cell) =>
      assert !h.CellAt(cell).Ref?;
      var (out, vis') := CaptureValue(h, o, h.CellAt(cell), depth, vis);
      (Deref(out), vis')
    case Arr(table) =>
      var entries := h.ArrayAt(table);
      var head := ArrayHead(|entries|);
      if entries == [] then (Text(head + " []"), vis)
      else if depth >= o.maxDepth then (Text(head + DepthMark()), vis)
      else
        var n := Cap(o.maxItems, |entries|);
        var (items, vis') := CaptureEntries(h, o, entries, n, depth + 1, vis);
        (Nest(head + " [", None, items, ArrayFoot(n, |entries|)), vis')
    case Obj(handle) =>
      if vis.Some? && handle in vis.value then (Text(RecursionMark(handle)), vis)
      else
        match h.ObjectAt(handle)
        case Special(text) => (Text(text), vis)
        case Lazy(name) => (Text(ObjectHead(name, handle) + " <lazy>"), vis)
        case Table(name, props) =>
          if depth >= o.maxDepth then (Text(ObjectHead(name, handle) + DepthMark()), vis)
          else
            var n := Cap(o.maxProps, |props|);
            var (items, after) := CaptureEntries(h, o, props, n, depth + 1, Add(vis, handle));
            (Nest(ObjectHead(name, handle) + " {", Some(handle), items, ObjectFoot(n, |props|)), Seen(vis, after))
        case Declared(name, slots) =>
          if depth >= o.maxDepth then (Text(ObjectHead(name, handle) + DepthMark()), vis)
          else
            var own := Declareds(slots);
            var (items, after) := CaptureSlots(h, o, own, Cap(o.maxProps, |own|), depth + 1, handle, vis);
            (Nest(ObjectHead(name, handle) + " {", Some(handle), items, "}"), Seen(vis, after))
  }

  /** The first `n` entries. */
  function CaptureEntries(h: Heap, o: Options, entries: seq<Entry>, n: nat, depth: nat, vis: Visited): (r: (seq<Item>, Visited))
    requires h.Valid() && n <= |entries|
    ensures |r.0| == n
    decreases Budget(o, depth), 3, n
  {
    if n == 0 then ([], vis)
    else
      var (before, mid) := CaptureEntries(h, o, entries, n - 1, depth, vis);
      var (out, after) := CaptureValue(h, o, entries[n - 1].value, depth, mid);
      (before + [Item(entries[n - 1].key, out)], after)
  }

  /** The first `n` declared slots: an uninitialised one is only named; before the first initialised one is entered
      the object is marked. */
  function CaptureSlots(h: Heap, o: Options, slots: seq<Slot>, n: nat, depth: nat, handle: nat, vis: Visited): (r: (seq<Item>, Visited))
    requires h.Valid() && n <= |slots|
    ensures |r.0| == n
    decreases Budget(o, depth), 3, n
  {
    if n == 0 then ([], vis)
    else
      var (before, mid) := CaptureSlots(h, o, slots, n - 1, depth, handle, vis);
      if slots[n - 1].value.Undef? then (before + [Item(slots[n - 1].key, Text("<uninit>"))], mid)
      else
        var (out, after) := CaptureValue(h, o, slots[n - 1].value, depth, Add(mid, handle));
        (before + [Item(slots[n - 1].key, out)], after)
  }

  lemma RenderMore(items: seq<Item>, more: Item)
    ensures RenderItems(items + [more]) == RenderItems(items) + Comma(|items|) + more.key + Render(more.out)
  {
    assert (items + [more])[..|items|] == items;
  }

  // ---------- the renderer ----------

  /** A table of visited handles, shared by pointer. */
  class VisitedTable {
    var handles: set<nat>
    constructor () ensures handles == {} { handles := {}; }
  }

  ghost function VisitedOf(t: VisitedTable?): Visited
    reads t
  {
    if t == null then None else Some(t.handles)
  }

  lemma TableRenders(h: Heap, o: Options, handle: nat, depth: nat, vis: Visited)
    requires h.Valid() && depth < o.maxDepth && h.ObjectAt(handle).Table? && (vis == None || handle !in vis.value)
    ensures var body := h.ObjectAt(handle);
            var n := Cap(o.maxProps, |body.props|);
            var (items, after) := CaptureEntries(h, o, body.props, n, depth + 1, Add(vis, handle));
            && Render(CaptureValue(h, o, Obj(handle), depth, vis).0)
                 == ObjectHead(body.name, handle) + " {" + RenderItems(items) + ObjectFoot(n, |body.props|)
            && CaptureValue(h, o, Obj(handle), depth, vis).1 == Seen(vis, after)
  {
  }

  lemma DeclaredRenders(h: Heap, o: Options, handle: nat, depth: nat, vis: Visited)
    requires h.Valid() && depth < o.maxDepth && h.ObjectAt(handle).Declared? && (vis == None || handle !in vis.value)
    ensures var body := h.ObjectAt(handle);
            var own := Declareds(body.slots);
            var (items, after) := CaptureSlots(h, o, own, Cap(o.maxProps, |own|), depth + 1, handle, vis);
            && Render(CaptureValue(h, o, Obj(handle), depth, vis).0) == ObjectHead(body.name, handle) + " {" + RenderItems(items) + "}"
            && CaptureValue(h, o, Obj(handle), depth, vis).1 == Seen(vis, after)
  {
  }

  class Renderer {
    const h: Heap
    const o: Options
    var buf: string

    constructor (h: Heap, o: Options)
      ensures this.h == h && this.o == o && buf == []
    {
      this.h, this.o := h, o;
      buf := [];
    }

    method Append(s: string)
      modifies this
      ensures buf == old(buf) + s
    {
      buf := buf + s;
    }

    method AppendQuoted(s: string)
      modifies this
      ensures buf == old(buf) + QuotedString(s, o.maxString)
    {
      var shown := Shown(|s|, o.maxString);
      Append(QuotedHead(|s|));
      AppendBody(s[..shown]);
      Append(QuotedFoot(|s|, shown));
      AppendParts(old(buf), QuotedHead(|s|), QuotedBody(s[..shown]), QuotedFoot(|s|, shown));
    }

    method AppendBody(s: string)
      modifies this
      ensures buf == old(buf) + QuotedBody(s)
    {
      for i := 0 to |s|
        invariant buf == old(buf) + QuotedBody(s[..i])
      {
        assert s[..i + 1][..i] == s[..i];
        Append(QuotedChar(s[i]));
        assert QuotedBody(s[..i + 1]) == QuotedBody(s[..i]) + QuotedChar(s[i]);
        Associate(old(buf), QuotedBody(s[..i]), QuotedChar(s[i]));
      }
      assert s[..|s|] == s;
    }

    method CaptureRecursive(v: Value, depth: nat, visited: VisitedTable?)
      requires h.Valid()
      modifies this, visited
      ensures buf == old(buf) + Render(CaptureValue(h, o, v, depth, old(VisitedOf(visited))).0)
      ensures VisitedOf(visited) == CaptureValue(h, o, v, depth, old(VisitedOf(visited))).1
      decreases Budget(o, depth), if v.Ref? then 2 else 1, 1
    {
      match v
      case Undef => Append("undef");
      case Scalar(text) => Append(text);
      case Str(bytes) => AppendQuoted(bytes);
      case Arr(table) => CaptureArray(table, depth, visited);
      case Obj(handle) => CaptureObject(handle, depth, visited);
      case Ref(cell) =>
        Append("ref->");
        CaptureRecursive(h.CellAt(cell), depth, visited);
    }

    method CaptureArray(table: nat, depth: nat, visited: VisitedTable?)
      requires h.Valid()
      modifies this, visited
      ensures buf == old(buf) + Render(CaptureValue(h, o, Arr(table), depth, old(VisitedOf(visited))).0)
      ensures VisitedOf(visited) == CaptureValue(h, o, Arr(table), depth, old(VisitedOf(visited))).1
      decreases Budget(o, depth), 1, 0
    {
      var entries := h.ArrayAt(table);
      ghost var before := buf;
      var head := ArrayHead(|entries|);
      Append(head);
      if entries == [] {
        Append(" []");
        Associate(before, head, " []");
      } else if depth >= o.maxDepth {
        Append(DepthMark());
        Associate(before, head, DepthMark());
      } else {
        var n := Cap(o.maxItems, |entries|);
        Append(" [");
        ghost var (items, after) := CaptureEntries(h, o, entries, n, depth + 1, VisitedOf(visited));
        CaptureFirst(entries, n, depth + 1, visited);
        Append(ArrayFoot(n, |entries|));
        Enclose(before, head, " [", RenderItems(items), ArrayFoot(n, |entries|));
      }
    }

    /** The loop over the first `n` entries of an array or a property table. */
    method CaptureFirst(entries: seq<Entry>, n: nat, depth: nat, visited: VisitedTable?)
      requires h.Valid() && n <= |entries|
      modifies this, visited
      ensures buf == old(buf) + RenderItems(CaptureEntries(h, o, entries, n, depth, old(VisitedOf(visited))).0)
      ensures VisitedOf(visited) == CaptureEntries(h, o, entries, n, depth, old(VisitedOf(visited))).1
      decreases Budget(o, depth), 3, 0
    {
      ghost var start, vis := buf, VisitedOf(visited);
      for i := 0 to n
        invariant buf == start + RenderItems(CaptureEntries(h, o, entries, i, depth, vis).0)
        invariant VisitedOf(visited) == CaptureEntries(h, o, entries, i, depth, vis).1
      {
        ghost var items, mid := CaptureEntries(h, o, entries, i, depth, vis).0, VisitedOf(visited);
        ghost var out := CaptureValue(h, o, entries[i].value, depth, mid).0;
        CaptureEntry(entries[i], i, depth, visited);
        RenderMore(items, Item(entries[i].key, out));
        AppendItem(start, RenderItems(items), Comma(i), entries[i].key, Render(out));
      }
    }

    method CaptureEntry(entry: Entry, i: nat, depth: nat, visited: VisitedTable?)
      requires h.Valid()
      modifies this, visited
      ensures buf == old(buf) + Comma(i) + entry.key + Render(CaptureValue(h, o, entry.value, depth, old(VisitedOf(visited))).0)
      ensures VisitedOf(visited) == CaptureValue(h, o, entry.value, depth, old(VisitedOf(visited))).1
      decreases Budget(o, depth), 2, 2
    {
      if i > 0 {
        Append(", ");
      }
      Append(entry.key);
      CaptureRecursive(entry.value, depth, visited);
    }

    method CaptureObject(handle: nat, depth: nat, visited: VisitedTable?)
      requires h.Valid()
      modifies this, visited
      ensures buf == old(buf) + Render(CaptureValue(h, o, Obj(handle), depth, old(VisitedOf(visited))).0)
      ensures VisitedOf(visited) == CaptureValue(h, o, Obj(handle), depth, old(VisitedOf(visited))).1
      decreases Budget(o, depth), 1, 0
    {
      if visited != null && handle in visited.handles {
        Append(RecursionMark(handle));
        return;
      }
      var body := h.ObjectAt(handle);
      if body.Special? {
        Append(body.text);
        return;
      }
      ghost var before := buf;
      var head := ObjectHead(body.name, handle);
      Append(head);
      if body.Lazy? {
        Append(" <lazy>");
        Associate(before, head, " <lazy>");
      } else if depth >= o.maxDepth {
        Append(DepthMark());
        Associate(before, head, DepthMark());
      } else {
        Append(" {");
        ghost var inner, foot := CaptureInside(handle, body, depth, visited);
        Enclose(before, head, " {", inner, foot);
      }
    }

    /** What stands in the braces of an expanded object, and the closing one. */
    method CaptureInside(handle: nat, body: Body, depth: nat, visited: VisitedTable?) returns (ghost inner: string, ghost foot: string)
      requires h.Valid() && depth < o.maxDepth && body == h.ObjectAt(handle) && (body.Table? || body.Declared?)
      requires visited == null || handle !in visited.handles
      modifies this, visited
      ensures Render(CaptureValue(h, o, Obj(handle), depth, old(VisitedOf(visited))).0) == ObjectHead(body.name, handle) + " {" + inner + foot
      ensures VisitedOf(visited) == CaptureValue(h, o, Obj(handle), depth, old(VisitedOf(visited))).1
      ensures buf == old(buf) + inner + foot
      decreases Budget(o, depth), 0, 2
    {
      ghost var vis := VisitedOf(visited);
      if body.Table? {
        TableRenders(h, o, handle, depth, vis);
        inner, foot := CaptureTable(handle, body.props, depth, visited);
      } else {
        DeclaredRenders(h, o, handle, depth, vis);
        inner := CaptureDeclared(handle, body.slots, depth, visited);
        foot := "}";
        Append("}");
      }
    }

    /** The property-table branch: the object is marked before its properties are entered. */
    method CaptureTable(handle: nat, props: seq<Entry>, depth: nat, visited: VisitedTable?) returns (ghost inner: string, ghost foot: string)
      requires h.Valid() && depth < o.maxDepth
      modifies this, visited
      ensures var n := Cap(o.maxProps, |props|);
        var (items, after) := CaptureEntries(h, o, props, n, depth + 1, Add(old(VisitedOf(visited)), handle));
        inner == RenderItems(items) && foot == ObjectFoot(n, |props|)
        && VisitedOf(visited) == Seen(old(VisitedOf(visited)), after)
      ensures buf == old(buf) + inner + foot
      decreases Budget(o, depth), 0, 1
    {
      ghost var vis := VisitedOf(visited);
      var own := visited;
      if own == null {
        own := new VisitedTable();
      }
      own.handles := own.handles + {handle};
      assert VisitedOf(own) == Add(vis, handle);
      var n := Cap(o.maxProps, |props|);
      inner := RenderItems(CaptureEntries(h, o, props, n, depth + 1, VisitedOf(own)).0);
      foot := ObjectFoot(n, |props|);
      CaptureFirst(props, n, depth + 1, own);
      Append(ObjectFoot(n, |props|));
    }

    /** The declared-slot branch. The table is allocated, and the object marked, at the first initialised slot. */
    method CaptureDeclared(handle: nat, all: seq<Slot>, depth: nat, visited: VisitedTable?) returns (ghost inner: string)
      requires h.Valid() && depth < o.maxDepth
      modifies this, visited
      ensures var own := Declareds(all);
        var (items, after) := CaptureSlots(h, o, own, Cap(o.maxProps, |own|), depth + 1, handle, old(VisitedOf(visited)));
        inner == RenderItems(items) && VisitedOf(visited) == Seen(old(VisitedOf(visited)), after)
      ensures buf == old(buf) + inner
      decreases Budget(o, depth), 0, 1
    {
      ghost var start, vis := buf, VisitedOf(visited);
      var slots := Declareds(all);
      var n := Cap(o.maxProps, |slots|);
      var own := visited;
      for i := 0 to n
        invariant own == visited || (visited == null && fresh(own))
        invariant buf == start + RenderItems(CaptureSlots(h, o, slots, i, depth + 1, handle, vis).0)
        invariant VisitedOf(own) == CaptureSlots(h, o, slots, i, depth + 1, handle, vis).1
      {
        ghost var items := CaptureSlots(h, o, slots, i, depth + 1, handle, vis).0;
        ghost var out;
        own, out := CaptureSlot(slots[i], i, depth + 1, handle, own);
        RenderMore(items, Item(slots[i].key, out));
        AppendItem(start, RenderItems(items), Comma(i), slots[i].key, Render(out));
      }
      inner := RenderItems(CaptureSlots(h, o, slots, n, depth + 1, handle, vis).0);
    }

    method CaptureSlot(slot: Slot, i: nat, depth: nat, handle: nat, visited: VisitedTable?) returns (own: VisitedTable?, ghost out: Out)
      requires h.Valid()
      modifies this, visited
      ensures own == visited || (visited == null && fresh(own))
      ensures (out, VisitedOf(own)) == if slot.value.Undef? then (Text("<uninit>"), old(VisitedOf(visited)))
                                       else CaptureValue(h, o, slot.value, depth, Add(old(VisitedOf(visited)), handle))
      ensures buf == old(buf) + Comma(i) + slot.key + Render(out)
      decreases Budget(o, depth), 3, 1
    {
      if i > 0 {
        Append(", ");
      }
      Append(slot.key);
      if slot.value.Undef? {
        own, out := visited, Text("<uninit>");
        Append("<uninit>");
      } else {
        out := CaptureValue(h, o, slot.value, depth, Add(VisitedOf(visited), handle)).0;
        own := CaptureMarked(handle, slot.value, depth, visited);
      }
    }

    /** Marks the object, in a new table if there is none, and enters one of its slots. */
    method CaptureMarked(handle: nat, v: Value, depth: nat, visited: VisitedTable?) returns (own: VisitedTable)
      requires h.Valid()
      modifies this, visited
      ensures own == visited || (visited == null && fresh(own))
      ensures buf == old(buf) + Render(CaptureValue(h, o, v, depth, Add(old(VisitedOf(visited)), handle)).0)
      ensures VisitedOf(own) == CaptureValue(h, o, v, depth, Add(old(VisitedOf(visited)), handle)).1
      decreases Budget(o, depth), 3, 0
    {
      ghost var vis := VisitedOf(visited);
      if visited == null {
        own := new VisitedTable();
      } else {
        own := visited;
      }
      own.handles := own.handles + {handle};
      assert VisitedOf(own) == Add(vis, handle);
      CaptureRecursive(v, depth, own);
    }

    /** A capture from the outside starts at depth 0 with no table. */
    method CaptureTop(v: Value)
      requires h.Valid()
      modifies this
      ensures buf == old(buf) + Render(CaptureValue(h, o, v, 0, None).0)
    {
      CaptureRecursive(v, 0, null);
    }
  }
}
