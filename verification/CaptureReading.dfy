/** Captured text read back: what a string, an array or an object in it tells about the value it stands for. */
module CaptureReading {
  import opened TraceModel
  import opened DaemonMessages
  import opened JsonSearch
  import opened WireRoundTrip
  import opened OutgoingJson
  import opened Capture

  // ---------- a reader of captured strings ----------

  /** One byte of the shown part, and what follows it. */
  function ReadByte(t: string): Option<(char, string)> {
    if t == [] || t[0] == '"' then None
    else if t[0] != '\\' then Some((t[0], t[1..]))
    else if |t| >= 4 && t[1] == 'x' && HexValue(t[2]).Some? && HexValue(t[3]).Some? then
      Some(((16 * HexValue(t[2]).value + HexValue(t[3]).value) as char, t[4..]))
    else if |t| >= 2 && (t[1] == '"' || t[1] == '\\') then Some((t[1], t[2..]))
    else None
  }

  function ReadBytes(t: string, n: nat): Option<(string, string)> {
    if n == 0 then Some(([], t))
    else
      match ReadByte(t)
      case None => None
      case Some((c, rest)) => match ReadBytes(rest, n - 1) case None => None case Some((more, left)) => Some(([c] + more, left))
  }

  /** A fixed text at the head of `t`, and what follows it. */
  function Past(t: string, text: string): Option<string> {
    if StartsWith(t, text) then Some(t[|text|..]) else None
  }

  /** A number between two fixed texts, and what follows. */
  function NumberIn(t: string, head: string, foot: string): Option<(nat, string)> {
    match Past(t, head)
    case None => None
    case Some(u) =>
      if u == [] || !IsDigit(u[0]) then None
      else
        var (n, rest) := ReadDigits(u, 0);
        match Past(rest, foot) case None => None case Some(left) => Some((n, left))
  }

  /** What a captured string tells: its length, the bytes shown, how many were left out, and what follows it. */
  datatype Told = Told(total: nat, bytes: string, omitted: nat, rest: string)

  /** Read knowing the limit it was captured under. */
  function ReadString(t: string, max: int): Option<Told> {
    match NumberIn(t, "string(", ") \"")
    case None => None
    case Some((total, body)) =>
      var n := if 0 < max < total then max else total;
      match ReadBytes(body, n)
      case None => None
      case Some((bytes, rest)) =>
        if n == total then match Past(rest, "\"") case None => None case Some(left) => Some(Told(total, bytes, 0, left))
        else match NumberIn(rest, "\U{E2}\U{80}\U{A6}+", "\"") case None => None case Some((m, left)) => Some(Told(total, bytes, m, left))
  }

  lemma PastReads(text: string, rest: string)
    ensures Past(text + rest, text) == Some(rest)
  {
    assert (text + rest)[..|text|] == text && (text + rest)[|text|..] == rest;
  }

  lemma NumberInReads(head: string, n: nat, foot: string, rest: string)
    requires foot != [] && !IsDigit(foot[0])
    ensures NumberIn(head + Decimal(n) + foot + rest, head, foot) == Some((n, rest))
  {
    Regroup(head, Decimal(n), foot, rest);
    PastReads(head, Decimal(n) + (foot + rest));
    DecimalReads(n, foot + rest);
    PastReads(foot, rest);
  }

  lemma ByteReads(c: char, rest: string)
    requires c as int < 256
    ensures ReadByte(QuotedChar(c) + rest) == Some((c, rest))
  {
    var t := QuotedChar(c) + rest;
    assert t[|QuotedChar(c)|..] == rest;
    if c != '"' && c != '\\' && (c as int < 32 || c as int == 127) {
      HexReads(c as int / 16);
      HexReads(c as int % 16);
      assert t[2] == HexDigit(c as int / 16) && t[3] == HexDigit(c as int % 16);
    }
  }

  /** Text as bytes. */
  predicate Bytes(s: string) {
    forall i :: 0 <= i < |s| ==> s[i] as int < 256
  }

  lemma {:induction false} BodyFirst(s: string)
    requires s != []
    ensures QuotedBody(s) == QuotedChar(s[0]) + QuotedBody(s[1..])
  {
    var n := |s| - 1;
    if n == 0 {
      assert s[..0] == [] && s[1..] == [];
      assert QuotedChar(s[0]) + [] == QuotedChar(s[0]) && [] + QuotedChar(s[0]) == QuotedChar(s[0]);
    } else {
      BodyFirst(s[..n]);
      assert s[..n][1..] == s[1..][..n - 1];
      Associate(QuotedChar(s[0]), QuotedBody(s[1..][..n - 1]), QuotedChar(s[n]));
    }
  }

  lemma {:induction false} BytesRead(s: string, rest: string)
    requires Bytes(s)
    ensures ReadBytes(QuotedBody(s) + rest, |s|) == Some((s, rest))
  {
    if s == [] {
      assert QuotedBody(s) + rest == rest;
    } else {
      BodyFirst(s);
      Associate(QuotedChar(s[0]), QuotedBody(s[1..]), rest);
      ByteReads(s[0], QuotedBody(s[1..]) + rest);
      BytesRead(s[1..], rest);
      assert [s[0]] + s[1..] == s;
    }
  }

  lemma FootRead(total: nat, n: nat, rest: string)
    requires n <= total
    ensures n == total ==> Past(QuotedFoot(total, n) + rest, "\"") == Some(rest)
    ensures n < total ==> NumberIn(QuotedFoot(total, n) + rest, "\U{E2}\U{80}\U{A6}+", "\"") == Some((total - n, rest))
  {
    if n == total {
      PastReads("\"", rest);
    } else {
      NumberInReads("\U{E2}\U{80}\U{A6}+", total - n, "\"", rest);
    }
  }

  /** Every captured string tells its length, exactly the bytes up to the limit, and how many were left out. */
  lemma StringTells(s: string, max: int, rest: string)
    requires Bytes(s)
    ensures var n := if 0 < max < |s| then max else |s|;
            ReadString(QuotedString(s, max) + rest, max) == Some(Told(|s|, s[..n], |s| - n, rest))
  {
    var n := Shown(|s|, max);
    var foot := QuotedFoot(|s|, n) + rest;
    var body := QuotedBody(s[..n]) + foot;
    Regroup(QuotedHead(|s|), QuotedBody(s[..n]), QuotedFoot(|s|, n), rest);
    Regroup("string(", Decimal(|s|), ") \"", body);
    NumberInReads("string(", |s|, ") \"", body);
    BytesRead(s[..n], foot);
    FootRead(|s|, n, rest);
  }

  // ---------- a reader that does not know the limit ----------

  /** All bytes up to the closing quote, and what follows it. */
  function ReadToQuote(t: string): Option<(string, string)>
    decreases |t|
  {
    if t != [] && t[0] == '"' then Some(([], t[1..]))
    else
      match ReadByte(t)
      case None => None
      case Some((c, rest)) =>
        if |rest| >= |t| then None
        else match ReadToQuote(rest) case None => None case Some((more, left)) => Some(([c] + more, left))
  }

  /** What stands before the last plus sign, and after it. */
  function LastPlus(b: string): Option<(string, string)> {
    if b == [] then None
    else if b[|b| - 1] == '+' then Some((b[..|b| - 1], []))
    else match LastPlus(b[..|b| - 1]) case None => None case Some((x, y)) => Some((x, y + [b[|b| - 1]]))
  }

  /** As many bytes as the length says are the whole string; otherwise the last three before the last plus sign are the ellipsis,
      and a number follows. */
  function Parted(total: nat, b: string): Option<(string, nat)> {
    if |b| == total then Some((b, 0))
    else
      match LastPlus(b)
      case None => None
      case Some((x, y)) =>
        if |x| < 3 || y == [] || !IsDigit(y[0]) || ReadDigits(y, 0).1 != [] then None else Some((x[..|x| - 3], ReadDigits(y, 0).0))
  }

  function ReadAlone(t: string): Option<Told> {
    match NumberIn(t, "string(", ") \"")
    case None => None
    case Some((total, body)) =>
      match ReadToQuote(body)
      case None => None
      case Some((b, rest)) => match Parted(total, b) case None => None case Some((bytes, m)) => Some(Told(total, bytes, m, rest))
  }

  lemma QuotedStarts(c: char)
    requires c as int < 256
    ensures |QuotedChar(c)| > 0 && QuotedChar(c)[0] != '"'
  {
  }

  lemma ToQuoteOne(c: char, rest: string)
    requires c as int < 256
    ensures ReadToQuote(QuotedChar(c) + rest) == match ReadToQuote(rest) case None => None case Some((more, left)) => Some(([c] + more, left))
  {
    QuotedStarts(c);
    ByteReads(c, rest);
    assert (QuotedChar(c) + rest)[0] == QuotedChar(c)[0];
  }

  lemma {:induction false} ToQuoteReads(s: string, rest: string)
    requires Bytes(s)
    ensures ReadToQuote(QuotedBody(s) + ("\"" + rest)) == Some((s, rest))
  {
    if s == [] {
      assert QuotedBody(s) + ("\"" + rest) == "\"" + rest && ("\"" + rest)[1..] == rest;
    } else {
      BodyFirst(s);
      Associate(QuotedChar(s[0]), QuotedBody(s[1..]), "\"" + rest);
      ToQuoteOne(s[0], QuotedBody(s[1..]) + ("\"" + rest));
      ToQuoteReads(s[1..], rest);
      assert [s[0]] + s[1..] == s;
    }
  }

  /** Bytes that are shown as they are. */
  predicate Plainly(s: string) {
    forall i :: 0 <= i < |s| ==> s[i] as int < 256 && QuotedChar(s[i]) == [s[i]]
  }

  lemma {:induction false} BodyPlain(s: string, p: string)
    requires Plainly(p)
    ensures QuotedBody(s + p) == QuotedBody(s) + p
  {
    if p == [] {
      assert s + p == s && QuotedBody(s) + p == QuotedBody(s);
    } else {
      var n := |p| - 1;
      assert (s + p)[..|s| + n] == s + p[..n];
      BodyPlain(s, p[..n]);
      assert p[..n] + [p[n]] == p;
      Associate(QuotedBody(s), p[..n], [p[n]]);
    }
  }

  lemma {:induction false} DecimalIsPlain(n: nat)
    ensures |Decimal(n)| > 0 && forall i :: 0 <= i < |Decimal(n)| ==> '0' <= Decimal(n)[i] <= '9'
  {
    if n >= 10 {
      DecimalIsPlain(n / 10);
    }
  }

  const ELLIPSIS: string := "\U{E2}\U{80}\U{A6}"

  /** A cut string reads to its quote like the longer text it looks like. */
  function CutText(shown: string, m: nat): string {
    shown + (ELLIPSIS + "+" + Decimal(m))
  }

  lemma CutLooksLike(shown: string, m: nat, rest: string)
    requires Bytes(shown)
    ensures ReadToQuote(QuotedBody(shown) + (ELLIPSIS + "+" + Decimal(m) + "\"" + rest)) == Some((CutText(shown, m), rest))
  {
    var p := ELLIPSIS + "+" + Decimal(m);
    DecimalIsPlain(m);
    BodyPlain(shown, p);
    ToQuoteReads(shown + p, rest);
    Associate(QuotedBody(shown), p, "\"" + rest);
    Associate(p, "\"", rest);
  }

  lemma {:induction false} PlusBefore(x: string, y: string)
    requires forall i :: 0 <= i < |y| ==> y[i] != '+'
    ensures LastPlus(x + ['+'] + y) == Some((x, y))
  {
    var b := x + ['+'] + y;
    if y == [] {
      assert b == x + ['+'] && b[..|b| - 1] == x;
    } else {
      var n := |y| - 1;
      assert b[..|b| - 1] == x + ['+'] + y[..n] && b[|b| - 1] == y[n];
      PlusBefore(x, y[..n]);
      assert y[..n] + [y[n]] == y;
    }
  }

  /** Few numbers are as long as they are big. */
  lemma {:induction false} DecimalShort(m: nat)
    ensures |Decimal(m)| <= m / 10 + 1
  {
    if m >= 10 {
      DecimalShort(m / 10);
    }
  }

  lemma FourMore(m: nat)
    requires m > 0
    ensures m == 4 + |Decimal(m)| <==> m == 5
  {
    DecimalShort(m);
    if m < 10 {
      assert |Decimal(m)| == 1;
    }
  }

  lemma CutParts(shown: string, m: nat)
    ensures LastPlus(CutText(shown, m)) == Some((shown + ELLIPSIS, Decimal(m))) && |CutText(shown, m)| == |shown| + 4 + |Decimal(m)|
    ensures (shown + ELLIPSIS)[..|shown + ELLIPSIS| - 3] == shown && |ELLIPSIS| == 3
  {
    DecimalIsPlain(m);
    assert CutText(shown, m) == (shown + ELLIPSIS) + ['+'] + Decimal(m);
    PlusBefore(shown + ELLIPSIS, Decimal(m));
  }

  /** The cut is seen if and only if not five bytes are missing, as many as the mark has. */
  lemma PartedIff(shown: string, m: nat)
    requires m > 0
    ensures Parted(|shown| + m, CutText(shown, m)) == Some((shown, m)) <==> m != 5
  {
    CutParts(shown, m);
    FourMore(m);
    DecimalReads(m, []);
    assert Decimal(m) + [] == Decimal(m);
  }

  /** A captured string can be told without knowing the limit if and only if not just five bytes are left out: then it reads as
      the longer string that ends in the mark. */
  lemma AloneTellsIff(s: string, max: int, rest: string)
    requires Bytes(s)
    ensures var n := if 0 < max < |s| then max else |s|;
            ReadAlone(QuotedString(s, max) + rest) == Some(Told(|s|, s[..n], |s| - n, rest)) <==> |s| - n != 5
  {
    var n := Shown(|s|, max);
    var foot := QuotedFoot(|s|, n) + rest;
    var body := QuotedBody(s[..n]) + foot;
    Regroup(QuotedHead(|s|), QuotedBody(s[..n]), QuotedFoot(|s|, n), rest);
    Regroup("string(", Decimal(|s|), ") \"", body);
    NumberInReads("string(", |s|, ") \"", body);
    if n == |s| {
      ToQuoteReads(s[..n], rest);
      assert s[..n] == s;
    } else {
      assert "\U{E2}\U{80}\U{A6}+" == ELLIPSIS + "+";
      CutLooksLike(s[..n], |s| - n, rest);
      PartedIff(s[..n], |s| - n);
    }
  }

  // ---------- arrays and objects ----------

  /** How many items a closing text says were left out. */
  function LeftOut(foot: string, word: string, close: string): Option<nat> {
    if foot == close then Some(0)
    else
      match NumberIn(foot, ", <\U{E2}\U{80}\U{A6}" + word + "+", ">" + close)
      case None => None
      case Some((m, rest)) => if m > 0 && rest == [] then Some(m) else None
  }

  /** How many are shown of so many under a limit. */
  function ShownOf(limit: int, total: nat): nat {
    if 0 < limit < total then limit else total
  }

  lemma FootTells(word: string, close: string, shown: nat, total: nat)
    requires shown <= total && close != [] && close[0] != ','
    ensures LeftOut(if shown < total then ", <\U{E2}\U{80}\U{A6}" + word + "+" + Decimal(total - shown) + (">" + close) else close, word, close)
            == Some(total - shown)
  {
    if shown < total {
      var head := ", <\U{E2}\U{80}\U{A6}" + word + "+";
      NumberInReads(head, total - shown, ">" + close, []);
      var foot := head + Decimal(total - shown) + (">" + close);
      assert foot + [] == foot;
      assert foot[0] == ',';
    }
  }

  /** Where an array is entered, the text tells how many elements it has, shows the first of them by their keys, in order, up to
      the limit, and tells how many are left out. */
  lemma ArrayTells(h: Heap, o: Options, table: nat, depth: nat, vis: Visited)
    requires h.Valid() && h.ArrayAt(table) != [] && depth < o.maxDepth
    ensures var entries, out := h.ArrayAt(table), CaptureValue(h, o, Arr(table), depth, vis).0;
            && out.Nest? && NumberIn(out.head, "array(", ") [") == Some((|entries|, []))
            && |out.items| == ShownOf(o.maxItems, |entries|) && (forall i :: 0 <= i < |out.items| ==> out.items[i].key == entries[i].key)
            && LeftOut(out.foot, "items", "]") == Some(|entries| - |out.items|)
  {
    var entries, n := h.ArrayAt(table), Cap(o.maxItems, |h.ArrayAt(table)|);
    EntriesTell(h, o, entries, n, depth + 1, vis);
    NumberInReads("array(", |entries|, ") [", []);
    ArrayTexts(|entries|, n);
    FootTells("items", "]", n, |entries|);
  }

  lemma ArrayTexts(total: nat, n: nat)
    ensures "array(" + Decimal(total) + ") [" + [] == ArrayHead(total) + " ["
    ensures n < total ==> ArrayFoot(n, total) == ", <\U{E2}\U{80}\U{A6}" + "items" + "+" + Decimal(total - n) + (">" + "]")
  {
    assert ") [" == ")" + " [" && ">]" == ">" + "]";
    assert ", <\U{E2}\U{80}\U{A6}items+" == ", <\U{E2}\U{80}\U{A6}" + "items" + "+";
  }

  lemma ObjectTexts(total: nat, n: nat)
    ensures n < total ==> ObjectFoot(n, total) == ", <\U{E2}\U{80}\U{A6}" + "props" + "+" + Decimal(total - n) + (">" + "}")
  {
    assert ">}" == ">" + "}";
    assert ", <\U{E2}\U{80}\U{A6}props+" == ", <\U{E2}\U{80}\U{A6}" + "props" + "+";
  }

  lemma {:induction false} EntriesTell(h: Heap, o: Options, entries: seq<Entry>, n: nat, depth: nat, vis: Visited)
    requires h.Valid() && n <= |entries|
    ensures forall i :: 0 <= i < n ==> CaptureEntries(h, o, entries, n, depth, vis).0[i].key == entries[i].key
  {
    if n > 0 {
      EntriesTell(h, o, entries, n - 1, depth, vis);
    }
  }

  /** The head of an object's text up to what marks its kind. */
  predicate Heads(t: string, name: string, handle: nat, mark: string) {
    t == "object(" + name + ")#" + Decimal(handle) + mark
  }

  /** The same for the property table of an object. */
  lemma TableTells(h: Heap, o: Options, handle: nat, depth: nat, vis: Visited)
    requires h.Valid() && h.ObjectAt(handle).Table? && depth < o.maxDepth && (vis == None || handle !in vis.value)
    ensures var body, out := h.ObjectAt(handle), CaptureValue(h, o, Obj(handle), depth, vis).0;
            && out.Nest? && Heads(out.head, body.name, handle, " {")
            && |out.items| == ShownOf(o.maxProps, |body.props|) && (forall i :: 0 <= i < |out.items| ==> out.items[i].key == body.props[i].key)
            && LeftOut(out.foot, "props", "}") == Some(|body.props| - |out.items|)
  {
    var props := h.ObjectAt(handle).props;
    var n := Cap(o.maxProps, |props|);
    EntriesTell(h, o, props, n, depth + 1, Add(vis, handle));
    ObjectTexts(|props|, n);
    FootTells("props", "}", n, |props|);
  }

  /** The slots that are not static, in order. */
  ghost predicate OwnSlots(own: seq<Slot>, slots: seq<Slot>, at: seq<nat>) {
    && |at| == |own| && (forall i, j :: 0 <= i < j < |at| ==> at[i] < at[j])
    && (forall x: nat :: x in at <==> x < |slots| && !slots[x].isStatic)
    && (forall i :: 0 <= i < |at| ==> at[i] < |slots| && own[i] == slots[at[i]])
  }

  lemma OwnSkipped(own: seq<Slot>, front: seq<Slot>, at: seq<nat>, last: Slot)
    requires OwnSlots(own, front, at) && last.isStatic
    ensures OwnSlots(own, front + [last], at)
  {
    var slots := front + [last];
    assert forall i :: 0 <= i < |front| ==> slots[i] == front[i];
    assert slots[|front|] == last;
  }

  lemma OwnAdded(own: seq<Slot>, front: seq<Slot>, at: seq<nat>, last: Slot)
    requires OwnSlots(own, front, at) && !last.isStatic
    ensures OwnSlots(own + [last], front + [last], at + [|front|])
  {
    var slots, more := front + [last], at + [|front|];
    forall x: nat ensures x in more <==> x < |slots| && !slots[x].isStatic {
      assert x in more <==> x in at || x == |front|;
      assert x < |front| ==> slots[x] == front[x];
    }
    forall i | 0 <= i < |more| ensures more[i] < |slots| && (own + [last])[i] == slots[more[i]] {
      if i < |at| {
        assert more[i] == at[i] && slots[at[i]] == front[at[i]];
      }
    }
    forall i, j | 0 <= i < j < |more| ensures more[i] < more[j] {
      assert more[i] == at[i] && at[i] < |front|;
    }
  }

  lemma {:induction false} DeclaredsAre(slots: seq<Slot>) returns (at: seq<nat>)
    ensures OwnSlots(Declareds(slots), slots, at)
  {
    at := [];
    if slots != [] {
      var front, last := slots[..|slots| - 1], slots[|slots| - 1];
      at := DeclaredsAre(front);
      assert slots == front + [last];
      if last.isStatic {
        OwnSkipped(Declareds(front), front, at, last);
        assert Declareds(front) + [] == Declareds(front);
      } else {
        OwnAdded(Declareds(front), front, at, last);
        at := at + [|front|];
      }
    }
  }

  lemma {:induction false} SlotsTell(h: Heap, o: Options, own: seq<Slot>, n: nat, depth: nat, handle: nat, vis: Visited)
    requires h.Valid() && n <= |own|
    ensures forall i :: 0 <= i < n ==> CaptureSlots(h, o, own, n, depth, handle, vis).0[i].key == own[i].key
    ensures forall i :: 0 <= i < n && own[i].value.Undef? ==> CaptureSlots(h, o, own, n, depth, handle, vis).0[i].out == Text("<uninit>")
  {
    if n > 0 {
      SlotsTell(h, o, own, n - 1, depth, handle, vis);
    }
  }

  /** Declared slots: the ones that are not static, in order, up to the limit; one without a value says so. */
  lemma DeclaredTells(h: Heap, o: Options, handle: nat, depth: nat, vis: Visited) returns (own: seq<Slot>, at: seq<nat>)
    requires h.Valid() && h.ObjectAt(handle).Declared? && depth < o.maxDepth && (vis == None || handle !in vis.value)
    ensures OwnSlots(own, h.ObjectAt(handle).slots, at)
    ensures var body, out := h.ObjectAt(handle), CaptureValue(h, o, Obj(handle), depth, vis).0;
            && out.Nest? && Heads(out.head, body.name, handle, " {") && out.foot == "}"
            && |out.items| == ShownOf(o.maxProps, |own|) && (forall i :: 0 <= i < |out.items| ==> out.items[i].key == own[i].key)
            && (forall i :: 0 <= i < |out.items| && own[i].value.Undef? ==> out.items[i].out == Text("<uninit>"))
  {
    var slots := h.ObjectAt(handle).slots;
    own := Declareds(slots);
    at := DeclaredsAre(slots);
    SlotsTell(h, o, own, Cap(o.maxProps, |own|), depth + 1, handle, vis);
  }

  /** The items stand behind their keys, with a comma and a blank between them. */
  lemma ItemsTell(items: seq<Item>, more: Item)
    ensures RenderItems(items + [more]) == RenderItems(items) + (if items == [] then "" else ", ") + more.key + Render(more.out) && RenderItems([]) == ""
  {
    RenderMore(items, more);
  }

  /** What is not entered says why, and a reference says what it refers to. */
  lemma MarksTell(h: Heap, o: Options, v: Value, depth: nat, vis: Visited)
    requires h.Valid()
    ensures var text := Render(CaptureValue(h, o, v, depth, vis).0);
            && (v.Obj? && vis.Some? && v.handle in vis.value ==> text == "<recursion \U{E2}\U{86}\U{BB} #" + Decimal(v.handle) + ">")
            && (v.Obj? && !(vis.Some? && v.handle in vis.value) && h.ObjectAt(v.handle).Lazy? ==>
                  Heads(text, h.ObjectAt(v.handle).name, v.handle, " <lazy>"))
            && (v.Obj? && !(vis.Some? && v.handle in vis.value) && (h.ObjectAt(v.handle).Table? || h.ObjectAt(v.handle).Declared?) && depth >= o.maxDepth ==>
                  Heads(text, h.ObjectAt(v.handle).name, v.handle, " <\U{E2}\U{80}\U{A6}depth>"))
            && (v.Arr? && h.ArrayAt(v.table) == [] ==> text == "array(0) []")
            && (v.Arr? && h.ArrayAt(v.table) != [] && depth >= o.maxDepth ==>
                  text == "array(" + Decimal(|h.ArrayAt(v.table)|) + ")" + " <\U{E2}\U{80}\U{A6}depth>")
            && (v.Ref? ==> text == "ref->" + Render(CaptureValue(h, o, h.CellAt(v.cell), depth, vis).0)) && (v.Undef? ==> text == "undef")
  {
    assert Decimal(0) == "0" && ArrayHead(0) + " []" == "array(0) []";
  }
}
