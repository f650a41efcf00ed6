/** A JSON value as the bytes the daemon's serialiser writes, and that no two values are written alike. */
module PayloadText {
  import opened TraceModel
  import opened JsonValue
  import opened DaemonMessages
  import opened OutgoingJson

  function Text(v: Json): string
    decreases v, 1
  {
    match v
    case Null => "null"
    case Bool(b) => if b then "true" else "false"
    case Num(text) => text
    case Str(s) => ['"'] + Escape(s) + ['"']
    case Arr(items) => if items == [] then "[]" else ['['] + Text(items[0]) + MoreItems(items[1..])
    case Obj(fields) => if fields == [] then "{}" else ['{'] + FieldText(fields[0]) + MoreFields(fields[1..])
  }

  function MoreItems(items: seq<Json>): string
    decreases items, 0
  {
    if items == [] then "]" else [','] + Text(items[0]) + MoreItems(items[1..])
  }

  function FieldText(f: Field): string
    decreases f, 2
  {
    ['"'] + Escape(f.key) + ['"', ':'] + Text(f.value)
  }

  function MoreFields(fields: seq<Field>): string
    decreases fields, 0
  {
    if fields == [] then "}" else [','] + FieldText(fields[0]) + MoreFields(fields[1..])
  }

  predicate NumChar(c: char) {
    '0' <= c <= '9' || c == '+' || c == '-' || c == '.' || c == 'e' || c == 'E'
  }

  predicate NumText(s: string) {
    s != [] && ('0' <= s[0] <= '9' || s[0] == '-') && forall i :: 0 <= i < |s| ==> NumChar(s[i])
  }

  /** Numbers are written as JSON numbers are (section 6 of RFC 8259, as far as the characters go). */
  predicate Numeric(v: Json) {
    match v
    case Num(text) => NumText(text)
    case Arr(items) => forall i :: 0 <= i < |items| ==> Numeric(items[i])
    case Obj(fields) => forall i :: 0 <= i < |fields| ==> Numeric(fields[i].value)
    case _ => true
  }

  // ---------- strings read back ----------

  lemma ScanEscaped(c: char, rest: string)
    ensures ScanString(EscapeChar(c) + rest) == Prefixed(c, ScanString(rest))
  {
    if EscapeChar(c) == EscapeOne(c) {
      ScanOne(c, rest);
    } else {
      var e := EscapeChar(c) + rest;
      assert e[2..] == rest;
    }
  }

  lemma {:induction false} EscapedReads(s: string, rest: string)
    ensures ScanString(Escape(s) + (['"'] + rest)) == Some((s, rest))
  {
    if s == [] {
      assert Escape(s) + (['"'] + rest) == ['"'] + rest;
      assert (['"'] + rest)[1..] == rest;
    } else {
      Associate(EscapeChar(s[0]), Escape(s[1..]), ['"'] + rest);
      ScanEscaped(s[0], Escape(s[1..]) + (['"'] + rest));
      EscapedReads(s[1..], rest);
      assert [s[0]] + s[1..] == s;
    }
  }

  lemma EscapedUnique(a: string, b: string, r: string, s: string)
    requires Escape(a) + (['"'] + r) == Escape(b) + (['"'] + s)
    ensures a == b && r == s
  {
    EscapedReads(a, r);
    EscapedReads(b, s);
  }

  // ---------- unique reading ----------

  /** What may follow a value: the end, or a comma or closing bracket. */
  predicate Stops(r: string) {
    r == [] || r[0] == ',' || r[0] == ']' || r[0] == '}'
  }

  /** The first character tells which kind of value it is. */
  function KindOf(c: char): nat {
    if c == 'n' then 0 else if c == 't' then 1 else if c == 'f' then 2 else if c == '"' then 3
    else if c == '[' then 4 else if c == '{' then 5 else if '0' <= c <= '9' || c == '-' then 6 else 7
  }

  function Kind(v: Json): nat {
    match v
    case Null => 0
    case Bool(b) => if b then 1 else 2
    case Str(_) => 3
    case Arr(_) => 4
    case Obj(_) => 5
    case Num(_) => 6
  }

  lemma FirstTells(v: Json, r: string)
    requires Numeric(v)
    ensures Text(v) != [] && (Text(v) + r)[0] == Text(v)[0] && KindOf((Text(v) + r)[0]) == Kind(v)
  {
  }

  lemma NumbersUnique(a: string, b: string, r: string, s: string)
    requires NumText(a) && NumText(b) && Stops(r) && Stops(s) && a + r == b + s
    ensures a == b && r == s
  {
    var u, w := a + r, b + s;
    assert (forall i :: 0 <= i < |a| ==> u[i] == a[i]) && (forall i :: 0 <= i < |b| ==> w[i] == b[i]);
    assert (r != [] ==> !NumChar(u[|a|])) && (s != [] ==> !NumChar(w[|b|]));
    assert |a| == |b|;
    assert (a + r)[..|a|] == a && (b + s)[..|b|] == b;
    assert (a + r)[|a|..] == r && (b + s)[|b|..] == s;
  }

  lemma SameFront(t: string, r: string, s: string)
    requires t + r == t + s
    ensures r == s
  {
    assert (t + r)[|t|..] == r && (t + s)[|t|..] == s;
  }

  /** No two values are written alike, whatever follows. */
  lemma {:induction false} TextUnique(v: Json, w: Json, r: string, s: string)
    requires Numeric(v) && Numeric(w) && Stops(r) && Stops(s) && Text(v) + r == Text(w) + s
    ensures v == w && r == s
    decreases v, 1
  {
    FirstTells(v, r);
    FirstTells(w, s);
    match v
    case Null => SameFront(Text(v), r, s);
    case Bool(_) => SameFront(Text(v), r, s);
    case Num(text) => NumbersUnique(text, w.text, r, s);
    case Str(text) => StringsUnique(text, w.s, r, s);
    case Arr(items) => ArraysUnique(items, w.items, r, s);
    case Obj(fields) => ObjectsUnique(fields, w.fields, r, s);
  }

  lemma StringsUnique(a: string, b: string, r: string, s: string)
    requires ['"'] + Escape(a) + ['"'] + r == ['"'] + Escape(b) + ['"'] + s
    ensures a == b && r == s
  {
    Regroup(['"'], Escape(a), ['"'], r);
    Regroup(['"'], Escape(b), ['"'], s);
    SameFront(['"'], Escape(a) + (['"'] + r), Escape(b) + (['"'] + s));
    EscapedUnique(a, b, r, s);
  }

  ghost predicate AllNumeric(items: seq<Json>) {
    forall i :: 0 <= i < |items| ==> Numeric(items[i])
  }

  ghost predicate FieldsNumeric(fields: seq<Field>) {
    forall i :: 0 <= i < |fields| ==> Numeric(fields[i].value)
  }

  lemma ItemsStop(items: seq<Json>, r: string)
    ensures Stops(MoreItems(items) + r) && MoreItems(items) != []
    ensures (MoreItems(items) + r)[0] == if items == [] then ']' else ','
  {
  }

  lemma FieldsStop(fields: seq<Field>, r: string)
    ensures Stops(MoreFields(fields) + r) && MoreFields(fields) != []
    ensures (MoreFields(fields) + r)[0] == if fields == [] then '}' else ','
  {
  }

  lemma {:induction false} ArraysUnique(a: seq<Json>, b: seq<Json>, r: string, s: string)
    requires AllNumeric(a) && AllNumeric(b) && Stops(r) && Stops(s) && Text(Arr(a)) + r == Text(Arr(b)) + s
    ensures a == b && r == s
    decreases a, 2
  {
    ArrayOpens(a, r);
    ArrayOpens(b, s);
    if a == [] {
      SameFront("[]", r, s);
    } else {
      Regroup(['['], Text(a[0]), MoreItems(a[1..]), r);
      Regroup(['['], Text(b[0]), MoreItems(b[1..]), s);
      SameFront(['['], Text(a[0]) + (MoreItems(a[1..]) + r), Text(b[0]) + (MoreItems(b[1..]) + s));
      HeadAndItems(a, b, r, s);
    }
  }

  /** The second character tells an empty array from another. */
  lemma ArrayOpens(a: seq<Json>, r: string)
    requires AllNumeric(a)
    ensures |Text(Arr(a)) + r| >= 2 && ((Text(Arr(a)) + r)[1] == ']' <==> a == [])
  {
    if a != [] {
      FirstTells(a[0], []);
      assert (Text(Arr(a)) + r)[1] == Text(a[0])[0];
      assert Text(a[0]) + [] == Text(a[0]);
    }
  }

  lemma {:induction false} HeadAndItems(a: seq<Json>, b: seq<Json>, r: string, s: string)
    requires AllNumeric(a) && AllNumeric(b) && Stops(r) && Stops(s) && a != [] && b != []
    requires Text(a[0]) + (MoreItems(a[1..]) + r) == Text(b[0]) + (MoreItems(b[1..]) + s)
    ensures a == b && r == s
    decreases a, 1
  {
    ItemsStop(a[1..], r);
    ItemsStop(b[1..], s);
    TextUnique(a[0], b[0], MoreItems(a[1..]) + r, MoreItems(b[1..]) + s);
    ItemsUnique(a[1..], b[1..], r, s);
    assert a == [a[0]] + a[1..] && b == [b[0]] + b[1..];
  }

  lemma {:induction false} ItemsUnique(a: seq<Json>, b: seq<Json>, r: string, s: string)
    requires AllNumeric(a) && AllNumeric(b) && Stops(r) && Stops(s) && MoreItems(a) + r == MoreItems(b) + s
    ensures a == b && r == s
    decreases a, 2
  {
    ItemsStop(a, r);
    ItemsStop(b, s);
    if a == [] {
      SameFront("]", r, s);
    } else {
      Regroup([','], Text(a[0]), MoreItems(a[1..]), r);
      Regroup([','], Text(b[0]), MoreItems(b[1..]), s);
      SameFront([','], Text(a[0]) + (MoreItems(a[1..]) + r), Text(b[0]) + (MoreItems(b[1..]) + s));
      HeadAndItems(a, b, r, s);
    }
  }

  lemma {:induction false} ObjectsUnique(f: seq<Field>, g: seq<Field>, r: string, s: string)
    requires FieldsNumeric(f) && FieldsNumeric(g) && Stops(r) && Stops(s) && Text(Obj(f)) + r == Text(Obj(g)) + s
    ensures f == g && r == s
    decreases f, 2
  {
    ObjectOpens(f, r);
    ObjectOpens(g, s);
    if f == [] {
      SameFront("{}", r, s);
    } else {
      Regroup(['{'], FieldText(f[0]), MoreFields(f[1..]), r);
      Regroup(['{'], FieldText(g[0]), MoreFields(g[1..]), s);
      SameFront(['{'], FieldText(f[0]) + (MoreFields(f[1..]) + r), FieldText(g[0]) + (MoreFields(g[1..]) + s));
      HeadAndFields(f, g, r, s);
    }
  }

  lemma ObjectOpens(f: seq<Field>, r: string)
    ensures |Text(Obj(f)) + r| >= 2 && ((Text(Obj(f)) + r)[1] == '}' <==> f == [])
  {
    if f != [] {
      assert (Text(Obj(f)) + r)[1] == '"';
    }
  }

  lemma FieldParts(key: string, value: string, m: string)
    ensures ['"'] + Escape(key) + ['"', ':'] + value + m == ['"'] + (Escape(key) + (['"'] + ([':'] + (value + m))))
  {
    assert ['"', ':'] == ['"'] + [':'];
  }

  lemma {:induction false} HeadAndFields(f: seq<Field>, g: seq<Field>, r: string, s: string)
    requires FieldsNumeric(f) && FieldsNumeric(g) && Stops(r) && Stops(s) && f != [] && g != []
    requires FieldText(f[0]) + (MoreFields(f[1..]) + r) == FieldText(g[0]) + (MoreFields(g[1..]) + s)
    ensures f == g && r == s
    decreases f, 1
  {
    var m, n := MoreFields(f[1..]) + r, MoreFields(g[1..]) + s;
    FieldsStop(f[1..], r);
    FieldsStop(g[1..], s);
    FieldUnique(f[0], g[0], m, n);
    TextUnique(f[0].value, g[0].value, m, n);
    FieldsUnique(f[1..], g[1..], r, s);
    assert f == [f[0]] + f[1..] && g == [g[0]] + g[1..];
  }

  /** Fields written alike have the same key, and their values are written alike. */
  lemma FieldUnique(x: Field, y: Field, m: string, n: string)
    requires FieldText(x) + m == FieldText(y) + n
    ensures x.key == y.key && Text(x.value) + m == Text(y.value) + n
  {
    var p, q := Text(x.value) + m, Text(y.value) + n;
    FieldParts(x.key, Text(x.value), m);
    FieldParts(y.key, Text(y.value), n);
    SameFront(['"'], Escape(x.key) + (['"'] + ([':'] + p)), Escape(y.key) + (['"'] + ([':'] + q)));
    EscapedUnique(x.key, y.key, [':'] + p, [':'] + q);
    SameFront([':'], p, q);
  }

  lemma {:induction false} FieldsUnique(f: seq<Field>, g: seq<Field>, r: string, s: string)
    requires FieldsNumeric(f) && FieldsNumeric(g) && Stops(r) && Stops(s) && MoreFields(f) + r == MoreFields(g) + s
    ensures f == g && r == s
    decreases f, 2
  {
    FieldsStop(f, r);
    FieldsStop(g, s);
    if f == [] {
      SameFront("}", r, s);
    } else {
      Regroup([','], FieldText(f[0]), MoreFields(f[1..]), r);
      Regroup([','], FieldText(g[0]), MoreFields(g[1..]), s);
      SameFront([','], FieldText(f[0]) + (MoreFields(f[1..]) + r), FieldText(g[0]) + (MoreFields(g[1..]) + s));
      HeadAndFields(f, g, r, s);
    }
  }

  // ---------- the separator ----------

  const UNIT_SEPARATOR: char := 0x1F as char

  predicate NoControl(s: string) {
    forall i :: 0 <= i < |s| ==> s[i] as int >= 32
  }

  lemma HexNoControl(n: nat)
    requires n < 16
    ensures HexDigit(n) as int >= 32
  {
  }

  lemma {:induction false} EscapeNoControl(s: string)
    ensures NoControl(Escape(s))
  {
    if s != [] {
      EscapeNoControl(s[1..]);
      var c := s[0];
      if c as int < 32 {
        HexNoControl(c as int / 16);
        HexNoControl(c as int % 16);
      }
      assert NoControl(EscapeChar(c));
    }
  }

  lemma JoinNoControl(a: string, b: string)
    requires NoControl(a) && NoControl(b)
    ensures NoControl(a + b)
  {
  }

  lemma {:induction false} TextNoControl(v: Json)
    requires Numeric(v)
    ensures NoControl(Text(v))
    decreases v, 1
  {
    match v
    case Null =>
    case Bool(_) =>
    case Num(_) =>
    case Str(s) => EscapeNoControl(s);
    case Arr(items) =>
      if items != [] {
        TextNoControl(items[0]);
        ItemsNoControl(items[1..]);
        JoinNoControl(['['], Text(items[0]));
        JoinNoControl(['['] + Text(items[0]), MoreItems(items[1..]));
      }
    case Obj(fields) =>
      if fields != [] {
        TextNoControl(fields[0].value);
        FieldNoControl(fields[0]);
        FieldsNoControl(fields[1..]);
        JoinNoControl(['{'], FieldText(fields[0]));
        JoinNoControl(['{'] + FieldText(fields[0]), MoreFields(fields[1..]));
      }
  }

  lemma FieldNoControl(f: Field)
    requires NoControl(Text(f.value))
    ensures NoControl(FieldText(f))
  {
    EscapeNoControl(f.key);
    JoinNoControl(['"'], Escape(f.key));
    JoinNoControl(['"'] + Escape(f.key), ['"', ':']);
    JoinNoControl(['"'] + Escape(f.key) + ['"', ':'], Text(f.value));
  }

  lemma {:induction false} ItemsNoControl(items: seq<Json>)
    requires AllNumeric(items)
    ensures NoControl(MoreItems(items))
    decreases items, 0
  {
    if items != [] {
      TextNoControl(items[0]);
      ItemsNoControl(items[1..]);
    }
  }

  lemma {:induction false} FieldsNoControl(fields: seq<Field>)
    requires FieldsNumeric(fields)
    ensures NoControl(MoreFields(fields))
    decreases fields, 0
  {
    if fields != [] {
      TextNoControl(fields[0].value);
      FieldNoControl(fields[0]);
      FieldsNoControl(fields[1..]);
      JoinNoControl([','], FieldText(fields[0]));
      JoinNoControl([','] + FieldText(fields[0]), MoreFields(fields[1..]));
    }
  }

  /** The bytes that are hashed: type, separator, payload. */
  function Hashed(tag: string, payload: Json): string {
    tag + [UNIT_SEPARATOR] + Text(payload)
  }

  lemma LastSeparator(a: string, b: string, c: string, d: string)
    requires NoControl(b) && NoControl(d) && a + [UNIT_SEPARATOR] + b == c + [UNIT_SEPARATOR] + d
    ensures a == c && b == d
  {
    var s, t := a + [UNIT_SEPARATOR] + b, c + [UNIT_SEPARATOR] + d;
    assert s[|a|] == UNIT_SEPARATOR && t[|c|] == UNIT_SEPARATOR;
    assert forall i :: |a| < i < |s| ==> s[i] == b[i - |a| - 1];
    assert forall i :: |c| < i < |t| ==> t[i] == d[i - |c| - 1];
    assert |a| == |c|;
    assert s[..|a|] == a && t[..|c|] == c && s[|a| + 1..] == b && t[|c| + 1..] == d;
  }

  /** Equal hashed bytes mean equal types and equal payloads, even when the type itself holds separators. */
  lemma HashedUnique(a: string, v: Json, b: string, w: Json)
    requires Numeric(v) && Numeric(w)
    ensures Hashed(a, v) == Hashed(b, w) <==> a == b && v == w
    ensures |a| < |Hashed(a, v)| && Hashed(a, v)[|a|] as int == 0x1F
  {
    if Hashed(a, v) == Hashed(b, w) {
      TextNoControl(v);
      TextNoControl(w);
      LastSeparator(a, Text(v), b, Text(w));
      assert Text(v) + [] == Text(v) && Text(w) + [] == Text(w);
      TextUnique(v, w, [], []);
    }
  }
}
