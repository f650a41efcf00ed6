/** A reader of JSON texts (RFC 8259) without white space between tokens, and that it reads what the serialiser writes. */
module JsonReader {
  import opened TraceModel
  import opened JsonValue
  import opened DaemonMessages
  import opened JsonSearch
  import opened OutgoingJson
  import opened PayloadText

  lemma {:induction false} ScanShortens(s: string)
    ensures ScanString(s).Some? ==> |ScanString(s).value.1| < |s|
    decreases |s|
  {
    if s == [] || s[0] as int < 32 || s[0] == '"' {
    } else if s[0] != '\\' {
      ScanShortens(s[1..]);
    } else if |s| >= 2 && s[1] == 'u' && UnicodeEscape(s[2..]).Some? {
      ScanShortens(s[6..]);
    } else if |s| >= 2 && s[1] != 'u' {
      ScanShortens(s[2..]);
    }
  }

  /** How many characters of a number stand at the head of `s`. */
  function NumLength(s: string): (n: nat)
    ensures n <= |s|
  {
    if s != [] && NumChar(s[0]) then 1 + NumLength(s[1..]) else 0
  }

  /** The value at the head of `s`, and what follows it. */
  function ReadValue(s: string): (r: Option<(Json, string)>)
    ensures r.Some? ==> |r.value.1| < |s|
    decreases |s|, 0
  {
    if s == [] then None
    else if StartsWith(s, "null") then Some((Null, s[4..]))
    else if StartsWith(s, "true") then Some((Bool(true), s[4..]))
    else if StartsWith(s, "false") then Some((Bool(false), s[5..]))
    else if s[0] == '"' then
      ScanShortens(s[1..]);
      match ScanString(s[1..]) case None => None case Some((text, rest)) => Some((Str(text), rest))
    else if s[0] == '[' then
      if |s| > 1 && s[1] == ']' then Some((Arr([]), s[2..]))
      else match ReadItems(s[1..]) case None => None case Some((items, rest)) => Some((Arr(items), rest))
    else if s[0] == '{' then
      if |s| > 1 && s[1] == '}' then Some((Obj([]), s[2..]))
      else match ReadFields(s[1..]) case None => None case Some((fields, rest)) => Some((Obj(fields), rest))
    else if '0' <= s[0] <= '9' || s[0] == '-' then Some((Num(s[..NumLength(s)]), s[NumLength(s)..]))
    else None
  }

  /** Values with commas between them, up to the closing bracket. */
  function ReadItems(s: string): (r: Option<(seq<Json>, string)>)
    ensures r.Some? ==> |r.value.1| < |s|
    decreases |s|, 1
  {
    match ReadValue(s)
    case None => None
    case Some((v, rest)) =>
      if rest == [] then None
      else if rest[0] == ']' then Some(([v], rest[1..]))
      else if rest[0] != ',' then None
      else match ReadItems(rest[1..]) case None => None case Some((more, left)) => Some(([v] + more, left))
  }

  /** A key and a value. */
  function ReadField(s: string): (r: Option<(Field, string)>)
    ensures r.Some? ==> |r.value.1| < |s|
    decreases |s|, 1
  {
    if s == [] || s[0] != '"' then None
    else
      ScanShortens(s[1..]);
      match ScanString(s[1..])
      case None => None
      case Some((key, rest)) =>
        if rest == [] || rest[0] != ':' then None
        else match ReadValue(rest[1..]) case None => None case Some((v, left)) => Some((Field(key, v), left))
  }

  /** Fields with commas between them, up to the closing brace. */
  function ReadFields(s: string): (r: Option<(seq<Field>, string)>)
    ensures r.Some? ==> |r.value.1| < |s|
    decreases |s|, 2
  {
    match ReadField(s)
    case None => None
    case Some((f, rest)) =>
      if rest == [] then None
      else if rest[0] == '}' then Some(([f], rest[1..]))
      else if rest[0] != ',' then None
      else match ReadFields(rest[1..]) case None => None case Some((more, left)) => Some(([f] + more, left))
  }

  // ---------- texts that read as values ----------

  /** Whatever stops behind it, the text reads as that value. */
  ghost predicate Reads(t: string, v: Json) {
    forall r: string :: Stops(r) ==> ReadValue(t + r) == Some((v, r))
  }

  ghost predicate ReadsString(t: string, s: string) {
    forall r: string :: ScanString(t + (['"'] + r)) == Some((s, r))
  }

  ghost predicate ReadsField(t: string, f: Field) {
    forall r: string :: Stops(r) ==> ReadField(t + r) == Some((f, r))
  }

  lemma HeadOf(c: char, s: string)
    ensures ([c] + s)[0] == c && ([c] + s)[1..] == s
  {
  }

  lemma NotAWord(s: string)
    requires s != [] && s[0] != 'n' && s[0] != 't' && s[0] != 'f'
    ensures !StartsWith(s, "null") && !StartsWith(s, "true") && !StartsWith(s, "false")
  {
  }

  lemma StringReads(t: string, s: string)
    requires ReadsString(t, s)
    ensures Reads(['"'] + t + ['"'], Str(s))
  {
    forall r: string | Stops(r) ensures ReadValue(['"'] + t + ['"'] + r) == Some((Str(s), r)) {
      var all := ['"'] + (t + (['"'] + r));
      Regroup(['"'], t, ['"'], r);
      HeadOf('"', t + (['"'] + r));
      NotAWord(all);
    }
  }

  lemma {:induction false} NumLengthIs(t: string, r: string)
    requires (forall i :: 0 <= i < |t| ==> NumChar(t[i])) && (r == [] || !NumChar(r[0]))
    ensures NumLength(t + r) == |t|
  {
    if t == [] {
      assert t + r == r;
    } else {
      assert (t + r)[1..] == t[1..] + r;
      NumLengthIs(t[1..], r);
    }
  }

  lemma NumberReadsBack(t: string)
    requires NumText(t)
    ensures Reads(t, Num(t))
  {
    forall r: string | Stops(r) ensures ReadValue(t + r) == Some((Num(t), r)) {
      NumLengthIs(t, r);
      assert (t + r)[0] == t[0] && (t + r)[..|t|] == t && (t + r)[|t|..] == r;
      NotAWord(t + r);
    }
  }

  lemma FieldReads(t: string, key: string, u: string, v: Json)
    requires ReadsString(t, key) && Reads(u, v)
    ensures ReadsField(['"'] + t + ['"', ':'] + u, Field(key, v))
  {
    forall r: string | Stops(r) ensures ReadField(['"'] + t + ['"', ':'] + u + r) == Some((Field(key, v), r)) {
      var rest := [':'] + (u + r);
      FieldShape(t, u, r);
      HeadOf('"', t + (['"'] + rest));
      HeadOf(':', u + r);
    }
  }

  lemma FieldShape(t: string, u: string, r: string)
    ensures ['"'] + t + ['"', ':'] + u + r == ['"'] + (t + (['"'] + ([':'] + (u + r))))
  {
    assert ['"', ':'] == ['"'] + [':'];
  }

  lemma LastField(t: string, f: Field, r: string)
    requires ReadsField(t, f)
    ensures ReadFields(t + (['}'] + r)) == Some(([f], r))
  {
    HeadOf('}', r);
    assert Stops(['}'] + r);
  }

  lemma MoreField(t: string, f: Field, u: string, fs: seq<Field>, r: string)
    requires ReadsField(t, f) && ReadFields(u) == Some((fs, r))
    ensures ReadFields(t + ([','] + u)) == Some(([f] + fs, r))
  {
    HeadOf(',', u);
    assert Stops([','] + u);
  }

  lemma ObjectReads(u: string, fs: seq<Field>, r: string)
    requires ReadFields(u) == Some((fs, r))
    ensures ReadValue(['{'] + u) == Some((Obj(fs), r))
  {
    HeadOf('{', u);
    NotAWord(['{'] + u);
    assert u[0] == '"';
  }

  lemma LastItem(t: string, v: Json, r: string)
    requires Reads(t, v)
    ensures ReadItems(t + ([']'] + r)) == Some(([v], r))
  {
    HeadOf(']', r);
    assert Stops([']'] + r);
  }

  lemma MoreItem(t: string, v: Json, u: string, vs: seq<Json>, r: string)
    requires Reads(t, v) && ReadItems(u) == Some((vs, r))
    ensures ReadItems(t + ([','] + u)) == Some(([v] + vs, r))
  {
    HeadOf(',', u);
    assert Stops([','] + u);
  }

  lemma ArrayReads(u: string, vs: seq<Json>, r: string)
    requires ReadItems(u) == Some((vs, r))
    ensures ReadValue(['['] + u) == Some((Arr(vs), r))
  {
    HeadOf('[', u);
    NotAWord(['['] + u);
    NoValueAtBracket(u);
  }

  lemma NoValueAtBracket(u: string)
    requires ReadItems(u).Some?
    ensures u != [] && u[0] != ']'
  {
    if u != [] && u[0] == ']' {
      NotAWord(u);
    }
  }

  // ---------- the serialiser is read back ----------

  lemma EscapeIsString(s: string)
    ensures ReadsString(Escape(s), s)
  {
    forall r: string ensures ScanString(Escape(s) + (['"'] + r)) == Some((s, r)) {
      EscapedReads(s, r);
    }
  }

  lemma WordReads(w: string, r: string)
    requires w == "null" || w == "true" || w == "false"
    ensures ReadValue(w + r) == Some((if w == "null" then Null else Bool(w == "true"), r))
  {
    assert (w + r)[..|w|] == w && (w + r)[|w|..] == r;
    assert (w + r)[0] == w[0];
  }

  /** Every value is read back from its text. */
  lemma {:induction false} TextReads(v: Json)
    requires Numeric(v)
    ensures Reads(Text(v), v)
    decreases v, 1
  {
    match v
    case Null => forall r: string ensures ReadValue(Text(v) + r) == Some((v, r)) { WordReads("null", r); }
    case Bool(b) => forall r: string ensures ReadValue(Text(v) + r) == Some((v, r)) { WordReads(if b then "true" else "false", r); }
    case Num(t) => NumberReadsBack(t);
    case Str(s) =>
      EscapeIsString(s);
      StringReads(Escape(s), s);
    case Arr(items) => ArrayTextReads(items);
    case Obj(fields) => ObjectTextReads(fields);
  }

  lemma EmptyReads(r: string)
    ensures ReadValue("[]" + r) == Some((Arr([]), r)) && ReadValue("{}" + r) == Some((Obj([]), r))
  {
    assert ("[]" + r)[2..] == r && ("{}" + r)[2..] == r;
    NotAWord("[]" + r);
    NotAWord("{}" + r);
  }

  lemma {:induction false} ArrayTextReads(items: seq<Json>)
    requires AllNumeric(items)
    ensures Reads(Text(Arr(items)), Arr(items))
    decreases items, 2
  {
    forall r: string | Stops(r) ensures ReadValue(Text(Arr(items)) + r) == Some((Arr(items), r)) {
      if items == [] {
        EmptyReads(r);
      } else {
        Regroup(['['], Text(items[0]), MoreItems(items[1..]), r);
        ItemsRead(items, r);
        ArrayReads(Text(items[0]) + (MoreItems(items[1..]) + r), items, r);
      }
    }
  }

  lemma {:induction false} ItemsRead(items: seq<Json>, r: string)
    requires AllNumeric(items) && items != []
    ensures ReadItems(Text(items[0]) + (MoreItems(items[1..]) + r)) == Some((items, r))
    decreases items, 1
  {
    var rest := items[1..];
    TextReads(items[0]);
    assert items == [items[0]] + rest;
    if rest == [] {
      assert MoreItems(rest) == [']'] && items == [items[0]];
      LastItem(Text(items[0]), items[0], r);
    } else {
      ItemsRead(rest, r);
      MoreItem(Text(items[0]), items[0], Text(rest[0]) + (MoreItems(rest[1..]) + r), rest, r);
      Regroup([','], Text(rest[0]), MoreItems(rest[1..]), r);
    }
  }

  lemma {:induction false} ObjectTextReads(fields: seq<Field>)
    requires FieldsNumeric(fields)
    ensures Reads(Text(Obj(fields)), Obj(fields))
    decreases fields, 2
  {
    forall r: string | Stops(r) ensures ReadValue(Text(Obj(fields)) + r) == Some((Obj(fields), r)) {
      if fields == [] {
        EmptyReads(r);
      } else {
        Regroup(['{'], FieldText(fields[0]), MoreFields(fields[1..]), r);
        FieldsRead(fields, r);
        ObjectReads(FieldText(fields[0]) + (MoreFields(fields[1..]) + r), fields, r);
      }
    }
  }

  lemma {:induction false} FieldsRead(fields: seq<Field>, r: string)
    requires FieldsNumeric(fields) && fields != []
    ensures ReadFields(FieldText(fields[0]) + (MoreFields(fields[1..]) + r)) == Some((fields, r))
    decreases fields, 1
  {
    var f, rest := fields[0], fields[1..];
    TextReads(f.value);
    EscapeIsString(f.key);
    FieldReads(Escape(f.key), f.key, Text(f.value), f.value);
    assert fields == [f] + rest;
    if rest == [] {
      assert MoreFields(rest) == ['}'] && fields == [f];
      LastField(FieldText(f), f, r);
    } else {
      FieldsRead(rest, r);
      MoreField(FieldText(f), f, FieldText(rest[0]) + (MoreFields(rest[1..]) + r), rest, r);
      Regroup([','], FieldText(rest[0]), MoreFields(rest[1..]), r);
    }
  }
}
