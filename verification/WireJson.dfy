/** The messages of both sides as JSON objects, read by a reader that knows nothing of how they are put together. */
module WireJson {
  import opened TraceModel
  import opened JsonValue
  import opened DaemonMessages
  import opened JsonSearch
  import opened WireRoundTrip
  import opened OutgoingJson
  import opened PayloadText
  import opened JsonReader

  /** The value is there and is the number `n` in decimal digits. */
  predicate IsNumber(v: Option<Json>, n: nat) {
    v.Some? && v.value.Num? && v.value.text != [] && ReadDigits(v.value.text, 0) == (n, [])
  }

  lemma DecimalChars(n: nat)
    ensures NumText(Decimal(n))
  {
    DecimalDigits(n);
  }

  lemma {:induction false} DecimalDigits(n: nat)
    ensures |Decimal(n)| > 0 && forall i :: 0 <= i < |Decimal(n)| ==> '0' <= Decimal(n)[i] <= '9'
  {
    if n >= 10 {
      DecimalDigits(n / 10);
    }
  }

  lemma DecimalIsNumber(n: nat)
    ensures Reads(Decimal(n), Num(Decimal(n))) && IsNumber(Some(Num(Decimal(n))), n)
  {
    DecimalChars(n);
    NumberReadsBack(Decimal(n));
    DecimalReads(n, []);
    assert Decimal(n) + [] == Decimal(n);
  }

  // ---------- texts without escapes ----------

  /** Letters, digits and underscores stand for themselves. */
  predicate Bare(s: string) {
    forall i :: 0 <= i < |s| ==> s[i] as int >= 32 && s[i] != '"' && s[i] != '\\'
  }

  lemma {:induction false} BareScans(s: string, r: string)
    requires Bare(s)
    ensures ScanString(s + (['"'] + r)) == Some((s, r))
  {
    var all := s + (['"'] + r);
    if s == [] {
      assert all == ['"'] + r && (['"'] + r)[1..] == r;
    } else {
      assert all[0] == s[0] && all[1..] == s[1..] + (['"'] + r);
      BareScans(s[1..], r);
      assert [s[0]] + s[1..] == s;
    }
  }

  lemma BareReads(s: string)
    requires Bare(s)
    ensures ReadsString(s, s)
  {
    forall r: string ensures ScanString(s + (['"'] + r)) == Some((s, r)) {
      BareScans(s, r);
    }
  }

  // ---------- the hit ----------

  /** A `breakpoint_hit` of that frame, file and line. */
  ghost predicate IsHit(v: Json, frameId: nat, file: string, line: nat) {
    && v.Obj? && FieldOf(v.fields, "type") == Some(Str("breakpoint_hit"))
    && IsNumber(FieldOf(v.fields, "frame_id"), frameId)
    && FieldOf(v.fields, "file") == Some(Str(file))
    && IsNumber(FieldOf(v.fields, "line"), line)
  }

  /** The whole text reads as such an object. */
  ghost predicate ReadsHit(body: string, frameId: nat, file: string, line: nat) {
    ReadValue(body).Some? && ReadValue(body).value.1 == [] && IsHit(ReadValue(body).value.0, frameId, file, line)
  }

  const HIT_HEAD: string := "{\"type\":\"breakpoint_hit\",\"frame_id\":"
  const HIT_FILE: string := ",\"file\":\""
  const HIT_LINE: string := ",\"line\":"

  function HitText(frameId: nat, escaped: string, line: nat): string {
    HIT_HEAD + Decimal(frameId) + (HIT_FILE + escaped + ['"'] + (HIT_LINE + Decimal(line) + "}"))
  }

  function KeyText(key: string): string {
    ['"'] + key + ['"', ':']
  }

  function InQuotes(t: string): string {
    ['"'] + t + ['"']
  }

  lemma HeadConstant()
    ensures HIT_HEAD == ['{'] + (KeyText("type") + InQuotes("breakpoint_hit")) + [','] + KeyText("frame_id")
  {
  }

  lemma OtherConstants()
    ensures HIT_FILE == [','] + KeyText("file") + ['"'] && HIT_LINE == [','] + KeyText("line")
  {
  }

  /** Text fields with commas between them and a closing brace. */
  function Braced(ts: seq<string>): string
    requires ts != []
  {
    if |ts| == 1 then ts[0] + (['}'] + []) else ts[0] + ([','] + Braced(ts[1..]))
  }

  lemma {:induction false} BracedReads(ts: seq<string>, fs: seq<Field>)
    requires |ts| == |fs| > 0 && forall i :: 0 <= i < |ts| ==> ReadsField(ts[i], fs[i])
    ensures ReadFields(Braced(ts)) == Some((fs, []))
  {
    if |ts| == 1 {
      LastField(ts[0], fs[0], []);
      assert fs == [fs[0]];
    } else {
      BracedReads(ts[1..], fs[1..]);
      MoreField(ts[0], fs[0], Braced(ts[1..]), fs[1..], []);
      assert fs == [fs[0]] + fs[1..];
    }
  }

  lemma OneBraced(a: string)
    ensures Braced([a]) == a + ['}']
  {
    assert a + (['}'] + []) == a + ['}'];
  }

  lemma MoreBraced(a: string, ts: seq<string>)
    requires ts != []
    ensures Braced([a] + ts) == a + ([','] + Braced(ts))
  {
    assert ([a] + ts)[1..] == ts;
  }

  lemma ThreeBraced(a: string, b: string, c: string)
    ensures Braced([a, b, c]) == a + ([','] + (b + ([','] + (c + ['}']))))
  {
    OneBraced(c);
    MoreBraced(b, [c]);
    MoreBraced(a, [b, c]);
    assert [b] + [c] == [b, c] && [a] + [b, c] == [a, b, c];
  }

  lemma FourBraced(a: string, b: string, c: string, d: string)
    ensures Braced([a, b, c, d]) == a + ([','] + (b + ([','] + (c + ([','] + (d + ['}']))))))
  {
    ThreeBraced(b, c, d);
    MoreBraced(a, [b, c, d]);
    assert [a] + [b, c, d] == [a, b, c, d];
  }

  lemma HitRegroups(t: string, k: string, n: string, f: string, e: string, l: string, m: string)
    ensures ['{'] + t + [','] + k + n + ([','] + f + ['"'] + e + ['"'] + ([','] + l + m + ['}']))
            == ['{'] + (t + ([','] + (k + n + ([','] + (f + InQuotes(e) + ([','] + (l + m + ['}'])))))))
  {
    assert [','] + f + ['"'] + e + ['"'] + ([','] + l + m + ['}']) == [','] + (f + InQuotes(e) + ([','] + (l + m + ['}'])));
  }

  lemma HitIsBraced(frameId: nat, escaped: string, line: nat)
    ensures HitText(frameId, escaped, line)
            == ['{'] + Braced([KeyText("type") + InQuotes("breakpoint_hit"), KeyText("frame_id") + Decimal(frameId),
                               KeyText("file") + InQuotes(escaped), KeyText("line") + Decimal(line)])
  {
    var t, k, f, l := KeyText("type") + InQuotes("breakpoint_hit"), KeyText("frame_id"), KeyText("file"), KeyText("line");
    HeadConstant();
    OtherConstants();
    FourBraced(t, k + Decimal(frameId), f + InQuotes(escaped), l + Decimal(line));
    HitRegroups(t, k, Decimal(frameId), f, escaped, l, Decimal(line));
  }

  lemma KeyedString(key: string, t: string, s: string)
    requires Bare(key) && ReadsString(t, s)
    ensures ReadsField(KeyText(key) + InQuotes(t), Field(key, Str(s)))
  {
    BareReads(key);
    StringReads(t, s);
    FieldReads(key, key, InQuotes(t), Str(s));
  }

  lemma KeyedNumber(key: string, n: nat)
    requires Bare(key)
    ensures ReadsField(KeyText(key) + Decimal(n), Field(key, Num(Decimal(n)))) && IsNumber(Some(Num(Decimal(n))), n)
  {
    BareReads(key);
    DecimalIsNumber(n);
    FieldReads(key, key, Decimal(n), Num(Decimal(n)));
  }

  lemma EscapedIsString(s: string, k: nat)
    requires k <= |s|
    ensures ReadsString(Escaped(s, k), s[..k])
  {
    forall r: string ensures ScanString(Escaped(s, k) + (['"'] + r)) == Some((s[..k], r)) {
      ScanReads(s, k, r);
      Associate(Escaped(s, k), ['"'], r);
    }
  }

  lemma HitKeys()
    ensures Bare("type") && Bare("breakpoint_hit") && Bare("frame_id") && Bare("file") && Bare("line")
  {
  }

  lemma FoundFirst(f: Field, fs: seq<Field>, key: string)
    ensures FieldOf([f] + fs, key) == if f.key == key then Some(f.value) else FieldOf(fs, key)
  {
    assert ([f] + fs)[1..] == fs;
  }

  lemma ThreeFound(a: Field, b: Field, c: Field)
    requires a.key != b.key && a.key != c.key && b.key != c.key
    ensures FieldOf([a, b, c], a.key) == Some(a.value) && FieldOf([a, b, c], b.key) == Some(b.value) && FieldOf([a, b, c], c.key) == Some(c.value)
  {
    forall key | key == a.key || key == b.key || key == c.key
      ensures FieldOf([a, b, c], key) == if key == a.key then Some(a.value) else if key == b.key then Some(b.value) else Some(c.value)
    {
      FoundFirst(a, [b, c], key);
      FoundFirst(b, [c], key);
      FoundFirst(c, [], key);
      assert [a] + [b, c] == [a, b, c] && [b] + [c] == [b, c] && [c] + [] == [c];
    }
  }

  lemma FieldsFound(t: Json, n: Json, f: Json, l: Json)
    ensures var fs := [Field("type", t), Field("frame_id", n), Field("file", f), Field("line", l)];
            && FieldOf(fs, "type") == Some(t) && FieldOf(fs, "frame_id") == Some(n)
            && FieldOf(fs, "file") == Some(f) && FieldOf(fs, "line") == Some(l)
  {
    var a, more := Field("type", t), [Field("frame_id", n), Field("file", f), Field("line", l)];
    DifferentKeys();
    ThreeFound(more[0], more[1], more[2]);
    FoundFirst(a, more, "type");
    FoundFirst(a, more, "frame_id");
    FoundFirst(a, more, "file");
    FoundFirst(a, more, "line");
    assert [a] + more == [Field("type", t), Field("frame_id", n), Field("file", f), Field("line", l)];
  }

  lemma DifferentKeys()
    ensures "type" != "frame_id" && "type" != "file" && "type" != "line" && "frame_id" != "file" && "frame_id" != "line" && "file" != "line"
  {
    assert "type"[0] == 't' && "frame_id"[0] == 'f' && "file"[1] == 'i' && "frame_id"[1] == 'r' && "file"[0] == 'f' && "line"[0] == 'l';
  }

  lemma HitFieldsRead(frameId: nat, file: string, k: nat, line: nat)
    requires k <= |file|
    ensures ReadFields(Braced([KeyText("type") + InQuotes("breakpoint_hit"), KeyText("frame_id") + Decimal(frameId),
                               KeyText("file") + InQuotes(Escaped(file, k)), KeyText("line") + Decimal(line)]))
            == Some(([Field("type", Str("breakpoint_hit")), Field("frame_id", Num(Decimal(frameId))), Field("file", Str(file[..k])),
                      Field("line", Num(Decimal(line)))], []))
    ensures IsNumber(Some(Num(Decimal(frameId))), frameId) && IsNumber(Some(Num(Decimal(line))), line)
  {
    HitKeys();
    BareReads("breakpoint_hit");
    KeyedString("type", "breakpoint_hit", "breakpoint_hit");
    KeyedNumber("frame_id", frameId);
    EscapedIsString(file, k);
    KeyedString("file", Escaped(file, k), file[..k]);
    KeyedNumber("line", line);
    BracedReads([KeyText("type") + InQuotes("breakpoint_hit"), KeyText("frame_id") + Decimal(frameId),
                 KeyText("file") + InQuotes(Escaped(file, k)), KeyText("line") + Decimal(line)],
                [Field("type", Str("breakpoint_hit")), Field("frame_id", Num(Decimal(frameId))), Field("file", Str(file[..k])),
                 Field("line", Num(Decimal(line)))]);
  }

  lemma HitReads(frameId: nat, file: string, k: nat, line: nat)
    requires k <= |file|
    ensures ReadsHit(HitText(frameId, Escaped(file, k), line), frameId, file[..k], line)
  {
    HitIsBraced(frameId, Escaped(file, k), line);
    HitFieldsRead(frameId, file, k, line);
    ObjectReads(Braced([KeyText("type") + InQuotes("breakpoint_hit"), KeyText("frame_id") + Decimal(frameId),
                        KeyText("file") + InQuotes(Escaped(file, k)), KeyText("line") + Decimal(line)]),
                [Field("type", Str("breakpoint_hit")), Field("frame_id", Num(Decimal(frameId))), Field("file", Str(file[..k])),
                 Field("line", Num(Decimal(line)))], []);
    FieldsFound(Str("breakpoint_hit"), Num(Decimal(frameId)), Str(file[..k]), Num(Decimal(line)));
  }

  lemma HitFits(frameId: nat, escaped: string, line: nat)
    requires frameId < 0x1_0000_0000 && line < 0x1_0000_0000 && |escaped| < PATH_CAP
    ensures 0 < |HitText(frameId, escaped, line)| < MESSAGE_CAP
  {
    assert Power10(10) == 10_000_000_000 by {
      assert Power10(5) == 100_000;
    }
    DecimalFits(frameId, 10);
    DecimalFits(line, 10);
  }

  /** The message sent on stopping. It never overflows its buffer, and it is a JSON object that names the frame, the line and
      as much of the file name as its buffer of 1024 bytes kept. */
  method HitMessage(frameId: nat, file: string, line: nat) returns (msg: Option<string>)
    requires frameId < 0x1_0000_0000 && line < 0x1_0000_0000 && NUL !in file
    ensures msg.Some? && 0 < |msg.value| < 1536
    ensures ReadsHit(msg.value, frameId, file[..Kept(file, 1024)], line)
  {
    var escaped := new char[PATH_CAP];
    EscapeJson(file, escaped);
    var text := HitText(frameId, CString(escaped[..]), line);
    HitReads(frameId, file, Kept(file, PATH_CAP), line);
    EscapedFits(file, PATH_CAP);
    HitFits(frameId, Escaped(file, Kept(file, PATH_CAP)), line);
    msg := if |text| >= MESSAGE_CAP then None else Some(text);
  }

  // ---------- the daemon's messages ----------

  /** The numbers `ns`, in order. */
  ghost predicate AreNumbers(vs: seq<Json>, ns: seq<nat>) {
    |vs| == |ns| && forall i :: 0 <= i < |vs| ==> IsNumber(Some(vs[i]), ns[i])
  }

  /** A `set_breakpoints` of that file and those lines, or a `continue`. */
  ghost predicate IsMessage(v: Json, m: DaemonMsg) {
    && v.Obj?
    && match m
       case Continue => FieldOf(v.fields, "type") == Some(Str("continue"))
       case SetBreakpoints(file, lines) =>
         && FieldOf(v.fields, "type") == Some(Str("set_breakpoints")) && FieldOf(v.fields, "file") == Some(Str(file))
         && FieldOf(v.fields, "lines").Some? && FieldOf(v.fields, "lines").value.Arr? && AreNumbers(FieldOf(v.fields, "lines").value.items, lines)
  }

  ghost predicate ReadsMessage(body: string, m: DaemonMsg) {
    ReadValue(body).Some? && ReadValue(body).value.1 == [] && IsMessage(ReadValue(body).value.0, m)
  }

  function Numbers(ns: seq<nat>): seq<Json> {
    seq(|ns|, i requires 0 <= i < |ns| => Num(Decimal(ns[i])))
  }

  lemma {:induction false} NumbersAre(ns: seq<nat>)
    ensures AreNumbers(Numbers(ns), ns)
  {
    forall i | 0 <= i < |ns| ensures IsNumber(Some(Numbers(ns)[i]), ns[i]) {
      DecimalIsNumber(ns[i]);
    }
  }

  lemma {:induction false} CommaJoinedReads(ns: seq<nat>, r: string)
    requires ns != []
    ensures ReadItems(CommaJoined(ns) + ([']'] + r)) == Some((Numbers(ns), r))
  {
    DecimalIsNumber(ns[0]);
    if |ns| == 1 {
      LastItem(Decimal(ns[0]), Num(Decimal(ns[0])), r);
      assert Numbers(ns) == [Num(Decimal(ns[0]))];
    } else {
      CommaJoinedReads(ns[1..], r);
      MoreItem(Decimal(ns[0]), Num(Decimal(ns[0])), CommaJoined(ns[1..]) + ([']'] + r), Numbers(ns[1..]), r);
      Regroup(Decimal(ns[0]), [','], CommaJoined(ns[1..]), [']'] + r);
      assert Numbers(ns) == [Num(Decimal(ns[0]))] + Numbers(ns[1..]);
    }
  }

  lemma LinesRead(ns: seq<nat>)
    ensures Reads(['['] + CommaJoined(ns) + [']'], Arr(Numbers(ns)))
  {
    forall r: string | Stops(r) ensures ReadValue(['['] + CommaJoined(ns) + [']'] + r) == Some((Arr(Numbers(ns)), r)) {
      Regroup(['['], CommaJoined(ns), [']'], r);
      if ns == [] {
        EmptyReads(r);
        assert ['['] + CommaJoined(ns) + [']'] == "[]" && Numbers(ns) == [];
      } else {
        CommaJoinedReads(ns, r);
        ArrayReads(CommaJoined(ns) + ([']'] + r), Numbers(ns), r);
      }
    }
  }

  lemma SetConstants()
    ensures TYPE_PART + SET_TAG + FILE_PART == ['{'] + (KeyText("type") + InQuotes("set_breakpoints")) + [','] + KeyText("file") + ['"']
    ensures LINES_PART == ['"'] + [','] + KeyText("lines") + ['['] && "]}" == [']'] + ['}']
  {
  }

  lemma ContinueConstant()
    ensures TYPE_PART + CONTINUE_TAG + "\"}" == ['{'] + (KeyText("type") + InQuotes("continue") + (['}'] + []))
  {
  }

  lemma SetRegroups(t: string, f: string, e: string, l: string, n: string)
    ensures ['{'] + t + [','] + f + ['"'] + e + (['"'] + [','] + l + ['[']) + n + ([']'] + ['}'])
            == ['{'] + (t + ([','] + (f + InQuotes(e) + ([','] + (l + (['['] + n + [']']) + ['}'])))))
  {
  }

  lemma SetIsBraced(file: string, lines: seq<nat>)
    ensures Print(SetBreakpoints(file, lines))
            == ['{'] + Braced([KeyText("type") + InQuotes("set_breakpoints"), KeyText("file") + InQuotes(Escape(file)),
                               KeyText("lines") + (['['] + CommaJoined(lines) + [']'])])
  {
    var t, f, l := KeyText("type") + InQuotes("set_breakpoints"), KeyText("file"), KeyText("lines");
    SetConstants();
    ThreeBraced(t, f + InQuotes(Escape(file)), l + (['['] + CommaJoined(lines) + [']']));
    SetRegroups(t, f, Escape(file), l, CommaJoined(lines));
  }

  lemma MessageKeys()
    ensures Bare("type") && Bare("file") && Bare("lines") && Bare("set_breakpoints") && Bare("continue")
    ensures "type" != "file" && "type" != "lines" && "file" != "lines"
  {
    assert "type"[0] == 't' && "file"[0] == 'f' && "lines"[0] == 'l';
  }

  lemma SetFound(t: Json, f: Json, l: Json)
    ensures var fs := [Field("type", t), Field("file", f), Field("lines", l)];
            FieldOf(fs, "type") == Some(t) && FieldOf(fs, "file") == Some(f) && FieldOf(fs, "lines") == Some(l)
  {
    MessageKeys();
    ThreeFound(Field("type", t), Field("file", f), Field("lines", l));
  }

  lemma SetReads(file: string, lines: seq<nat>)
    ensures ReadsMessage(Print(SetBreakpoints(file, lines)), SetBreakpoints(file, lines))
  {
    var ts := [KeyText("type") + InQuotes("set_breakpoints"), KeyText("file") + InQuotes(Escape(file)),
               KeyText("lines") + (['['] + CommaJoined(lines) + [']'])];
    var fs := [Field("type", Str("set_breakpoints")), Field("file", Str(file)), Field("lines", Arr(Numbers(lines)))];
    SetIsBraced(file, lines);
    MessageKeys();
    BareReads("set_breakpoints");
    KeyedString("type", "set_breakpoints", "set_breakpoints");
    EscapeIsString(file);
    KeyedString("file", Escape(file), file);
    BareReads("lines");
    LinesRead(lines);
    FieldReads("lines", "lines", ['['] + CommaJoined(lines) + [']'], Arr(Numbers(lines)));
    BracedReads(ts, fs);
    ObjectReads(Braced(ts), fs, []);
    SetFound(fs[0].value, fs[1].value, fs[2].value);
    NumbersAre(lines);
  }

  /** What the daemon's serialiser writes is that message, as JSON. */
  lemma PrintIsJson(m: DaemonMsg)
    ensures ReadsMessage(Print(m), m)
  {
    match m
    case SetBreakpoints(file, lines) => SetReads(file, lines);
    case Continue =>
      var t, f := KeyText("type") + InQuotes("continue"), Field("type", Str("continue"));
      ContinueConstant();
      MessageKeys();
      BareReads("continue");
      KeyedString("type", "continue", "continue");
      LastField(t, f, []);
      ObjectReads(t + (['}'] + []), [f], []);
  }
}
