/** The breakpoint table in the extension, and what a message body does to it. */
module ExtensionTable {
  import opened TraceModel
  import opened DaemonMessages
  import opened JsonSearch
  import opened WireRoundTrip

  const MAX_BREAKPOINTS: nat := 256
  const MAX_LINES: nat := 64
  const FILE_CAP: nat := 1024

  datatype Breakpoint = Breakpoint(file: string, line: nat)

  /** The entries of other files, in table order. */
  function Others(table: seq<Breakpoint>, file: string): seq<Breakpoint> {
    if table == [] then []
    else
      var last := table[|table| - 1];
      Others(table[..|table| - 1], file) + (if last.file != file then [last] else [])
  }

  function Entries(file: string, lines: seq<nat>): seq<Breakpoint> {
    seq(|lines|, i requires 0 <= i < |lines| => Breakpoint(file, lines[i]))
  }

  lemma {:induction false} OthersShorter(table: seq<Breakpoint>, file: string)
    ensures |Others(table, file)| <= |table|
    ensures forall b :: b in Others(table, file) <==> b in table && b.file != file
  {
    if table != [] {
      OthersShorter(table[..|table| - 1], file);
      assert table == table[..|table| - 1] + [table[|table| - 1]];
    }
  }

  /** Replacing the entries of `file`: the new ones go last, as far as the table has room. */
  function Replaced(table: seq<Breakpoint>, file: string, lines: seq<nat>): seq<Breakpoint>
    requires |table| <= MAX_BREAKPOINTS
  {
    OthersShorter(table, file);
    var kept := Others(table, file);
    kept + Entries(file, lines[..Least(|lines|, MAX_BREAKPOINTS - |kept|)])
  }

  /** The message type in a body. */
  function BodyType(body: string): Option<string> {
    match ValueAfter(body, "type")
    case None => None
    case Some(v) => StringValue(v, 64)
  }

  function BodyFile(body: string): Option<string> {
    match ValueAfter(body, "file")
    case None => None
    case Some(v) => StringValue(v, FILE_CAP)
  }

  function BodyLines(body: string): seq<nat> {
    IntArray(ValueAfter(body, "lines"), MAX_LINES)
  }

  /** The table after a message text has been applied. Anything but a readable set message changes nothing. */
  function ApplyText(table: seq<Breakpoint>, text: string): seq<Breakpoint>
    requires |table| <= MAX_BREAKPOINTS
  {
    if BodyType(text) == Some(SET_TAG) && BodyFile(text).Some?
    then Replaced(table, BodyFile(text).value, BodyLines(text))
    else table
  }

  /** A body is read up to its first zero byte. */
  function ApplyBody(table: seq<Breakpoint>, body: string): seq<Breakpoint>
    requires |table| <= MAX_BREAKPOINTS
  {
    ApplyText(table, CString(body))
  }

  /** Reads a set message, or finds that it is none. */
  method ReadSet(text: string) returns (isSet: bool, file: string, lines: seq<nat>)
    ensures isSet <==> BodyType(text) == Some(SET_TAG) && BodyFile(text).Some?
    ensures isSet ==> BodyFile(text) == Some(file) && lines == BodyLines(text)
  {
    var typeAt := JsonValueAfter(text, "type");
    var isTag, tag := JsonString(text, typeAt, 64);
    if !isTag || tag != SET_TAG { return false, [], []; }
    var fileAt := JsonValueAfter(text, "file");
    var isFile, path := JsonString(text, fileAt, FILE_CAP);
    if !isFile { return false, [], []; }
    var linesAt := JsonValueAfter(text, "lines");
    lines := JsonIntArray(match linesAt case Some(i) => Some(text[i..]) case None => None, MAX_LINES);
    isSet, file := true, path;
  }

  /** The static table, compacted and refilled in place. */
  class Table {
    const slots: array<Breakpoint>
    var count: nat

    ghost predicate Valid() reads this {
      slots.Length == MAX_BREAKPOINTS && count <= MAX_BREAKPOINTS
    }

    ghost function Contents(): (s: seq<Breakpoint>)
      requires Valid()
      reads this, slots
      ensures |s| <= MAX_BREAKPOINTS
    {
      slots[..count]
    }

    constructor ()
      ensures Valid() && fresh(slots) && Contents() == []
    {
      slots := new Breakpoint[MAX_BREAKPOINTS](_ => Breakpoint("", 0));
      count := 0;
    }

    method Reset()
      requires Valid()
      modifies this
      ensures Valid() && Contents() == []
    {
      count := 0;
    }

    /** Drops the entries of `file`, moving the others down. */
    method Compact(file: string)
      requires Valid()
      modifies this, slots
      ensures Valid() && Contents() == Others(old(Contents()), file)
    {
      ghost var before := Contents();
      var w, r := 0, 0;
      while r < count
        invariant 0 <= w <= r <= count && count == old(count)
        invariant slots[..w] == Others(before[..r], file)
        invariant forall j :: r <= j < count ==> slots[j] == before[j]
      {
        assert before[..r + 1][..r] == before[..r];
        if slots[r].file != file {
          if w != r {
            slots[w] := slots[r];
          }
          w := w + 1;
        }
        r := r + 1;
      }
      assert before[..r] == before;
      count := w;
    }

    /** Appends entries for `lines` while there is room. */
    method Append(file: string, lines: seq<nat>)
      requires Valid()
      modifies this, slots
      ensures Valid()
      ensures Contents() == old(Contents()) + Entries(file, lines[..Least(|lines|, 256 - old(count))])
    {
      ghost var room := MAX_BREAKPOINTS - count;
      ghost var before := Contents();
      var i := 0;
      while i < |lines| && count < MAX_BREAKPOINTS
        invariant 0 <= i <= |lines| && count == old(count) + i <= MAX_BREAKPOINTS
        invariant slots[..count] == before + Entries(file, lines[..i])
      {
        slots[count] := Breakpoint(file, lines[i]);
        assert Entries(file, lines[..i + 1]) == Entries(file, lines[..i]) + [Breakpoint(file, lines[i])];
        count := count + 1;
        i := i + 1;
      }
      assert i == Least(|lines|, room);
    }

    method ApplyDaemonMessage(body: string)
      requires Valid()
      modifies this, slots
      ensures Valid() && Contents() == ApplyBody(old(Contents()), body)
    {
      var isSet, file, lines := ReadSet(CString(body));
      if !isSet { return; }
      Compact(file);
      Append(file, lines);
    }

    method IsBreakpoint(file: string, line: nat) returns (hit: bool)
      requires Valid()
      ensures hit == (Breakpoint(file, line) in Contents())
    {
      for i := 0 to count
        invariant Breakpoint(file, line) !in slots[..i]
      {
        if slots[i].line == line && slots[i].file == file { return true; }
      }
      return false;
    }
  }

  // ---------- printed messages ----------

  lemma {:induction false} EscapePlain(s: string)
    requires forall i :: 0 <= i < |s| ==> EscapeChar(s[i]) == [s[i]]
    ensures Escape(s) == s
  {
    if s != [] {
      EscapePlain(s[1..]);
      assert s == [s[0]] + s[1..];
    }
  }

  /** The tag of a printed message reads back. */
  lemma TypeReads(tag: string, rest: string)
    requires rest != [] && rest[0] == '"' && |tag| < 64
    requires forall i :: 0 <= i < |tag| ==> EscapeChar(tag[i]) == [tag[i]] && Carried(tag[i])
    ensures BodyType(TYPE_PART + tag + rest) == Some(tag)
  {
    var value := ['"'] + tag + rest;
    var key := "\"type\":";
    assert "\"" + "type" + "\":" == key;
    assert TYPE_PART + tag + rest == "{" + (key + value);
    SkipsTo("{", key + value, key);
    FoundHere(key, value);
    EscapePlain(tag);
    StringReadsBack(tag, rest, 64);
  }

  const SET_HEAD: string := "{\"type\":\"set_breakpoints\","
  const FILE_KEY: string := "\"file\":"
  const FILE_HEAD: string := "{\"type\":\"set_breakpoints\",\"file\":"

  /** Every quote of `a` is followed, inside `a`, by something else than `c`. */
  predicate QuotesNotBefore(a: string, c: char) {
    forall i :: 0 <= i < |a| && a[i] == '"' ==> i + 1 < |a| && a[i + 1] != c
  }

  lemma SkipsHead(a: string, b: string, pat: string)
    requires |pat| >= 2 && pat[0] == '"' && QuotesNotBefore(a, pat[1])
    ensures After(a + b, pat) == After(b, pat)
  {
    forall i | 0 <= i < |a| && a[i] == pat[0] ensures i + 1 < |a + b| && (a + b)[i + 1] != pat[1] {
      assert (a + b)[i + 1] == a[i + 1];
    }
    SkipsTo(a, b, pat);
  }

  lemma HeadsHaveNoKey()
    ensures QuotesNotBefore(SET_HEAD, 'f') && QuotesNotBefore(FILE_HEAD, 'l')
  {
  }

  function AfterFile(lines: seq<nat>): string {
    LINES_PART + CommaJoined(lines) + "]}"
  }

  lemma Parts()
    ensures TYPE_PART + SET_TAG + FILE_PART == SET_HEAD + FILE_KEY + ['"']
    ensures TYPE_PART + SET_TAG + FILE_PART == FILE_HEAD + ['"']
    ensures LINES_PART == ['"', ','] + LINES_KEY + ['[']
  {
  }

  lemma RegroupFile(h: string, k: string, q: string, e: string, l: string, c: string, z: string)
    ensures h + k + q + e + l + c + z == h + (k + (q + e + (l + c + z)))
  {
  }

  lemma RegroupLines(h: string, q: string, e: string, d: string, k: string, b: string, c: string, z: string)
    ensures h + q + e + (d + k + b) + c + z == h + (q + e + d + k + (b + c + z))
  {
  }

  lemma PrintAtFile(file: string, lines: seq<nat>)
    ensures Print(SetBreakpoints(file, lines)) == SET_HEAD + (FILE_KEY + (['"'] + Escape(file) + AfterFile(lines)))
  {
    Parts();
    RegroupFile(SET_HEAD, FILE_KEY, ['"'], Escape(file), LINES_PART, CommaJoined(lines), "]}");
  }

  lemma PrintAtLines(file: string, lines: seq<nat>)
    ensures Print(SetBreakpoints(file, lines)) == FILE_HEAD + (Quoted(Escape(file)) + LINES_KEY + (['['] + CommaJoined(lines) + "]}"))
  {
    Parts();
    RegroupLines(FILE_HEAD, ['"'], Escape(file), ['"', ','], LINES_KEY, ['['], CommaJoined(lines), "]}");
  }

  /** The first match of the quoted key `file` is the real one. */
  lemma FileKeyIsReal(file: string, lines: seq<nat>)
    ensures ValueAfter(Print(SetBreakpoints(file, lines)), "file") == Some(['"'] + Escape(file) + AfterFile(lines))
  {
    var value := ['"'] + Escape(file) + AfterFile(lines);
    assert "\"" + "file" + "\":" == FILE_KEY;
    PrintAtFile(file, lines);
    HeadsHaveNoKey();
    SkipsHead(SET_HEAD, FILE_KEY + value, FILE_KEY);
    FoundHere(FILE_KEY, value);
  }

  /** Behind the file key, the first match of the quoted key `lines` is the real one, whatever the path says. */
  lemma LinesValue(file: string, lines: seq<nat>)
    ensures ValueAfter(Print(SetBreakpoints(file, lines)), "lines") == Some(['['] + CommaJoined(lines) + "]}")
  {
    var value := ['['] + CommaJoined(lines) + "]}";
    assert "\"" + "lines" + "\":" == LINES_KEY;
    PrintAtLines(file, lines);
    HeadsHaveNoKey();
    SkipsHead(FILE_HEAD, Quoted(Escape(file)) + LINES_KEY + value, LINES_KEY);
    LinesKeyIsReal(file, value);
  }

  /** Lines are 32-bit values. */
  predicate LinesInRange(lines: seq<nat>) {
    forall i :: 0 <= i < |lines| ==> lines[i] < 0x1_0000_0000
  }

  lemma PrintedSetReads(file: string, lines: seq<nat>)
    requires LinesInRange(lines)
    ensures BodyType(Print(SetBreakpoints(file, lines))) == Some(SET_TAG)
    ensures BodyFile(Print(SetBreakpoints(file, lines))) == Some(file) <==> AllCarried(file) && |file| < 1024
    ensures BodyLines(Print(SetBreakpoints(file, lines))) == lines[..Least(|lines|, 64)]
  {
    PrintedTypeReads(file, lines);
    PrintedFileReads(file, lines);
    PrintedLinesRead(file, lines);
  }

  lemma PrintedLinesRead(file: string, lines: seq<nat>)
    requires LinesInRange(lines)
    ensures BodyLines(Print(SetBreakpoints(file, lines))) == lines[..Least(|lines|, MAX_LINES)]
  {
    LinesValue(file, lines);
    BracketFirst(CommaJoined(lines) + "]}");
    assert ['['] + CommaJoined(lines) + "]}" == ['['] + (CommaJoined(lines) + "]}");
    NumbersRead(lines, "]}", MAX_LINES);
  }

  lemma BracketFirst(s: string)
    ensures (['['] + s)[1..] == s
  {
  }

  lemma PrintedFileReads(file: string, lines: seq<nat>)
    ensures BodyFile(Print(SetBreakpoints(file, lines))) == Some(file) <==> AllCarried(file) && |file| < FILE_CAP
  {
    PrintedFileIs(file, lines);
    RereadIsSame(file);
  }

  /** What is read of a printed path: each of its bytes as the reader makes it out, if all that fits. */
  lemma PrintedFileIs(file: string, lines: seq<nat>)
    ensures BodyFile(Print(SetBreakpoints(file, lines))) == if |RereadAll(file)| < 1024 then Some(RereadAll(file)) else None
  {
    FileKeyIsReal(file, lines);
    assert AfterFile(lines)[0] == LINES_PART[0] == '"';
    StringValueIs(file, AfterFile(lines), FILE_CAP);
  }

  lemma PrintedTypeReads(file: string, lines: seq<nat>)
    ensures BodyType(Print(SetBreakpoints(file, lines))) == Some(SET_TAG)
  {
    var rest := FILE_PART + Escape(file) + AfterFile(lines);
    assert Print(SetBreakpoints(file, lines)) == TYPE_PART + SET_TAG + rest;
    assert rest[0] == FILE_PART[0] == '"';
    TypeReads(SET_TAG, rest);
  }

  lemma PrintedContinueReads()
    ensures BodyType(Print(Continue)) == Some(CONTINUE_TAG)
  {
    TypeReads(CONTINUE_TAG, "\"}");
  }

  /** Messages that survive the trip unchanged: a path of carried bytes that fits, and at most 64 lines. */
  predicate Sendable(m: DaemonMsg) {
    m.SetBreakpoints? ==> AllCarried(m.file) && |m.file| < 1024 && |m.lines| <= 64 && LinesInRange(m.lines)
  }

  lemma EscapedCharHasNoNul(c: char)
    ensures NUL !in EscapeChar(c)
  {
    if c as int < 32 {
      HexNotNul(c as int / 16);
      HexNotNul(c as int % 16);
    }
  }

  lemma {:induction false} EscapeHasNoNul(s: string)
    ensures NUL !in Escape(s)
  {
    if s != [] {
      EscapedCharHasNoNul(s[0]);
      EscapeHasNoNul(s[1..]);
    }
  }

  lemma {:induction false} DecimalHasNoNul(n: nat)
    ensures NUL !in Decimal(n)
  {
    if n >= 10 {
      DecimalHasNoNul(n / 10);
    }
  }

  lemma {:induction false} LinesHaveNoNul(ns: seq<nat>)
    ensures NUL !in CommaJoined(ns)
  {
    if ns != [] {
      DecimalHasNoNul(ns[0]);
      LinesHaveNoNul(ns[1..]);
    }
  }

  /** A printed message has no zero byte, so all of it is read. */
  lemma PrintIsCString(m: DaemonMsg)
    ensures CString(Print(m)) == Print(m)
  {
    TextsHaveNoNul();
    if m.SetBreakpoints? {
      EscapeHasNoNul(m.file);
      LinesHaveNoNul(m.lines);
      JoinHasNoNul(TYPE_PART, SET_TAG, FILE_PART, Escape(m.file), LINES_PART, CommaJoined(m.lines), "]}");
    } else {
      JoinHasNoNul(TYPE_PART, CONTINUE_TAG, "\"}", [], [], [], []);
      NothingAdded(TYPE_PART + CONTINUE_TAG + "\"}");
    }
    CStringWhole(Print(m));
  }

  lemma TextsHaveNoNul()
    ensures NUL !in TYPE_PART && NUL !in SET_TAG && NUL !in FILE_PART && NUL !in LINES_PART && NUL !in CONTINUE_TAG
    ensures NUL !in "]}" && NUL !in "\"}"
  {
  }

  lemma JoinHasNoNul(a: string, b: string, c: string, d: string, e: string, f: string, g: string)
    requires NUL !in a && NUL !in b && NUL !in c && NUL !in d && NUL !in e && NUL !in f && NUL !in g
    ensures NUL !in a + b + c + d + e + f + g
  {
  }

  lemma NothingAdded(s: string)
    ensures s + [] + [] + [] + [] == s
  {
  }

  /** Printing, then reading by substring search, is applying the message. */
  lemma PrintThenApply(table: seq<Breakpoint>, m: DaemonMsg)
    requires |table| <= MAX_BREAKPOINTS && Sendable(m)
    ensures ApplyBody(table, Print(m)) == if m.SetBreakpoints? then Replaced(table, m.file, m.lines) else table
  {
    PrintIsCString(m);
    match m
    case Continue => PrintedContinueReads();
    case SetBreakpoints(file, lines) =>
      PrintedSetReads(file, lines);
      assert lines[..Least(|lines|, MAX_LINES)] == lines;
  }
}
