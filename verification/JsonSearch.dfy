/** The extension's reading of JSON: substring search for a quoted key, then the value after it.
    Functions work on the rest of a text from a position on; the end of the text reads as NUL. */
module JsonSearch {
  import opened TraceModel

  const NUL: char := 0 as char

  /** What bytes hold as a C string. */
  function CString(s: string): string {
    if s == [] || s[0] == NUL then [] else [s[0]] + CString(s[1..])
  }

  lemma {:induction false} CStringIs(text: string, rest: string)
    requires NUL !in text
    ensures CString(text + [NUL] + rest) == text
  {
    if text != [] {
      assert (text + [NUL] + rest)[1..] == text[1..] + [NUL] + rest;
      CStringIs(text[1..], rest);
    }
  }

  lemma {:induction false} CStringWhole(s: string)
    requires NUL !in s
    ensures CString(s) == s
  {
    if s != [] {
      CStringWhole(s[1..]);
    }
  }

  predicate StartsWith(s: string, pat: string) {
    |pat| <= |s| && s[..|pat|] == pat
  }

  /** The text after the first occurrence of `pat`. */
  function After(s: string, pat: string): Option<string> {
    if StartsWith(s, pat) then Some(s[|pat|..])
    else if s == [] then None
    else After(s[1..], pat)
  }

  function SkipBlanks(s: string): string {
    if s != [] && (s[0] == ' ' || s[0] == '\t') then SkipBlanks(s[1..]) else s
  }

  /** The quoted key with its colon, or nothing when it does not fit the 64-byte pattern buffer. */
  function KeyPattern(key: string): Option<string> {
    if |key| + 3 < 64 then Some("\"" + key + "\":") else None
  }

  function ValueAfter(s: string, key: string): Option<string> {
    match KeyPattern(key)
    case None => None
    case Some(pat) => match After(s, pat) case None => None case Some(rest) => Some(SkipBlanks(rest))
  }

  lemma {:induction false} AfterIsSuffix(s: string, pat: string)
    ensures After(s, pat).Some? ==> |After(s, pat).value| <= |s| && After(s, pat).value == s[|s| - |After(s, pat).value|..]
  {
    if !StartsWith(s, pat) && s != [] {
      AfterIsSuffix(s[1..], pat);
    }
  }

  method JsonValueAfter(body: string, key: string) returns (p: Option<nat>)
    ensures p.Some? ==> p.value <= |body|
    ensures ValueAfter(body, key) == match p case Some(i) => Some(body[i..]) case None => None
  {
    var pat := KeyPattern(key);
    if pat.None? { return None; }
    var rest := After(body, pat.value);
    if rest.None? { return None; }
    AfterIsSuffix(body, pat.value);
    var i := |body| - |rest.value|;
    while i < |body| && (body[i] == ' ' || body[i] == '\t')
      invariant 0 <= i <= |body|
      invariant SkipBlanks(body[i..]) == SkipBlanks(rest.value)
    {
      assert body[i..][1..] == body[i + 1..];
      i := i + 1;
    }
    p := Some(i);
  }

  // ---------- where a value is found ----------

  /** The quoted key with a colon stands in `s` at `i`. */
  ghost predicate KeyStands(s: string, key: string, i: int) {
    0 <= i && i + |key| + 3 <= |s| && s[i] == '"' && s[i + 1..i + 1 + |key|] == key && s[i + 1 + |key|] == '"' && s[i + 2 + |key|] == ':'
  }

  /** From `j` to `k` there are only blanks and tabs, and no more follow. */
  ghost predicate BlanksTo(s: string, j: int, k: int) {
    && 0 <= j <= k <= |s| && (forall i :: j <= i < k ==> s[i] == ' ' || s[i] == '\t')
    && (k == |s| || (s[k] != ' ' && s[k] != '\t'))
  }

  lemma PatternStands(s: string, key: string)
    ensures StartsWith(s, "\"" + key + "\":") <==> KeyStands(s, key, 0)
  {
    var pat := "\"" + key + "\":";
    assert pat[0] == '"' && pat[1..1 + |key|] == key && pat[|key| + 1] == '"' && pat[|key| + 2] == ':' && |pat| == |key| + 3;
    if KeyStands(s, key, 0) {
      forall i | 0 <= i < |pat| ensures s[i] == pat[i] {
        if 1 <= i < 1 + |key| {
          assert s[1..1 + |key|][i - 1] == s[i] && pat[1..1 + |key|][i - 1] == pat[i];
        }
      }
      assert s[..|pat|] == pat;
    }
    if StartsWith(s, pat) {
      assert s[..|pat|][0] == s[0] && s[..|pat|][|key| + 1] == s[|key| + 1] && s[..|pat|][|key| + 2] == s[|key| + 2];
      assert s[..|pat|][1..1 + |key|] == s[1..1 + |key|];
    }
  }

  lemma KeyLater(s: string, key: string, i: int)
    requires s != [] && i >= 0
    ensures KeyStands(s, key, i + 1) <==> KeyStands(s[1..], key, i)
  {
    if i + |key| + 4 <= |s| {
      assert s[1..][i + 1..i + 1 + |key|] == s[i + 2..i + 2 + |key|];
    }
  }

  lemma {:induction false} AfterIsFirst(s: string, key: string)
    ensures var pat := "\"" + key + "\":";
            && (After(s, pat).None? ==> forall i :: !KeyStands(s, key, i))
            && (After(s, pat).Some? ==> |After(s, pat).value| <= |s|)
            && (After(s, pat).Some? ==> var i := |s| - |After(s, pat).value| - |pat|;
                                        KeyStands(s, key, i) && (forall j :: j < i ==> !KeyStands(s, key, j)) && After(s, pat).value == s[i + |pat|..])
  {
    var pat := "\"" + key + "\":";
    PatternStands(s, key);
    if !StartsWith(s, pat) && s != [] {
      AfterIsFirst(s[1..], key);
      forall i | i >= 0 ensures KeyStands(s, key, i + 1) <==> KeyStands(s[1..], key, i) {
        KeyLater(s, key, i);
      }
      forall i | KeyStands(s, key, i) ensures i >= 1 && KeyStands(s[1..], key, i - 1) {
        KeyLater(s, key, i - 1);
      }
      if After(s, pat).Some? {
        var i := |s[1..]| - |After(s, pat).value| - |pat|;
        KeyLater(s, key, i);
      }
    }
  }

  lemma {:induction false} BlanksSkipped(s: string, j: nat)
    requires j <= |s|
    ensures |SkipBlanks(s[j..])| <= |s| - j && BlanksTo(s, j, |s| - |SkipBlanks(s[j..])|) && SkipBlanks(s[j..]) == s[|s| - |SkipBlanks(s[j..])|..]
    decreases |s| - j
  {
    if j < |s| && (s[j] == ' ' || s[j] == '\t') {
      assert s[j..][1..] == s[j + 1..];
      BlanksSkipped(s, j + 1);
    } else {
      assert SkipBlanks(s[j..]) == s[j..];
    }
  }

  /** The key first stands at `i`, and the blanks behind it reach to `k`. */
  ghost predicate FoundAt(s: string, key: string, i: int, k: int) {
    KeyStands(s, key, i) && (forall j :: j < i ==> !KeyStands(s, key, j)) && BlanksTo(s, i + |key| + 3, k)
  }

  lemma FoundPast(s: string, key: string)
    requires After(s, "\"" + key + "\":").Some?
    ensures exists i, k :: FoundAt(s, key, i, k) && SkipBlanks(After(s, "\"" + key + "\":").value) == s[k..]
  {
    var rest := After(s, "\"" + key + "\":").value;
    AfterIsFirst(s, key);
    PatternLength(key);
    FoundFrom(s, key, rest, |s| - |rest| - |key| - 3);
  }

  lemma PatternLength(key: string)
    ensures |"\"" + key + "\":"| == |key| + 3
  {
  }

  lemma FoundFrom(s: string, key: string, rest: string, i: int)
    requires KeyStands(s, key, i) && (forall j :: j < i ==> !KeyStands(s, key, j)) && rest == s[i + |key| + 3..]
    ensures exists k :: FoundAt(s, key, i, k) && SkipBlanks(rest) == s[k..]
  {
    BlanksSkipped(s, i + |key| + 3);
    assert FoundAt(s, key, i, |s| - |SkipBlanks(rest)|);
  }

  /** The value found stands behind the first place where the quoted key stands, and behind the blanks and tabs there; none is
      found exactly when the key does not stand anywhere. Keys of more than 60 characters are not looked for. */
  lemma ValueIsFirst(s: string, key: string)
    ensures |key| > 60 ==> ValueAfter(s, key).None?
    ensures |key| <= 60 ==> (ValueAfter(s, key).None? <==> forall i :: !KeyStands(s, key, i))
    ensures ValueAfter(s, key).Some? ==> exists i, k :: FoundAt(s, key, i, k) && ValueAfter(s, key).value == s[k..]
  {
    if |key| <= 60 {
      AfterIsFirst(s, key);
      if After(s, "\"" + key + "\":").Some? {
        FoundPast(s, key);
      }
    }
  }

  // ---------- strings ----------

  function Unescaped(c: char): char {
    if c == 'n' then '\n' else if c == 'r' then '\r' else if c == 't' then '\t' else c
  }

  /** What is copied from the rest of a string value, and where copying stops, with room for `room` bytes. */
  function Copy(s: string, room: nat): (string, string)
    decreases |s|
  {
    if s == [] || room == 0 then ([], s)
    else if s[0] == '\\' && |s| > 1 then
      var (out, rest) := Copy(s[2..], room - 1);
      ([Unescaped(s[1])] + out, rest)
    else if s[0] == '"' then ([], s)
    else
      var (out, rest) := Copy(s[1..], room - 1);
      ([s[0]] + out, rest)
  }

  /** The string value at the head of `s`, if there is one that ends within `cap - 1` bytes. */
  function StringValue(s: string, cap: nat): Option<string>
    requires cap > 0
  {
    if s == [] || s[0] != '"' then None
    else
      var (out, rest) := Copy(s[1..], cap - 1);
      if rest != [] && rest[0] == '"' then Some(out) else None
  }

  /** What is copied to the buffer, whether or not the value ends there; without an opening quote nothing is. */
  function CopiedValue(s: string, cap: nat): string
    requires cap > 0
  {
    if s == [] || s[0] != '"' then [] else Copy(s[1..], cap - 1).0
  }

  method JsonString(body: string, start: Option<nat>, cap: nat) returns (ok: bool, text: string)
    requires start.Some? ==> start.value <= |body|
    requires cap > 0
    ensures text == match start case Some(i) => CopiedValue(body[i..], cap) case None => []
    ensures (if ok then Some(text) else None) == match start case Some(i) => StringValue(body[i..], cap) case None => None
  {
    if start.None? || start.value == |body| || body[start.value] != '"' { return false, []; }
    var p;
    assert body[start.value..][1..] == body[start.value + 1..];
    text, p := CopyString(body, start.value + 1, cap - 1);
    ok := p < |body| && body[p] == '"';
  }

  method CopyString(body: string, from: nat, room: nat) returns (text: string, p: nat)
    requires from <= |body|
    ensures p <= |body| && Copy(body[from..], room) == (text, body[p..])
  {
    p, text := from, [];
    ghost var all := Copy(body[from..], room);
    NothingCopied(body, from, room);
    while p < |body| && |text| < room
      invariant CopiedSoFar(all, text, body, p, room)
    {
      if body[p] == '\\' && p + 1 < |body| {
        EscapeCopied(all, text, body, p, room);
        text := text + [Unescaped(body[p + 1])];
        p := p + 2;
      } else if body[p] == '"' {
        break;
      } else {
        ByteCopied(all, text, body, p, room);
        text := text + [body[p]];
        p := p + 1;
      }
    }
    CopyingEnds(all, text, body, p, room);
  }

  /** `all` is `text` and what is copied from `p` on. */
  ghost predicate CopiedSoFar(all: (string, string), text: string, body: string, p: nat, room: nat) {
    && p <= |body| && |text| <= room
    && all == (text + Copy(body[p..], room - |text|).0, Copy(body[p..], room - |text|).1)
  }

  lemma NothingCopied(body: string, from: nat, room: nat)
    requires from <= |body|
    ensures CopiedSoFar(Copy(body[from..], room), [], body, from, room)
  {
    assert [] + Copy(body[from..], room).0 == Copy(body[from..], room).0;
  }

  lemma EscapeCopied(all: (string, string), text: string, body: string, p: nat, room: nat)
    requires CopiedSoFar(all, text, body, p, room) && p + 1 < |body| && body[p] == '\\' && |text| < room
    ensures CopiedSoFar(all, text + [Unescaped(body[p + 1])], body, p + 2, room)
  {
    assert body[p..][0] == body[p] && body[p..][1] == body[p + 1] && body[p..][2..] == body[p + 2..];
    CopyStep(text, Unescaped(body[p + 1]), Copy(body[p + 2..], room - |text| - 1).0);
  }

  lemma ByteCopied(all: (string, string), text: string, body: string, p: nat, room: nat)
    requires CopiedSoFar(all, text, body, p, room) && p < |body| && |text| < room
    requires body[p] != '"' && (body[p] == '\\' ==> p + 1 == |body|)
    ensures CopiedSoFar(all, text + [body[p]], body, p + 1, room)
  {
    assert body[p..][0] == body[p] && body[p..][1..] == body[p + 1..];
    CopyStep(text, body[p], Copy(body[p + 1..], room - |text| - 1).0);
  }

  lemma CopyingEnds(all: (string, string), text: string, body: string, p: nat, room: nat)
    requires CopiedSoFar(all, text, body, p, room) && (p == |body| || |text| == room || body[p] == '"')
    ensures all == (text, body[p..])
  {
    assert text + [] == text;
  }

  lemma CopyStep(a: string, c: char, b: string)
    ensures a + ([c] + b) == (a + [c]) + b
  {
  }

  // ---------- integer arrays ----------

  predicate IsDigit(c: char) { '0' <= c <= '9' }

  predicate IsSpace(c: char) {
    c == ' ' || 9 <= c as int <= 13
  }

  function SkipSpaces(s: string): string {
    if s != [] && IsSpace(s[0]) then SkipSpaces(s[1..]) else s
  }

  const LONG_MAX: nat := 0x7fff_ffff_ffff_ffff

  /** The digits at the head of `s`, as a continuation of `acc`, and what follows them. */
  function ReadDigits(s: string, acc: nat): (nat, string) {
    if s != [] && IsDigit(s[0]) then ReadDigits(s[1..], 10 * acc + (s[0] as int - 48)) else (acc, s)
  }

  function MinusOf(n: nat): int { -(n as int) }

  /** `strtol` in base 10: value clamped to a 64-bit long, and the rest; `None` when there is no number. */
  function ReadLong(s: string): Option<(int, string)> {
    var t := SkipSpaces(s);
    var signed := t != [] && (t[0] == '-' || t[0] == '+');
    var digits := if signed then t[1..] else t;
    if digits == [] || !IsDigit(digits[0]) then None
    else
      var (n, rest) := ReadDigits(digits, 0);
      if signed && t[0] == '-' then Some((if n > LONG_MAX + 1 then MinusOf(LONG_MAX + 1) else MinusOf(n), rest))
      else Some((if n > LONG_MAX then LONG_MAX else n, rest))
  }

  predicate IsSeparator(c: char) { c == ' ' || c == ',' || c == '\t' || c == '\n' }

  function SkipSeparators(s: string): string {
    if s != [] && IsSeparator(s[0]) then SkipSeparators(s[1..]) else s
  }

  lemma {:induction false} SkipsShorten(s: string)
    ensures |SkipSeparators(s)| <= |s| && |SkipSpaces(s)| <= |s|
  {
    if s != [] {
      SkipsShorten(s[1..]);
    }
  }

  lemma {:induction false} DigitsShorten(s: string, acc: nat)
    ensures |ReadDigits(s, acc).1| <= |s|
    ensures s != [] && IsDigit(s[0]) ==> |ReadDigits(s, acc).1| < |s|
  {
    if s != [] && IsDigit(s[0]) {
      DigitsShorten(s[1..], 10 * acc + (s[0] as int - 48));
    }
  }

  lemma LongShortens(s: string)
    ensures ReadLong(s).Some? ==> |ReadLong(s).value.1| < |s|
  {
    SkipsShorten(s);
    var t := SkipSpaces(s);
    var digits := if t != [] && (t[0] == '-' || t[0] == '+') then t[1..] else t;
    DigitsShorten(digits, 0);
  }

  /** The next number of an array body, past separators, and the rest; `None` at the end or at anything else. */
  function NextNumber(s: string): (r: Option<(int, string)>)
    ensures r.Some? ==> |r.value.1| < |s|
  {
    SkipsShorten(s);
    var t := SkipSeparators(s);
    LongShortens(t);
    if t == [] || t[0] == ']' then None else ReadLong(t)
  }

  /** The non-negative numbers of the array body `s`, at most `cap` of them, as 32-bit values. */
  function Numbers(s: string, cap: nat): seq<nat>
    decreases |s|
  {
    if s == [] || s[0] == ']' || cap == 0 then []
    else
      match NextNumber(s)
      case None => []
      case Some((v, rest)) => if v >= 0 then [v % 0x1_0000_0000] + Numbers(rest, cap - 1) else Numbers(rest, cap)
  }

  function IntArray(s: Option<string>, cap: nat): seq<nat> {
    match s
    case None => []
    case Some(t) => if t == [] || t[0] != '[' then [] else Numbers(t[1..], cap)
  }

  method JsonIntArray(value: Option<string>, cap: nat) returns (out: seq<nat>)
    ensures out == IntArray(value, cap)
  {
    if value.None? || value.value == [] || value.value[0] != '[' { return []; }
    var p := value.value[1..];
    out := [];
    while p != [] && p[0] != ']' && |out| < cap
      invariant |out| <= cap
      invariant out + Numbers(p, cap - |out|) == Numbers(value.value[1..], cap)
      decreases |p|
    {
      var v := NextNumber(p);
      if v.None? { return; }
      if v.value.0 >= 0 {
        NumbersJoin(out, v.value.0 % 0x1_0000_0000, Numbers(v.value.1, cap - |out| - 1));
        out := out + [v.value.0 % 0x1_0000_0000];
      }
      p := v.value.1;
    }
  }

  lemma NumbersJoin(a: seq<nat>, n: nat, b: seq<nat>)
    ensures a + ([n] + b) == (a + [n]) + b
  {
  }
}
