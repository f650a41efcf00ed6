/** The event filter language: clauses joined by AND, each a dotted path with a literal, or free text.
    Letters are ASCII letters. */
module EventFilter {
  import opened TraceModel
  import opened JsonValue

  datatype Literal = Exact(text: string) | Loose(text: string)
  datatype Clause = Path(path: seq<string>, lit: Literal) | FreeText(needle: string)
  datatype ParseError = UnterminatedQuote | EmptyKey(raw: string) | EmptySegment(key: string) | InvalidSegment(segment: string)
  datatype Result<+T> = Ok(value: T) | Err(error: ParseError)

  // ---------- characters ----------

  predicate IsWhite(c: char) {
    var n := c as int;
    || n == 32 || 9 <= n <= 13 || n == 0x85 || n == 0xA0 || n == 0x1680 || 0x2000 <= n <= 0x200A
    || n == 0x2028 || n == 0x2029 || n == 0x202F || n == 0x205F || n == 0x3000
  }

  function TrimStart(s: string): string {
    if s != [] && IsWhite(s[0]) then TrimStart(s[1..]) else s
  }

  function TrimEnd(s: string): string {
    if s != [] && IsWhite(s[|s| - 1]) then TrimEnd(s[..|s| - 1]) else s
  }

  function Trim(s: string): string {
    TrimEnd(TrimStart(s))
  }

  function Lower(c: char): char {
    if 'A' <= c <= 'Z' then (c as int + 32) as char else c
  }

  function ToLower(s: string): (r: string)
    ensures |r| == |s|
  {
    if s == [] then [] else [Lower(s[0])] + ToLower(s[1..])
  }

  predicate IsIdent(c: char) {
    'A' <= c <= 'Z' || 'a' <= c <= 'z' || '0' <= c <= '9' || c == '_' || c == '-'
  }

  predicate IsBlank(c: char) { c == ' ' || c == '\t' }

  // ---------- splitting on AND ----------

  /** A blank and the word AND in either case, at the head of `s`. */
  predicate BlankAnd(s: string) {
    |s| >= 4 && IsBlank(s[0]) && Lower(s[1]) == 'a' && Lower(s[2]) == 'n' && Lower(s[3]) == 'd'
  }

  predicate SepAt(s: string) {
    |s| >= 5 && BlankAnd(s) && IsBlank(s[4])
  }

  /** The pieces of the rest `s`, with `cur` the piece begun and `q` whether a quote is open. */
  function SplitFrom(s: string, cur: string, q: bool): Result<seq<string>>
    decreases |s|
  {
    if s == [] then (if q then Err(UnterminatedQuote) else Ok([cur]))
    else if s[0] == '"' then SplitFrom(s[1..], cur + [s[0]], !q)
    else if !q && SepAt(s) then
      match SplitFrom(s[5..], [], q)
      case Ok(more) => Ok([cur] + more)
      case Err(e) => Err(e)
    else SplitFrom(s[1..], cur + [s[0]], q)
  }

  function Split(s: string): Result<seq<string>> {
    SplitFrom(s, [], false)
  }

  /** The pieces found so far, followed by those of the rest. */
  function Joined(parts: seq<string>, r: Result<seq<string>>): Result<seq<string>> {
    match r
    case Ok(more) => Ok(parts + more)
    case Err(e) => Err(e)
  }

  method SplitTopLevelAnd(s: string) returns (r: Result<seq<string>>)
    ensures r == Split(s)
  {
    var parts: seq<string> := [];
    var start, i, inQuote := 0, 0, false;
    assert s[0..] == s && s[0..0] == [];
    JoinedNone(Split(s));
    while i < |s|
      invariant 0 <= start <= i <= |s|
      invariant Split(s) == Joined(parts, SplitFrom(s[i..], s[start..i], inQuote))
    {
      ghost var rest := s[i..];
      assert rest[1..] == s[i + 1..] && s[start..i + 1] == s[start..i] + [s[i]];
      if s[i] == '"' {
        inQuote := !inQuote;
        i := i + 1;
        continue;
      }
      if !inQuote && i + 5 <= |s| {
        var win := s[i..i + 5];
        if IsBlank(win[0]) && (win[1] == 'A' || win[1] == 'a') && (win[2] == 'N' || win[2] == 'n')
           && (win[3] == 'D' || win[3] == 'd') && IsBlank(win[4])
        {
          assert SepAt(rest) && rest[5..] == s[i + 5..] && s[i + 5..i + 5] == [];
          JoinedOnce(parts, s[start..i], SplitFrom(s[i + 5..], [], false));
          parts := parts + [s[start..i]];
          i := i + 5;
          start := i;
          continue;
        }
      }
      LowerIs(rest);
      i := i + 1;
    }
    assert s[i..] == [] && s[start..i] == s[start..];
    if inQuote { return Err(UnterminatedQuote); }
    r := Ok(parts + [s[start..]]);
  }

  lemma JoinedNone(r: Result<seq<string>>)
    ensures Joined([], r) == r
  {
    if r.Ok? {
      assert [] + r.value == r.value;
    }
  }

  lemma JoinedOnce(parts: seq<string>, cur: string, r: Result<seq<string>>)
    ensures Joined(parts, Joined([cur], r)) == Joined(parts + [cur], r)
  {
    if r.Ok? {
      assert parts + ([cur] + r.value) == (parts + [cur]) + r.value;
    }
  }

  lemma LowerIs(s: string)
    ensures SepAt(s) ==> (s[1] == 'A' || s[1] == 'a') && (s[2] == 'N' || s[2] == 'n') && (s[3] == 'D' || s[3] == 'd')
  {
  }

  // ---------- clauses ----------

  /** The first colon outside quotes. */
  function ColonAt(s: string, q: bool): Option<nat> {
    if s == [] then None
    else if s[0] == ':' && !q then Some(0)
    else
      match ColonAt(s[1..], if s[0] == '"' then !q else q)
      case Some(i) => Some(i + 1)
      case None => None
  }

  method FindColon(s: string) returns (colon: Option<nat>)
    ensures colon == ColonAt(s, false)
  {
    var inQuote := false;
    assert s[0..] == s;
    for i := 0 to |s|
      invariant ColonAt(s, false) == match ColonAt(s[i..], inQuote) case Some(j) => Some(i + j) case None => None
    {
      assert s[i..][1..] == s[i + 1..];
      if s[i] == '"' {
        inQuote := !inQuote;
      } else if s[i] == ':' && !inQuote {
        return Some(i);
      }
    }
    colon := None;
  }

  lemma {:induction false} ColonInRange(s: string, q: bool)
    ensures ColonAt(s, q).Some? ==> ColonAt(s, q).value < |s|
  {
    if s != [] {
      ColonInRange(s[1..], if s[0] == '"' then !q else q);
    }
  }

  function DotSplitFrom(s: string, cur: string): seq<string> {
    if s == [] then [cur]
    else if s[0] == '.' then [cur] + DotSplitFrom(s[1..], [])
    else DotSplitFrom(s[1..], cur + [s[0]])
  }

  /** The segments checked in order; the first bad one is the error. */
  function CheckSegments(segments: seq<string>, key: string): Result<seq<string>> {
    if segments == [] then Ok([])
    else
      var t := Trim(segments[0]);
      if t == [] then Err(EmptySegment(key))
      else if exists i :: 0 <= i < |t| && !IsIdent(t[i]) then Err(InvalidSegment(t))
      else
        match CheckSegments(segments[1..], key)
        case Ok(more) => Ok([t] + more)
        case Err(e) => Err(e)
  }

  predicate IsQuoted(s: string) {
    |s| >= 2 && s[0] == '"' && s[|s| - 1] == '"'
  }

  function Unquote(s: string): string
    requires IsQuoted(s)
  {
    s[1..|s| - 1]
  }

  function UnquoteOrPass(s: string): string {
    var t := Trim(s);
    if IsQuoted(t) then Unquote(t) else t
  }

  function ClauseWithColon(raw: string, idx: nat): Result<Clause>
    requires idx < |raw|
  {
    var key, val := Trim(raw[..idx]), Trim(raw[idx + 1..]);
    if key == [] then Err(EmptyKey(raw))
    else
      match CheckSegments(DotSplitFrom(key, []), key)
      case Err(e) => Err(e)
      case Ok(path) => Ok(Path(path, if IsQuoted(val) then Exact(Unquote(val)) else Loose(val)))
  }

  function ClauseOf(raw: string): Result<Clause> {
    ColonInRange(raw, false);
    match ColonAt(raw, false)
    case None => Ok(FreeText(ToLower(UnquoteOrPass(raw))))
    case Some(idx) => ClauseWithColon(raw, idx)
  }

  method ParseClause(raw: string) returns (r: Result<Clause>)
    ensures r == ClauseOf(raw)
  {
    var colon := FindColon(raw);
    ColonInRange(raw, false);
    if colon.None? { return Ok(FreeText(ToLower(UnquoteOrPass(raw)))); }
    r := ClauseWithColon(raw, colon.value);
  }

  function ClausesOf(pieces: seq<string>): Result<seq<Clause>> {
    if pieces == [] then Ok([])
    else
      var raw := Trim(pieces[0]);
      if raw == [] then ClausesOf(pieces[1..])
      else
        match ClauseOf(raw)
        case Err(e) => Err(e)
        case Ok(c) => match ClausesOf(pieces[1..]) case Err(e) => Err(e) case Ok(more) => Ok([c] + more)
  }

  /** What a filter text parses to. */
  function FilterOf(input: string): Result<seq<Clause>> {
    var trimmed := Trim(input);
    if trimmed == [] then Ok([])
    else
      match Split(trimmed)
      case Err(e) => Err(e)
      case Ok(pieces) => ClausesOf(pieces)
  }

  function Extended(clauses: seq<Clause>, r: Result<seq<Clause>>): Result<seq<Clause>> {
    match r
    case Ok(more) => Ok(clauses + more)
    case Err(e) => Err(e)
  }

  method Parse(input: string) returns (r: Result<seq<Clause>>)
    ensures r == FilterOf(input)
  {
    var trimmed := Trim(input);
    if trimmed == [] { return Ok([]); }
    var split := SplitTopLevelAnd(trimmed);
    if split.Err? { return Err(split.error); }
    var pieces := split.value;
    var clauses: seq<Clause> := [];
    assert pieces[0..] == pieces;
    ExtendedNone(ClausesOf(pieces));
    for i := 0 to |pieces|
      invariant ClausesOf(pieces) == Extended(clauses, ClausesOf(pieces[i..]))
    {
      assert pieces[i..][1..] == pieces[i + 1..];
      var raw := Trim(pieces[i]);
      if raw == [] { continue; }
      var c := ParseClause(raw);
      if c.Err? { return Err(c.error); }
      ExtendedOnce(clauses, c.value, ClausesOf(pieces[i + 1..]));
      clauses := clauses + [c.value];
    }
    assert pieces[|pieces|..] == [] && clauses + [] == clauses;
    r := Ok(clauses);
  }

  lemma ExtendedNone(r: Result<seq<Clause>>)
    ensures Extended([], r) == r
  {
    if r.Ok? {
      assert [] + r.value == r.value;
    }
  }

  lemma ExtendedOnce(clauses: seq<Clause>, c: Clause, r: Result<seq<Clause>>)
    ensures Extended(clauses, Extended([c], r)) == Extended(clauses + [c], r)
  {
    if r.Ok? {
      assert clauses + ([c] + r.value) == (clauses + [c]) + r.value;
    }
  }

  // ---------- matching ----------

  predicate AllHold(clauses: seq<Clause>, holds: Clause -> bool) {
    forall i :: 0 <= i < |clauses| ==> holds(clauses[i])
  }

  /** Whether an event satisfies all clauses, given which clauses it satisfies. */
  method Matches(clauses: seq<Clause>, holds: Clause -> bool) returns (m: bool)
    ensures m == AllHold(clauses, holds)
  {
    for i := 0 to |clauses|
      invariant forall j :: 0 <= j < i ==> holds(clauses[j])
    {
      if !holds(clauses[i]) { return false; }
    }
    return true;
  }

  /** The value at a path of object keys. */
  function At(root: Json, path: seq<string>): Option<Json>
    decreases |path|
  {
    if path == [] then Some(root)
    else if root.Obj? then
      match FieldOf(root.fields, path[0])
      case None => None
      case Some(v) => At(v, path[1..])
    else None
  }

  method LookupPath(root: Json, path: seq<string>) returns (r: Option<Json>)
    ensures r == At(root, path)
  {
    var cur := root;
    assert path[0..] == path;
    for i := 0 to |path|
      invariant At(root, path) == At(cur, path[i..])
    {
      assert path[i..][1..] == path[i + 1..];
      if !cur.Obj? { return None; }
      var next := FieldOf(cur.fields, path[i]);
      if next.None? { return None; }
      cur := next.value;
    }
    r := Some(cur);
  }
}
