/** The documented grammar of filters, and the round trip through it. */
module FilterGrammar {
  import opened TraceModel
  import opened EventFilter
  import opened FilterTheorems

  /** A clause as written: a path with a quoted or an unquoted literal, a bare word, or quoted free text. */
  datatype Written =
    | PathExact(path: seq<string>, text: string)
    | PathLoose(path: seq<string>, text: string)
    | Bare(text: string)
    | QuotedText(text: string)

  /** Free text is searched for in lower case. */
  function Meaning(w: Written): Clause {
    match w
    case PathExact(path, text) => Path(path, Exact(text))
    case PathLoose(path, text) => Path(path, Loose(text))
    case Bare(text) => FreeText(ToLower(text))
    case QuotedText(text) => FreeText(ToLower(text))
  }

  function Dotted(path: seq<string>): string {
    if path == [] then [] else if |path| == 1 then path[0] else path[0] + ['.'] + Dotted(path[1..])
  }

  function InQuotes(text: string): string {
    ['"'] + text + ['"']
  }

  function Show(w: Written): string {
    match w
    case PathExact(path, text) => Dotted(path) + [':'] + InQuotes(text)
    case PathLoose(path, text) => Dotted(path) + [':'] + text
    case Bare(text) => text
    case QuotedText(text) => InQuotes(text)
  }

  predicate Without(s: string, c: char) {
    forall i :: 0 <= i < |s| ==> s[i] != c
  }

  predicate Idents(path: seq<string>) {
    path != [] && forall k :: 0 <= k < |path| ==> path[k] != [] && forall i :: 0 <= i < |path[k]| ==> IsIdent(path[k][i])
  }

  /** Unquoted text: no quotes, no separator inside, not ending in a blank and AND. */
  predicate Unquoted(s: string) {
    Without(s, '"') && NoSep(s, false) && !EndsBlankAnd(s)
  }

  predicate WellFormed(w: Written) {
    match w
    case PathExact(path, text) => Idents(path) && Without(text, '"')
    case PathLoose(path, text) => Idents(path) && Unquoted(text) && (text == [] || Trimmed(text))
    case Bare(text) => Unquoted(text) && Trimmed(text) && Without(text, ':')
    case QuotedText(text) => Without(text, '"')
  }

  function ShowAll(ws: seq<Written>): string {
    if ws == [] then [] else if |ws| == 1 then Show(ws[0]) else Show(ws[0]) + SEP + ShowAll(ws[1..])
  }

  function Meanings(ws: seq<Written>): seq<Clause> {
    if ws == [] then [] else [Meaning(ws[0])] + Meanings(ws[1..])
  }

  // ---------- text in front of a colon ----------

  /** Text of identifier characters and dots. */
  predicate KeyText(s: string) {
    forall i :: 0 <= i < |s| ==> IsIdent(s[i]) || s[i] == '.'
  }

  lemma {:induction false} DottedIsKey(path: seq<string>)
    requires Idents(path)
    ensures KeyText(Dotted(path)) && Dotted(path) != [] && IsIdent(Dotted(path)[0]) && IsIdent(Dotted(path)[|Dotted(path)| - 1])
  {
    if |path| == 1 {
    } else {
      assert Idents(path[1..]);
      DottedIsKey(path[1..]);
    }
  }

  lemma {:induction false} KeyPrefix(a: string, b: string)
    requires forall i :: 0 <= i < |a| ==> IsIdent(a[i]) || a[i] == '.' || a[i] == ':'
    ensures NoSep(a + b, false) == NoSep(b, false) && QuoteAfter(a + b, false) == QuoteAfter(b, false)
  {
    if a == [] {
      assert a + b == b;
    } else {
      assert (a + b)[1..] == a[1..] + b;
      KeyPrefix(a[1..], b);
    }
  }

  lemma {:induction false} ColonAfterKey(a: string, rest: string)
    requires KeyText(a)
    ensures ColonAt(a + [':'] + rest, false) == Some(|a|)
  {
    var s := a + [':'] + rest;
    if a != [] {
      assert s[1..] == a[1..] + [':'] + rest;
      ColonAfterKey(a[1..], rest);
    }
  }

  lemma {:induction false} DotSplitOne(seg: string, rest: string, cur: string)
    requires Without(seg, '.')
    ensures DotSplitFrom(seg + rest, cur) == DotSplitFrom(rest, cur + seg)
  {
    if seg == [] {
      assert seg + rest == rest && cur + seg == cur;
    } else {
      assert (seg + rest)[1..] == seg[1..] + rest;
      DotSplitOne(seg[1..], rest, cur + [seg[0]]);
      assert (cur + [seg[0]]) + seg[1..] == cur + seg;
    }
  }

  lemma IdentsTail(path: seq<string>)
    requires Idents(path)
    ensures Without(path[0], '.') && (|path| > 1 ==> Idents(path[1..]))
  {
  }

  lemma OneSegment(seg: string)
    requires Without(seg, '.')
    ensures DotSplitFrom(seg, []) == [seg]
  {
    DotSplitOne(seg, [], []);
    EmptyJoin(seg);
  }

  lemma {:induction false} DottedSplits(path: seq<string>)
    requires Idents(path)
    ensures DotSplitFrom(Dotted(path), []) == path
  {
    var seg := path[0];
    IdentsTail(path);
    if |path| == 1 {
      OneSegment(seg);
      FirstAndRest(path);
    } else {
      DottedSplits(path[1..]);
      DotStep(seg, Dotted(path[1..]));
      Associate(seg, ['.'], Dotted(path[1..]));
      FirstAndRest(path);
    }
  }

  lemma FirstAndRest(path: seq<string>)
    requires path != []
    ensures [path[0]] + path[1..] == path
  {
  }

  lemma EmptyJoin(s: string)
    ensures [] + s == s && s + [] == s
  {
  }

  lemma DotStep(seg: string, rest: string)
    requires Without(seg, '.')
    ensures DotSplitFrom(seg + (['.'] + rest), []) == [seg] + DotSplitFrom(rest, [])
  {
    DotSplitOne(seg, ['.'] + rest, []);
    EmptyJoin(seg);
    assert (['.'] + rest)[1..] == rest;
  }

  lemma {:induction false} SegmentsCheck(path: seq<string>, key: string)
    requires forall k :: 0 <= k < |path| ==> path[k] != [] && forall i :: 0 <= i < |path[k]| ==> IsIdent(path[k][i])
    ensures CheckSegments(path, key) == Ok(path)
  {
    if path != [] {
      assert Trimmed(path[0]);
      TrimmedIsTrim(path[0]);
      SegmentsCheck(path[1..], key);
      assert path == [path[0]] + path[1..];
    }
  }

  // ---------- quoted and unquoted text ----------

  lemma {:induction false} InsideQuotes(text: string)
    requires Without(text, '"')
    ensures NoSep(text + ['"'], true) && !QuoteAfter(text + ['"'], true) && ColonAt(text + ['"'], true) == None
  {
    if text == [] {
      assert text + ['"'] == ['"'] && ['"'][1..] == [];
    } else {
      assert (text + ['"'])[1..] == text[1..] + ['"'];
      InsideQuotes(text[1..]);
    }
  }

  lemma QuotesAreClean(text: string)
    requires Without(text, '"')
    ensures NoSep(InQuotes(text), false) && !QuoteAfter(InQuotes(text), false) && ColonAt(InQuotes(text), false) == None
    ensures Trimmed(InQuotes(text)) && IsQuoted(InQuotes(text)) && Unquote(InQuotes(text)) == text
  {
    assert InQuotes(text)[1..] == text + ['"'];
    InsideQuotes(text);
  }

  lemma NoQuotesStaysClosed(s: string)
    requires Without(s, '"')
    ensures !QuoteAfter(s, false)
  {
    QuotelessKeeps(s, false);
  }

  lemma {:induction false} NoColon(s: string)
    requires Without(s, ':')
    ensures forall q :: ColonAt(s, q) == None
  {
    if s != [] {
      NoColon(s[1..]);
    }
  }

  // ---------- one clause ----------

  /** A shown clause is one clean, trimmed piece that does not end in a blank and AND. */
  predicate CleanPiece(s: string) {
    NoSep(s, false) && !QuoteAfter(s, false) && Trimmed(s) && !EndsBlankAnd(s)
  }

  lemma EndAfterColon(key: string, text: string)
    requires !EndsBlankAnd(text)
    ensures !EndsBlankAnd(key + [':'] + text)
  {
    var s := key + [':'] + text;
    if |text| >= 4 {
      assert s[|s| - 4..] == text[|text| - 4..];
    } else if |s| >= 4 {
      assert s[|s| - 4..][3 - |text|] == ':';
    }
  }

  /** A key, a colon and clean text make a clean piece. */
  lemma KeyedIsClean(key: string, text: string)
    requires KeyText(key) && key != [] && IsIdent(key[0])
    requires NoSep(text, false) && !QuoteAfter(text, false) && !EndsBlankAnd(text) && (text == [] || Trimmed(text))
    ensures CleanPiece(key + [':'] + text)
  {
    KeyPrefix(key + [':'], text);
    EndAfterColon(key, text);
    KeyedIsTrimmed(key, text);
  }

  lemma KeyedIsTrimmed(key: string, text: string)
    requires key != [] && IsIdent(key[0]) && (text == [] || Trimmed(text))
    ensures Trimmed(key + [':'] + text)
  {
    var s := key + [':'] + text;
    assert s[0] == key[0];
    assert s[|s| - 1] == if text == [] then ':' else text[|text| - 1];
  }

  lemma QuotedIsClean(text: string)
    requires Without(text, '"')
    ensures CleanPiece(InQuotes(text))
  {
    QuotesAreClean(text);
    var s := InQuotes(text);
    if |s| >= 4 {
      assert s[|s| - 4..][3] == '"';
    }
  }

  lemma ShownIsClean(w: Written)
    requires WellFormed(w)
    ensures CleanPiece(Show(w))
  {
    match w
    case PathExact(path, text) =>
      DottedIsKey(path);
      QuotedIsClean(text);
      KeyedIsClean(Dotted(path), InQuotes(text));
    case PathLoose(path, text) =>
      DottedIsKey(path);
      NoQuotesStaysClosed(text);
      KeyedIsClean(Dotted(path), text);
    case Bare(text) =>
      NoQuotesStaysClosed(text);
    case QuotedText(text) =>
      QuotedIsClean(text);
  }

  lemma PathParses(path: seq<string>, val: string, lit: Literal)
    requires Idents(path) && Trim(val) == val
    requires lit == if IsQuoted(val) then Exact(Unquote(val)) else Loose(val)
    ensures ClauseOf(Dotted(path) + [':'] + val) == Ok(Path(path, lit))
  {
    var key := Dotted(path);
    var raw := key + [':'] + val;
    DottedIsKey(path);
    ColonAfterKey(key, val);
    assert raw[..|key|] == key && raw[|key| + 1..] == val;
    TrimmedIsTrim(key);
    DottedSplits(path);
    SegmentsCheck(path, key);
  }

  lemma ShownParses(w: Written)
    requires WellFormed(w)
    ensures ClauseOf(Show(w)) == Ok(Meaning(w))
  {
    match w
    case PathExact(path, text) =>
      QuotesAreClean(text);
      TrimmedIsTrim(InQuotes(text));
      PathParses(path, InQuotes(text), Exact(text));
    case PathLoose(path, text) =>
      if text != [] {
        TrimmedIsTrim(text);
      }
      PathParses(path, text, Loose(text));
    case Bare(text) =>
      NoColon(text);
      TrimmedIsTrim(text);
    case QuotedText(text) =>
      QuotesAreClean(text);
      TrimmedIsTrim(InQuotes(text));
  }

  // ---------- whole filters ----------

  function Shows(ws: seq<Written>): seq<string> {
    if ws == [] then [] else [Show(ws[0])] + Shows(ws[1..])
  }

  ghost predicate AllWellFormed(ws: seq<Written>) {
    forall i :: 0 <= i < |ws| ==> WellFormed(ws[i])
  }

  lemma OnePiece(s: string)
    requires CleanPiece(s)
    ensures Split(s) == Ok([s])
  {
    WholePiece(s, [], false);
    assert [] + s == s;
  }

  lemma {:induction false} ShownSplits(ws: seq<Written>)
    requires ws != [] && AllWellFormed(ws)
    ensures Split(ShowAll(ws)) == Ok(Shows(ws)) && Trimmed(ShowAll(ws))
  {
    ShownIsClean(ws[0]);
    OnePiece(Show(ws[0]));
    if |ws| == 1 {
      assert Shows(ws) == [Show(ws[0])];
    } else {
      var a, b := Show(ws[0]), ShowAll(ws[1..]);
      ShownSplits(ws[1..]);
      AndJoinsPieces(a, b);
      assert LastOf(Split(a)) == a;
      assert ShowAll(ws)[0] == a[0] && ShowAll(ws)[|ShowAll(ws)| - 1] == b[|b| - 1];
    }
  }

  lemma {:induction false} ShownClauses(ws: seq<Written>)
    requires AllWellFormed(ws)
    ensures ClausesOf(Shows(ws)) == Ok(Meanings(ws))
  {
    if ws != [] {
      ShownIsClean(ws[0]);
      ShownParses(ws[0]);
      TrimmedIsTrim(Show(ws[0]));
      ShownClauses(ws[1..]);
      assert Shows(ws)[1..] == Shows(ws[1..]);
    }
  }

  /** Every filter of the grammar, written clause by clause and joined with AND, parses back to its clauses. */
  lemma GrammarRoundTrip(ws: seq<Written>)
    requires AllWellFormed(ws)
    ensures FilterOf(ShowAll(ws)) == Ok(Meanings(ws))
  {
    if ws != [] {
      ShownSplits(ws);
      ShownClauses(ws);
      TrimmedIsTrim(ShowAll(ws));
    }
  }

  // ---------- where AND does not join ----------

  lemma OneClause(s: string, c: Clause)
    requires Trimmed(s) && Split(s) == Ok([s]) && ClauseOf(s) == Ok(c)
    ensures FilterOf(s) == Ok([c])
  {
    TrimmedIsTrim(s);
    assert [s][1..] == [];
    assert ClausesOf([]) == Ok([]) && [c] + [] == [c];
  }

  lemma BareParses(s: string)
    requires Trimmed(s) && Without(s, '"') && Without(s, ':')
    ensures ClauseOf(s) == Ok(FreeText(ToLower(s)))
  {
    NoColon(s);
    TrimmedIsTrim(s);
  }

  lemma AfterAnd(u: string)
    ensures var a := u + " AND"; |a| == |u| + 4 && a[..|u|] == u && a[|u|] == ' ' && a[|u| + 1] == 'A' && a[|u| + 2] == 'N' && a[|u| + 3] == 'D'
  {
  }

  lemma AndItself()
    ensures NoSep(" AND", false)
  {
    ShortHasNoSep(" AND", false);
  }

  lemma NoSepAtHead(u: string)
    requires u != [] && !SepAt(u) && !EndsBlankAnd(u)
    ensures !SepAt(u + " AND")
  {
    var a := u + " AND";
    AfterAnd(u);
    LowerIs(a);
    if |u| >= 5 {
      assert a[..5] == u[..5];
    } else if |u| == 4 {
      assert u[|u| - 4..] == u == a[..4];
    }
  }

  lemma {:induction false} NoSepBeforeAnd(u: string)
    requires Without(u, '"') && NoSep(u, false) && !EndsBlankAnd(u)
    ensures NoSep(u + " AND", false)
  {
    if u == [] {
      AndItself();
      assert u + " AND" == " AND";
    } else {
      assert (u + " AND")[1..] == u[1..] + " AND";
      if |u| > 4 {
        assert u[1..][|u| - 1 - 4..] == u[|u| - 4..];
      }
      NoSepBeforeAnd(u[1..]);
      NoSepAtHead(u);
    }
  }

  lemma EndingInAnd(u: string)
    requires WellFormed(Bare(u))
    ensures FilterOf(u + " AND") == Ok([FreeText(ToLower(u + " AND"))])
  {
    var a := u + " AND";
    AfterAnd(u);
    assert Trimmed(a) && Without(a, '"') && Without(a, ':');
    NoSepBeforeAnd(u);
    NoQuotesStaysClosed(a);
    WholePiece(a, [], false);
    EmptyJoin(a);
    BareParses(a);
    OneClause(a, FreeText(ToLower(a)));
  }

  lemma Regrouped(u: string, v: string)
    ensures u + " AND" + SEP + v == u + SEP + ("AND " + v)
  {
  }

  lemma OneBare(u: string)
    requires WellFormed(Bare(u))
    ensures FilterOf(u) == Ok([FreeText(ToLower(u))]) && Split(u) == Ok([u])
  {
    ShownIsClean(Bare(u));
    OnePiece(u);
    BareParses(u);
    OneClause(u, FreeText(ToLower(u)));
  }

  lemma TwoBare(u: string, w: string)
    requires WellFormed(Bare(u)) && WellFormed(Bare(w))
    ensures FilterOf(u + SEP + w) == Ok([FreeText(ToLower(u)), FreeText(ToLower(w))])
  {
    OneBare(u);
    OneBare(w);
    AndIsConjunction(u, w, (c: Clause) => true);
    assert [FreeText(ToLower(u))] + [FreeText(ToLower(w))] == [FreeText(ToLower(u)), FreeText(ToLower(w))];
  }

  /** Where the first text ends in AND the words regroup: `u AND` joined with `v` is read as `u` and `AND v`. */
  lemma TrailingAndRegroups(u: string, v: string)
    requires WellFormed(Bare(u)) && WellFormed(Bare(v)) && WellFormed(Bare("AND " + v))
    ensures FilterOf(u + " AND" + SEP + v) == Ok([FreeText(ToLower(u)), FreeText(ToLower("AND " + v))])
    ensures FilterOf(u + " AND").Ok? && FilterOf(v).Ok?
    ensures FilterOf(u + " AND" + SEP + v) != Ok(FilterOf(u + " AND").value + FilterOf(v).value)
  {
    Regrouped(u, v);
    TwoBare(u, "AND " + v);
    EndingInAnd(u);
    OneBare(v);
    FirstsDiffer(ToLower(u), ToLower(u + " AND"), FreeText(ToLower("AND " + v)), FilterOf(v).value);
  }

  lemma FirstsDiffer(x: string, y: string, z: Clause, more: seq<Clause>)
    requires |x| != |y|
    ensures [FreeText(x), z] != [FreeText(y)] + more
  {
    assert [FreeText(x), z][0] == FreeText(x) && ([FreeText(y)] + more)[0] == FreeText(y);
  }
}
