/** Exactly when joining two filters with AND parses to the clauses of both. */
module FilterJoin {
  import opened TraceModel
  import opened EventFilter
  import opened FilterTheorems
  import opened FilterGrammar

  // ---------- trimming ----------

  predicate AllWhite(s: string) {
    forall i :: 0 <= i < |s| ==> IsWhite(s[i])
  }

  lemma {:induction false} TrimStartOf(x: string, v: string)
    requires AllWhite(x) && (v == [] || !IsWhite(v[0]))
    ensures TrimStart(x + v) == v
  {
    if x == [] {
      assert x + v == v;
    } else {
      assert (x + v)[1..] == x[1..] + v;
      TrimStartOf(x[1..], v);
    }
  }

  lemma {:induction false} TrimEndOf(v: string, y: string)
    requires AllWhite(y) && (v == [] || !IsWhite(v[|v| - 1]))
    ensures TrimEnd(v + y) == v
  {
    if y == [] {
      assert v + y == v;
    } else {
      assert (v + y)[..|v + y| - 1] == v + y[..|y| - 1];
      TrimEndOf(v, y[..|y| - 1]);
    }
  }

  /** White space on either side of a trimmed text is what trimming takes away. */
  lemma TrimOf(x: string, v: string, y: string)
    requires AllWhite(x) && AllWhite(y) && Trimmed(v)
    ensures Trim(x + v + y) == v
  {
    assert x + v + y == x + (v + y);
    TrimStartOf(x, v + y);
    TrimEndOf(v, y);
  }

  lemma TrimOfWhite(x: string)
    requires AllWhite(x)
    ensures Trim(x) == []
  {
    TrimStartOf(x, []);
    assert x + [] == x;
  }

  lemma {:induction false} StartParts(s: string) returns (x: string, v: string)
    ensures s == x + v && AllWhite(x) && (v == [] || !IsWhite(v[0]))
  {
    if s != [] && IsWhite(s[0]) {
      x, v := StartParts(s[1..]);
      x := [s[0]] + x;
    } else {
      x, v := [], s;
    }
  }

  lemma {:induction false} EndParts(s: string) returns (v: string, y: string)
    ensures s == v + y && AllWhite(y) && (v == [] || !IsWhite(v[|v| - 1]))
  {
    if s != [] && IsWhite(s[|s| - 1]) {
      v, y := EndParts(s[..|s| - 1]);
      y := y + [s[|s| - 1]];
    } else {
      v, y := s, [];
    }
  }

  /** A text that is not all white space, taken apart. */
  lemma TrimParts(s: string) returns (x: string, v: string, y: string)
    requires Trim(s) != []
    ensures s == x + v + y && AllWhite(x) && AllWhite(y) && Trimmed(v) && v == Trim(s)
  {
    var t;
    x, t := StartParts(s);
    v, y := EndParts(t);
    if v == [] {
      assert s == x + y && AllWhite(x + y);
      TrimOfWhite(s);
    }
    assert v[0] == t[0];
    assert s == x + v + y;
    TrimOf(x, v, y);
  }

  lemma BlankParts(s: string)
    requires Trim(s) == []
    ensures AllWhite(s)
  {
    var x, t := StartParts(s);
    var v, y := EndParts(t);
    if v != [] {
      assert v[0] == t[0];
      assert s == x + v + y;
      TrimOf(x, v, y);
    }
  }

  // ---------- the word AND at an end of a text ----------

  /** A blank and AND. */
  predicate Tail(w: string) {
    |w| == 4 && BlankAnd(w)
  }

  /** AND and a blank. */
  predicate Head(h: string) {
    |h| == 4 && Lower(h[0]) == 'a' && Lower(h[1]) == 'n' && Lower(h[2]) == 'd' && IsBlank(h[3])
  }

  predicate Letter(c: char, l: char) {
    || (l == 'a' && (c == 'A' || c == 'a'))
    || (l == 'n' && (c == 'N' || c == 'n'))
    || (l == 'd' && (c == 'D' || c == 'd'))
  }

  lemma LetterOf(c: char)
    ensures Lower(c) == 'a' ==> c == 'A' || c == 'a'
    ensures Lower(c) == 'n' ==> c == 'N' || c == 'n'
    ensures Lower(c) == 'd' ==> c == 'D' || c == 'd'
  {
  }

  lemma TailChars(w: string)
    requires Tail(w)
    ensures IsBlank(w[0]) && Letter(w[1], 'a') && Letter(w[2], 'n') && Letter(w[3], 'd')
  {
    LetterOf(w[1]);
    LetterOf(w[2]);
    LetterOf(w[3]);
  }

  lemma HeadChars(h: string)
    requires Head(h)
    ensures Letter(h[0], 'a') && Letter(h[1], 'n') && Letter(h[2], 'd') && IsBlank(h[3])
  {
    LetterOf(h[0]);
    LetterOf(h[1]);
    LetterOf(h[2]);
  }

  /** The word AND by itself. */
  predicate Word(s: string) {
    |s| == 3 && Letter(s[0], 'a') && Letter(s[1], 'n') && Letter(s[2], 'd')
  }

  const AND_CLAUSE: Clause := FreeText("and")

  lemma WordClause(s: string)
    requires Word(s)
    ensures Trimmed(s) && ClauseOf(s) == Ok(AND_CLAUSE)
  {
    BareParses(s);
    LowerThree(s);
  }

  lemma LowerThree(s: string)
    requires |s| == 3
    ensures ToLower(s) == [Lower(s[0]), Lower(s[1]), Lower(s[2])]
  {
    var t := s[1..];
    var u := t[1..];
    assert t[0] == s[1] && u[0] == s[2] && u[1..] == [];
    assert ToLower(u) == [Lower(s[2])] + [];
    assert ToLower(t) == [Lower(s[1])] + ToLower(u);
  }

  // ---------- colons ----------

  predicate Plainly(s: string) {
    forall i :: 0 <= i < |s| ==> s[i] != ':' && s[i] != '"'
  }

  lemma {:induction false} ColonAppended(v: string, t: string, q: bool)
    requires Plainly(t)
    ensures ColonAt(v + t, q) == ColonAt(v, q)
  {
    if v == [] {
      assert v + t == t;
      ColonNowhere(t, q);
    } else {
      assert (v + t)[1..] == v[1..] + t;
      ColonAppended(v[1..], t, if v[0] == '"' then !q else q);
    }
  }

  lemma {:induction false} ColonNowhere(t: string, q: bool)
    requires Plainly(t)
    ensures ColonAt(t, q) == None
  {
    if t != [] {
      ColonNowhere(t[1..], q);
    }
  }

  lemma {:induction false} ColonShifted(t: string, v: string, q: bool)
    requires Plainly(t)
    ensures ColonAt(t + v, q) == match ColonAt(v, q) case Some(i) => Some(|t| + i) case None => None
  {
    if t == [] {
      assert t + v == v;
    } else {
      assert (t + v)[1..] == t[1..] + v;
      ColonShifted(t[1..], v, q);
    }
  }

  // ---------- a clause with AND behind it or in front of it ----------

  lemma BlankWithTail(z: string, w: string)
    requires Tail(w) && Trim(z) == []
    ensures Trim(z + w) == w[1..] && Word(w[1..])
  {
    TailChars(w);
    BlankParts(z);
    assert z + w == (z + [w[0]]) + w[1..] + [];
    TrimOf(z + [w[0]], w[1..], []);
  }

  lemma TextWithTail(z: string, w: string)
    requires Tail(w) && Trim(z) != []
    ensures |Trim(z + w)| >= |Trim(z)| + 4 && Trimmed(Trim(z + w)) && Trim(z + w)[|Trim(z + w)| - 1] != '"'
  {
    TailChars(w);
    var x, v, y := TrimParts(z);
    assert z + w == x + (v + y + w) + [];
    TrimOf(x, v + y + w, []);
  }

  lemma TrimWithTail(z: string, w: string)
    requires Tail(w)
    ensures Trim(z) == [] ==> Trim(z + w) == w[1..] && Word(w[1..])
    ensures Trim(z) != [] ==> |Trim(z + w)| >= |Trim(z)| + 4 && Trimmed(Trim(z + w))
    ensures |Trim(z + w)| >= |Trim(z)| + 3 && Trim(z + w)[|Trim(z + w)| - 1] != '"'
  {
    if Trim(z) == [] {
      BlankWithTail(z, w);
    } else {
      TextWithTail(z, w);
    }
  }

  lemma TrimEndIgnored(u: string, y: string)
    requires AllWhite(y)
    ensures Trim(u + y) == Trim(u)
  {
    if Trim(u) == [] {
      BlankParts(u);
      TrimOfWhite(u + y);
    } else {
      var a, v, b := TrimParts(u);
      assert u + y == a + v + (b + y);
      TrimOf(a, v, b + y);
    }
  }

  lemma UnquoteShorter(s: string)
    requires Trimmed(s)
    ensures |UnquoteOrPass(s)| <= |s|
    ensures s[|s| - 1] != '"' || s[0] != '"' ==> UnquoteOrPass(s) == s
  {
    TrimmedIsTrim(s);
  }

  /** The value of a clause changes when AND is put behind it. */
  lemma ValueChanges(u: string, y: string, w: string)
    requires AllWhite(y) && Tail(w)
    ensures ValueOf(Trim(u + y + w)) != ValueOf(Trim(u))
  {
    TrimWithTail(u + y, w);
    TrimEndIgnored(u, y);
  }

  lemma AppendedFront(v: string, t: string, i: nat)
    requires i < |v|
    ensures (v + t)[..i] == v[..i] && (v + t)[i + 1..] == v[i + 1..] + t
  {
  }

  lemma ClauseByColon(raw: string)
    ensures ColonAt(raw, false) == None ==> ClauseOf(raw) == Ok(FreeText(ToLower(UnquoteOrPass(raw))))
    ensures ColonAt(raw, false).Some? ==> ColonAt(raw, false).value < |raw| && ClauseOf(raw) == ClauseWithColon(raw, ColonAt(raw, false).value)
  {
    ColonInRange(raw, false);
  }

  lemma TextDiffers(a: string, b: string)
    requires |a| != |b|
    ensures FreeText(ToLower(a)) != FreeText(ToLower(b))
  {
  }

  lemma TailIsPlain(y: string, w: string)
    requires AllWhite(y) && Tail(w)
    ensures Plainly(y + w)
  {
    TailChars(w);
    assert forall i :: 0 <= i < |y| ==> (y + w)[i] == y[i];
    assert forall i :: 0 <= i < 4 ==> (y + w)[|y| + i] == w[i];
  }

  function ValueOf(val: string): Literal {
    if IsQuoted(val) then Exact(Unquote(val)) else Loose(val)
  }

  lemma PathOf(raw: string, i: nat)
    requires i < |raw| && ClauseWithColon(raw, i).Ok?
    ensures ClauseWithColon(raw, i).value.Path? && ClauseWithColon(raw, i).value.lit == ValueOf(Trim(raw[i + 1..]))
  {
  }

  lemma TailPathChanges(v: string, t: string, y: string, w: string, i: nat)
    requires AllWhite(y) && Tail(w) && t == y + w && i < |v| && ClauseWithColon(v + t, i).Ok?
    ensures ClauseWithColon(v, i) != ClauseWithColon(v + t, i)
  {
    AppendedFront(v, t, i);
    assert v[i + 1..] + t == v[i + 1..] + y + w;
    ValueChanges(v[i + 1..], y, w);
    PathOf(v + t, i);
    if ClauseWithColon(v, i).Ok? {
      PathOf(v, i);
    }
  }

  lemma FreeTextDiffers(v: string, big: string)
    requires Trimmed(v) && Trimmed(big) && |big| > |v| && (big[0] != '"' || big[|big| - 1] != '"')
    ensures FreeText(ToLower(UnquoteOrPass(big))) != FreeText(ToLower(UnquoteOrPass(v)))
  {
    UnquoteShorter(v);
    UnquoteShorter(big);
    TextDiffers(UnquoteOrPass(big), UnquoteOrPass(v));
  }

  /** With AND behind it, a trimmed clause is another clause. */
  lemma TailChanges(v: string, y: string, w: string)
    requires Trimmed(v) && AllWhite(y) && Tail(w) && Trimmed(v + (y + w)) && ClauseOf(v + (y + w)).Ok?
    ensures ClauseOf(v) != ClauseOf(v + (y + w))
  {
    TailIsPlain(y, w);
    ColonAppended(v, y + w, false);
    ClauseByColon(v);
    ClauseByColon(v + (y + w));
    if ColonAt(v, false).Some? {
      TailPathChanges(v, y + w, y, w, ColonAt(v, false).value);
    } else {
      TailChars(w);
      FreeTextDiffers(v, v + (y + w));
    }
  }

  lemma {:induction false} FirstSegment(s: string, cur: string)
    ensures DotSplitFrom(s, cur) != [] && DotSplitFrom(s, []) != []
    ensures DotSplitFrom(s, cur)[0] == cur + DotSplitFrom(s, [])[0] && DotSplitFrom(s, cur)[1..] == DotSplitFrom(s, [])[1..]
  {
    if s == [] {
      assert cur + [] == cur;
    } else if s[0] == '.' {
      assert cur + [] == cur;
    } else {
      FirstSegment(s[1..], cur + [s[0]]);
      FirstSegment(s[1..], [] + [s[0]]);
      assert (cur + [s[0]]) + DotSplitFrom(s[1..], [])[0] == cur + ([s[0]] + DotSplitFrom(s[1..], [])[0]);
      assert [] + [s[0]] == [s[0]];
    }
  }

  /** AND, a blank and more white space. */
  predicate Lead(t: string) {
    |t| >= 4 && Head(t[..4]) && AllWhite(t[4..])
  }

  lemma LeadChars(t: string)
    requires Lead(t)
    ensures Letter(t[0], 'a') && IsBlank(t[3]) && Plainly(t) && Without(t, '.')
  {
    HeadChars(t[..4]);
    assert t[0] == t[..4][0] && t[1] == t[..4][1] && t[2] == t[..4][2] && t[3] == t[..4][3];
    assert forall i :: 4 <= i < |t| ==> t[i] == t[4..][i - 4];
  }

  lemma LeadOf(h: string, x: string)
    requires Head(h) && AllWhite(x)
    ensures Lead(h + x)
  {
    assert (h + x)[..4] == h && (h + x)[4..] == x;
  }

  lemma LeadMore(t: string, x: string)
    requires Lead(t) && AllWhite(x)
    ensures Lead(t + x)
  {
    assert (t + x)[..4] == t[..4] && (t + x)[4..] == t[4..] + x;
  }

  /** In front of a trimmed text it stays when the whole is trimmed. */
  lemma LeadTrims(t: string, x: string, v: string, y: string)
    requires Lead(t) && AllWhite(x) && AllWhite(y) && Trimmed(v)
    ensures Trim(t + (x + v + y)) == t + x + v && Trimmed(t + x + v)
  {
    LeadChars(t);
    var u := t + x + v;
    assert u[0] == t[0] && u[|u| - 1] == v[|v| - 1];
    assert t + (x + v + y) == [] + u + y;
    TrimOf([], u, y);
  }

  lemma FirstSegmentAfter(t: string, u: string)
    requires Without(t, '.')
    ensures DotSplitFrom(u, []) != [] && DotSplitFrom(t + u, []) != [] && DotSplitFrom(t + u, [])[0] == t + DotSplitFrom(u, [])[0]
  {
    FirstSegment(u, t);
    DotSplitOne(t, u, []);
    EmptyJoin(t);
  }

  lemma SegmentBreaks(t: string, seg: string)
    requires Lead(t) && Trim(seg) != []
    ensures exists i :: 0 <= i < |Trim(t + seg)| && !IsIdent(Trim(t + seg)[i])
  {
    LeadChars(t);
    var x, v, y := TrimParts(seg);
    LeadTrims(t, x, v, y);
    assert Trim(t + seg)[3] == t[3] && !IsIdent(t[3]);
  }

  /** With AND in front of it, a key that is fine no longer is. */
  lemma KeyBreaks(t: string, u: string)
    requires Lead(t) && CheckSegments(DotSplitFrom(u, []), u).Ok?
    ensures CheckSegments(DotSplitFrom(t + u, []), t + u).Err?
  {
    LeadChars(t);
    FirstSegmentAfter(t, u);
    SegmentBreaks(t, DotSplitFrom(u, [])[0]);
  }

  lemma HeadKeyTrims(t: string, k: string)
    requires Lead(t) && Trim(k) != [] && CheckSegments(DotSplitFrom(Trim(k), []), Trim(k)).Ok?
    ensures CheckSegments(DotSplitFrom(Trim(t + k), []), Trim(t + k)).Err?
  {
    var x, u, y := TrimParts(k);
    LeadMore(t, x);
    LeadTrims(t, x, u, y);
    KeyBreaks(t + x, u);
  }

  lemma KeyDecides(raw: string, i: nat)
    requires i < |raw|
    ensures var key := Trim(raw[..i]);
            ClauseWithColon(raw, i).Ok? <==> key != [] && CheckSegments(DotSplitFrom(key, []), key).Ok?
  {
  }

  lemma FrontAfter(t: string, v: string, i: nat)
    requires i < |v|
    ensures (t + v)[..|t| + i] == t + v[..i]
  {
  }

  lemma HeadPathBreaks(t: string, v: string, i: nat)
    requires Lead(t) && i < |v| && ClauseWithColon(v, i).Ok?
    ensures |t| + i < |t + v| && ClauseWithColon(t + v, |t| + i).Err?
  {
    FrontAfter(t, v, i);
    KeyDecides(v, i);
    KeyDecides(t + v, |t| + i);
    HeadKeyTrims(t, v[..i]);
  }

  lemma HeadColon(t: string, v: string)
    requires Lead(t)
    ensures ColonAt(t + v, false) == match ColonAt(v, false) case Some(i) => Some(|t| + i) case None => None
  {
    LeadChars(t);
    ColonShifted(t, v, false);
  }

  lemma HeadEnds(t: string, v: string)
    requires Lead(t) && Trimmed(v)
    ensures Trimmed(t + v) && (t + v)[0] != '"'
  {
    LeadChars(t);
    assert (t + v)[0] == t[0] && (t + v)[|t + v| - 1] == v[|v| - 1];
  }

  lemma PathFails(v: string, i: nat, u: string, j: nat)
    requires ColonAt(v, false) == Some(i) && i < |v| && ClauseOf(v).Ok?
    requires ColonAt(u, false) == Some(j) && j < |u| && (ClauseWithColon(v, i).Ok? ==> ClauseWithColon(u, j).Err?)
    ensures ClauseOf(u).Err?
  {
    ClauseByColon(v);
    ClauseByColon(u);
  }

  lemma HeadPath(t: string, v: string, i: nat)
    requires Lead(t) && ColonAt(v, false) == Some(i)
    ensures i < |v| && |t| + i < |t + v| && ColonAt(t + v, false) == Some(|t| + i)
    ensures ClauseWithColon(v, i).Ok? ==> ClauseWithColon(t + v, |t| + i).Err?
  {
    ColonInRange(v, false);
    HeadColon(t, v);
    if ClauseWithColon(v, i).Ok? {
      HeadPathBreaks(t, v, i);
    }
  }

  lemma HeadPathFails(t: string, v: string, i: nat)
    requires Lead(t) && ColonAt(v, false) == Some(i) && ClauseOf(v).Ok?
    ensures ClauseOf(t + v).Err?
  {
    HeadPath(t, v, i);
    PathFails(v, i, t + v, |t| + i);
  }

  lemma HeadTextChanges(t: string, v: string)
    requires Lead(t) && Trimmed(v) && ColonAt(v, false) == None
    ensures ClauseOf(t + v) != ClauseOf(v)
  {
    HeadColon(t, v);
    HeadEnds(t, v);
    ClauseByColon(v);
    ClauseByColon(t + v);
    FreeTextDiffers(v, t + v);
  }

  /** With AND in front of it, a clause that parses is another one, or none. */
  lemma HeadChanges(t: string, v: string)
    requires Lead(t) && Trimmed(v) && ClauseOf(v).Ok?
    ensures Trimmed(t + v) && ClauseOf(t + v) != ClauseOf(v)
  {
    HeadEnds(t, v);
    if ColonAt(v, false) == None {
      HeadTextChanges(t, v);
    } else {
      HeadPathFails(t, v, ColonAt(v, false).value);
    }
  }

  // ---------- splitting with AND in front ----------

  /** Text put in front of the first piece. */
  function PrefixFirst(cur: string, r: Result<seq<string>>): Result<seq<string>> {
    if r.Ok? && r.value != [] then Ok([cur + r.value[0]] + r.value[1..]) else r
  }

  lemma PrefixTwice(a: string, b: string, r: Result<seq<string>>)
    ensures PrefixFirst(a, PrefixFirst(b, r)) == PrefixFirst(a + b, r)
  {
    if r.Ok? && r.value != [] {
      assert ([b + r.value[0]] + r.value[1..])[1..] == r.value[1..];
      assert a + (b + r.value[0]) == a + b + r.value[0];
    }
  }

  lemma {:induction false} SplitPrefix(s: string, cur: string, q: bool)
    ensures SplitFrom(s, cur, q) == PrefixFirst(cur, SplitFrom(s, [], q))
    ensures SplitFrom(s, cur, q).Ok? ==> SplitFrom(s, cur, q).value != []
    decreases |s|
  {
    if s == [] {
      var e: string := [];
      assert cur + e == cur && [e][1..] == [] && [cur] + [] == [cur];
    } else if s[0] != '"' && !q && SepAt(s) {
      assert cur + [] == cur;
      if SplitFrom(s[5..], [], q).Ok? {
        assert ([[]] + SplitFrom(s[5..], [], q).value)[1..] == SplitFrom(s[5..], [], q).value;
      }
    } else {
      var q1 := if s[0] == '"' then !q else q;
      SplitPrefix(s[1..], cur + [s[0]], q1);
      SplitPrefix(s[1..], [] + [s[0]], q1);
      assert [] + [s[0]] == [s[0]];
      PrefixTwice(cur, [s[0]], SplitFrom(s[1..], [], q1));
    }
  }

  /** AND and a blank at the head of `s`. */
  predicate AndWord(s: string) {
    |s| >= 4 && Head(s[..4])
  }

  lemma StepPlain(c: char, s: string, cur: string)
    requires c != '"' && !SepAt([c] + s)
    ensures SplitFrom([c] + s, cur, false) == SplitFrom(s, cur + [c], false)
  {
    assert ([c] + s)[1..] == s;
  }

  lemma StepSep(c: char, s: string, cur: string)
    requires |s| >= 4 && SepAt([c] + s)
    ensures SplitFrom([c] + s, cur, false) == Joined([cur], Split(s[4..]))
  {
    var t := [c] + s;
    assert t[0] == c && IsBlank(c) && c != '"';
    assert t[5..] == s[4..];
  }

  lemma SepBeforeWord(c: char, s: string)
    requires IsBlank(c)
    ensures SepAt([c] + s) <==> AndWord(s)
  {
    var t := [c] + s;
    assert forall i :: 0 <= i < |s| ==> t[i + 1] == s[i];
    if |s| >= 4 {
      assert forall i :: 0 <= i < 4 ==> s[..4][i] == s[i];
    }
  }

  lemma WordSteps(h: string, s: string)
    requires Head(h)
    ensures Split(h + s) == SplitFrom([h[3]] + s, h[..3], false)
  {
    HeadChars(h);
    var d := [h[3]] + s;
    var e := [h[2]] + d;
    var f := [h[1]] + e;
    assert h + s == [h[0]] + f;
    assert !SepAt([h[0]] + f) && !SepAt([h[1]] + e) && !SepAt([h[2]] + d);
    StepPlain(h[0], f, []);
    StepPlain(h[1], e, [] + [h[0]]);
    StepPlain(h[2], d, [] + [h[0]] + [h[1]]);
    assert [] + [h[0]] + [h[1]] + [h[2]] == h[..3];
  }

  /** In front of another AND the word is a piece of its own; in front of anything else it joins the first piece. */
  lemma HeadSplits(h: string, s: string)
    requires Head(h)
    ensures AndWord(s) ==> Split(h + s) == Joined([h[..3]], Split(s[4..]))
    ensures !AndWord(s) ==> Split(h + s) == PrefixFirst(h, Split(s))
  {
    HeadChars(h);
    WordSteps(h, s);
    SepBeforeWord(h[3], s);
    if AndWord(s) {
      StepSep(h[3], s, h[..3]);
    } else {
      StepPlain(h[3], s, h[..3]);
      assert h[..3] + [h[3]] == h;
      SplitPrefix(s, h, false);
    }
  }

  // ---------- clauses with AND in front ----------

  /** The clauses of a text that is not trimmed first. */
  function ClausesIn(s: string): Result<seq<Clause>> {
    match Split(s)
    case Err(e) => Err(e)
    case Ok(pieces) => ClausesOf(pieces)
  }

  /** The clauses of pieces in front of a split text. */
  function ClausesAfter(pieces: seq<string>, rest: Result<seq<string>>): Result<seq<Clause>> {
    match Joined(pieces, rest)
    case Ok(all) => ClausesOf(all)
    case Err(e) => Err(e)
  }

  function Cons(c: Clause, r: Result<seq<Clause>>): Result<seq<Clause>> {
    match r
    case Ok(more) => Ok([c] + more)
    case Err(e) => Err(e)
  }

  lemma WordInFront(h: string, t: string)
    requires Head(h)
    ensures ClausesAfter([h[..3]], Split(t)) == Cons(AND_CLAUSE, ClausesIn(t))
  {
    HeadChars(h);
    WordClause(h[..3]);
    TrimmedIsTrim(h[..3]);
    if Split(t).Ok? {
      assert ([h[..3]] + Split(t).value)[1..] == Split(t).value;
    }
  }

  /** AND in front adds a clause of its own. */
  ghost predicate AddsClause(h: string, s: string) {
    ClausesIn(s).Ok? && ClausesIn(h + s) == Ok([AND_CLAUSE] + ClausesIn(s).value)
  }

  /** AND in front changes nothing. */
  ghost predicate ChangesNothing(h: string, s: string) {
    ClausesIn(s).Ok? && ClausesIn(h + s) == ClausesIn(s)
  }

  /** After an even number of ANDs, each with one blank, comes an empty piece. */
  predicate EvenAnds(s: string)
    decreases |s|
  {
    if AndWord(s) then OddAnds(s[4..]) else Trim(FirstPiece(s, false)) == []
  }

  predicate OddAnds(s: string)
    decreases |s|
  {
    AndWord(s) && EvenAnds(s[4..])
  }

  lemma ConsDiffers(c: Clause, a: seq<Clause>, b: seq<Clause>)
    ensures [c] + a == [c] + b ==> a == b
    ensures [c] + a != a
  {
    if [c] + a == [c] + b {
      assert ([c] + a)[1..] == a && ([c] + b)[1..] == b;
    }
  }

  /** No AND next: the word joins the first piece. */
  lemma BeforeOther(h: string, s: string)
    requires Head(h) && !AndWord(s)
    ensures AddsClause(h, s) <==> EvenAnds(s) && ClausesIn(s).Ok?
    ensures !ChangesNothing(h, s)
    ensures EvenAnds(s) ==> (ClausesIn(h + s).Ok? <==> ClausesIn(s).Ok?)
  {
    HeadSplits(h, s);
    SplitPrefix(s, [], false);
    if Split(s).Ok? {
      FirstPieceIs(s, [], false);
      var p := Split(s).value;
      assert p[0] == FirstPiece(s, false) by {
        assert [] + FirstPiece(s, false) == FirstPiece(s, false);
      }
      assert ([h + p[0]] + p[1..])[1..] == p[1..];
      if Trim(p[0]) == [] {
        BlankJoins(h, p[0]);
        if ClausesOf(p[1..]).Ok? {
          ConsDiffers(AND_CLAUSE, ClausesOf(p[1..]).value, ClausesOf(p[1..]).value);
        }
      } else if ClausesIn(s).Ok? {
        TextJoins(h, p[0]);
        FirstDecides(p, h + p[0]);
      }
    }
  }

  lemma BlankJoins(h: string, p: string)
    requires Head(h) && Trim(p) == []
    ensures Trim(h + p) == h[..3] && ClauseOf(h[..3]) == Ok(AND_CLAUSE)
  {
    HeadChars(h);
    BlankParts(p);
    WordClause(h[..3]);
    assert h + p == [] + h[..3] + ([h[3]] + p);
    TrimOf([], h[..3], [h[3]] + p);
  }

  lemma TextJoins(h: string, p: string)
    requires Head(h) && Trim(p) != [] && ClauseOf(Trim(p)).Ok?
    ensures Trim(h + p) != [] && ClauseOf(Trim(h + p)) != ClauseOf(Trim(p))
  {
    var x, v, y := TrimParts(p);
    LeadOf(h, []);
    EmptyJoin(h);
    LeadTrims(h, x, v, y);
    LeadOf(h, x);
    HeadChanges(h + x, v);
  }

  /** Lists of clauses whose first pieces give different clauses. */
  lemma FirstDecides(p: seq<string>, other: string)
    requires p != [] && ClausesOf(p).Ok? && Trim(p[0]) != []
    requires Trim(other) != [] && ClauseOf(Trim(other)) != ClauseOf(Trim(p[0]))
    ensures ClausesOf([other] + p[1..]) != ClausesOf(p)
    ensures ClausesOf([other] + p[1..]) != Ok([AND_CLAUSE] + ClausesOf(p).value)
  {
    var q := [other] + p[1..];
    assert q[1..] == p[1..] && q[0] == other;
    var more := ClausesOf(p[1..]).value;
    assert ClausesOf(p).value == [ClauseOf(Trim(p[0])).value] + more;
    if ClausesOf(q).Ok? {
      assert ClausesOf(q).value == [ClauseOf(Trim(other)).value] + more;
      assert ClausesOf(q).value[0] == ClauseOf(Trim(other)).value && ClausesOf(p).value[0] == ClauseOf(Trim(p[0])).value;
      assert |ClausesOf(q).value| == |ClausesOf(p).value|;
    }
  }

  /** AND in front of a text adds a clause if and only if an even number of ANDs and an empty piece come first,
      and changes nothing if and only if an odd number does. */
  lemma {:induction false} HeadIff(h: string, s: string)
    requires Head(h)
    ensures AddsClause(h, s) <==> EvenAnds(s) && ClausesIn(s).Ok?
    ensures ChangesNothing(h, s) <==> OddAnds(s) && ClausesIn(s).Ok?
    ensures EvenAnds(s) || OddAnds(s) ==> (ClausesIn(h + s).Ok? <==> ClausesIn(s).Ok?)
    decreases |s|
  {
    if AndWord(s) {
      var h1, t := s[..4], s[4..];
      assert s == h1 + t;
      HeadIff(h1, t);
      HeadSplits(h, s);
      WordInFront(h, t);
      assert ClausesIn(h + s) == Cons(AND_CLAUSE, ClausesIn(t));
      if ClausesIn(t).Ok? && ClausesIn(s).Ok? {
        ConsDiffers(AND_CLAUSE, ClausesIn(t).value, ClausesIn(s).value);
      }
    } else {
      BeforeOther(h, s);
    }
  }

  // ---------- joining behind a trailing AND ----------

  const AND_HEAD: string := "AND "

  /** The last piece without the AND it ends in. */
  function CutLast(pieces: seq<string>): seq<string>
    requires pieces != [] && |pieces[|pieces| - 1]| >= 4
  {
    var n := |pieces| - 1;
    pieces[..n] + [pieces[n][..|pieces[n]| - 4]]
  }

  lemma JoinedAgain(x: seq<string>, y: seq<string>, r: Result<seq<string>>)
    ensures Joined(x, Joined(y, r)) == Joined(x + y, r)
  {
    if r.Ok? {
      assert x + (y + r.value) == x + y + r.value;
    }
  }

  lemma CutLastCons(x: string, y: seq<string>)
    requires y != [] && |y[|y| - 1]| >= 4
    ensures CutLast([x] + y) == [x] + CutLast(y)
  {
    var n := |y| - 1;
    assert ([x] + y)[..n + 1] == [x] + y[..n];
    assert [x] + y[..n] + [y[n][..|y[n]| - 4]] == [x] + (y[..n] + [y[n][..|y[n]| - 4]]);
  }

  lemma CutWhole(a: string, cur: string)
    requires Tail(a)
    ensures SplitFrom(a, cur, false) == Ok([cur + a]) && CutLast([cur + a]) == [cur]
  {
    ShortHasNoSep(a, false);
    EndingKeepsQuote(a, false);
    WholePiece(a, cur, false);
    assert (cur + a)[..|cur|] == cur;
  }

  lemma TrailHere(a: string, b: string, cur: string)
    requires Tail(a)
    ensures SplitFrom(a + SEP + b, cur, false) == Joined([cur], Split(AND_HEAD + b))
  {
    TailChars(a);
    SepAtJoint(a, b);
    var s := a + SEP + b;
    assert s[5..] == AND_HEAD + b;
    assert s[0] != '"';
  }

  /** Behind a trailing AND the two separating words are read the other way round: the first one separates. */
  lemma {:induction false} TrailingSplits(a: string, b: string, cur: string, q: bool)
    requires SplitFrom(a, cur, q).Ok? && Trails(a, q)
    ensures SplitFrom(a, cur, q).value != [] && |SplitFrom(a, cur, q).value[|SplitFrom(a, cur, q).value| - 1]| >= 4
    ensures SplitFrom(a + SEP + b, cur, q) == Joined(CutLast(SplitFrom(a, cur, q).value), Split(AND_HEAD + b))
    decreases |a|
  {
    var s := a + SEP + b;
    assert s[0] == a[0] && s[1..] == a[1..] + SEP + b;
    if a[0] == '"' {
      TrailingSplits(a[1..], b, cur + [a[0]], !q);
    } else if !q && SepAt(a) {
      assert forall i :: 0 <= i < 5 ==> s[i] == a[i];
      assert s[5..] == a[5..] + SEP + b;
      TrailingSplits(a[5..], b, [], q);
      var x := SplitFrom(a[5..], [], q).value;
      CutLastCons(cur, x);
      JoinedAgain([cur], CutLast(x), Split(AND_HEAD + b));
    } else if !q && Tail(a) {
      CutWhole(a, cur);
      TrailHere(a, b, cur);
    } else {
      if !q {
        SepAtJoint(a, b);
      }
      TrailingSplits(a[1..], b, cur + [a[0]], q);
    }
  }

  // ---------- the clauses ----------

  function InFront(x: seq<Clause>, r: Result<seq<Clause>>): Result<seq<Clause>> {
    match r
    case Ok(more) => Ok(x + more)
    case Err(e) => Err(e)
  }

  lemma {:induction false} ClausesFront(p: seq<string>, r: seq<string>)
    requires ClausesOf(p).Ok?
    ensures ClausesOf(p + r) == InFront(ClausesOf(p).value, ClausesOf(r))
  {
    if p == [] {
      assert p + r == r;
      if ClausesOf(r).Ok? {
        assert [] + ClausesOf(r).value == ClausesOf(r).value;
      }
    } else {
      assert (p + r)[1..] == p[1..] + r && (p + r)[0] == p[0];
      ClausesFront(p[1..], r);
      if Trim(p[0]) != [] && ClausesOf(r).Ok? {
        var c := ClauseOf(Trim(p[0])).value;
        assert [c] + (ClausesOf(p[1..]).value + ClausesOf(r).value) == ([c] + ClausesOf(p[1..]).value) + ClausesOf(r).value;
      }
    }
  }

  lemma {:induction false} FrontOk(p: seq<string>, r: seq<string>)
    requires ClausesOf(p + r).Ok?
    ensures ClausesOf(p).Ok? && ClausesOf(r).Ok?
  {
    if p == [] {
      assert p + r == r;
    } else {
      assert (p + r)[1..] == p[1..] + r && (p + r)[0] == p[0];
      FrontOk(p[1..], r);
    }
  }

  lemma OnePieceClauses(p: string)
    ensures ClausesOf([p]) == if Trim(p) == [] then Ok([]) else match ClauseOf(Trim(p)) case Ok(c) => Ok([c]) case Err(e) => Err(e)
  {
    assert [p][1..] == [];
    assert ClausesOf([]) == Ok([]);
    if Trim(p) != [] && ClauseOf(Trim(p)).Ok? {
      assert [ClauseOf(Trim(p)).value] + [] == [ClauseOf(Trim(p)).value];
    }
  }

  /** Nothing but AND. */
  predicate LoneAnd(p: string) {
    EndsBlankAnd(p) && Trim(p[..|p| - 4]) == []
  }

  lemma InFrontCancels(x: seq<Clause>, y: seq<Clause>, z: seq<Clause>)
    ensures x + y == x + z <==> y == z
  {
    if x + y == x + z {
      assert (x + y)[|x|..] == y && (x + z)[|x|..] == z;
    }
  }

  /** What the last piece and the second text come to, against what they are joined. */
  lemma LastIff(p: string, b: string)
    requires EndsBlankAnd(p) && ClausesOf([p]).Ok? && ClausesIn(b).Ok?
    ensures ClausesAfter([p[..|p| - 4]], Split(AND_HEAD + b)) == Ok(ClausesOf([p]).value + ClausesIn(b).value)
            <==> LoneAnd(p) && EvenAnds(b)
  {
    var q, w := p[..|p| - 4], p[|p| - 4..];
    assert p == q + w;
    TrimWithTail(q, w);
    OnePieceClauses(p);
    OnePieceClauses(q);
    if Trim(q) == [] {
      WordClause(w[1..]);
      LoneLast(q, b);
      HeadIff(AND_HEAD, b);
    } else if Split(AND_HEAD + b).Ok? {
      LastChanges(p, q, w);
      var more := Split(AND_HEAD + b).value;
      assert ([q] + more)[1..] == more;
      if ClausesOf([q] + more).Ok? {
        assert ClausesOf([q] + more).value[0] == ClauseOf(Trim(q)).value;
        assert (ClausesOf([p]).value + ClausesIn(b).value)[0] == ClauseOf(Trim(p)).value;
      }
    }
  }

  lemma LoneLast(q: string, b: string)
    requires Trim(q) == []
    ensures ClausesAfter([q], Split(AND_HEAD + b)) == ClausesIn(AND_HEAD + b)
  {
    if Split(AND_HEAD + b).Ok? {
      assert ([q] + Split(AND_HEAD + b).value)[1..] == Split(AND_HEAD + b).value;
    }
  }

  lemma LastChanges(p: string, q: string, w: string)
    requires p == q + w && Tail(w) && Trim(q) != [] && Trim(p) != [] && ClauseOf(Trim(p)).Ok?
    ensures ClauseOf(Trim(q)) != ClauseOf(Trim(p))
  {
    TailChars(w);
    var x, v, y := TrimParts(q);
    assert q + w == x + (v + (y + w)) + [];
    TrimOf(x, v + (y + w), []);
    TailChanges(v, y, w);
  }

  lemma FrontCancels(f: seq<string>, p: string, rest: Result<seq<string>>, q: string, b: seq<Clause>)
    requires ClausesOf(f + [p]).Ok?
    ensures ClausesAfter(f + [q], rest) == Ok(ClausesOf(f + [p]).value + b)
            <==> ClausesOf([p]).Ok?
                 && ClausesAfter([q], rest) == Ok(ClausesOf([p]).value + b)
  {
    FrontOk(f, [p]);
    ClausesFront(f, [p]);
    var x, y := ClausesOf(f).value, ClausesOf([p]).value;
    assert x + y + b == x + (y + b);
    if rest.Ok? {
      assert f + [q] + rest.value == f + ([q] + rest.value);
      ClausesFront(f, [q] + rest.value);
      if ClausesOf([q] + rest.value).Ok? {
        InFrontCancels(x, ClausesOf([q] + rest.value).value, y + b);
      }
    }
  }

  /** Joined with AND, two filters parse to the clauses of both if and only if the last piece of the first does not end in
      a blank and AND; or it is nothing but AND, and the second filter starts with an even number of ANDs, each with one
      blank, and then an empty piece. */
  lemma JoinIff(a: string, b: string)
    requires Trimmed(a) && Trimmed(b) && FilterOf(a).Ok? && FilterOf(b).Ok?
    ensures FilterOf(a + SEP + b) == Ok(FilterOf(a).value + FilterOf(b).value)
            <==> !EndsBlankAnd(LastOf(Split(a))) || (LoneAnd(LastOf(Split(a))) && EvenAnds(b))
  {
    if !EndsBlankAnd(LastOf(Split(a))) {
      AndIsConjunction(a, b, (c: Clause) => true);
    } else {
      JoinedFilter(a, b);
      TrailsIffLastEnds(a);
      TrailingSplits(a, b, [], false);
      var pieces := Split(a).value;
      TrailingIff(pieces, pieces[..|pieces| - 1], pieces[|pieces| - 1], b);
    }
  }

  lemma LastBehindIff(front: seq<string>, p: string, b: string)
    requires EndsBlankAnd(p) && ClausesOf(front + [p]).Ok? && ClausesIn(b).Ok?
    ensures ClausesAfter(front + [p[..|p| - 4]], Split(AND_HEAD + b)) == Ok(ClausesOf(front + [p]).value + ClausesIn(b).value)
            <==> LoneAnd(p) && EvenAnds(b)
  {
    FrontOk(front, [p]);
    FrontCancels(front, p, Split(AND_HEAD + b), p[..|p| - 4], ClausesIn(b).value);
    LastIff(p, b);
  }

  lemma TrailingIff(pieces: seq<string>, front: seq<string>, p: string, b: string)
    requires pieces == front + [p] && EndsBlankAnd(p) && ClausesOf(pieces).Ok? && ClausesIn(b).Ok?
    ensures ClausesAfter(CutLast(pieces), Split(AND_HEAD + b)) == Ok(ClausesOf(pieces).value + ClausesIn(b).value)
            <==> LoneAnd(p) && EvenAnds(b)
  {
    CutLastOf(front, p);
    LastBehindIff(front, p, b);
  }

  lemma CutLastOf(front: seq<string>, p: string)
    requires |p| >= 4
    ensures CutLast(front + [p]) == front + [p[..|p| - 4]]
  {
  }

  lemma JoinedFilter(a: string, b: string)
    requires Trimmed(a) && Trimmed(b)
    ensures FilterOf(a) == ClausesIn(a) && FilterOf(b) == ClausesIn(b) && FilterOf(a + SEP + b) == ClausesIn(a + SEP + b)
  {
    TrimmedIsTrim(a);
    TrimmedIsTrim(b);
    var s := a + SEP + b;
    assert s[0] == a[0] && s[|s| - 1] == b[|b| - 1];
    TrimmedIsTrim(s);
  }

  // ---------- matching ----------

  ghost predicate SameClauses(x: seq<Clause>, y: seq<Clause>) {
    forall c :: c in x <==> c in y
  }

  /** Under every assignment of truth values to clauses two lists hold together if and only if they are of the same clauses.
      An event is one such assignment; it may tie clauses together. */
  lemma MatchedAlikeIff(x: seq<Clause>, y: seq<Clause>)
    ensures (forall holds: Clause -> bool :: AllHold(x, holds) <==> AllHold(y, holds)) <==> SameClauses(x, y)
  {
    if forall holds: Clause -> bool :: AllHold(x, holds) <==> AllHold(y, holds) {
      forall c ensures c in x <==> c in y {
        var other := (d: Clause) => d != c;
        AllButOne(x, c);
        AllButOne(y, c);
        assert AllHold(x, other) <==> AllHold(y, other);
      }
    }
    if SameClauses(x, y) {
      forall holds: Clause -> bool ensures AllHold(x, holds) <==> AllHold(y, holds) {
        AllHoldIsIn(x, holds);
        AllHoldIsIn(y, holds);
      }
    }
  }

  lemma AllHoldIsIn(x: seq<Clause>, holds: Clause -> bool)
    ensures AllHold(x, holds) <==> forall c :: c in x ==> holds(c)
  {
    if forall c :: c in x ==> holds(c) {
      assert forall i :: 0 <= i < |x| ==> x[i] in x;
    }
  }

  lemma AllButOne(x: seq<Clause>, c: Clause)
    ensures AllHold(x, (d: Clause) => d != c) <==> c !in x
  {
    AllHoldIsIn(x, (d: Clause) => d != c);
  }

  /** The joined filter parses and, whichever clauses hold, matches exactly when both filters match. */
  ghost predicate JoinMatchesBoth(a: string, b: string)
    requires FilterOf(a).Ok? && FilterOf(b).Ok?
  {
    FilterOf(a + SEP + b).Ok?
    && forall holds: Clause -> bool ::
         AllHold(FilterOf(a + SEP + b).value, holds) <==> AllHold(FilterOf(a).value, holds) && AllHold(FilterOf(b).value, holds)
  }

  /** What two filters joined parse to where the words regroup: the last AND of the first goes to the second. */
  function Regrouping(a: string, b: string): Result<seq<Clause>>
    requires EndsBlankAnd(LastOf(Split(a)))
  {
    ClausesAfter(CutLast(Split(a).value), Split(AND_HEAD + b))
  }

  /** What two filters joined parse to, told from the pieces of each. */
  lemma JoinedIs(a: string, b: string)
    requires Trimmed(a) && Trimmed(b) && FilterOf(a).Ok? && FilterOf(b).Ok?
    ensures FilterOf(a + SEP + b)
            == if EndsBlankAnd(LastOf(Split(a))) then Regrouping(a, b) else Ok(FilterOf(a).value + FilterOf(b).value)
  {
    if EndsBlankAnd(LastOf(Split(a))) {
      JoinedFilter(a, b);
      TrailsIffLastEnds(a);
      TrailingSplits(a, b, [], false);
    } else {
      AndIsConjunction(a, b, (c: Clause) => true);
    }
  }

  /** For every assignment of truth values: if and only if the joined filter has the clauses of both, whatever their order
      and however often. For trimmed texts that is told before they are joined. */
  lemma JoinMatchesIff(a: string, b: string)
    requires FilterOf(a).Ok? && FilterOf(b).Ok?
    ensures JoinMatchesBoth(a, b)
            <==> FilterOf(a + SEP + b).Ok? && SameClauses(FilterOf(a + SEP + b).value, FilterOf(a).value + FilterOf(b).value)
    ensures Trimmed(a) && Trimmed(b) ==>
              (JoinMatchesBoth(a, b)
               <==> !EndsBlankAnd(LastOf(Split(a)))
                    || (Regrouping(a, b).Ok? && SameClauses(Regrouping(a, b).value, FilterOf(a).value + FilterOf(b).value)))
  {
    if FilterOf(a + SEP + b).Ok? {
      var x, y := FilterOf(a + SEP + b).value, FilterOf(a).value + FilterOf(b).value;
      forall holds: Clause -> bool ensures AllHold(y, holds) <==> AllHold(FilterOf(a).value, holds) && AllHold(FilterOf(b).value, holds) {
        HoldsAppend(FilterOf(a).value, FilterOf(b).value, holds);
      }
      MatchedAlikeIff(x, y);
    }
    if Trimmed(a) && Trimmed(b) {
      JoinedIs(a, b);
    }
  }

  /** An odd number of ANDs and an empty piece make a clause of their own. */
  lemma OddHasAnd(b: string)
    requires OddAnds(b) && ClausesIn(b).Ok?
    ensures AND_CLAUSE in ClausesIn(b).value
  {
    var h, t := b[..4], b[4..];
    assert b == h + t;
    HeadIff(h, t);
    assert AddsClause(h, t);
  }

  /** With an odd number of ANDs the joined filter has one clause less, which is a repeated one. */
  lemma OddJoin(a: string, b: string)
    requires Trimmed(a) && Trimmed(b) && FilterOf(a).Ok? && FilterOf(b).Ok?
    requires LoneAnd(LastOf(Split(a))) && OddAnds(b)
    ensures JoinMatchesBoth(a, b)
  {
    JoinedFilter(a, b);
    TrailsIffLastEnds(a);
    TrailingSplits(a, b, [], false);
    OddPieces(Split(a).value, b);
    OddHasAnd(b);
    var pieces := Split(a).value;
    var x := ClausesOf(pieces[..|pieces| - 1]).value;
    assert SameClauses(x + ClausesIn(b).value, (x + [AND_CLAUSE]) + ClausesIn(b).value);
    JoinMatchesIff(a, b);
  }

  lemma OddLast(front: seq<string>, q: string, b: string)
    requires Trim(q) == [] && OddAnds(b) && ClausesOf(front).Ok? && ClausesIn(b).Ok?
    ensures ClausesAfter(front + [q], Split(AND_HEAD + b)) == Ok(ClausesOf(front).value + ClausesIn(b).value)
  {
    LoneLast(q, b);
    HeadIff(AND_HEAD, b);
    assert ChangesNothing(AND_HEAD, b);
    var more := Split(AND_HEAD + b).value;
    assert front + [q] + more == front + ([q] + more);
    ClausesFront(front, [q] + more);
  }

  lemma OddPieces(pieces: seq<string>, b: string)
    requires pieces != [] && LoneAnd(pieces[|pieces| - 1]) && OddAnds(b) && ClausesOf(pieces).Ok? && ClausesIn(b).Ok?
    ensures var front := pieces[..|pieces| - 1];
            && ClausesOf(front).Ok? && ClausesOf(pieces) == Ok(ClausesOf(front).value + [AND_CLAUSE])
            && ClausesAfter(CutLast(pieces), Split(AND_HEAD + b)) == Ok(ClausesOf(front).value + ClausesIn(b).value)
  {
    var front, p := pieces[..|pieces| - 1], pieces[|pieces| - 1];
    var q, w := p[..|p| - 4], p[|p| - 4..];
    assert pieces == front + [p] && p == q + w;
    FrontOk(front, [p]);
    ClausesFront(front, [p]);
    TrimWithTail(q, w);
    OnePieceClauses(p);
    WordClause(w[1..]);
    OddLast(front, q, b);
  }

  /** Whichever clauses hold, so for every event, the joined filter matches exactly when both do, if the last piece of the
      first does not end in a blank and AND, or is nothing but AND and the second starts with ANDs, each with one blank, and then an empty piece. */
  lemma JoinMatches(a: string, b: string)
    requires Trimmed(a) && Trimmed(b) && FilterOf(a).Ok? && FilterOf(b).Ok?
    requires !EndsBlankAnd(LastOf(Split(a))) || (LoneAnd(LastOf(Split(a))) && (EvenAnds(b) || OddAnds(b)))
    ensures JoinMatchesBoth(a, b)
  {
    JoinIff(a, b);
    if FilterOf(a + SEP + b) == Ok(FilterOf(a).value + FilterOf(b).value) {
      JoinMatchesIff(a, b);
    } else {
      OddJoin(a, b);
    }
  }

  lemma OneWord(s: string)
    requires NoSep(s, false) && !QuoteAfter(s, false)
    ensures Split(s) == Ok([s])
  {
    WholePiece(s, [], false);
    EmptyJoin(s);
  }

  lemma OneAndOne(x: string, y: string)
    ensures PrefixFirst(x, Ok([y])) == Ok([x + y]) && Joined([x], Ok([y])) == Ok([x, y])
  {
    assert [x + y] + [y][1..] == [x + y] && [x] + [y] == [x, y];
  }

  lemma HeadBeforeWord(h: string, w: string)
    requires Head(h) && |w| == 3 && Split(w) == Ok([w])
    ensures Split(h + w) == Ok([h + w])
  {
    HeadSplits(h, w);
    OneAndOne(h, w);
  }

  lemma TwoHeads(h: string, t: string)
    requires Head(h) && Split(t) == Ok([t])
    ensures Split(h + (h + t)) == Ok([h[..3], t])
  {
    assert (h + t)[..4] == h && (h + t)[4..] == t;
    HeadSplits(h, h + t);
    OneAndOne(h[..3], t);
  }

  /** Two texts that change places. */
  lemma PlacesChange(p: string, q: string, c: Clause, d: Clause)
    requires Trimmed(p) && Trimmed(q) && Split(p) == Ok([p]) && Split(q) == Ok([q])
    requires ClauseOf(p) == Ok(c) && ClauseOf(q) == Ok(d) && Split(p + SEP + q) == Ok([q, p])
    ensures FilterOf(p) == Ok([c]) && FilterOf(q) == Ok([d]) && JoinMatchesBoth(p, q)
  {
    OneClause(p, c);
    OneClause(q, d);
    JoinedFilter(p, q);
    TrimmedIsTrim(p);
    TrimmedIsTrim(q);
    OnePieceClauses(p);
    OnePieceClauses(q);
    ClausesFront([q], [p]);
    assert [q] + [p] == [q, p];
    JoinMatchesIff(p, q);
  }

  lemma ReversedWords(p: string, q: string)
    requires Word(q) && p == AND_HEAD + q && AND_HEAD[..3] == q && p + SEP + q == AND_HEAD + (AND_HEAD + p) && Trimmed(p)
    requires Without(p, '"') && Without(p, ':')
    ensures FilterOf(p).Ok? && FilterOf(q).Ok? && JoinMatchesBoth(p, q) && Split(p) == Ok([p])
  {
    WordClause(q);
    ShortHasNoSep(q, false);
    NoQuotesStaysClosed(q);
    OneWord(q);
    HeadBeforeWord(AND_HEAD, q);
    TwoHeads(AND_HEAD, p);
    BareParses(p);
    PlacesChange(p, q, FreeText(ToLower(p)), AND_CLAUSE);
  }

  lemma AndWords()
    ensures AND_HEAD + "AND" == "AND AND" && AND_HEAD[..3] == "AND" && "AND AND" + SEP + "AND" == AND_HEAD + (AND_HEAD + "AND AND")
    ensures Word("AND") && Trimmed("AND AND") && Without("AND AND", '"') && Without("AND AND", ':')
  {
  }

  /** The condition is not needed: `AND AND` joined with `AND` is read as `AND` and `AND AND`, the same two clauses the
      other way round. */
  lemma MatchesInAnotherOrder()
    ensures FilterOf("AND AND").Ok? && FilterOf("AND").Ok? && JoinMatchesBoth("AND AND", "AND")
    ensures EndsBlankAnd("AND AND") && LastOf(Split("AND AND")) == "AND AND" && !LoneAnd("AND AND")
  {
    AndWords();
    ReversedWords("AND AND", "AND");
    EndsLikeThis("AND AND");
  }

  lemma EndsLikeThis(p: string)
    requires p == "AND AND"
    ensures EndsBlankAnd(p) && !LoneAnd(p)
  {
    assert p[|p| - 4..] == " AND" && p[..|p| - 4] == "AND";
    TrimmedIsTrim("AND");
  }

  // ---------- filters that join though the words regroup ----------

  lemma SepFirst(v: string)
    requires Split(v).Ok?
    ensures Split(SEP + v) == Ok([[]] + Split(v).value) && EvenAnds(SEP + v)
  {
    var t := SEP + v;
    assert SepAt(t) && t[5..] == v && t[0] == ' ';
    if |t| >= 4 {
      assert t[..4][0] == ' ';
    }
    TrimOfWhite([]);
  }

  lemma LoneTail(w: string)
    requires Tail(w)
    ensures EndsBlankAnd(w) && LoneAnd(w) && Split(w) == Ok([w]) && ClausesOf([w]) == Ok([AND_CLAUSE])
  {
    assert w[|w| - 4..] == w && w[..|w| - 4] == [];
    TrimOfWhite([]);
    ShortHasNoSep(w, false);
    EndingKeepsQuote(w, false);
    OneWord(w);
    BlankWithTail([], w);
    assert [] + w == w;
    WordClause(w[1..]);
    OnePieceClauses(w);
  }

  lemma AndTailSplits(u: string, w: string)
    requires WellFormed(Bare(u)) && Tail(w)
    ensures Split(u + SEP + w) == Ok([u, w]) && ClausesOf([u, w]).Ok?
  {
    OneBare(u);
    LoneTail(w);
    AndJoinsPieces(u, w);
    assert [u] + [w] == [u, w];
    ClausesFront([u], [w]);
    BareParses(u);
    TrimmedIsTrim(u);
    OnePieceClauses(u);
  }

  lemma AndTail(u: string, w: string)
    requires WellFormed(Bare(u)) && Tail(w)
    ensures Split(u + SEP + w) == Ok([u, w]) && FilterOf(u + SEP + w).Ok? && Trimmed(u + SEP + w)
  {
    AndTailSplits(u, w);
    TailChars(w);
    var a := u + SEP + w;
    assert a[0] == u[0] && a[|a| - 1] == w[3];
    TrimmedIsTrim(a);
  }

  lemma TwoAnds(v: string)
    requires WellFormed(Bare(v))
    ensures var b := AND_HEAD + (AND_HEAD + (SEP + v));
            EvenAnds(b) && FilterOf(b).Ok? && Trimmed(b)
  {
    var t := SEP + v;
    var s := AND_HEAD + t;
    var b := AND_HEAD + s;
    OneBare(v);
    SepFirst(v);
    assert s[..4] == AND_HEAD && s[4..] == t && b[..4] == AND_HEAD && b[4..] == s;
    assert Head(AND_HEAD) && AndWord(s) && AndWord(b);
    HeadSplits(AND_HEAD, s);
    assert AND_HEAD[..3] == "AND";
    assert b[0] == 'A' && b[|b| - 1] == v[|v| - 1];
    TrimmedIsTrim(b);
    BareParses(v);
    TrimmedIsTrim(v);
    OnePieceClauses(v);
    TrimOfWhite([]);
    OnePieceClauses([]);
    ClausesFront([[]], [v]);
    WordInFront(AND_HEAD, t);
  }

  /** There are such filters: `u AND  AND` joined with `AND AND  AND v` reads as both, for all bare words u and v. */
  lemma JoinsThoughRegrouped(u: string, v: string)
    requires WellFormed(Bare(u)) && WellFormed(Bare(v))
    ensures var a, b := u + SEP + " AND", AND_HEAD + (AND_HEAD + (SEP + v));
            && Trimmed(a) && Trimmed(b) && FilterOf(a).Ok? && FilterOf(b).Ok? && EndsBlankAnd(LastOf(Split(a)))
            && FilterOf(a + SEP + b) == Ok(FilterOf(a).value + FilterOf(b).value)
  {
    var a, b := u + SEP + " AND", AND_HEAD + (AND_HEAD + (SEP + v));
    AndTail(u, " AND");
    LoneTail(" AND");
    TwoAnds(v);
    JoinIff(a, b);
  }
}
