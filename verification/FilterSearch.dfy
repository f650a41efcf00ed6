/** Joined filters where free text is searched for, as events do it, and only the truth of path clauses is left open. */
module FilterSearch {
  import opened EventFilter
  import opened FilterTheorems
  import opened FilterGrammar
  import opened FilterJoin

  predicate OccursAt(n: string, h: string, i: int) {
    0 <= i <= |h| - |n| && h[i..i + |n|] == n
  }

  ghost predicate Within(n: string, h: string) {
    exists i :: OccursAt(n, h, i)
  }

  /** Which clauses hold of an event with that text, if it meets the path clauses in `paths`. */
  ghost function Truth(text: string, paths: Clause -> bool): Clause -> bool {
    (c: Clause) => if c.FreeText? then Within(c.needle, ToLower(text)) else paths(c)
  }

  /** Whatever the text and the path clauses that hold, the lists are matched alike. */
  ghost predicate FoundAlike(x: seq<Clause>, y: seq<Clause>) {
    forall text: string, paths: Clause -> bool :: AllHold(x, Truth(text, paths)) <==> AllHold(y, Truth(text, paths))
  }

  ghost predicate Inside(n: string, x: seq<Clause>) {
    exists c :: c in x && c.FreeText? && Within(n, c.needle)
  }

  /** `d` is one of the clauses of `x`, or searches for nothing, or for part of what `x` searches for. */
  ghost predicate Implied(x: seq<Clause>, d: Clause) {
    d in x || (d.FreeText? && (d.needle == [] || Inside(d.needle, x)))
  }

  ghost predicate Covers(x: seq<Clause>, y: seq<Clause>) {
    forall d :: d in y ==> Implied(x, d)
  }

  ghost predicate Lowered(x: seq<Clause>) {
    forall c :: c in x && c.FreeText? ==> ToLower(c.needle) == c.needle
  }

  // ---------- texts in texts ----------

  lemma WithinPart(n: string, m: string, h: string)
    requires Within(n, m) && Within(m, h)
    ensures Within(n, h)
  {
    var i :| OccursAt(n, m, i);
    var j :| OccursAt(m, h, j);
    forall k | 0 <= k < |n| ensures h[j + i + k] == n[k] {
      assert h[j..j + |m|][i + k] == m[i..i + |n|][k];
    }
    assert OccursAt(n, h, j + i);
  }

  lemma WithinJoin(a: string, n: string, b: string)
    ensures Within(n, a + n + b)
  {
    assert OccursAt(n, a + n + b, |a|);
  }

  lemma WithinItself(n: string)
    ensures Within(n, n) && Within([], n)
  {
    assert OccursAt(n, n, 0) && OccursAt([], n, 0);
  }

  function Fill(z: char, k: nat): string {
    seq(k, _ => z)
  }

  /** A text that neither starts nor ends with the filling, and is not longer, stands to one side of it. */
  lemma WithinSide(n: string, a: string, z: char, k: nat, b: string)
    requires n != [] && |n| <= k && z != n[0] && z != n[|n| - 1] && Within(n, a + Fill(z, k) + b)
    ensures Within(n, a) || Within(n, b)
  {
    var h := a + Fill(z, k) + b;
    var i :| OccursAt(n, h, i);
    assert n[0] == h[i] && n[|n| - 1] == h[i + |n| - 1];
    if i + |n| <= |a| {
      assert OccursAt(n, a, i);
    } else {
      assert h[i + |n| - 1] == z || i + |n| - 1 >= |a| + k;
      assert i >= |a| + k;
      assert h[i..i + |n|] == b[i - (|a| + k)..i - (|a| + k) + |n|];
      assert OccursAt(n, b, i - (|a| + k));
    }
  }

  // ---------- an event for each list ----------

  /** All needles of the list, with filling between them. */
  function Hay(x: seq<Clause>, z: char, k: nat): string {
    if x == [] then []
    else if x[0].FreeText? then x[0].needle + Fill(z, k) + Hay(x[1..], z, k)
    else Hay(x[1..], z, k)
  }

  lemma {:induction false} HayHasAll(x: seq<Clause>, z: char, k: nat, c: Clause)
    requires c in x && c.FreeText?
    ensures Within(c.needle, Hay(x, z, k))
  {
    var rest := Hay(x[1..], z, k);
    if x[0].FreeText? {
      WithinJoin([], x[0].needle, Fill(z, k) + rest);
      WithinJoin(x[0].needle + Fill(z, k), rest, []);
      assert [] + x[0].needle + (Fill(z, k) + rest) == Hay(x, z, k) == x[0].needle + Fill(z, k) + rest + [];
    }
    if c != x[0] {
      HayHasAll(x[1..], z, k, c);
      if x[0].FreeText? {
        WithinPart(c.needle, rest, Hay(x, z, k));
      }
    }
  }

  lemma {:induction false} HayHasOnly(x: seq<Clause>, z: char, k: nat, n: string)
    requires n != [] && |n| <= k && z != n[0] && z != n[|n| - 1] && Within(n, Hay(x, z, k))
    ensures Inside(n, x)
  {
    if x != [] {
      if x[0].FreeText? {
        WithinSide(n, x[0].needle, z, k, Hay(x[1..], z, k));
      }
      if x[0].FreeText? && Within(n, x[0].needle) {
        assert x[0] in x;
      } else {
        HayHasOnly(x[1..], z, k, n);
      }
    }
  }

  lemma {:induction false} LowerAt(s: string)
    ensures forall i :: 0 <= i < |s| ==> ToLower(s)[i] == Lower(s[i])
  {
    if s != [] {
      LowerAt(s[1..]);
    }
  }

  lemma LowerKeeps(s: string)
    ensures ToLower(s) == s <==> forall i :: 0 <= i < |s| ==> Lower(s[i]) == s[i]
  {
    LowerAt(s);
  }

  lemma {:induction false} HayIsLower(x: seq<Clause>, z: char, k: nat)
    requires Lowered(x) && Lower(z) == z
    ensures ToLower(Hay(x, z, k)) == Hay(x, z, k)
  {
    LowerKeeps(Hay(x, z, k));
    if x != [] {
      assert forall c :: c in x[1..] ==> c in x;
      HayIsLower(x[1..], z, k);
      LowerKeeps(Hay(x[1..], z, k));
      if x[0].FreeText? {
        LowerKeeps(x[0].needle);
      }
    }
  }

  /** An event that `x` matches and `d` does not. */
  lemma NotImplied(x: seq<Clause>, d: Clause) returns (text: string, paths: Clause -> bool)
    requires Lowered(x) && !Implied(x, d)
    ensures AllHold(x, Truth(text, paths)) && !Truth(text, paths)(d)
  {
    var n := if d.FreeText? then d.needle else "-";
    var z := if n[0] != 'x' && n[|n| - 1] != 'x' then 'x' else if n[0] != 'y' && n[|n| - 1] != 'y' then 'y' else 'z';
    text, paths := Hay(x, z, |n|), (c: Clause) => c != d;
    HayIsLower(x, z, |n|);
    forall c | c in x ensures Truth(text, paths)(c) {
      if c.FreeText? {
        HayHasAll(x, z, |n|, c);
      }
    }
    if d.FreeText? && Within(n, text) {
      HayHasOnly(x, z, |n|, n);
    }
  }

  lemma CoveredHold(x: seq<Clause>, y: seq<Clause>, text: string, paths: Clause -> bool)
    requires Covers(x, y) && AllHold(x, Truth(text, paths))
    ensures AllHold(y, Truth(text, paths))
  {
    AllHoldIsIn(x, Truth(text, paths));
    AllHoldIsIn(y, Truth(text, paths));
    forall d | d in y ensures Truth(text, paths)(d) {
      if d !in x {
        if d.needle == [] {
          WithinItself(ToLower(text));
        } else {
          var c :| c in x && c.FreeText? && Within(d.needle, c.needle);
          assert Truth(text, paths)(c);
          WithinPart(d.needle, c.needle, ToLower(text));
        }
      }
    }
  }

  lemma UncoveredDiffer(x: seq<Clause>, y: seq<Clause>)
    requires Lowered(x) && !Covers(x, y)
    ensures !FoundAlike(x, y) && !FoundAlike(y, x)
  {
    var d :| d in y && !Implied(x, d);
    var text, paths := NotImplied(x, d);
    AllHoldIsIn(y, Truth(text, paths));
    assert !(AllHold(x, Truth(text, paths)) <==> AllHold(y, Truth(text, paths)));
  }

  /** Two lists of parsed clauses find the same events if and only if each clause of one is implied by the other. */
  lemma FoundAlikeIff(x: seq<Clause>, y: seq<Clause>)
    requires Lowered(x) && Lowered(y)
    ensures FoundAlike(x, y) <==> Covers(x, y) && Covers(y, x)
  {
    if !Covers(x, y) {
      UncoveredDiffer(x, y);
    }
    if !Covers(y, x) {
      UncoveredDiffer(y, x);
    }
    if Covers(x, y) && Covers(y, x) {
      forall text: string, paths: Clause -> bool ensures AllHold(x, Truth(text, paths)) <==> AllHold(y, Truth(text, paths)) {
        if AllHold(x, Truth(text, paths)) {
          CoveredHold(x, y, text, paths);
        }
        if AllHold(y, Truth(text, paths)) {
          CoveredHold(y, x, text, paths);
        }
      }
    }
  }

  // ---------- parsed clauses are in lower case ----------

  lemma LowerTwice(s: string)
    ensures ToLower(ToLower(s)) == ToLower(s)
  {
    LowerAt(s);
    LowerKeeps(ToLower(s));
  }

  lemma ClauseLowered(raw: string)
    requires ClauseOf(raw).Ok? && ClauseOf(raw).value.FreeText?
    ensures ToLower(ClauseOf(raw).value.needle) == ClauseOf(raw).value.needle
  {
    LowerTwice(UnquoteOrPass(raw));
  }

  lemma {:induction false} ClausesLowered(pieces: seq<string>)
    requires ClausesOf(pieces).Ok?
    ensures Lowered(ClausesOf(pieces).value)
  {
    if pieces != [] {
      ClausesLowered(pieces[1..]);
      var raw := Trim(pieces[0]);
      if raw != [] && ClauseOf(raw).value.FreeText? {
        ClauseLowered(raw);
      }
    }
  }

  lemma FilterLowered(s: string)
    requires FilterOf(s).Ok?
    ensures Lowered(FilterOf(s).value)
  {
    if Trim(s) != [] {
      ClausesLowered(Split(Trim(s)).value);
    }
  }

  /** The same letter in either case, or the same character. */
  predicate SameLetter(c: char, d: char) {
    c == d || ('A' <= c <= 'Z' && d as int == c as int + 32) || ('A' <= d <= 'Z' && c as int == d as int + 32)
  }

  lemma LowerSame(c: char, d: char)
    ensures Lower(c) == Lower(d) <==> SameLetter(c, d)
  {
  }

  /** `n` stands in `h` at `i`, letters in either case. */
  ghost predicate StandsIn(n: string, h: string, i: int) {
    0 <= i <= |h| - |n| && forall k :: 0 <= k < |n| ==> SameLetter(n[k], h[i + k])
  }

  lemma LowerStands(n: string, h: string, i: int)
    ensures OccursAt(ToLower(n), ToLower(h), i) <==> StandsIn(n, h, i)
  {
    LowerAt(n);
    LowerAt(h);
    if 0 <= i <= |h| - |n| {
      forall k | 0 <= k < |n| ensures ToLower(n)[k] == ToLower(h)[i..i + |n|][k] <==> SameLetter(n[k], h[i + k]) {
        LowerSame(n[k], h[i + k]);
      }
    }
  }

  /** Free text is found where it stands in the text, letters in either case. */
  lemma FoundInEitherCase(word: string, text: string, paths: Clause -> bool)
    ensures Truth(text, paths)(FreeText(ToLower(word))) <==> exists i :: StandsIn(word, text, i)
  {
    assert Truth(text, paths)(FreeText(ToLower(word))) == Within(ToLower(word), ToLower(text));
    if i :| OccursAt(ToLower(word), ToLower(text), i) {
      LowerStands(word, text, i);
    }
    if i :| StandsIn(word, text, i) {
      LowerStands(word, text, i);
    }
  }

  // ---------- joined filters ----------

  /** The joined filter parses and, whatever the text and the path clauses that hold, matches exactly when both filters do. */
  ghost predicate JoinFindsBoth(a: string, b: string)
    requires FilterOf(a).Ok? && FilterOf(b).Ok?
  {
    FilterOf(a + SEP + b).Ok?
    && forall text: string, paths: Clause -> bool ::
         AllHold(FilterOf(a + SEP + b).value, Truth(text, paths))
         <==> AllHold(FilterOf(a).value, Truth(text, paths)) && AllHold(FilterOf(b).value, Truth(text, paths))
  }

  ghost predicate EachImplied(x: seq<Clause>, y: seq<Clause>) {
    Covers(x, y) && Covers(y, x)
  }

  lemma FindsBothIff(a: string, b: string)
    requires FilterOf(a).Ok? && FilterOf(b).Ok? && FilterOf(a + SEP + b).Ok?
    ensures JoinFindsBoth(a, b) <==> EachImplied(FilterOf(a + SEP + b).value, FilterOf(a).value + FilterOf(b).value)
  {
    var x, p, q := FilterOf(a + SEP + b).value, FilterOf(a).value, FilterOf(b).value;
    FilterLowered(a);
    FilterLowered(b);
    FilterLowered(a + SEP + b);
    forall text: string, paths: Clause -> bool
      ensures AllHold(p + q, Truth(text, paths)) <==> AllHold(p, Truth(text, paths)) && AllHold(q, Truth(text, paths))
    {
      HoldsAppend(p, q, Truth(text, paths));
    }
    FoundAlikeIff(x, p + q);
  }

  /** It does if and only if the last piece of the first does not end in a blank and AND, or the clauses the words regroup
      into and those of both filters imply each other, one by one. */
  lemma JoinFindsIff(a: string, b: string)
    requires Trimmed(a) && Trimmed(b) && FilterOf(a).Ok? && FilterOf(b).Ok?
    ensures JoinFindsBoth(a, b)
            <==> !EndsBlankAnd(LastOf(Split(a)))
                 || (Regrouping(a, b).Ok? && EachImplied(Regrouping(a, b).value, FilterOf(a).value + FilterOf(b).value))
  {
    JoinedIs(a, b);
    if FilterOf(a + SEP + b).Ok? {
      FindsBothIff(a, b);
    }
  }

  // ---------- filters that find the same by other clauses ----------

  lemma QuotedFilter(text: string)
    requires Without(text, '"')
    ensures var s := InQuotes(text);
            Trimmed(s) && !EndsBlankAnd(s) && Split(s) == Ok([s]) && FilterOf(s) == Ok([FreeText(ToLower(text))])
  {
    QuotedIsClean(text);
    OnePiece(InQuotes(text));
    ShownParses(QuotedText(text));
    OneClause(InQuotes(text), FreeText(ToLower(text)));
  }

  lemma WordFilter(w: string)
    requires WellFormed(Bare(w))
    ensures Trimmed(w + " AND") && FilterOf(w + " AND") == Ok([FreeText(ToLower(w + " AND"))])
  {
    AfterAnd(w);
    EndingInAnd(w);
  }

  lemma TwoClauses(p: string, q: string, c: Clause, d: Clause)
    requires Trimmed(p) && Trimmed(q) && FilterOf(p) == Ok([c]) && FilterOf(q) == Ok([d]) && !EndsBlankAnd(LastOf(Split(p)))
    ensures Trimmed(p + SEP + q) && FilterOf(p + SEP + q) == Ok([c, d])
  {
    AndIsConjunction(p, q, (x: Clause) => true);
    assert [c] + [d] == [c, d];
    JoinTrimmed(p, q);
  }

  lemma JoinTrimmed(p: string, q: string)
    requires Trimmed(p) && Trimmed(q)
    ensures Trimmed(p + SEP + q)
  {
    var s := p + SEP + q;
    assert s[0] == p[0] && s[|s| - 1] == q[|q| - 1];
  }

  /** A word with AND behind it in quotes, and the word itself before AND. */
  function First(w: string): string { InQuotes(w + " and") + SEP + (w + " AND") }

  /** A word, and the same with AND in front of it in quotes. */
  function Second(v: string): string { v + SEP + InQuotes("and " + v) }

  lemma FirstParses(w: string)
    requires WellFormed(Bare(w))
    ensures Trimmed(First(w)) && FilterOf(First(w)) == Ok([FreeText(ToLower(w) + " and"), FreeText(ToLower(w) + " and")])
  {
    AfterAnd(w);
    LowerBefore(w);
    QuotedFilter(w + " and");
    WordFilter(w);
    TwoClauses(InQuotes(w + " and"), w + " AND", FreeText(ToLower(w) + " and"), FreeText(ToLower(w) + " and"));
  }

  lemma SecondParses(v: string)
    requires WellFormed(Bare(v))
    ensures Trimmed(Second(v)) && FilterOf(Second(v)) == Ok([FreeText(ToLower(v)), FreeText("and " + ToLower(v))])
  {
    LowerBehind(v);
    TwoParse(Bare(v), QuotedText("and " + v));
  }

  lemma JointMoves(q: string, w: string, v: string, r: string)
    ensures q + SEP + (w + " AND") + SEP + (v + SEP + r) == q + SEP + (w + SEP + ("AND " + v + SEP + r))
  {
    Regrouped(q + SEP + w, v + SEP + r);
  }

  lemma OneShown(w: Written)
    ensures ShowAll([w]) == Show(w) && Meanings([w]) == [Meaning(w)]
  {
    assert [w][1..] == [];
  }

  lemma MoreShown(w: Written, ws: seq<Written>)
    requires ws != []
    ensures ShowAll([w] + ws) == Show(w) + SEP + ShowAll(ws) && Meanings([w] + ws) == [Meaning(w)] + Meanings(ws)
  {
    assert ([w] + ws)[1..] == ws;
  }

  lemma TwoParse(a: Written, b: Written)
    requires WellFormed(a) && WellFormed(b)
    ensures Trimmed(Show(a) + SEP + Show(b)) && FilterOf(Show(a) + SEP + Show(b)) == Ok([Meaning(a), Meaning(b)])
  {
    OneShown(b);
    MoreShown(a, [b]);
    assert [a] + [b] == [a, b] && [Meaning(a)] + [Meaning(b)] == [Meaning(a), Meaning(b)];
    ShownSplits([a, b]);
    GrammarRoundTrip([a, b]);
  }

  lemma FourShown(a: Written, b: Written, c: Written, d: Written)
    ensures ShowAll([a, b, c, d]) == Show(a) + SEP + (Show(b) + SEP + (Show(c) + SEP + Show(d)))
    ensures Meanings([a, b, c, d]) == [Meaning(a), Meaning(b), Meaning(c), Meaning(d)]
  {
    OneShown(d);
    MoreShown(c, [d]);
    MoreShown(b, [c, d]);
    MoreShown(a, [b, c, d]);
    assert [a] + [b, c, d] == [a, b, c, d] && [b] + [c, d] == [b, c, d] && [c] + [d] == [c, d];
  }

  lemma BothParse(w: string, v: string)
    requires WellFormed(Bare(w)) && WellFormed(Bare(v)) && WellFormed(Bare("AND " + v))
    ensures FilterOf(First(w) + SEP + Second(v)) == Ok(FoundTogether(ToLower(w), ToLower(v)))
  {
    JointMoves(InQuotes(w + " and"), w, v, InQuotes("and " + v));
    LowerBefore(w);
    LowerBehind(v);
    QuotesFormed(w, v);
    MovedParse(w + " and", w, "AND " + v, "and " + v, ToLower(w), ToLower(v));
  }

  lemma QuotesFormed(w: string, v: string)
    requires Without(w, '"') && Without(v, '"')
    ensures WellFormed(QuotedText(w + " and")) && WellFormed(QuotedText("and " + v))
  {
  }

  lemma MovedParse(p: string, q: string, r: string, s: string, x: string, y: string)
    requires WellFormed(QuotedText(p)) && WellFormed(Bare(q)) && WellFormed(Bare(r)) && WellFormed(QuotedText(s))
    requires ToLower(p) == x + " and" && ToLower(q) == x && ToLower(r) == ToLower(s) == "and " + y
    ensures FilterOf(InQuotes(p) + SEP + (q + SEP + (r + SEP + InQuotes(s)))) == Ok(FoundTogether(x, y))
  {
    FourParse(QuotedText(p), Bare(q), Bare(r), QuotedText(s));
  }

  lemma FourParse(a: Written, b: Written, c: Written, d: Written)
    requires WellFormed(a) && WellFormed(b) && WellFormed(c) && WellFormed(d)
    ensures FilterOf(Show(a) + SEP + (Show(b) + SEP + (Show(c) + SEP + Show(d)))) == Ok([Meaning(a), Meaning(b), Meaning(c), Meaning(d)])
  {
    FourShown(a, b, c, d);
    GrammarRoundTrip([a, b, c, d]);
  }

  lemma LowerBefore(w: string)
    ensures ToLower(w + " and") == ToLower(w + " AND") == ToLower(w) + " and"
  {
    LowerAt(w);
    LowerAt(w + " and");
    LowerAt(w + " AND");
  }

  lemma LowerBehind(v: string)
    ensures ToLower("AND " + v) == ToLower("and " + v) == "and " + ToLower(v)
  {
    LowerAt(v);
    LowerAt("AND " + v);
    LowerAt("and " + v);
  }

  /** The clauses of the joined filter, and those of the two. */
  function FoundTogether(x: string, y: string): seq<Clause> {
    [FreeText(x + " and"), FreeText(x), FreeText("and " + y), FreeText("and " + y)]
  }

  function FoundApart(x: string, y: string): seq<Clause> {
    [FreeText(x + " and"), FreeText(x + " and")] + [FreeText(y), FreeText("and " + y)]
  }

  lemma TogetherAndApart(x: string, y: string)
    ensures forall d :: d in FoundTogether(x, y) <==> d == FreeText(x + " and") || d == FreeText(x) || d == FreeText("and " + y)
    ensures forall d :: d in FoundApart(x, y) <==> d == FreeText(x + " and") || d == FreeText(y) || d == FreeText("and " + y)
  {
  }

  lemma EachFindsOther(x: string, y: string)
    ensures EachImplied(FoundTogether(x, y), FoundApart(x, y))
  {
    TogetherAndApart(x, y);
    WithinJoin([], x, " and");
    WithinJoin("and ", y, []);
    assert [] + x + " and" == x + " and" && "and " + y + [] == "and " + y;
    assert Inside(x, FoundApart(x, y)) by {
      assert FreeText(x + " and") in FoundApart(x, y);
    }
    assert Inside(y, FoundTogether(x, y)) by {
      assert FreeText("and " + y) in FoundTogether(x, y);
    }
  }

  lemma SameIfSame(x: string, y: string)
    ensures SameClauses(FoundTogether(x, y), FoundApart(x, y)) <==> x == y
  {
    TogetherAndApart(x, y);
    if SameClauses(FoundTogether(x, y), FoundApart(x, y)) {
      assert FreeText(x) in FoundTogether(x, y) && FreeText(y) in FoundApart(x, y);
      assert |x| < |y| ==> x == y || x == "and " + y;
      assert |x| > |y| ==> y == x || y == x + " and";
    }
  }

  /** `"w and" AND w AND` joined with `v AND "and v"` finds what both find, for all bare words w and v; with two words it
      does not have the same clauses. */
  lemma FindsByOtherClauses(w: string, v: string)
    requires WellFormed(Bare(w)) && WellFormed(Bare(v)) && WellFormed(Bare("AND " + v))
    ensures var a, b := First(w), Second(v);
            && Trimmed(a) && Trimmed(b) && FilterOf(a).Ok? && FilterOf(b).Ok? && JoinFindsBoth(a, b)
            && (JoinMatchesBoth(a, b) <==> ToLower(w) == ToLower(v))
  {
    var a, b, x, y := First(w), Second(v), ToLower(w), ToLower(v);
    FirstParses(w);
    SecondParses(v);
    BothParse(w, v);
    FindsBothIff(a, b);
    EachFindsOther(x, y);
    JoinMatchesIff(a, b);
    SameIfSame(x, y);
  }
}
