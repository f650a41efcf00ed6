/** Which filter texts are refused, told from the text alone. */
module FilterErrors {
  import opened TraceModel
  import opened EventFilter
  import opened FilterTheorems

  // ---------- white space ----------

  /** The characters with the White_Space property of Unicode. */
  predicate Blank(c: char) {
    var n := c as int;
    || n == 0x09 || n == 0x0A || n == 0x0B || n == 0x0C || n == 0x0D || n == 0x20 || n == 0x85 || n == 0xA0 || n == 0x1680
    || 0x2000 <= n <= 0x200A || n == 0x2028 || n == 0x2029 || n == 0x202F || n == 0x205F || n == 0x3000
  }

  /** `u` is `s` without the white space around it. */
  ghost predicate Bare(s: string, u: string, a: int, b: int) {
    && 0 <= a <= b <= |s| && u == s[a..b] && (forall i :: 0 <= i < a || b <= i < |s| ==> Blank(s[i]))
    && (u != [] ==> !Blank(u[0]) && !Blank(u[|u| - 1]))
  }

  lemma {:induction false} StartTrimmed(s: string, a: nat) returns (k: nat)
    requires a <= |s| && forall i :: 0 <= i < a ==> Blank(s[i])
    ensures k <= |s| && TrimStart(s[a..]) == s[k..] && (forall i :: 0 <= i < k ==> Blank(s[i])) && (k < |s| ==> !Blank(s[k]))
    decreases |s| - a
  {
    if a < |s| && Blank(s[a]) {
      assert s[a..][1..] == s[a + 1..];
      k := StartTrimmed(s, a + 1);
    } else {
      k := a;
    }
  }

  lemma {:induction false} EndTrimmed(s: string, b: nat) returns (k: nat)
    requires b <= |s| && forall i :: b <= i < |s| ==> Blank(s[i])
    ensures k <= |s| && TrimEnd(s[..b]) == s[..k] && (forall i :: k <= i < |s| ==> Blank(s[i])) && (k > 0 ==> !Blank(s[k - 1]))
    decreases b
  {
    if b > 0 && Blank(s[b - 1]) {
      assert s[..b][..b - 1] == s[..b - 1];
      k := EndTrimmed(s, b - 1);
    } else {
      k := b;
    }
  }

  lemma BothTrimmed(s: string, a: nat, k: nat)
    requires a <= |s| && k <= |s| - a && (forall i :: 0 <= i < a ==> Blank(s[i])) && (a < |s| ==> !Blank(s[a]))
    requires (forall i :: k <= i < |s[a..]| ==> Blank(s[a..][i])) && (k > 0 ==> !Blank(s[a..][k - 1]))
    ensures Bare(s, s[a..][..k], a, a + k)
  {
    assert s[a..][..k] == s[a..a + k];
    forall i | a + k <= i < |s| ensures Blank(s[i]) {
      assert s[a..][i - a] == s[i];
    }
    if k > 0 {
      assert s[a..][..k][0] == s[a] && s[a..][..k][k - 1] == s[a..][k - 1];
    }
  }

  /** Trimming takes the white space at both ends, and no more. */
  lemma TrimTells(s: string)
    ensures exists a, b :: Bare(s, Trim(s), a, b)
  {
    assert s[0..] == s;
    var a := StartTrimmed(s, 0);
    assert s[a..][..|s[a..]|] == s[a..];
    var k := EndTrimmed(s[a..], |s[a..]|);
    BothTrimmed(s, a, k);
    assert Bare(s, Trim(s), a, a + k);
  }

  function Quotes(s: string): nat {
    if s == [] then 0 else Quotes(s[..|s| - 1]) + if s[|s| - 1] == '"' then 1 else 0
  }

  /** No quote is open at the end of `s`. */
  predicate Closed(s: string) {
    Quotes(s) % 2 == 0
  }

  lemma {:induction false} QuotesFirst(s: string)
    requires s != []
    ensures Quotes(s) == (if s[0] == '"' then 1 else 0) + Quotes(s[1..])
  {
    var n := |s| - 1;
    if n > 0 {
      QuotesFirst(s[..n]);
      assert s[..n][1..] == s[1..][..n - 1];
    } else {
      assert s[..0] == [] && s[1..] == [];
    }
  }

  // ---------- the first colon outside quotes ----------

  ghost predicate OpenColon(s: string, i: int, q: bool) {
    0 <= i < |s| && s[i] == ':' && (Closed(s[..i]) <==> !q)
  }

  ghost predicate FirstColon(s: string, i: int, q: bool) {
    OpenColon(s, i, q) && forall j :: 0 <= j < i ==> !OpenColon(s, j, q)
  }

  lemma ColonLater(s: string, j: int, q: bool)
    requires s != [] && 0 <= j < |s| - 1
    ensures OpenColon(s, j + 1, q) <==> OpenColon(s[1..], j, if s[0] == '"' then !q else q)
  {
    QuotesFirst(s[..j + 1]);
    assert s[..j + 1][1..] == s[1..][..j];
  }

  /** The scan finds the first colon outside quotes, if there is one. */
  lemma {:induction false} ColonIsFirst(s: string, q: bool)
    ensures ColonAt(s, q).Some? ==> FirstColon(s, ColonAt(s, q).value, q)
    ensures ColonAt(s, q).None? ==> forall j :: 0 <= j < |s| ==> !OpenColon(s, j, q)
  {
    if s != [] {
      assert s[..0] == [];
      assert OpenColon(s, 0, q) <==> s[0] == ':' && !q;
      var q1 := if s[0] == '"' then !q else q;
      ColonIsFirst(s[1..], q1);
      forall j | 0 <= j < |s| - 1 ensures OpenColon(s, j + 1, q) <==> OpenColon(s[1..], j, q1) {
        ColonLater(s, j, q);
      }
      if !OpenColon(s, 0, q) {
        forall j | 0 < j < |s| ensures OpenColon(s, j, q) <==> OpenColon(s[1..], j - 1, q1) {
          ColonLater(s, j - 1, q);
        }
      }
    }
  }

  // ---------- segments of a key ----------

  /** The text between two dots next to each other, or an end. */
  ghost predicate Segment(k: string, a: int, b: int) {
    && 0 <= a <= b <= |k| && (a == 0 || k[a - 1] == '.') && (b == |k| || k[b] == '.')
    && forall i :: a <= i < b ==> k[i] != '.'
  }

  /** A letter, a digit, an underscore or a hyphen. */
  predicate InName(c: char) {
    'A' <= c <= 'Z' || 'a' <= c <= 'z' || '0' <= c <= '9' || c == '_' || c == '-'
  }

  /** A segment that is blank, or has a character no identifier has. */
  ghost predicate BadSegment(seg: string) {
    Trim(seg) == [] || exists i :: 0 <= i < |Trim(seg)| && !InName(Trim(seg)[i])
  }

  ghost predicate BadKey(k: string) {
    k == [] || exists a, b :: Segment(k, a, b) && BadSegment(k[a..b])
  }

  lemma {:induction false} CheckFailsIff(segments: seq<string>, key: string)
    ensures CheckSegments(segments, key).Err? <==> exists i :: 0 <= i < |segments| && BadSegment(segments[i])
  {
    if segments != [] {
      CheckFailsIff(segments[1..], key);
      if !BadSegment(segments[0]) {
        if i :| 0 <= i < |segments| && BadSegment(segments[i]) {
          assert segments[i] == segments[1..][i - 1];
        }
        if i :| 0 <= i < |segments[1..]| && BadSegment(segments[1..][i]) {
          assert segments[i + 1] == segments[1..][i];
        }
      }
    }
  }

  ghost predicate BadPart(parts: seq<string>) {
    exists i :: 0 <= i < |parts| && BadSegment(parts[i])
  }

  ghost predicate BadFrom(k: string, c: int) {
    exists a, b :: c <= a && Segment(k, a, b) && BadSegment(k[a..b])
  }

  lemma BadPartOne(part: string, more: seq<string>)
    ensures BadPart([part] + more) <==> BadSegment(part) || BadPart(more)
  {
    var all := [part] + more;
    if i :| 0 <= i < |all| && BadSegment(all[i]) {
      assert i > 0 ==> all[i] == more[i - 1];
    }
    if i :| 0 <= i < |more| && BadSegment(more[i]) {
      assert all[i + 1] == more[i];
    }
    if BadSegment(part) {
      assert all[0] == part;
    }
  }

  /** One segment ends here, so the others start behind it. */
  lemma BadFromNext(k: string, c: int, p: int)
    requires 0 <= c <= p <= |k| && (c == 0 || k[c - 1] == '.') && (p == |k| || k[p] == '.') && forall i :: c <= i < p ==> k[i] != '.'
    ensures BadFrom(k, c) <==> BadSegment(k[c..p]) || (p < |k| && BadFrom(k, p + 1))
  {
    assert Segment(k, c, p);
    forall a, b | c <= a <= p && Segment(k, a, b) ensures a == c && b == p {
      StartsHere(k, c, p, a, b);
    }
  }

  lemma StartsHere(k: string, c: int, p: int, a: int, b: int)
    requires 0 <= c <= a <= p <= |k| && (p == |k| || k[p] == '.') && (forall i :: c <= i < p ==> k[i] != '.') && Segment(k, a, b)
    ensures a == c && b == p
  {
  }

  lemma PartGrows(k: string, c: int, p: int)
    requires 0 <= c <= p < |k|
    ensures k[p..][0] == k[p] && k[p..][1..] == k[p + 1..] && k[c..p] + [k[p]] == k[c..p + 1]
  {
  }

  /** Splitting at dots yields exactly the segments. */
  lemma {:induction false} SplitIsSegments(k: string, c: int, p: int)
    requires 0 <= c <= p <= |k| && (c == 0 || k[c - 1] == '.') && forall i :: c <= i < p ==> k[i] != '.'
    ensures BadPart(DotSplitFrom(k[p..], k[c..p])) <==> BadFrom(k, c)
    decreases |k| - p
  {
    if p == |k| {
      assert k[p..] == [];
      BadFromNext(k, c, p);
      BadPartOne(k[c..p], []);
      assert [k[c..p]] + [] == [k[c..p]];
    } else {
      PartGrows(k, c, p);
      if k[p] == '.' {
        BadFromNext(k, c, p);
        SplitIsSegments(k, p + 1, p + 1);
        assert k[p + 1..p + 1] == [];
        BadPartOne(k[c..p], DotSplitFrom(k[p + 1..], []));
      } else {
        SplitIsSegments(k, c, p + 1);
      }
    }
  }

  lemma KeyFailsIff(k: string)
    ensures k == [] || CheckSegments(DotSplitFrom(k, []), k).Err? <==> BadKey(k)
  {
    CheckFailsIff(DotSplitFrom(k, []), k);
    SplitIsSegments(k, 0, 0);
    assert k[0..] == k && k[0..0] == [];
    forall a, b | Segment(k, a, b) ensures 0 <= a {}
  }

  // ---------- clauses and filters ----------

  ghost predicate BadClause(raw: string) {
    exists i :: FirstColon(raw, i, false) && BadKey(Trim(raw[..i]))
  }

  lemma OneFirstColon(raw: string, i: int, j: int)
    requires FirstColon(raw, i, false) && FirstColon(raw, j, false)
    ensures i == j
  {
  }

  /** A clause is refused if and only if it has a colon outside quotes and what stands before the first one is blank or has a bad
      segment. */
  lemma ClauseFailsIff(raw: string)
    ensures ClauseOf(raw).Err? <==> BadClause(raw)
  {
    ColonIsFirst(raw, false);
    ColonInRange(raw, false);
    if ColonAt(raw, false).Some? {
      var i := ColonAt(raw, false).value;
      KeyFailsIff(Trim(raw[..i]));
      forall j | FirstColon(raw, j, false) ensures j == i {
        OneFirstColon(raw, i, j);
      }
    }
  }

  lemma {:induction false} ClausesFailIff(pieces: seq<string>)
    ensures ClausesOf(pieces).Err? <==> exists i :: 0 <= i < |pieces| && Trim(pieces[i]) != [] && BadClause(Trim(pieces[i]))
  {
    if pieces != [] {
      ClausesFailIff(pieces[1..]);
      ClauseFailsIff(Trim(pieces[0]));
      if i :| 0 <= i < |pieces| && Trim(pieces[i]) != [] && BadClause(Trim(pieces[i])) {
        assert i > 0 ==> pieces[i] == pieces[1..][i - 1];
      }
      if i :| 0 <= i < |pieces[1..]| && Trim(pieces[1..][i]) != [] && BadClause(Trim(pieces[1..][i])) {
        assert pieces[i + 1] == pieces[1..][i];
      }
    }
  }

  lemma SepHasNoQuote(s: string)
    requires SepAt(s)
    ensures Quotes(s) == Quotes(s[5..])
  {
    LowerIs(s);
    QuotesFirst(s);
    QuotesFirst(s[1..]);
    QuotesFirst(s[2..]);
    QuotesFirst(s[3..]);
    QuotesFirst(s[4..]);
    assert s[1..][1..] == s[2..] && s[2..][1..] == s[3..] && s[3..][1..] == s[4..] && s[4..][1..] == s[5..];
  }

  lemma {:induction false} SplitFailsIff(s: string, cur: string, q: bool)
    ensures SplitFrom(s, cur, q).Err? <==> (Closed(s) <==> q)
    decreases |s|
  {
    if s != [] {
      QuotesFirst(s);
      if s[0] == '"' {
        SplitFailsIff(s[1..], cur + [s[0]], !q);
      } else if !q && SepAt(s) {
        SepHasNoQuote(s);
        SplitFailsIff(s[5..], [], q);
      } else {
        SplitFailsIff(s[1..], cur + [s[0]], q);
      }
    }
  }

  ghost predicate BadPiece(s: string) {
    Split(s).Ok? && exists i :: 0 <= i < |Split(s).value| && Trim(Split(s).value[i]) != [] && BadClause(Trim(Split(s).value[i]))
  }

  /** A filter is refused if and only if it has an odd number of quotes or one of its pieces is a bad clause. */
  lemma FilterFailsIff(input: string)
    ensures FilterOf(input).Err? <==> !Closed(Trim(input)) || BadPiece(Trim(input))
  {
    var s := Trim(input);
    SplitFailsIff(s, [], false);
    if Split(s).Ok? {
      ClausesFailIff(Split(s).value);
      if s == [] {
        assert Split(s) == Ok([[]]);
      }
    }
  }
}
