/** Laws of the filter language: splitting loses nothing, AND composes, and printed filters parse back. */
module FilterTheorems {
  import opened TraceModel
  import opened JsonValue
  import opened EventFilter

  const SEP: string := " AND "

  // ---------- splitting ----------

  /** The separators splitting removes, in order. */
  function SepsFrom(s: string, q: bool): seq<string>
    decreases |s|
  {
    if s == [] then []
    else if s[0] == '"' then SepsFrom(s[1..], !q)
    else if !q && SepAt(s) then [s[..5]] + SepsFrom(s[5..], q)
    else SepsFrom(s[1..], q)
  }

  /** Pieces and separators put together again. */
  function Weave(pieces: seq<string>, seps: seq<string>): string
    requires |pieces| == |seps| + 1
  {
    if seps == [] then pieces[0] else pieces[0] + seps[0] + Weave(pieces[1..], seps[1..])
  }

  /** No separator stands in `s` outside quotes. */
  predicate NoSep(s: string, q: bool) {
    s == [] || (if s[0] == '"' then NoSep(s[1..], !q) else (q || !SepAt(s)) && NoSep(s[1..], q))
  }

  /** Whether a quote is open after `s`. */
  function QuoteAfter(s: string, q: bool): bool {
    if s == [] then q else QuoteAfter(s[1..], if s[0] == '"' then !q else q)
  }

  /** The pieces and the removed separators rebuild the text. */
  lemma {:induction false} SplitRebuilds(s: string, cur: string, q: bool)
    requires SplitFrom(s, cur, q).Ok?
    ensures |SplitFrom(s, cur, q).value| == |SepsFrom(s, q)| + 1
    ensures Weave(SplitFrom(s, cur, q).value, SepsFrom(s, q)) == cur + s
    ensures forall i :: 0 <= i < |SepsFrom(s, q)| ==> |SepsFrom(s, q)[i]| == 5 && SepAt(SepsFrom(s, q)[i])
    decreases |s|
  {
    if s == [] {
    } else if s[0] != '"' && !q && SepAt(s) {
      SplitRebuilds(s[5..], [], q);
      var more, seps := SplitFrom(s[5..], [], q).value, SepsFrom(s[5..], q);
      assert ([cur] + more)[1..] == more && ([s[..5]] + seps)[1..] == seps;
      assert cur + s[..5] + ([] + s[5..]) == cur + s;
    } else {
      SplitRebuilds(s[1..], cur + [s[0]], if s[0] == '"' then !q else q);
      assert (cur + [s[0]]) + s[1..] == cur + s;
    }
  }

  lemma SplitLosesNothing(s: string)
    requires Split(s).Ok?
    ensures |Split(s).value| == |SepsFrom(s, false)| + 1 && Weave(Split(s).value, SepsFrom(s, false)) == s
  {
    SplitRebuilds(s, [], false);
    assert [] + s == s;
  }

  /** A text without separators is a piece by itself, when its quotes are closed. */
  lemma {:induction false} WholePiece(s: string, cur: string, q: bool)
    requires NoSep(s, q) && !QuoteAfter(s, q)
    ensures SplitFrom(s, cur, q) == Ok([cur + s])
    decreases |s|
  {
    if s == [] {
      assert cur + [] == cur;
    } else {
      WholePiece(s[1..], cur + [s[0]], if s[0] == '"' then !q else q);
      assert (cur + [s[0]]) + s[1..] == cur + s;
    }
  }

  /** The first piece of `s`, up to the first separator or the end. */
  function FirstPiece(s: string, q: bool): string
    decreases |s|
  {
    if s == [] then []
    else if s[0] == '"' then [s[0]] + FirstPiece(s[1..], !q)
    else if !q && SepAt(s) then []
    else [s[0]] + FirstPiece(s[1..], q)
  }

  lemma {:induction false} FirstPieceIs(s: string, cur: string, q: bool)
    requires SplitFrom(s, cur, q).Ok?
    ensures SplitFrom(s, cur, q).value != [] && SplitFrom(s, cur, q).value[0] == cur + FirstPiece(s, q)
    decreases |s|
  {
    if s == [] {
      assert cur + [] == cur;
    } else if s[0] != '"' && !q && SepAt(s) {
      assert cur + [] == cur;
    } else {
      FirstPieceIs(s[1..], cur + [s[0]], if s[0] == '"' then !q else q);
      assert (cur + [s[0]]) + FirstPiece(s[1..], if s[0] == '"' then !q else q) == cur + FirstPiece(s, q);
    }
  }

  lemma {:induction false} FirstPieceHead(s: string, q: bool)
    ensures |FirstPiece(s, q)| <= |s| && FirstPiece(s, q) == s[..|FirstPiece(s, q)|]
    decreases |s|
  {
    if s == [] {
    } else if s[0] != '"' && !q && SepAt(s) {
    } else {
      FirstPieceHead(s[1..], if s[0] == '"' then !q else q);
    }
  }

  /** A separator of a head of `s` is one of `s`. */
  lemma SepInHead(s: string, n: nat)
    requires n <= |s| && SepAt(s[..n])
    ensures SepAt(s)
  {
    assert forall i :: 0 <= i < 5 ==> s[..n][i] == s[i];
  }

  lemma {:induction false} FirstPieceClean(s: string, q: bool)
    ensures NoSep(FirstPiece(s, q), q)
    decreases |s|
  {
    if s == [] {
    } else if s[0] != '"' && !q && SepAt(s) {
    } else {
      var q1 := if s[0] == '"' then !q else q;
      FirstPieceClean(s[1..], q1);
      FirstPieceHead(s, q);
      var p := FirstPiece(s, q);
      assert p[1..] == FirstPiece(s[1..], q1);
      if s[0] != '"' && !q && SepAt(p) {
        SepInHead(s, |p|);
      }
    }
  }

  /** No piece keeps a separator outside quotes. */
  lemma {:induction false} PiecesAreClean(s: string)
    requires Split(s).Ok?
    ensures forall i :: 0 <= i < |Split(s).value| ==> NoSep(Split(s).value[i], false)
    decreases |s|
  {
    FirstPieceIs(s, [], false);
    FirstPieceClean(s, false);
    assert [] + FirstPiece(s, false) == FirstPiece(s, false);
    PiecesAfterFirst(s, [], false);
    var rest := RestAfterFirst(s, false);
    if rest.Some? {
      PiecesAreClean(rest.value);
    }
  }

  /** What follows the first separator. */
  function RestAfterFirst(s: string, q: bool): (r: Option<string>)
    ensures r.Some? ==> |r.value| < |s|
    decreases |s|
  {
    if s == [] then None
    else if s[0] == '"' then RestAfterFirst(s[1..], !q)
    else if !q && SepAt(s) then Some(s[5..])
    else RestAfterFirst(s[1..], q)
  }

  lemma {:induction false} PiecesAfterFirst(s: string, cur: string, q: bool)
    requires SplitFrom(s, cur, q).Ok?
    ensures match RestAfterFirst(s, q)
            case None => |SplitFrom(s, cur, q).value| == 1
            case Some(rest) => Split(rest).Ok? && SplitFrom(s, cur, q).value == [cur + FirstPiece(s, q)] + Split(rest).value
    decreases |s|
  {
    FirstPieceIs(s, cur, q);
    if s == [] {
    } else if s[0] != '"' && !q && SepAt(s) {
      assert cur + [] == cur;
    } else {
      assert (cur + [s[0]]) + FirstPiece(s[1..], if s[0] == '"' then !q else q) == cur + FirstPiece(s, q);
      PiecesAfterFirst(s[1..], cur + [s[0]], if s[0] == '"' then !q else q);
    }
  }

  // ---------- joining with AND ----------

  predicate EndsBlankAnd(s: string) {
    |s| >= 4 && BlankAnd(s[|s| - 4..])
  }

  /** The scan of `s` comes, outside quotes, to a final blank and AND. */
  predicate Trails(s: string, q: bool)
    decreases |s|
  {
    s != [] &&
    if s[0] == '"' then Trails(s[1..], !q)
    else if !q && SepAt(s) then Trails(s[5..], q)
    else (!q && |s| == 4 && BlankAnd(s)) || Trails(s[1..], q)
  }

  /** A separator straddling the joint needs all of a final blank and AND in front of it. */
  lemma SepAtJoint(a: string, b: string)
    requires a != [] && !SepAt(a)
    ensures SepAt(a + SEP + b) <==> |a| == 4 && BlankAnd(a)
  {
    var s := a + SEP + b;
    assert s[|a|] == ' ' && s[|a| + 1] == 'A';
    assert forall i :: 0 <= i < |a| ==> s[i] == a[i];
    assert Lower(' ') == ' ';
  }

  lemma {:induction false} JoinSplits(a: string, b: string, cur: string, q: bool)
    requires SplitFrom(a, cur, q).Ok? && Split(b).Ok?
    ensures !Trails(a, q) ==> SplitFrom(a + SEP + b, cur, q) == Ok(SplitFrom(a, cur, q).value + Split(b).value)
    ensures Trails(a, q) ==> SplitFrom(a + SEP + b, cur, q) != Ok(SplitFrom(a, cur, q).value + Split(b).value)
    decreases |a|
  {
    var s := a + SEP + b;
    if a == [] {
      assert s == SEP + b && s[5..] == b && SepAt(s);
    } else {
      assert s[0] == a[0] && s[1..] == a[1..] + SEP + b;
      if a[0] == '"' {
        JoinSplits(a[1..], b, cur + [a[0]], !q);
      } else if !q && SepAt(a) {
        assert forall i :: 0 <= i < 5 ==> s[i] == a[i];
        assert s[5..] == a[5..] + SEP + b;
        JoinSplits(a[5..], b, [], q);
        var x, y := SplitFrom(a[5..], [], q).value, Split(b).value;
        assert ([cur] + x) + y == [cur] + (x + y);
        if SplitFrom(s[5..], [], q).Ok? {
          assert ([cur] + SplitFrom(s[5..], [], q).value)[1..] == SplitFrom(s[5..], [], q).value;
          assert ([cur] + (x + y))[1..] == x + y;
        }
      } else {
        if !q {
          SepAtJoint(a, b);
        }
        if !q && |a| == 4 && BlankAnd(a) {
          TrailingDiffers(a, b, cur);
        } else {
          JoinSplits(a[1..], b, cur + [a[0]], q);
        }
      }
    }
  }

  /** With a final blank and AND the first piece comes out shorter. */
  lemma TrailingDiffers(a: string, b: string, cur: string)
    requires |a| == 4 && BlankAnd(a) && Split(b).Ok? && SplitFrom(a, cur, false).Ok?
    ensures SplitFrom(a + SEP + b, cur, false) != Ok(SplitFrom(a, cur, false).value + Split(b).value)
  {
    SepAtJoint(a, b);
    FirstPieceIs(a, cur, false);
    var s, parts := a + SEP + b, SplitFrom(a, cur, false).value;
    assert s[0] == a[0] != '"' && !SepAt(a);
    assert |parts[0]| == |cur + FirstPiece(a, false)| > |cur|;
    assert (parts + Split(b).value)[0] == parts[0];
    if SplitFrom(s, cur, false).Ok? {
      assert SplitFrom(s, cur, false).value == [cur] + SplitFrom(s[5..], [], false).value;
      assert SplitFrom(s, cur, false).value[0] == cur;
    }
  }

  function LastOf(r: Result<seq<string>>): string {
    if r.Ok? && r.value != [] then r.value[|r.value| - 1] else []
  }

  lemma {:induction false} ShortNeverTrails(s: string, q: bool)
    requires |s| < 4
    ensures !Trails(s, q)
  {
    if s != [] {
      ShortNeverTrails(s[1..], if s[0] == '"' then !q else q);
    }
  }

  /** Without quotes nothing opens or closes. */
  lemma {:induction false} QuotelessKeeps(s: string, q: bool)
    requires forall i :: 0 <= i < |s| ==> s[i] != '"'
    ensures QuoteAfter(s, q) == q
  {
    if s != [] {
      QuotelessKeeps(s[1..], q);
    }
  }

  /** A text shorter than a separator has none. */
  lemma {:induction false} ShortHasNoSep(s: string, q: bool)
    requires |s| < 5
    ensures NoSep(s, q)
  {
    if s != [] {
      ShortHasNoSep(s[1..], if s[0] == '"' then !q else q);
    }
  }

  /** A final blank and AND has no quotes in it. */
  lemma EndingKeepsQuote(s: string, q: bool)
    requires |s| == 4 && BlankAnd(s)
    ensures QuoteAfter(s, q) == q && s[0] != '"'
  {
    assert Lower('"') == '"';
    QuotelessKeeps(s, q);
  }

  lemma {:induction false} TrailsIsEnding(s: string, q: bool)
    requires RestAfterFirst(s, q) == None && !QuoteAfter(s, q)
    ensures Trails(s, q) <==> EndsBlankAnd(s)
    decreases |s|
  {
    if |s| < 4 {
      ShortNeverTrails(s, q);
    } else {
      var q1 := if s[0] == '"' then !q else q;
      if |s| == 4 {
        assert s[|s| - 4..] == s;
        ShortNeverTrails(s[1..], q1);
        if BlankAnd(s) {
          EndingKeepsQuote(s, q);
        }
      } else {
        assert s[1..][|s[1..]| - 4..] == s[|s| - 4..];
        TrailsIsEnding(s[1..], q1);
      }
    }
  }

  lemma {:induction false} TrailsPastSep(s: string, q: bool)
    requires RestAfterFirst(s, q).Some?
    ensures Trails(s, q) == Trails(RestAfterFirst(s, q).value, false)
    decreases |s|
  {
    if s[0] == '"' {
      TrailsPastSep(s[1..], !q);
    } else if !q && SepAt(s) {
    } else {
      TrailsPastSep(s[1..], q);
      RestIsShort(s[1..], q);
    }
  }

  lemma {:induction false} RestIsShort(s: string, q: bool)
    ensures RestAfterFirst(s, q).Some? ==> |s| >= 5
    decreases |s|
  {
    if s != [] && (s[0] == '"' || q || !SepAt(s)) {
      RestIsShort(s[1..], if s[0] == '"' then !q else q);
    }
  }

  lemma {:induction false} OkIsClosed(s: string, cur: string, q: bool)
    requires SplitFrom(s, cur, q).Ok? && RestAfterFirst(s, q) == None
    ensures !QuoteAfter(s, q) && FirstPiece(s, q) == s
    decreases |s|
  {
    if s != [] {
      OkIsClosed(s[1..], cur + [s[0]], if s[0] == '"' then !q else q);
    }
  }

  lemma {:induction false} TrailsIffLastEnds(s: string)
    requires Split(s).Ok?
    ensures Trails(s, false) <==> EndsBlankAnd(LastOf(Split(s)))
    decreases |s|
  {
    PiecesAfterFirst(s, [], false);
    FirstPieceIs(s, [], false);
    match RestAfterFirst(s, false)
    case None =>
      OkIsClosed(s, [], false);
      TrailsIsEnding(s, false);
      assert [] + s == s;
    case Some(rest) =>
      TrailsPastSep(s, false);
      TrailsIffLastEnds(rest);
      FirstPieceIs(rest, [], false);
      assert LastOf(Split(s)) == LastOf(Split(rest));
  }

  /** Joining two texts with AND splits into the pieces of both exactly when the last piece of the first does not
      itself end in a blank and AND. */
  lemma AndJoinsPieces(a: string, b: string)
    requires Split(a).Ok? && Split(b).Ok?
    ensures Split(a + SEP + b) == Ok(Split(a).value + Split(b).value) <==> !EndsBlankAnd(LastOf(Split(a)))
  {
    JoinSplits(a, b, [], false);
    TrailsIffLastEnds(a);
  }

  lemma {:induction false} ClausesAppend(p: seq<string>, r: seq<string>)
    requires ClausesOf(p).Ok? && ClausesOf(r).Ok?
    ensures ClausesOf(p + r) == Ok(ClausesOf(p).value + ClausesOf(r).value)
  {
    if p == [] {
      assert p + r == r && [] + ClausesOf(r).value == ClausesOf(r).value;
    } else {
      assert (p + r)[1..] == p[1..] + r && (p + r)[0] == p[0];
      ClausesAppend(p[1..], r);
      if Trim(p[0]) != [] {
        var c := ClauseOf(Trim(p[0])).value;
        assert [c] + (ClausesOf(p[1..]).value + ClausesOf(r).value) == ([c] + ClausesOf(p[1..]).value) + ClausesOf(r).value;
      }
    }
  }

  /** A text with no white space at either end. */
  predicate Trimmed(s: string) {
    s != [] && !IsWhite(s[0]) && !IsWhite(s[|s| - 1])
  }

  lemma TrimmedIsTrim(s: string)
    requires Trimmed(s)
    ensures Trim(s) == s
  {
  }

  /** AND is conjunction: two filters that parse, joined, parse to the clauses of both, so an event matches
      the joined filter exactly when it matches each of them. */
  lemma AndIsConjunction(a: string, b: string, holds: Clause -> bool)
    requires Trimmed(a) && Trimmed(b) && FilterOf(a).Ok? && FilterOf(b).Ok?
    requires !EndsBlankAnd(LastOf(Split(a)))
    ensures FilterOf(a + SEP + b) == Ok(FilterOf(a).value + FilterOf(b).value)
    ensures AllHold(FilterOf(a + SEP + b).value, holds) <==> AllHold(FilterOf(a).value, holds) && AllHold(FilterOf(b).value, holds)
  {
    TrimmedIsTrim(a);
    TrimmedIsTrim(b);
    assert (a + SEP + b)[0] == a[0] && (a + SEP + b)[|a + SEP + b| - 1] == b[|b| - 1];
    TrimmedIsTrim(a + SEP + b);
    AndJoinsPieces(a, b);
    ClausesAppend(Split(a).value, Split(b).value);
    HoldsAppend(FilterOf(a).value, FilterOf(b).value, holds);
  }

  lemma HoldsAppend(a: seq<Clause>, b: seq<Clause>, holds: Clause -> bool)
    ensures AllHold(a + b, holds) <==> AllHold(a, holds) && AllHold(b, holds)
  {
    assert forall i :: 0 <= i < |a| ==> (a + b)[i] == a[i];
    assert forall i :: 0 <= i < |b| ==> (a + b)[|a| + i] == b[i];
  }

  // ---------- values at a path ----------

  /** The first field with that key. */
  ghost predicate FirstField(fields: seq<Field>, i: int, key: string, v: Json) {
    0 <= i < |fields| && fields[i] == Field(key, v) && forall j :: 0 <= j < i ==> fields[j].key != key
  }

  lemma {:induction false} FieldOfIsFirst(fields: seq<Field>, key: string)
    ensures FieldOf(fields, key).Some? ==> exists i :: FirstField(fields, i, key, FieldOf(fields, key).value)
    ensures FieldOf(fields, key).None? ==> forall j :: 0 <= j < |fields| ==> fields[j].key != key
  {
    if fields != [] && fields[0].key == key {
      assert fields[0] == Field(key, fields[0].value);
      assert FirstField(fields, 0, key, fields[0].value);
    } else if fields != [] {
      FieldOfIsFirst(fields[1..], key);
      if FieldOf(fields, key).Some? {
        var v := FieldOf(fields, key).value;
        var i :| FirstField(fields[1..], i, key, v);
        assert FirstField(fields, i + 1, key, v) by {
          forall j | 0 <= j < i + 1 ensures fields[j].key != key {
            assert j > 0 ==> fields[j] == fields[1..][j - 1];
          }
        }
      } else {
        forall j | 0 <= j < |fields| ensures fields[j].key != key {
          assert j > 0 ==> fields[j] == fields[1..][j - 1];
        }
      }
    }
  }

  lemma OneFirst(fields: seq<Field>, i: int, j: int, key: string, v: Json, w: Json)
    requires FirstField(fields, i, key, v) && FirstField(fields, j, key, w)
    ensures v == w
  {
    assert i == j;
  }

  /** Under one key an object has the value of its first field with that key, and nothing else has a value there. */
  lemma OneKey(root: Json, key: string, v: Json)
    ensures At(root, [key]) == Some(v) <==> root.Obj? && exists i :: FirstField(root.fields, i, key, v)
  {
    assert [key][1..] == [];
    if root.Obj? {
      FieldOfIsFirst(root.fields, key);
      if i :| FirstField(root.fields, i, key, v) {
        assert FieldOf(root.fields, key).Some?;
        var w := FieldOf(root.fields, key).value;
        var j :| FirstField(root.fields, j, key, w);
        OneFirst(root.fields, i, j, key, v, w);
      }
    }
  }

  /** A longer path is looked up in what its front leads to. */
  lemma {:induction false} PathJoins(root: Json, p: seq<string>, q: seq<string>)
    ensures At(root, []) == Some(root)
    ensures At(root, p + q) == match At(root, p) case None => None case Some(v) => At(v, q)
    decreases |p|
  {
    if p == [] {
      assert p + q == q;
    } else {
      assert (p + q)[0] == p[0] && (p + q)[1..] == p[1..] + q;
      if root.Obj? && FieldOf(root.fields, p[0]).Some? {
        PathJoins(FieldOf(root.fields, p[0]).value, p[1..], q);
      }
    }
  }

  // ---------- separators as written ----------

  /** A blank or tab, AND in letters of either case, and a blank or tab. */
  predicate AndWritten(w: string) {
    && |w| == 5 && (w[0] == ' ' || w[0] == '\t') && (w[1] == 'A' || w[1] == 'a') && (w[2] == 'N' || w[2] == 'n')
    && (w[3] == 'D' || w[3] == 'd') && (w[4] == ' ' || w[4] == '\t')
  }

  lemma WrittenIsSep(s: string)
    ensures SepAt(s) <==> |s| >= 5 && AndWritten(s[..5])
  {
    LowerIs(s);
    if |s| >= 5 {
      assert s[..5][0] == s[0] && s[..5][1] == s[1] && s[..5][2] == s[2] && s[..5][3] == s[3] && s[..5][4] == s[4];
    }
  }

  /** No separator starts in a text and ends in the written one behind it, unless the text ends in a blank and AND. */
  lemma WrittenJoint(a: string, w: string, b: string)
    requires a != [] && AndWritten(w) && !SepAt(a) && !(|a| == 4 && BlankAnd(a))
    ensures !SepAt(a + (w + b))
  {
    var s := a + (w + b);
    LowerIs(s);
    assert forall i :: 0 <= i < |a| ==> s[i] == a[i];
    assert s[|a|] == w[0];
  }

  /** However it is written, AND between two texts without quotes separates them, unless the first ends in a blank and AND. */
  lemma {:induction false} WrittenSplits(a: string, w: string, b: string, cur: string)
    requires AndWritten(w) && (forall i :: 0 <= i < |a| ==> a[i] != '"') && NoSep(a, false) && !EndsBlankAnd(a) && Split(b).Ok?
    ensures SplitFrom(a + (w + b), cur, false) == Ok([cur + a] + Split(b).value)
    decreases |a|
  {
    var s := a + (w + b);
    if a == [] {
      assert s == w + b && (w + b)[..5] == w && (w + b)[5..] == b && cur + a == cur;
      WrittenIsSep(s);
      assert s[0] != '"';
    } else {
      assert s[1..] == a[1..] + (w + b) && s[0] == a[0];
      if |a| == 4 {
        assert a[|a| - 4..] == a;
      }
      WrittenJoint(a, w, b);
      if |a| > 4 {
        assert a[1..][|a| - 1 - 4..] == a[|a| - 4..];
      }
      WrittenSplits(a[1..], w, b, cur + [a[0]]);
      assert cur + [a[0]] + a[1..] == cur + a;
    }
  }
}
