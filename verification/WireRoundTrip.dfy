/** Reading a printed message by substring search gives back what was printed. */
module WireRoundTrip {
  import opened TraceModel
  import opened DaemonMessages
  import opened JsonSearch

  /** Bytes that come through escaping and reading unchanged. */
  predicate Carried(c: char) {
    c as int >= 32 || c == '\n' || c == '\r' || c == '\t'
  }

  predicate AllCarried(s: string) {
    forall i :: 0 <= i < |s| ==> Carried(s[i])
  }

  // ---------- string values ----------

  /** What the reader makes of an escaped character. */
  function Reread(c: char): string {
    if Carried(c) then [c]
    else if c == BACKSPACE then ['b']
    else if c == FORM_FEED then ['f']
    else ['u', '0', '0', HexDigit(c as int / 16), HexDigit(c as int % 16)]
  }

  function RereadAll(s: string): string {
    if s == [] then [] else Reread(s[0]) + RereadAll(s[1..])
  }

  lemma CopyOne(c: char, rest: string, room: nat)
    requires c != '"' && c != '\\' && room > 0
    ensures Copy([c] + rest, room) == ([c] + Copy(rest, room - 1).0, Copy(rest, room - 1).1)
  {
    assert ([c] + rest)[1..] == rest;
  }

  lemma CopyTwo(c: char, rest: string, room: nat)
    requires room > 0
    ensures Copy(['\\', c] + rest, room) == ([Unescaped(c)] + Copy(rest, room - 1).0, Copy(rest, room - 1).1)
  {
    assert (['\\', c] + rest)[2..] == rest;
  }

  predicate Plain(a: string) {
    forall i :: 0 <= i < |a| ==> a[i] != '"' && a[i] != '\\'
  }

  lemma {:induction false} CopyPlain(a: string, rest: string, room: nat)
    requires |a| <= room && Plain(a)
    ensures Copy(a + rest, room) == (a + Copy(rest, room - |a|).0, Copy(rest, room - |a|).1)
  {
    if a == [] {
      NothingBefore(rest);
      NothingBefore(Copy(rest, room).0);
    } else {
      CopyPlain(a[1..], rest, room - 1);
      CopyPlainOne(a, rest, room, a[1..] + rest, Copy(rest, room - |a|));
    }
  }

  lemma NothingBefore(s: string)
    ensures [] + s == s
  {
  }

  lemma CopyPlainOne(a: string, rest: string, room: nat, after: string, r: (string, string))
    requires a != [] && a[0] != '"' && a[0] != '\\' && room > 0
    requires after == a[1..] + rest && Copy(after, room - 1) == (a[1..] + r.0, r.1)
    ensures Copy(a + rest, room) == (a + r.0, r.1)
  {
    PlainSplit(a, rest);
    CopyOne(a[0], after, room);
    PlainSplit(a, r.0);
  }

  lemma PlainSplit(a: string, rest: string)
    requires a != []
    ensures a + rest == [a[0]] + (a[1..] + rest)
  {
  }

  lemma HexNotNul(n: nat)
    requires n < 16
    ensures HexDigit(n) != NUL
  {
  }

  lemma HexDigitIsPlain(n: nat)
    requires n < 16
    ensures HexDigit(n) != '"' && HexDigit(n) != '\\'
  {
  }

  lemma HexIsPlain(c: char)
    requires c as int < 32
    ensures var t := ['0', '0', HexDigit(c as int / 16), HexDigit(c as int % 16)];
            Plain(t) && forall n :: 0 <= n < 4 ==> Plain(t[..n]) && t[n] != '"'
  {
    HexDigitIsPlain(c as int / 16);
    HexDigitIsPlain(c as int % 16);
  }

  /** A `\u00xx` escape is read as its last five bytes. */
  lemma CopyHex(c: char, rest: string, room: nat)
    requires c as int < 32 && room >= 5
    ensures var u := ['u', '0', '0', HexDigit(c as int / 16), HexDigit(c as int % 16)];
            Copy(['\\'] + u + rest, room) == (u + Copy(rest, room - 5).0, Copy(rest, room - 5).1)
  {
    var t := ['0', '0', HexDigit(c as int / 16), HexDigit(c as int % 16)];
    HexIsPlain(c);
    var u := ['u', '0', '0', HexDigit(c as int / 16), HexDigit(c as int % 16)];
    assert u == ['u'] + t;
    assert ['\\'] + u + rest == ['\\', 'u'] + (t + rest);
    CopyTwo('u', t + rest, room);
    CopyPlain(t, rest, room - 1);
    assert ['u'] + (t + Copy(rest, room - 5).0) == (['u'] + t) + Copy(rest, room - 5).0;
  }

  /** `room` is enough for `c`, and the reader goes on after it. */
  lemma CopyChar(c: char, rest: string, room: nat)
    requires |Reread(c)| <= room
    ensures Copy(EscapeChar(c) + rest, room) == (Reread(c) + Copy(rest, room - |Reread(c)|).0, Copy(rest, room - |Reread(c)|).1)
  {
    if |EscapeChar(c)| == 1 {
      CopyOne(c, rest, room);
    } else if |EscapeChar(c)| == 2 {
      CopyTwo(EscapeChar(c)[1], rest, room);
      assert Reread(c) == [Unescaped(EscapeChar(c)[1])];
    } else {
      CopyHex(c, rest, room);
      assert EscapeChar(c) == ['\\'] + Reread(c);
    }
  }

  /** With too little room for `c` the reader stops inside it, not at a quote. */
  lemma CopyCutsChar(c: char, rest: string, room: nat)
    requires room < |Reread(c)|
    ensures Copy(EscapeChar(c) + rest, room).1 != [] && Copy(EscapeChar(c) + rest, room).1[0] != '"'
  {
    if room > 0 {
      var a := ['0', '0', HexDigit(c as int / 16), HexDigit(c as int % 16)];
      HexIsPlain(c);
      assert EscapeChar(c) + rest == ['\\', 'u'] + (a + rest);
      CopyTwo('u', a + rest, room);
      assert a + rest == a[..room - 1] + (a[room - 1..] + rest);
      CopyPlain(a[..room - 1], a[room - 1..] + rest, room - 1);
    }
  }

  lemma {:induction false} CopyEscaped(s: string, tail: string, room: nat)
    requires tail != [] && tail[0] == '"'
    ensures |RereadAll(s)| <= room ==> Copy(Escape(s) + tail, room) == (RereadAll(s), tail)
    ensures |RereadAll(s)| > room ==> Copy(Escape(s) + tail, room).1 != [] && Copy(Escape(s) + tail, room).1[0] != '"'
  {
    if s == [] {
      assert [] + tail == tail;
    } else {
      assert Escape(s) + tail == EscapeChar(s[0]) + (Escape(s[1..]) + tail);
      if |Reread(s[0])| <= room {
        CopyChar(s[0], Escape(s[1..]) + tail, room);
        CopyEscaped(s[1..], tail, room - |Reread(s[0])|);
      } else {
        CopyCutsChar(s[0], Escape(s[1..]) + tail, room);
      }
    }
  }

  lemma {:induction false} RereadIsSame(s: string)
    ensures RereadAll(s) == s <==> AllCarried(s)
  {
    if s != [] {
      RereadIsSame(s[1..]);
      if Carried(s[0]) {
        assert RereadAll(s)[1..] == RereadAll(s[1..]);
        assert s == [s[0]] + s[1..];
      } else {
        assert RereadAll(s)[0] == Reread(s[0])[0] != s[0];
      }
    }
  }

  lemma StringValueIs(s: string, tail: string, cap: nat)
    requires cap > 0 && tail != [] && tail[0] == '"'
    ensures StringValue(['"'] + Escape(s) + tail, cap) == if |RereadAll(s)| < cap then Some(RereadAll(s)) else None
  {
    assert (['"'] + Escape(s) + tail)[1..] == Escape(s) + tail;
    CopyEscaped(s, tail, cap - 1);
  }

  /** A printed string value reads back as itself exactly when its bytes are all carried and it fits the buffer. */
  lemma StringReadsBack(s: string, tail: string, cap: nat)
    requires cap > 0 && tail != [] && tail[0] == '"'
    ensures StringValue(['"'] + Escape(s) + tail, cap) == Some(s) <==> AllCarried(s) && |s| < cap
  {
    StringValueIs(s, tail, cap);
    RereadIsSame(s);
  }

  // ---------- numbers ----------

  predicate StartsNonDigit(s: string) { s == [] || !IsDigit(s[0]) }

  lemma {:induction false} DecimalReads(n: nat, rest: string)
    requires StartsNonDigit(rest)
    ensures ReadDigits(Decimal(n) + rest, 0) == (n, rest)
    ensures IsDigit(Decimal(n)[0]) && |Decimal(n)| > 0
  {
    DecimalReadsFrom(n, rest);
    assert [] + rest == rest;
  }

  /** Reading the digits of `n` brings the accumulator to `n`, whatever comes next. */
  lemma {:induction false} DecimalReadsFrom(n: nat, rest: string)
    ensures ReadDigits(Decimal(n) + rest, 0) == ReadDigits(rest, n)
    ensures |Decimal(n)| > 0 && IsDigit(Decimal(n)[0])
  {
    if n < 10 {
      assert (Decimal(n) + rest)[1..] == rest;
    } else {
      assert Decimal(n) + rest == Decimal(n / 10) + ([Digit(n % 10)] + rest);
      DecimalReadsFrom(n / 10, [Digit(n % 10)] + rest);
      assert ([Digit(n % 10)] + rest)[1..] == rest;
    }
  }

  lemma LongReads(n: nat, rest: string)
    requires n < 0x1_0000_0000 && StartsNonDigit(rest)
    ensures ReadLong(Decimal(n) + rest) == Some((n as int, rest))
    ensures Decimal(n) != [] && IsDigit((Decimal(n) + rest)[0])
  {
    DecimalReads(n, rest);
  }

  function Least(a: nat, b: nat): nat { if a < b then a else b }

  lemma NumbersFirst(n: nat, rest: string, cap: nat)
    requires n < 0x1_0000_0000 && StartsNonDigit(rest) && cap > 0
    ensures Numbers(Decimal(n) + rest, cap) == [n] + Numbers(rest, cap - 1)
  {
    LongReads(n, rest);
    assert SkipSeparators(Decimal(n) + rest) == Decimal(n) + rest;
  }

  lemma NumberAndComma(n: nat, more: string, cap: nat)
    requires n < 0x1_0000_0000 && cap > 0 && more != [] && IsDigit(more[0])
    ensures Numbers(Decimal(n) + ([','] + more), cap) == [n] + Numbers(more, cap - 1)
  {
    NumbersFirst(n, [','] + more, cap);
    NumbersAfterComma(more, cap - 1);
  }

  /** A printed line list reads back, cut to the capacity. */
  lemma {:induction false} NumbersRead(ns: seq<nat>, tail: string, cap: nat)
    requires tail != [] && tail[0] == ']' && forall i :: 0 <= i < |ns| ==> ns[i] < 0x1_0000_0000
    ensures Numbers(CommaJoined(ns) + tail, cap) == ns[..Least(|ns|, cap)]
    decreases |ns|
  {
    if ns == [] {
      assert [] + tail == tail;
    } else if cap > 0 {
      if |ns| == 1 {
        NumbersFirst(ns[0], tail, cap);
      } else {
        Regroup(Decimal(ns[0]), [','], CommaJoined(ns[1..]), tail);
        CommaJoinedStarts(ns[1..], tail);
        NumberAndComma(ns[0], CommaJoined(ns[1..]) + tail, cap);
        NumbersRead(ns[1..], tail, cap - 1);
        LeastOfRest(ns, cap);
      }
    }
  }

  lemma LeastOfRest(ns: seq<nat>, cap: nat)
    requires ns != [] && cap > 0
    ensures ns[..Least(|ns|, cap)] == [ns[0]] + ns[1..][..Least(|ns| - 1, cap - 1)]
  {
  }

  lemma CommaJoinedStarts(ns: seq<nat>, tail: string)
    requires ns != []
    ensures CommaJoined(ns) + tail != [] && IsDigit((CommaJoined(ns) + tail)[0])
  {
    DecimalReadsFrom(ns[0], []);
  }

  lemma NumbersAfterComma(s: string, cap: nat)
    requires s != [] && IsDigit(s[0])
    ensures Numbers([','] + s, cap) == Numbers(s, cap)
  {
    assert ([','] + s)[1..] == s;
    assert SkipSeparators([','] + s) == SkipSeparators(s) == s;
  }

  // ---------- numbers of either sign ----------

  function SignedText(n: int): string {
    if n < 0 then ['-'] + Decimal(-n) else Decimal(n)
  }

  function SignedJoined(ns: seq<int>): string {
    if ns == [] then [] else if |ns| == 1 then SignedText(ns[0]) else SignedText(ns[0]) + ([','] + SignedJoined(ns[1..]))
  }

  /** The numbers that are not negative, at most `cap` of them: as 64-bit longs, of which the lower half is taken. */
  function NotNegative(ns: seq<int>, cap: nat): seq<nat> {
    if ns == [] || cap == 0 then []
    else if ns[0] < 0 then NotNegative(ns[1..], cap)
    else [(if ns[0] > 0x7fff_ffff_ffff_ffff then 0x7fff_ffff_ffff_ffff else ns[0]) % 0x1_0000_0000] + NotNegative(ns[1..], cap - 1)
  }

  predicate StartsNumber(s: string) {
    s != [] && (IsDigit(s[0]) || s[0] == '-')
  }

  lemma SignedStarts(n: int, rest: string)
    ensures SignedText(n) != [] && StartsNumber(SignedText(n) + rest)
  {
    DecimalReadsFrom(if n < 0 then -n else n, []);
  }

  lemma StartsUnskipped(s: string)
    requires StartsNumber(s)
    ensures SkipSeparators(s) == s && SkipSpaces(s) == s && s[0] != ']'
  {
  }

  lemma SignedReads(n: int, rest: string)
    requires StartsNonDigit(rest)
    ensures NextNumber(SignedText(n) + rest).Some? && NextNumber(SignedText(n) + rest).value.1 == rest
    ensures var v := NextNumber(SignedText(n) + rest).value.0;
            if n < 0 then v < 0 else v == if n > 0x7fff_ffff_ffff_ffff then 0x7fff_ffff_ffff_ffff else n
  {
    var s := SignedText(n) + rest;
    SignedStarts(n, rest);
    StartsUnskipped(s);
    DecimalReads(if n < 0 then -n else n, rest);
    if n < 0 {
      assert s[1..] == Decimal(-n) + rest && s[0] == '-';
    } else {
      assert s[0] == Decimal(n)[0];
    }
  }

  lemma SignedAfterComma(s: string, cap: nat)
    requires StartsNumber(s)
    ensures Numbers([','] + s, cap) == Numbers(s, cap)
  {
    assert ([','] + s)[1..] == s;
    StartsUnskipped(s);
    assert SkipSeparators([','] + s) == s;
  }

  /** Between numbers there may be any blanks, commas, tabs and line ends. */
  lemma {:induction false} SeparatorsSkipped(seps: string, s: string, cap: nat)
    requires StartsNumber(s) && forall i :: 0 <= i < |seps| ==> seps[i] == ' ' || seps[i] == ',' || seps[i] == '\t' || seps[i] == '\n'
    ensures Numbers(seps + s, cap) == Numbers(s, cap)
  {
    StartsUnskipped(s);
    AllSkipped(seps, s);
    if seps == [] {
      assert seps + s == s;
    } else {
      assert (seps + s)[0] == seps[0];
    }
  }

  lemma {:induction false} AllSkipped(seps: string, s: string)
    requires forall i :: 0 <= i < |seps| ==> seps[i] == ' ' || seps[i] == ',' || seps[i] == '\t' || seps[i] == '\n'
    ensures SkipSeparators(seps + s) == SkipSeparators(s)
  {
    if seps == [] {
      assert seps + s == s;
    } else {
      assert (seps + s)[1..] == seps[1..] + s;
      AllSkipped(seps[1..], s);
    }
  }

  lemma SignedFirst(n: int, rest: string, cap: nat)
    requires StartsNonDigit(rest) && cap > 0
    ensures Numbers(SignedText(n) + rest, cap) == if n < 0 then Numbers(rest, cap) else NotNegative([n], 1) + Numbers(rest, cap - 1)
  {
    SignedReads(n, rest);
    SignedStarts(n, rest);
    StartsUnskipped(SignedText(n) + rest);
    assert NotNegative([n][1..], 0) == [];
  }

  /** Of numbers of either sign and any size between commas, those that are not negative are taken, up to the capacity. */
  lemma {:induction false} SignedRead(ns: seq<int>, tail: string, cap: nat)
    requires tail != [] && tail[0] == ']'
    ensures Numbers(SignedJoined(ns) + tail, cap) == NotNegative(ns, cap)
    decreases |ns|
  {
    if ns == [] {
      assert [] + tail == tail;
    } else if cap > 0 {
      var left := if ns[0] < 0 then cap else cap - 1;
      assert NotNegative([ns[0]], 1) == NotNegative([ns[0]], 1) + [];
      if |ns| == 1 {
        SignedFirst(ns[0], tail, cap);
        assert ns == [ns[0]] && ns[1..] == [];
      } else {
        var more := SignedJoined(ns[1..]) + tail;
        Regroup3(SignedText(ns[0]), [','], SignedJoined(ns[1..]), tail);
        SignedFirst(ns[0], [','] + more, cap);
        SignedJoinedStarts(ns[1..], tail);
        SignedAfterComma(more, left);
        SignedRead(ns[1..], tail, left);
        NotNegativeFirst(ns, cap);
      }
    }
  }

  lemma Regroup3(a: string, b: string, c: string, d: string)
    ensures a + (b + c) + d == a + (b + (c + d))
  {
  }

  lemma NotNegativeFirst(ns: seq<int>, cap: nat)
    requires ns != [] && cap > 0
    ensures NotNegative(ns, cap) == if ns[0] < 0 then NotNegative(ns[1..], cap) else NotNegative([ns[0]], 1) + NotNegative(ns[1..], cap - 1)
  {
    assert [ns[0]][1..] == [] && NotNegative([], 0) == [];
  }

  lemma SignedJoinedStarts(ns: seq<int>, tail: string)
    requires ns != []
    ensures StartsNumber(SignedJoined(ns) + tail)
  {
    SignedStarts(ns[0], []);
    assert SignedText(ns[0]) + [] == SignedText(ns[0]);
    assert (SignedJoined(ns) + tail)[0] == SignedText(ns[0])[0];
  }

  // ---------- keys ----------

  /** No occurrence of `pat` starts inside `a`, because each of its quotes is followed by the wrong byte. */
  lemma {:induction false} SkipsTo(a: string, b: string, pat: string)
    requires |pat| >= 2
    requires forall i :: 0 <= i < |a| && a[i] == pat[0] ==> i + 1 < |a + b| && (a + b)[i + 1] != pat[1]
    ensures After(a + b, pat) == After(b, pat)
  {
    if a == [] {
      assert a + b == b;
    } else {
      var s := a + b;
      assert s[1..] == a[1..] + b;
      assert |pat| <= |s| ==> s[..|pat|][0] == a[0] && s[..|pat|][1] == s[1];
      SkipsTo(a[1..], b, pat);
    }
  }

  lemma FoundHere(pat: string, rest: string)
    ensures After(pat + rest, pat) == Some(rest)
  {
  }

  /** In escaped text every quote follows a backslash. */
  lemma {:induction false} QuotesAreEscaped(s: string)
    ensures forall i :: 0 <= i < |Escape(s)| && Escape(s)[i] == '"' ==> i > 0 && Escape(s)[i - 1] == '\\'
  {
    if s != [] {
      QuotesAreEscaped(s[1..]);
      var e := EscapeChar(s[0]);
      forall i | 0 <= i < |Escape(s)| && Escape(s)[i] == '"' ensures i > 0 && Escape(s)[i - 1] == '\\' {
        if i >= |e| {
          assert Escape(s[1..])[i - |e|] == '"';
          assert Escape(s)[i - 1] == Escape(s[1..])[i - |e| - 1];
        }
      }
    }
  }

  const LINES_KEY: string := "\"lines\":"

  /** The text of an escaped path between its quotes, up to the lines key. */
  function Quoted(e: string): string { ['"'] + e + ['"', ','] }

  lemma KeyShape(s: string)
    requires StartsWith(s, LINES_KEY)
    ensures |s| >= 8 && s[0] == '"' && s[5] == 's' && s[6] == '"' && s[7] == ':'
  {
    assert forall j :: 0 <= j < 8 ==> s[j] == LINES_KEY[j];
  }

  /** From a position up to the real key, the bytes five to seven further on are never `s":`. */
  lemma NotKeyShape(e: string, x: string, i: nat)
    requires forall j :: 0 <= j < |e| && e[j] == '"' ==> j > 0 && e[j - 1] == '\\'
    requires i < |Quoted(e)| && |x| >= |Quoted(e)| + 8 && x[..|Quoted(e)| + 8] == Quoted(e) + LINES_KEY
    ensures !(x[i + 5] == 's' && x[i + 6] == '"' && x[i + 7] == ':')
  {
    var n := |e|;
    var y := Quoted(e) + LINES_KEY;
    assert forall j :: 0 <= j < n + 11 ==> x[j] == y[j];
    assert forall j :: 1 <= j <= n ==> y[j] == e[j - 1];
    assert forall j :: 0 <= j < 8 ==> y[n + 3 + j] == LINES_KEY[j];
    if i + 6 <= n {
      assert x[i + 6] == e[i + 5] && x[i + 5] == e[i + 4];
    }
  }

  /** The lines key cannot start inside a quoted path, whatever the path says. */
  lemma NoKeyInside(e: string, rest: string, i: nat)
    requires forall j :: 0 <= j < |e| && e[j] == '"' ==> j > 0 && e[j - 1] == '\\'
    requires i < |Quoted(e)|
    ensures !StartsWith((Quoted(e) + LINES_KEY + rest)[i..], LINES_KEY)
  {
    var x := Quoted(e) + LINES_KEY + rest;
    NotKeyShape(e, x, i);
    if StartsWith(x[i..], LINES_KEY) {
      KeyShape(x[i..]);
    }
  }

  lemma {:induction false} SkipsAll(a: string, b: string, pat: string)
    requires pat != [] && forall i: nat :: i < |a| ==> !StartsWith((a + b)[i..], pat)
    ensures After(a + b, pat) == After(b, pat)
  {
    if a == [] {
      assert a + b == b;
    } else {
      assert (a + b)[0..] == a + b;
      assert !StartsWith((a + b)[0..], pat);
      assert (a + b)[1..] == a[1..] + b;
      forall i: nat | i < |a[1..]| ensures !StartsWith((a[1..] + b)[i..], pat) {
        assert (a[1..] + b)[i..] == (a + b)[i + 1..];
        assert !StartsWith((a + b)[i + 1..], pat);
      }
      SkipsAll(a[1..], b, pat);
    }
  }

  /** The first match of the quoted key `lines` is the real one. */
  lemma LinesKeyIsReal(file: string, rest: string)
    ensures After(Quoted(Escape(file)) + LINES_KEY + rest, LINES_KEY) == Some(rest)
  {
    var a := Quoted(Escape(file));
    QuotesAreEscaped(file);
    assert a + (LINES_KEY + rest) == a + LINES_KEY + rest;
    forall i: nat | i < |a| ensures !StartsWith((a + (LINES_KEY + rest))[i..], LINES_KEY) {
      NoKeyInside(Escape(file), rest, i);
    }
    SkipsAll(a, LINES_KEY + rest, LINES_KEY);
    FoundHere(LINES_KEY, rest);
  }
}
