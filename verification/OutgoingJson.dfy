/** The extension's own JSON: the bounded string escape and the breakpoint-hit message.
    One char stands for one byte. */
module OutgoingJson {
  import opened TraceModel
  import opened DaemonMessages
  import opened JsonSearch
  import opened WireRoundTrip

  /** How the extension writes one character. Unlike the daemon it has no short forms for backspace and form feed. */
  function EscapeOne(c: char): (e: string)
    ensures 0 < |e| <= 6
  {
    if c == '"' || c == '\\' then ['\\', c]
    else if c == '\n' then ['\\', 'n']
    else if c == '\r' then ['\\', 'r']
    else if c == '\t' then ['\\', 't']
    else if c as int < 32 then ['\\', 'u', '0', '0', HexDigit(c as int / 16), HexDigit(c as int % 16)]
    else [c]
  }

  /** The first `n` characters, escaped. */
  function Escaped(s: string, n: nat): string
    requires n <= |s|
  {
    if n == 0 then [] else Escaped(s, n - 1) + EscapeOne(s[n - 1])
  }

  /** Whether one more character is taken after `k` when the output may hold `cap`: copying stops eight short. */
  predicate Room(src: string, k: nat, cap: nat)
    requires k <= |src|
  {
    |Escaped(src, k)| + 8 < cap
  }

  /** How many characters of `src` are taken, from `k` on. */
  function KeptFrom(src: string, cap: nat, k: nat): (n: nat)
    requires k <= |src|
    ensures k <= n <= |src|
    ensures n > k ==> Room(src, n - 1, cap)
    ensures n < |src| ==> !Room(src, n, cap)
    decreases |src| - k
  {
    if k == |src| || !Room(src, k, cap) then k else KeptFrom(src, cap, k + 1)
  }

  function Kept(src: string, cap: nat): (k: nat)
    ensures k <= |src|
  {
    KeptFrom(src, cap, 0)
  }

  lemma {:induction false} EscapeGrows(src: string, i: nat, j: nat)
    requires i <= j <= |src|
    ensures |Escaped(src, i)| + (j - i) <= |Escaped(src, j)|
    decreases j - i
  {
    if i < j {
      EscapeGrows(src, i, j - 1);
    }
  }

  /** Nothing is lost exactly when all but the last character, escaped, leave more than eight bytes. */
  lemma KeepsAllIff(src: string, cap: nat)
    ensures Kept(src, cap) == |src| <==> src == [] || |Escaped(src, |src| - 1)| + 8 < cap
  {
    var k := Kept(src, cap);
    if k < |src| {
      EscapeGrows(src, k, |src| - 1);
    }
  }

  /** What is written always leaves room for the terminator. */
  lemma EscapedFits(src: string, cap: nat)
    requires cap > 0
    ensures |Escaped(src, Kept(src, cap))| < cap
  {
  }

  // ---------- the buffer ----------

  lemma OneHasNoNul(c: char)
    requires c != NUL
    ensures NUL !in EscapeOne(c)
  {
    if c as int < 32 {
      HexNotNul(c as int / 16);
      HexNotNul(c as int % 16);
    }
  }

  lemma {:induction false} EscapedHasNoNul(s: string, n: nat)
    requires NUL !in s && n <= |s|
    ensures NUL !in Escaped(s, n)
  {
    if n > 0 {
      EscapedHasNoNul(s, n - 1);
      OneHasNoNul(s[n - 1]);
    }
  }

  method Put(dst: array<char>, pos: nat, text: string)
    requires pos + |text| <= dst.Length
    modifies dst
    ensures dst[..pos + |text|] == old(dst[..pos]) + text
  {
    for i := 0 to |text|
      invariant dst[..pos + i] == old(dst[..pos]) + text[..i]
    {
      dst[pos + i] := text[i];
      assert dst[..pos + i + 1] == dst[..pos + i] + [text[i]];
    }
    assert text[..|text|] == text;
  }

  method PutEscaped(dst: array<char>, pos: nat, src: string, k: nat) returns (next: nat)
    requires k < |src| && pos + 8 < dst.Length
    requires pos == |Escaped(src, k)| && dst[..pos] == Escaped(src, k)
    modifies dst
    ensures next < dst.Length && next == |Escaped(src, k + 1)| && dst[..next] == Escaped(src, k + 1)
  {
    var e := EscapeOne(src[k]);
    Put(dst, pos, e);
    next := pos + |e|;
  }

  method FillEscaped(dst: array<char>, src: string) returns (pos: nat, k: nat)
    requires dst.Length > 0
    modifies dst
    ensures k == Kept(src, dst.Length) && pos < dst.Length && pos == |Escaped(src, k)| && dst[..pos] == Escaped(src, k)
  {
    pos, k := 0, 0;
    while k < |src| && pos + 8 < dst.Length
      invariant k <= |src| && pos < dst.Length
      invariant pos == |Escaped(src, k)| && dst[..pos] == Escaped(src, k)
      invariant KeptFrom(src, dst.Length, k) == KeptFrom(src, dst.Length, 0)
      decreases |src| - k
    {
      pos := PutEscaped(dst, pos, src, k);
      k := k + 1;
    }
  }

  /** Escapes as much of `src` as fits and ends it with a zero byte. `src` is what a C string holds. */
  method EscapeJson(src: string, dst: array<char>)
    requires NUL !in src
    modifies dst
    ensures dst.Length > 0 ==> CString(dst[..]) == Escaped(src, Kept(src, dst.Length))
  {
    if dst.Length == 0 { return; }
    var pos, k := FillEscaped(dst, src);
    ghost var text := dst[..pos];
    dst[pos] := NUL;
    assert dst[..pos] == text;
    EscapedHasNoNul(src, k);
    Terminated(dst[..], pos, text);
  }

  lemma Terminated(buffer: string, pos: nat, text: string)
    requires pos < |buffer| && buffer[..pos] == text && buffer[pos] == NUL && NUL !in text
    ensures CString(buffer) == text
  {
    assert buffer == text + [NUL] + buffer[pos + 1..];
    CStringIs(text, buffer[pos + 1..]);
  }

  // ---------- reading it back ----------

  function HexValue(c: char): Option<nat> {
    if '0' <= c <= '9' then Some(c as int - 48)
    else if 'a' <= c <= 'f' then Some(c as int - 87)
    else if 'A' <= c <= 'F' then Some(c as int - 55)
    else None
  }

  /** A two-character escape (section 7 of RFC 8259). */
  function ShortEscape(c: char): Option<char> {
    if c == '"' || c == '\\' || c == '/' then Some(c)
    else if c == 'n' then Some('\n')
    else if c == 'r' then Some('\r')
    else if c == 't' then Some('\t')
    else if c == 'b' then Some(BACKSPACE)
    else if c == 'f' then Some(FORM_FEED)
    else None
  }

  /** Four hexadecimal digits naming a one-byte character; longer ones are not needed here. */
  function UnicodeEscape(s: string): Option<char> {
    if |s| < 4 || s[0] != '0' || s[1] != '0' then None
    else
      var hi, lo := HexValue(s[2]), HexValue(s[3]);
      if hi.None? || lo.None? || hi.value >= 8 then None else Some((16 * hi.value + lo.value) as char)
  }

  /** A JSON string after its opening quote: its value, and what follows the closing quote. */
  function ScanString(s: string): Option<(string, string)>
    decreases |s|
  {
    if s == [] || s[0] as int < 32 then None
    else if s[0] == '"' then Some(([], s[1..]))
    else if s[0] != '\\' then Prefixed(s[0], ScanString(s[1..]))
    else if |s| < 2 then None
    else if s[1] == 'u' then
      if UnicodeEscape(s[2..]).None? then None
      else Prefixed(UnicodeEscape(s[2..]).value, ScanString(s[6..]))
    else if ShortEscape(s[1]).None? then None
    else Prefixed(ShortEscape(s[1]).value, ScanString(s[2..]))
  }

  function Prefixed(c: char, r: Option<(string, string)>): Option<(string, string)> {
    if r.None? then None else Some(([c] + r.value.0, r.value.1))
  }

  lemma HexReads(n: nat)
    requires n < 16
    ensures HexValue(HexDigit(n)) == Some(n)
  {
  }

  lemma ScanOne(c: char, rest: string)
    ensures ScanString(EscapeOne(c) + rest) == Prefixed(c, ScanString(rest))
  {
    var e := EscapeOne(c) + rest;
    assert e[|EscapeOne(c)|..] == rest;
    if c as int < 32 && c != '\n' && c != '\r' && c != '\t' {
      HexReads(c as int / 16);
      HexReads(c as int % 16);
      assert e[2..][0] == e[2] && e[2..][1] == e[3] && e[2..][2] == e[4] && e[2..][3] == e[5];
      assert UnicodeEscape(e[2..]) == Some(c);
    }
  }

  lemma ScanReads(s: string, n: nat, rest: string)
    requires n <= |s|
    ensures ScanString(Escaped(s, n) + ['"'] + rest) == Some((s[..n], rest))
  {
    ScanReadsFrom(s, n, ['"'] + rest);
    Associate(Escaped(s, n), ['"'], rest);
    assert (['"'] + rest)[1..] == rest;
    assert s[..n] + [] == s[..n];
  }

  /** Text put in front of what is read. */
  function InFront(text: string, r: Option<(string, string)>): Option<(string, string)> {
    if r.None? then None else Some((text + r.value.0, r.value.1))
  }

  lemma InFrontOfMore(text: string, c: char, r: Option<(string, string)>)
    ensures InFront(text, Prefixed(c, r)) == InFront(text + [c], r)
    ensures InFront([], r) == r
  {
    if r.Some? {
      assert text + ([c] + r.value.0) == text + [c] + r.value.0;
      assert [] + r.value.0 == r.value.0;
    }
  }

  /** Escaped text in front of anything adds exactly its own characters to what is read. */
  lemma {:induction false} ScanReadsFrom(s: string, n: nat, rest: string)
    requires n <= |s|
    ensures ScanString(Escaped(s, n) + rest) == InFront(s[..n], ScanString(rest))
  {
    if n == 0 {
      assert Escaped(s, n) + rest == rest;
      InFrontOfMore([], NUL, ScanString(rest));
    } else {
      Associate(Escaped(s, n - 1), EscapeOne(s[n - 1]), rest);
      ScanReadsFrom(s, n - 1, EscapeOne(s[n - 1]) + rest);
      ScanOne(s[n - 1], rest);
      InFrontOfMore(s[..n - 1], s[n - 1], ScanString(rest));
      assert s[..n - 1] + [s[n - 1]] == s[..n];
    }
  }

  const PATH_CAP: nat := 1024
  const MESSAGE_CAP: nat := 1536
}
