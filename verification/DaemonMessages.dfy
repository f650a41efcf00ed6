/** The daemon's messages as JSON text, printed the way the daemon's serialiser prints them.
    One char stands for one byte. */
module DaemonMessages {

  datatype DaemonMsg = SetBreakpoints(file: string, lines: seq<nat>) | Continue

  const BACKSPACE: char := 8 as char
  const FORM_FEED: char := 12 as char

  function HexDigit(n: nat): char
    requires n < 16
  {
    if n < 10 then (n + 48) as char else (n + 87) as char
  }

  /** A character inside a JSON string (section 7 of RFC 8259). */
  function EscapeChar(c: char): string {
    if c == '"' then ['\\', '"']
    else if c == '\\' then ['\\', '\\']
    else if c == '\n' then ['\\', 'n']
    else if c == '\r' then ['\\', 'r']
    else if c == '\t' then ['\\', 't']
    else if c == BACKSPACE then ['\\', 'b']
    else if c == FORM_FEED then ['\\', 'f']
    else if c as int < 32 then ['\\', 'u', '0', '0', HexDigit(c as int / 16), HexDigit(c as int % 16)]
    else [c]
  }

  function Escape(s: string): string {
    if s == [] then [] else EscapeChar(s[0]) + Escape(s[1..])
  }

  function Digit(n: nat): char
    requires n < 10
  {
    (n + 48) as char
  }

  function Decimal(n: nat): string {
    if n < 10 then [Digit(n)] else Decimal(n / 10) + [Digit(n % 10)]
  }

  function CommaJoined(ns: seq<nat>): string {
    if ns == [] then []
    else if |ns| == 1 then Decimal(ns[0])
    else Decimal(ns[0]) + [','] + CommaJoined(ns[1..])
  }

  const TYPE_PART: string := "{\"type\":\""
  const FILE_PART: string := "\",\"file\":\""
  const LINES_PART: string := "\",\"lines\":["
  const SET_TAG: string := "set_breakpoints"
  const CONTINUE_TAG: string := "continue"

  function Print(m: DaemonMsg): string {
    match m
    case SetBreakpoints(file, lines) => TYPE_PART + SET_TAG + FILE_PART + Escape(file) + LINES_PART + CommaJoined(lines) + "]}"
    case Continue => TYPE_PART + CONTINUE_TAG + "\"}"
  }

  lemma {:induction false} DecimalFits(n: nat, digits: nat)
    requires digits > 0 && n < Power10(digits)
    ensures |Decimal(n)| <= digits
  {
    if n >= 10 {
      DecimalFits(n / 10, digits - 1);
    }
  }

  function Power10(k: nat): nat { if k == 0 then 1 else 10 * Power10(k - 1) }
}
