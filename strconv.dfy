/** The part of Go's strconv package that the unit generator calls:
    Quote, which turns a string into a double-quoted Go string literal,
    and, as its partner, the decoding of the literals Quote writes. */
module Strconv {

  import opened Wrappers

  /** Lower-case hexadecimal digits, as Quote writes them. */
  const LowerHex := "0123456789abcdef"

  /** Value of a lower-case hexadecimal digit, or -1. */
  function HexValue(c: char): (v: int)
    ensures -1 <= v < 16
    ensures 0 <= v ==> LowerHex[v] == c
  {
    if '0' <= c <= '9' then c as int - '0' as int
    else if 'a' <= c <= 'f' then c as int - 'a' as int + 10
    else -1
  }

  /** The character a one-letter escape `\e` stands for, or -1. */
  function SimpleEscapeValue(e: char): (v: int) {
    match e
    case 'a' => 7
    case 'b' => 8
    case 'f' => 12
    case 'n' => 10
    case 'r' => 13
    case 't' => 9
    case 'v' => 11
    case _ => -1
  }

  /** Characters Quote copies unchanged: printable ASCII and every
      non-ASCII character (see README for the simplification). */
  predicate IsPrint(c: char) {
    (' ' <= c <= '~') || c >= '\U{80}'
  }

  /** The text Quote writes for one character. */
  function EscapeRune(c: char): (t: string)
    ensures 0 < |t|
  {
    if c == '"' || c == '\\' then ['\\', c]
    else if IsPrint(c) then [c]
    else match c as int
      case 7 => "\\a"
      case 8 => "\\b"
      case 12 => "\\f"
      case 10 => "\\n"
      case 13 => "\\r"
      case 9 => "\\t"
      case 11 => "\\v"
      case _ => "\\x" + [LowerHex[c as int / 16], LowerHex[c as int % 16]]
  }

  /** The escaped text of a whole string, without the surrounding quotes. */
  function QuoteBody(s: string): (body: string) {
    if s == [] then [] else EscapeRune(s[0]) + QuoteBody(s[1..])
  }

  /** Go's strconv.Quote. */
  function Quote(s: string): (q: string)
    ensures 2 <= |q| && q[0] == '"' && q[|q| - 1] == '"'
  {
    "\"" + QuoteBody(s) + "\""
  }

  function Prepend(c: char, rest: Option<string>): (r: Option<string>) {
    match rest
    case Some(u) => Some([c] + u)
    case None => None
  }

  /** Decodes the body of a double-quoted literal: `\"`, `\\`, the one-letter
      escapes and `\xHH`; an unescaped `"` or any other escape is an error. */
  function UnquoteBody(t: string): (s: Option<string>)
    decreases |t|
  {
    if t == [] then Some([])
    else if t[0] == '"' then None
    else if t[0] != '\\' then Prepend(t[0], UnquoteBody(t[1..]))
    else if |t| < 2 then None
    else if t[1] == '"' || t[1] == '\\' then Prepend(t[1], UnquoteBody(t[2..]))
    else if SimpleEscapeValue(t[1]) >= 0 then Prepend(SimpleEscapeValue(t[1]) as char, UnquoteBody(t[2..]))
    else if t[1] == 'x' && |t| >= 4 && HexValue(t[2]) >= 0 && HexValue(t[3]) >= 0 then
      Prepend((16 * HexValue(t[2]) + HexValue(t[3])) as char, UnquoteBody(t[4..]))
    else None
  }

  /** Go's strconv.Unquote, for the double-quoted literals Quote writes. */
  function Unquote(q: string): (s: Option<string>) {
    if 2 <= |q| && q[0] == '"' && q[|q| - 1] == '"' then UnquoteBody(q[1..|q| - 1]) else None
  }

  /** HexValue reads back every digit Quote writes. */
  lemma HexValueOfDigit(d: int)
    requires 0 <= d < 16
    ensures HexValue(LowerHex[d]) == d
  {
  }

  /** Decoding the escape of one character gives that character back. */
  lemma EscapeRuneDecodes(c: char, rest: string)
    ensures UnquoteBody(EscapeRune(c) + rest) == Prepend(c, UnquoteBody(rest))
  {
    var e := EscapeRune(c);
    var t := e + rest;
    if |e| == 1 {
      assert t[1..] == rest;
    } else if |e| == 2 {
      assert t[2..] == rest;
    } else {
      var n := c as int;
      HexValueOfDigit(n / 16);
      HexValueOfDigit(n % 16);
      assert t[2] == LowerHex[n / 16] && t[3] == LowerHex[n % 16];
      assert t[4..] == rest;
    }
  }

  /** Every string survives quoting and unquoting unchanged. */
  lemma {:induction false} QuoteBodyRoundTrip(s: string)
    ensures UnquoteBody(QuoteBody(s)) == Some(s)
  {
    if s != [] {
      QuoteBodyRoundTrip(s[1..]);
      EscapeRuneDecodes(s[0], QuoteBody(s[1..]));
      assert [s[0]] + s[1..] == s;
    }
  }

  /** Unquote undoes Quote. */
  lemma QuoteRoundTrip(s: string)
    ensures Unquote(Quote(s)) == Some(s)
  {
    var q := Quote(s);
    assert q[1..|q| - 1] == QuoteBody(s);
    QuoteBodyRoundTrip(s);
  }

  /** The escaped text holds no control character: tabs, newlines and the
      other characters below a space never appear raw. */
  lemma {:induction false} QuoteBodyPrintable(s: string)
    ensures forall c :: c in QuoteBody(s) ==> c >= ' ' && c != '\U{7F}'
  {
    if s != [] {
      QuoteBodyPrintable(s[1..]);
      assert forall c :: c in EscapeRune(s[0]) ==> c >= ' ' && c != '\U{7F}';
    }
  }

  /** A quoted string holds no control character, in particular no tab. */
  lemma QuotePrintable(s: string)
    ensures forall c :: c in Quote(s) ==> c >= ' ' && c != '\U{7F}'
  {
    QuoteBodyPrintable(s);
  }
}
