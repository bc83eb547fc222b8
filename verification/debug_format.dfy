/**
  Rust's `{:?}` (Debug) rendering of a `str` and of a `Path`, as the two error messages
  of the record codec use it: the text in double quotes, with backslash, double quote,
  newline, carriage return, tab and NUL escaped, and every byte that is not valid UTF-8
  written as `\xNN` in upper-case hex. `Unescape` reads such a rendering back, so a
  message built from it names its subject exactly.
 */
module DebugFormat {
  import opened Wrappers
  import opened Paths

  function HexDigit(n: int): (c: char)
    requires 0 <= n < 16
  {
    if n < 10 then (48 + n) as char else (55 + n) as char
  }

  /** The value of an upper-case hex digit, or -1. */
  function HexValue(c: char): (n: int)
    ensures -1 <= n < 16
  {
    if '0' <= c <= '9' then c as int - 48
    else if 'A' <= c <= 'F' then c as int - 55
    else -1
  }

  function EscapeChar(c: char): string {
    match c
    case '\\' => "\\\\"
    case '"' => "\\\""
    case '\n' => "\\n"
    case '\r' => "\\r"
    case '\t' => "\\t"
    case '\0' => "\\0"
    case _ => [c]
  }

  function EscapeUnit(u: Unit): string {
    match u
    case Char(c) => EscapeChar(c)
    case Raw(b) => "\\x" + [HexDigit(b / 16), HexDigit(b % 16)]
  }

  function EscapeUnits(us: seq<Unit>): string {
    if |us| == 0 then "" else EscapeUnit(us[0]) + EscapeUnits(us[1..])
  }

  /** The Debug rendering of a sequence of path units. */
  function Quoted(us: seq<Unit>): string {
    "\"" + EscapeUnits(us) + "\""
  }

  /** `format!("{:?}", s)` for a string. */
  function DebugStr(s: string): string {
    Quoted(FromString(s).units)
  }

  /** `format!("{:?}", p)` for a path. */
  function DebugPath(p: Path): string {
    Quoted(p.units)
  }

  function Cons(u: Unit, o: Option<seq<Unit>>): Option<seq<Unit>> {
    match o
    case None => None
    case Some(us) => Some([u] + us)
  }

  /** Reads escaped text back into units; `None` when it is not an escaped rendering. */
  function Unescape(t: string): Option<seq<Unit>>
    decreases |t|
  {
    if |t| == 0 then Some([])
    else if t[0] == '"' then None
    else if t[0] != '\\' then Cons(Char(t[0]), Unescape(t[1..]))
    else if |t| < 2 then None
    else
      match t[1]
      case '\\' => Cons(Char('\\'), Unescape(t[2..]))
      case '"' => Cons(Char('"'), Unescape(t[2..]))
      case 'n' => Cons(Char('\n'), Unescape(t[2..]))
      case 'r' => Cons(Char('\r'), Unescape(t[2..]))
      case 't' => Cons(Char('\t'), Unescape(t[2..]))
      case '0' => Cons(Char('\0'), Unescape(t[2..]))
      case 'x' =>
        if |t| >= 4 && HexValue(t[2]) >= 0 && HexValue(t[3]) >= 0 then
          Cons(Raw(16 * HexValue(t[2]) + HexValue(t[3])), Unescape(t[4..]))
        else None
      case _ => None
  }

  /** Reads a Debug rendering back: strips the quotes and unescapes the inside. */
  function ParseQuoted(m: string): Option<seq<Unit>> {
    if 2 <= |m| && m[0] == '"' && m[|m| - 1] == '"' then Unescape(m[1..|m| - 1]) else None
  }

  /** The subject a message `prefix + {:?}` names, when the message has that shape. */
  function Subject(prefix: string, m: string): Option<seq<Unit>> {
    if prefix <= m then ParseQuoted(m[|prefix|..]) else None
  }

  lemma HexRoundTrip(n: int)
    requires 0 <= n < 16
    ensures HexValue(HexDigit(n)) == n
  {
  }

  /** Unescaping consumes exactly the escape of one unit. */
  lemma UnescapeUnit(u: Unit, t: string)
    ensures Unescape(EscapeUnit(u) + t) == Cons(u, Unescape(t))
  {
    var s := EscapeUnit(u) + t;
    match u
    case Char(c) =>
      if c in {'\\', '"', '\n', '\r', '\t', '\0'} {
        assert |EscapeChar(c)| == 2 && EscapeChar(c)[0] == '\\';
        assert s[2..] == t;
      } else {
        assert s[0] == c && s[1..] == t;
      }
    case Raw(b) =>
      HexRoundTrip(b / 16);
      HexRoundTrip(b % 16);
      assert s[2] == HexDigit(b / 16) && s[3] == HexDigit(b % 16);
      assert s[4..] == t;
  }

  lemma {:induction false} UnescapeEscapeUnits(us: seq<Unit>)
    ensures Unescape(EscapeUnits(us)) == Some(us)
  {
    if |us| == 0 {
    } else {
      UnescapeUnit(us[0], EscapeUnits(us[1..]));
      UnescapeEscapeUnits(us[1..]);
      assert [us[0]] + us[1..] == us;
    }
  }

  /** A message `prefix + {:?}` names its subject exactly: it can be read back. */
  lemma {:induction false} SubjectOfMessage(prefix: string, us: seq<Unit>)
    ensures Subject(prefix, prefix + Quoted(us)) == Some(us)
  {
    var m := prefix + Quoted(us);
    assert m[|prefix|..] == Quoted(us);
    assert Quoted(us)[1..|Quoted(us)| - 1] == EscapeUnits(us);
    UnescapeEscapeUnits(us);
  }
}
