/** JavaScript single-quoted string literals, as far as the generated
    component code uses them: the value a literal denotes, and a quoting
    function whose output always denotes its input. */
module JsLiteral {
  import opened Wrappers

  /** The character an escape `\c` stands for, for the escapes this model
      reads: `\'`, `\\`, `\n` and `\r`. */
  function EscapedChar(c: char): Option<char>
  {
    if c == '\'' then Some('\'')
    else if c == '\\' then Some('\\')
    else if c == 'n' then Some('\n')
    else if c == 'r' then Some('\r')
    else None
  }

  /** The value of the characters between the quotes of a literal, or None
      when they do not form a literal: an unescaped `'` would end it early,
      a raw LF or CR is a syntax error, and a final lone `\` escapes the
      closing quote. */
  function DecodeBody(t: string): Option<string>
  {
    if t == [] then Some([])
    else if t[0] == '\'' || t[0] == '\n' || t[0] == '\r' then None
    else if t[0] == '\\' then
      if |t| == 1 then None
      else match (EscapedChar(t[1]), DecodeBody(t[2..]))
        case (Some(c), Some(rest)) => Some([c] + rest)
        case _ => None
    else match DecodeBody(t[1..])
      case Some(rest) => Some([t[0]] + rest)
      case None => None
  }

  /** The value of the single-quoted literal `s`, or None when `s` is not one. */
  function Decode(s: string): Option<string>
  {
    if |s| >= 2 && s[0] == '\'' && s[|s| - 1] == '\'' then DecodeBody(s[1..|s| - 1]) else None
  }

  /** The escape sequence for one character inside a literal. */
  function EscapeChar(c: char): string
  {
    if c == '\\' then "\\\\"
    else if c == '\'' then "\\'"
    else if c == '\n' then "\\n"
    else if c == '\r' then "\\r"
    else [c]
  }

  /** `t` with every character that cannot stand for itself escaped. */
  function Escape(t: string): string
  {
    if t == [] then "" else EscapeChar(t[0]) + Escape(t[1..])
  }

  /** `t` as a single-quoted literal. */
  function Quote(t: string): string
  {
    "'" + Escape(t) + "'"
  }

  /** One escaped character decodes back to itself. */
  lemma DecodeEscapeChar(c: char, r: string, v: string)
    requires DecodeBody(r) == Some(v)
    ensures DecodeBody(EscapeChar(c) + r) == Some([c] + v)
  {
    var u := EscapeChar(c) + r;
    if |EscapeChar(c)| == 2 {
      assert u[0] == '\\' && EscapedChar(u[1]) == Some(c);
      assert u[2..] == r;
    } else {
      assert u[0] == c && u[1..] == r;
    }
  }

  lemma {:induction false} DecodeEscape(t: string)
    ensures DecodeBody(Escape(t)) == Some(t)
  {
    if t != [] {
      DecodeEscape(t[1..]);
      DecodeEscapeChar(t[0], Escape(t[1..]), t[1..]);
      assert [t[0]] + t[1..] == t;
    }
  }

  /** Quoting is sound: the literal denotes exactly the quoted text. */
  lemma DecodeQuote(t: string)
    ensures Decode(Quote(t)) == Some(t)
  {
    DecodeEscape(t);
    assert Quote(t)[1..|Quote(t)| - 1] == Escape(t);
  }

  /** Reading a literal that starts a longer text: the characters up to the
      first unescaped `'` give the value, and the text after that quote is
      what follows the literal. None when the body is cut short or holds a
      raw line break or an unknown escape. */
  function ScanBody(s: string): (r: Option<(string, string)>)
    ensures r.Some? ==> |r.value.1| < |s|
  {
    if s == [] then None
    else if s[0] == '\'' then Some(([], s[1..]))
    else if s[0] == '\n' || s[0] == '\r' then None
    else if s[0] == '\\' then
      if |s| == 1 then None
      else match (EscapedChar(s[1]), ScanBody(s[2..]))
        case (Some(c), Some((v, rest))) => Some(([c] + v, rest))
        case _ => None
    else match ScanBody(s[1..])
      case Some((v, rest)) => Some(([s[0]] + v, rest))
      case None => None
  }

  /** The single-quoted literal at the start of `s`: its value and the text
      after it. */
  function ScanLiteral(s: string): (r: Option<(string, string)>)
    ensures r.Some? ==> |r.value.1| < |s|
  {
    if s != [] && s[0] == '\'' then ScanBody(s[1..]) else None
  }

  /** One escaped character in front of a scanned body is read back. */
  lemma ScanEscapeChar(c: char, tail: string, v: string, rest: string)
    requires ScanBody(tail) == Some((v, rest))
    ensures ScanBody(EscapeChar(c) + tail) == Some(([c] + v, rest))
  {
    var u := EscapeChar(c) + tail;
    if |EscapeChar(c)| == 2 {
      assert u[0] == '\\' && EscapedChar(u[1]) == Some(c);
      assert u[2..] == tail;
    } else {
      assert u[0] == c && u[1..] == tail;
    }
  }

  lemma {:induction false} ScanEscape(t: string, rest: string)
    ensures ScanBody(Escape(t) + "'" + rest) == Some((t, rest))
  {
    if t == [] {
      assert Escape(t) + "'" + rest == "'" + rest;
    } else {
      ScanEscape(t[1..], rest);
      var tail := Escape(t[1..]) + "'" + rest;
      assert Escape(t) + "'" + rest == EscapeChar(t[0]) + tail;
      ScanEscapeChar(t[0], tail, t[1..], rest);
      assert [t[0]] + t[1..] == t;
    }
  }

  /** A quoted text read at the start of a longer text gives back the text,
      and exactly what follows the literal. */
  lemma ScanQuote(t: string, rest: string)
    ensures ScanLiteral(Quote(t) + rest) == Some((t, rest))
  {
    ScanEscape(t, rest);
    assert (Quote(t) + rest)[1..] == Escape(t) + "'" + rest;
  }
}
