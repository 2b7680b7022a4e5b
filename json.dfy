/**
 * How `serde_json::to_string` writes a Rust string: as a JSON string literal
 * in the sense of section 7 of RFC 8259, with serde_json's choice of escapes,
 * together with a decoder for such literals that serves as its specification.
 */
module Json {
  import opened Wrappers

  function HexDigit(d: nat): (c: char)
    requires d < 16
  {
    "0123456789abcdef"[d]
  }

  predicate IsHexDigit(c: char) {
    ('0' <= c <= '9') || ('a' <= c <= 'f') || ('A' <= c <= 'F')
  }

  function HexValue(c: char): (d: nat)
    requires IsHexDigit(c)
    ensures d < 16
  {
    if '0' <= c <= '9' then (c as int) - ('0' as int)
    else if 'a' <= c <= 'f' then (c as int) - ('a' as int) + 10
    else (c as int) - ('A' as int) + 10
  }

  /**
   * serde_json's escape for one character: the two-character escapes for the
   * quote, the backslash, backspace, tab, newline, form feed and carriage
   * return; `\u00XX` with lower-case hex digits for every other control
   * character below U+0020; everything else (DEL and non-ASCII included) as is.
   */
  function EscapeChar(c: char): string {
    if c == '"' then "\\\""
    else if c == '\\' then "\\\\"
    else if c == '\U{8}' then "\\b"
    else if c == '\t' then "\\t"
    else if c == '\n' then "\\n"
    else if c == '\U{C}' then "\\f"
    else if c == '\r' then "\\r"
    else if c < ' ' then "\\u00" + [HexDigit(c as int / 16), HexDigit(c as int % 16)]
    else [c]
  }

  function EscapeString(s: string): string {
    if s == [] then [] else EscapeChar(s[0]) + EscapeString(s[1..])
  }

  /** `serde_json::to_string` applied to a `&str`. */
  function Quote(s: string): (q: string)
    ensures |q| >= 2 && q[0] == '"' && q[|q| - 1] == '"'
  {
    "\"" + EscapeString(s) + "\""
  }

  function Cons(c: char, rest: Option<string>): Option<string> {
    match rest
    case None => None
    case Some(r) => Some([c] + r)
  }

  /**
   * The characters a JSON string literal's body stands for (section 7 of
   * RFC 8259), or nothing when the body is not well formed: an unescaped
   * quote or control character, an unknown escape, or a `\u` escape that is
   * not four hex digits naming a non-surrogate code point.
   */
  function Unescape(s: string): Option<string>
    decreases |s|
  {
    if s == [] then Some([])
    else if s[0] == '"' || s[0] < ' ' then None
    else if s[0] != '\\' then Cons(s[0], Unescape(s[1..]))
    else if |s| < 2 then None
    else if s[1] == '"' then Cons('"', Unescape(s[2..]))
    else if s[1] == '\\' then Cons('\\', Unescape(s[2..]))
    else if s[1] == '/' then Cons('/', Unescape(s[2..]))
    else if s[1] == 'b' then Cons('\U{8}', Unescape(s[2..]))
    else if s[1] == 'f' then Cons('\U{C}', Unescape(s[2..]))
    else if s[1] == 'n' then Cons('\n', Unescape(s[2..]))
    else if s[1] == 'r' then Cons('\r', Unescape(s[2..]))
    else if s[1] == 't' then Cons('\t', Unescape(s[2..]))
    else if s[1] == 'u' && |s| >= 6
         && IsHexDigit(s[2]) && IsHexDigit(s[3]) && IsHexDigit(s[4]) && IsHexDigit(s[5]) then
      var v := ((HexValue(s[2]) * 16 + HexValue(s[3])) * 16 + HexValue(s[4])) * 16 + HexValue(s[5]);
      if 0xD800 <= v < 0xE000 then None else Cons(v as char, Unescape(s[6..]))
    else None
  }

  /** The string a JSON string literal denotes, if `q` is one. */
  function Unquote(q: string): Option<string> {
    if |q| >= 2 && q[0] == '"' && q[|q| - 1] == '"' then Unescape(q[1..|q| - 1]) else None
  }

  lemma UnescapeChar(c: char, rest: string)
    ensures Unescape(EscapeChar(c) + rest) == Cons(c, Unescape(rest))
  {
    if c == '"' || c == '\\' || c == '\U{8}' || c == '\t' || c == '\n' || c == '\U{C}' || c == '\r' {
      UnescapeShort(c, rest);
    } else if c < ' ' {
      UnescapeControl(c, rest);
    } else {
      var e := EscapeChar(c) + rest;
      assert e[0] == c && e[1..] == rest;
    }
  }

  lemma UnescapeShort(c: char, rest: string)
    requires c == '"' || c == '\\' || c == '\U{8}' || c == '\t' || c == '\n' || c == '\U{C}' || c == '\r'
    ensures Unescape(EscapeChar(c) + rest) == Cons(c, Unescape(rest))
  {
    var e := EscapeChar(c) + rest;
    assert e[0] == '\\' && e[2..] == rest;
  }

  lemma UnescapeControl(c: char, rest: string)
    requires c < ' '
    requires !(c == '\U{8}' || c == '\t' || c == '\n' || c == '\U{C}' || c == '\r')
    ensures Unescape(EscapeChar(c) + rest) == Cons(c, Unescape(rest))
  {
    var e := EscapeChar(c) + rest;
    var hi, lo := c as int / 16, c as int % 16;
    assert e[..6] == ['\\', 'u', '0', '0', HexDigit(hi), HexDigit(lo)];
    assert HexValue(HexDigit(hi)) == hi;
    assert HexValue(HexDigit(lo)) == lo;
    assert e[6..] == rest;
  }

  /** Decoding what serde_json wrote gives the original string back. */
  lemma {:induction false} UnescapeEscape(s: string)
    ensures Unescape(EscapeString(s)) == Some(s)
  {
    if s != [] {
      UnescapeChar(s[0], EscapeString(s[1..]));
      UnescapeEscape(s[1..]);
      assert [s[0]] + s[1..] == s;
    }
  }

  /** `to_string` of a string is a JSON string literal that denotes exactly that string. */
  lemma QuoteRoundTrip(s: string)
    ensures Unquote(Quote(s)) == Some(s)
  {
    var q := Quote(s);
    assert q[1..|q| - 1] == EscapeString(s);
    UnescapeEscape(s);
  }
}
