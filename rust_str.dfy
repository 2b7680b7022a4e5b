/**
 * The parts of Rust's `str` and integer formatting that the program relies on:
 * `trim`, `split_once`, `split`, `replace` and the `Display` of an unsigned integer.
 * Strings are sequences of Unicode scalar values, as Rust's `char`s are.
 */
module RustStr {
  import opened Wrappers

  /** The Unicode `White_Space` property, which `char::is_whitespace` (and so `str::trim`) tests. */
  predicate IsWhitespace(c: char) {
    || ('\U{9}' <= c <= '\U{D}')
    || c == ' '
    || c == '\U{85}'
    || c == '\U{A0}'
    || c == '\U{1680}'
    || ('\U{2000}' <= c <= '\U{200A}')
    || c == '\U{2028}'
    || c == '\U{2029}'
    || c == '\U{202F}'
    || c == '\U{205F}'
    || c == '\U{3000}'
  }

  /** True of a string whose `trim()` is empty. */
  predicate AllWhitespace(s: string) {
    forall k :: 0 <= k < |s| ==> IsWhitespace(s[k])
  }

  /** `str::trim_start`: what is dropped is all whitespace, and what is left does not start with it. */
  function TrimStart(s: string): (r: string)
    ensures |r| <= |s| && r == s[|s| - |r|..]
    ensures AllWhitespace(s[..|s| - |r|])
    ensures r == [] || !IsWhitespace(r[0])
  {
    if s != [] && IsWhitespace(s[0]) then TrimStart(s[1..]) else s
  }

  /** `str::trim_end`: what is dropped is all whitespace, and what is left does not end with it. */
  function TrimEnd(s: string): (r: string)
    ensures |r| <= |s| && r == s[..|r|]
    ensures AllWhitespace(s[|r|..])
    ensures r == [] || !IsWhitespace(r[|r| - 1])
  {
    if s != [] && IsWhitespace(s[|s| - 1]) then TrimEnd(s[..|s| - 1]) else s
  }

  /** `r` is `s` with `lead` whitespace characters dropped in front and only whitespace dropped behind. */
  predicate TrimmedFrom(s: string, lead: int, r: string) {
    && 0 <= lead
    && lead + |r| <= |s|
    && s[lead..lead + |r|] == r
    && AllWhitespace(s[..lead])
    && AllWhitespace(s[lead + |r|..])
  }

  /**
   * `str::trim`: the longest infix of `s` that neither starts nor ends with
   * whitespace, found by dropping whitespace from both ends.
   */
  function Trim(s: string): (r: string)
    ensures TrimmedFrom(s, |s| - |TrimStart(s)|, r)
    ensures r == [] || (!IsWhitespace(r[0]) && !IsWhitespace(r[|r| - 1]))
    ensures r == [] <==> AllWhitespace(s)
  {
    var t := TrimStart(s);
    var r := TrimEnd(t);
    TrimParts(s, t, r);
    r
  }

  /** A string with no whitespace at either end is its own trim. */
  lemma TrimFixed(s: string)
    requires s != [] && !IsWhitespace(s[0]) && !IsWhitespace(s[|s| - 1])
    ensures Trim(s) == s
  {
    var lead := |s| - |TrimStart(s)|;
    WhitespacePrefix(s, lead);
    WhitespaceSuffix(s, lead + |Trim(s)|);
  }

  lemma WhitespacePrefix(s: string, n: nat)
    requires n <= |s| && AllWhitespace(s[..n])
    ensures n == 0 || IsWhitespace(s[0])
  {
    if n > 0 {
      assert s[..n][0] == s[0];
    }
  }

  lemma WhitespaceSuffix(s: string, n: nat)
    requires n <= |s| && AllWhitespace(s[n..])
    ensures n == |s| || IsWhitespace(s[|s| - 1])
  {
    if n < |s| {
      assert s[n..][|s| - 1 - n] == s[|s| - 1];
    }
  }

  lemma TrimParts(s: string, t: string, r: string)
    requires |t| <= |s| && t == s[|s| - |t|..] && AllWhitespace(s[..|s| - |t|])
    requires t == [] || !IsWhitespace(t[0])
    requires |r| <= |t| && r == t[..|r|] && AllWhitespace(t[|r|..])
    requires r == [] || !IsWhitespace(r[|r| - 1])
    ensures TrimmedFrom(s, |s| - |t|, r)
    ensures r == [] || (!IsWhitespace(r[0]) && !IsWhitespace(r[|r| - 1]))
    ensures r == [] <==> AllWhitespace(s)
  {
    var lead := |s| - |t|;
    assert r == s[lead..lead + |r|];
    assert s[lead + |r|..] == t[|r|..];
    if r == [] {
      assert t == [];
      assert s[..lead] == s;
    } else {
      assert r[0] == t[0];
    }
  }

  /** The index of the first `c` in `s`, if there is one. */
  function FindChar(s: string, c: char): (r: Option<nat>)
    ensures r.None? <==> c !in s
    ensures r.Some? ==> r.value < |s| && s[r.value] == c && c !in s[..r.value]
  {
    if s == [] then None
    else if s[0] == c then Some(0)
    else
      match FindChar(s[1..], c)
      case None => assert s == [s[0]] + s[1..]; None
      case Some(i) => assert s[..i + 1] == [s[0]] + s[1..][..i]; Some(i + 1)
  }

  /**
   * `str::split_once` with a character pattern: the text before the first
   * `sep` and the text after it, or nothing when `sep` does not occur.
   */
  function SplitOnce(s: string, sep: char): (r: Option<(string, string)>)
    ensures r.None? <==> sep !in s
    ensures r.Some? ==> s == r.value.0 + [sep] + r.value.1 && sep !in r.value.0
  {
    match FindChar(s, sep)
    case None => None
    case Some(i) =>
      assert s == s[..i] + [sep] + s[i + 1..];
      Some((s[..i], s[i + 1..]))
  }

  /** The pieces joined back together with `sep` between each two of them. */
  function Join(pieces: seq<string>, sep: char): string
    requires |pieces| >= 1
  {
    if |pieces| == 1 then pieces[0] else pieces[0] + [sep] + Join(pieces[1..], sep)
  }

  /**
   * `str::split` with a character pattern: the maximal `sep`-free pieces,
   * empty ones included, so that joining them with `sep` gives `s` back.
   */
  function Split(s: string, sep: char): (pieces: seq<string>)
    ensures |pieces| >= 1
    ensures Join(pieces, sep) == s
    ensures forall k :: 0 <= k < |pieces| ==> sep !in pieces[k]
    decreases |s|
  {
    match SplitOnce(s, sep)
    case None => [s]
    case Some((head, rest)) =>
      var tail := Split(rest, sep);
      assert ([head] + tail)[1..] == tail;
      [head] + tail
  }

  /** Splitting text built by `Join` from `sep`-free pieces gives those pieces back. */
  lemma {:induction false} SplitJoin(pieces: seq<string>, sep: char)
    requires |pieces| >= 1
    requires forall k :: 0 <= k < |pieces| ==> sep !in pieces[k]
    ensures Split(Join(pieces, sep), sep) == pieces
  {
    var s := Join(pieces, sep);
    if |pieces| == 1 {
      assert SplitOnce(s, sep).None?;
    } else {
      var rest := Join(pieces[1..], sep);
      assert s == pieces[0] + [sep] + rest;
      var once := SplitOnce(s, sep);
      assert once.Some?;
      SplitOnceAt(pieces[0], rest, sep);
      SplitJoin(pieces[1..], sep);
    }
  }

  /** `split_once` stops at the first separator. */
  lemma SplitOnceAt(head: string, rest: string, sep: char)
    requires sep !in head
    ensures SplitOnce(head + [sep] + rest, sep) == Some((head, rest))
  {
    var s := head + [sep] + rest;
    var r := SplitOnce(s, sep);
    var (h, t) := r.value;
    assert s[|head|] == sep;
    assert forall k :: 0 <= k < |head| ==> s[k] == head[k];
    assert |h| == |head|;
    assert h == head;
    assert t == s[|head| + 1..] == rest;
  }

  /**
   * `str::replace`: every non-overlapping occurrence of `pat`, found from
   * left to right, replaced by `rep`. (Rust's behaviour for an empty pattern
   * is not part of this model.)
   */
  function ReplaceAll(s: string, pat: string, rep: string): string
    requires pat != []
    decreases |s|
  {
    if |pat| <= |s| && s[..|pat|] == pat then rep + ReplaceAll(s[|pat|..], pat, rep)
    else if s == [] then []
    else [s[0]] + ReplaceAll(s[1..], pat, rep)
  }

  /** Text with no occurrence of the pattern's first character passes through `replace` unchanged, and stays in front. */
  lemma {:induction false} ReplaceAllSkips(a: string, b: string, pat: string, rep: string)
    requires pat != [] && pat[0] !in a
    ensures ReplaceAll(a + b, pat, rep) == a + ReplaceAll(b, pat, rep)
  {
    if a != [] {
      var s := a + b;
      assert s[0] == a[0] != pat[0];
      assert s[1..] == a[1..] + b;
      ReplaceAllSkips(a[1..], b, pat, rep);
    } else {
      assert a + b == b;
    }
  }

  /**
   * A template holding the pattern exactly once, with no occurrence of its
   * first character elsewhere, has that one place replaced and nothing else changed.
   */
  lemma ReplaceOnce(head: string, pat: string, tail: string, rep: string)
    requires pat != [] && pat[0] !in head && pat[0] !in tail
    ensures ReplaceAll(head + pat + tail, pat, rep) == head + rep + tail
  {
    ReplaceAllSkips(head, pat + tail, pat, rep);
    assert head + pat + tail == head + (pat + tail);
    assert (pat + tail)[..|pat|] == pat && (pat + tail)[|pat|..] == tail;
    ReplaceAllSkips(tail, [], pat, rep);
    assert tail + [] == tail;
  }

  function DigitChar(d: nat): (c: char)
    requires d < 10
  {
    "0123456789"[d]
  }

  predicate IsDigit(c: char) {
    '0' <= c <= '9'
  }

  function DigitValue(c: char): (d: nat)
    requires IsDigit(c)
    ensures d < 10
  {
    (c as int) - ('0' as int)
  }

  /** The `Display` of an unsigned integer: its decimal digits, with no sign and no leading zero. */
  function Decimal(n: nat): (s: string)
    ensures |s| >= 1
    ensures forall k :: 0 <= k < |s| ==> IsDigit(s[k])
    ensures s[0] == '0' ==> n == 0
  {
    if n < 10 then [DigitChar(n)] else Decimal(n / 10) + [DigitChar(n % 10)]
  }

  /** The value of a string of decimal digits. */
  function ParseDecimal(s: string): nat
    requires forall k :: 0 <= k < |s| ==> IsDigit(s[k])
  {
    if s == [] then 0 else 10 * ParseDecimal(s[..|s| - 1]) + DigitValue(s[|s| - 1])
  }

  /** Reading the digits back gives the number that was formatted. */
  lemma {:induction false} DecimalRoundTrip(n: nat)
    ensures ParseDecimal(Decimal(n)) == n
  {
    var s := Decimal(n);
    if n < 10 {
      assert s[..0] == [];
    } else {
      assert s[..|s| - 1] == Decimal(n / 10);
      DecimalRoundTrip(n / 10);
    }
  }
}
