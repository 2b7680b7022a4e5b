/**
 * The account tokens. They come from the `RF_GITHUB_TOKENS` variable, as
 * `user:token` entries separated by `;`, or, when that variable is unset,
 * from the lines of the `tokens` file in the configuration directory, where
 * blank lines, lines without `:` and `#` comments are skipped. Reading the
 * environment and the file is outside the model: the variable's value and
 * the file's lines are parameters.
 */
module Config {
  import opened Wrappers
  import opened RustStr

  /** One account: the login and its personal access token. */
  datatype AccessToken = AccessToken(user: string, token: string)

  /** A failed open or read; the model keeps only its message. */
  datatype IoError = IoError(message: string)

  /** The text that stands for `t` in the file and in the variable. */
  function Entry(t: AccessToken): string {
    t.user + [':'] + t.token
  }

  /** A line that starts with `#` is a comment. */
  predicate IsComment(s: string) {
    |s| > 0 && s[0] == '#'
  }

  /**
   * What a token read from a file line looks like: the user has no `:`, does
   * not start a comment and has no leading whitespace; the token has no
   * trailing whitespace.
   */
  predicate Tidy(t: AccessToken) {
    && ':' !in t.user
    && !IsComment(t.user)
    && (t.user == [] || !IsWhitespace(t.user[0]))
    && (t.token == [] || !IsWhitespace(t.token[|t.token| - 1]))
  }

  /**
   * `split_parts`: the user before the first `:` and the token after it,
   * which may hold further `:` characters; nothing when there is no `:`.
   */
  function SplitParts(item: string): (r: Option<AccessToken>)
    ensures r.None? <==> ':' !in item
    ensures r.Some? ==> Entry(r.value) == item && ':' !in r.value.user
  {
    match SplitOnce(item, ':')
    case None => None
    case Some((user, token)) => Some(AccessToken(user, token))
  }

  /** `split_parts` reads back every entry whose user has no `:`. */
  lemma SplitPartsEntry(t: AccessToken)
    requires ':' !in t.user
    ensures SplitParts(Entry(t)) == Some(t)
  {
    SplitOnceAt(t.user, t.token, ':');
  }

  /**
   * `parse_line`: a read error is passed on; otherwise the line is trimmed,
   * a comment gives nothing, and the rest goes to `split_parts`.
   */
  function ParseLine(line: Result<string, IoError>): (r: Result<Option<AccessToken>, IoError>)
    ensures line.Failure? ==> r == Failure(line.error)
    ensures line.Success? ==> r.Success?
  {
    match line
    case Failure(e) => Failure(e)
    case Success(text) =>
      var trimmed := Trim(text);
      if IsComment(trimmed) then Success(None) else Success(SplitParts(trimmed))
  }

  /**
   * A line read without error gives nothing exactly when, once trimmed, it is
   * a comment or has no `:`; otherwise it gives a tidy token whose entry is
   * the trimmed line.
   */
  lemma ParseLineReads(text: string)
    ensures ParseLine(Success(text)) == Success(None) <==>
      IsComment(Trim(text)) || ':' !in Trim(text)
    ensures ParseLine(Success(text)).value.Some? ==>
      Entry(ParseLine(Success(text)).value.value) == Trim(text) && Tidy(ParseLine(Success(text)).value.value)
  {
    var trimmed := Trim(text);
    var r := ParseLine(Success(text)).value;
    if r.Some? {
      var t := r.value;
      assert trimmed == t.user + [':'] + t.token;
      assert t.user == [] || t.user[0] == trimmed[0];
      assert t.token == [] || t.token[|t.token| - 1] == trimmed[|trimmed| - 1];
    }
  }

  /** A line written from a tidy token is read back as that token. */
  lemma ParseLineEntry(t: AccessToken)
    requires Tidy(t)
    ensures ParseLine(Success(Entry(t))) == Success(Some(t))
  {
    var s := Entry(t);
    assert s[0] == if t.user == [] then ':' else t.user[0];
    assert s[|s| - 1] == if t.token == [] then ':' else t.token[|t.token| - 1];
    TrimFixed(s);
    SplitPartsEntry(t);
  }

  /** `filter_map(split_parts)` over the pieces of the variable. */
  function KeepEntries(pieces: seq<string>): (r: seq<AccessToken>)
    ensures |r| <= |pieces|
    ensures forall k :: 0 <= k < |r| ==> Entry(r[k]) in pieces && ':' !in r[k].user
  {
    if pieces == [] then []
    else
      match SplitParts(pieces[0])
      case None => KeepEntries(pieces[1..])
      case Some(t) => [t] + KeepEntries(pieces[1..])
  }

  /** One piece gives its one token when it has a `:`, and no token otherwise. */
  lemma KeepEntriesPiece(piece: string)
    ensures KeepEntries([piece]) == match SplitParts(piece)
      case None => []
      case Some(t) => [t]
  {
    assert [piece][1..] == [];
  }

  /** The entries of consecutive pieces come out consecutively, in order. */
  lemma {:induction false} KeepEntriesAppend(a: seq<string>, b: seq<string>)
    ensures KeepEntries(a + b) == KeepEntries(a) + KeepEntries(b)
  {
    if a != [] {
      assert (a + b)[1..] == a[1..] + b;
      KeepEntriesAppend(a[1..], b);
    } else {
      assert a + b == b;
    }
  }

  /** The tokens of the `RF_GITHUB_TOKENS` value: its `;`-pieces that hold a `:`, untrimmed. */
  function TokensFromVar(value: string): (r: seq<AccessToken>)
    ensures forall k :: 0 <= k < |r| ==> ';' !in Entry(r[k]) && ':' !in r[k].user
  {
    var pieces := Split(value, ';');
    KeepEntries(pieces)
  }

  /** The entries of `ts`, in order. */
  function Entries(ts: seq<AccessToken>): (r: seq<string>)
    ensures |r| == |ts|
  {
    seq(|ts|, k requires 0 <= k < |ts| => Entry(ts[k]))
  }

  /** A token the variable can carry: no `:` in the user, no `;` anywhere. */
  predicate VarSafe(t: AccessToken) {
    ':' !in t.user && ';' !in t.user && ';' !in t.token
  }

  /** The variable value that lists `ts`. */
  function VarValue(ts: seq<AccessToken>): string {
    if ts == [] then [] else Join(Entries(ts), ';')
  }

  lemma {:induction false} KeepEntriesOfEntries(ts: seq<AccessToken>)
    requires forall k :: 0 <= k < |ts| ==> ':' !in ts[k].user
    ensures KeepEntries(Entries(ts)) == ts
  {
    if ts != [] {
      SplitPartsEntry(ts[0]);
      assert Entries(ts)[0] == Entry(ts[0]);
      assert Entries(ts)[1..] == Entries(ts[1..]);
      KeepEntriesOfEntries(ts[1..]);
    }
  }

  /** Writing tokens into the variable and reading it back gives the same tokens in the same order. */
  lemma VarRoundTrip(ts: seq<AccessToken>)
    requires forall k :: 0 <= k < |ts| ==> VarSafe(ts[k])
    ensures TokensFromVar(VarValue(ts)) == ts
  {
    if ts == [] {
      assert SplitOnce([], ';').None?;
      assert Split([], ';') == [[]];
      assert SplitParts([]).None?;
    } else {
      var pieces := Entries(ts);
      forall k | 0 <= k < |pieces|
        ensures ';' !in pieces[k]
      {
        assert pieces[k] == ts[k].user + [':'] + ts[k].token;
      }
      SplitJoin(pieces, ';');
      KeepEntriesOfEntries(ts);
    }
  }

  /** Every line of the file was read without error. */
  predicate AllRead(lines: seq<Result<string, IoError>>) {
    forall k :: 0 <= k < |lines| ==> lines[k].Success?
  }

  /** Line `k` is the first line whose read failed, with error `e`. */
  predicate FailsFirstAt(lines: seq<Result<string, IoError>>, k: nat, e: IoError) {
    && k < |lines|
    && lines[k] == Failure(e)
    && forall j :: 0 <= j < k ==> lines[j].Success?
  }

  lemma FailsFirstAtShift(lines: seq<Result<string, IoError>>, k: nat, e: IoError)
    requires |lines| >= 1 && lines[0].Success? && FailsFirstAt(lines[1..], k, e)
    ensures FailsFirstAt(lines, k + 1, e)
  {
    forall j | 1 <= j < k + 1
      ensures lines[j].Success?
    {
      assert lines[j] == lines[1..][j - 1];
    }
  }

  lemma AllReadShift(lines: seq<Result<string, IoError>>)
    requires |lines| >= 1 && lines[0].Success?
    ensures AllRead(lines) <==> AllRead(lines[1..])
  {
    if AllRead(lines[1..]) {
      forall k | 1 <= k < |lines|
        ensures lines[k].Success?
      {
        assert lines[k] == lines[1..][k - 1];
      }
    }
  }

  /** Two results combined as `collect` combines them: the first error wins, else the tokens in order. */
  function Then(a: Result<seq<AccessToken>, IoError>, b: Result<seq<AccessToken>, IoError>): Result<seq<AccessToken>, IoError> {
    match a
    case Failure(e) => Failure(e)
    case Success(x) =>
      match b
      case Failure(e) => Failure(e)
      case Success(y) => Success(x + y)
  }

  lemma ThenAssoc(a: Result<seq<AccessToken>, IoError>, b: Result<seq<AccessToken>, IoError>, c: Result<seq<AccessToken>, IoError>)
    ensures Then(Then(a, b), c) == Then(a, Then(b, c))
  {
    if a.Success? && b.Success? && c.Success? {
      SeqAssoc(a.value, b.value, c.value);
    }
  }

  lemma ThenEmpty(b: Result<seq<AccessToken>, IoError>)
    ensures Then(Success([]), b) == b
  {
    if b.Success? {
      assert [] + b.value == b.value;
    }
  }

  lemma ThenCons(t: AccessToken, rest: seq<AccessToken>)
    ensures Then(Success([t]), Success(rest)) == Success([t] + rest)
  {
  }

  /** One line's contribution after the `filter_map`: its token, nothing, or its error. */
  function LineTokens(line: Result<string, IoError>): Result<seq<AccessToken>, IoError> {
    match ParseLine(line)
    case Failure(e) => Failure(e)
    case Success(None) => Success([])
    case Success(Some(t)) => Success([t])
  }

  /**
   * The file form's `map(parse_line).filter_map(..).collect()` into an
   * `io::Result<Vec<_>>`: the tokens of the lines in order, or the first
   * read error.
   */
  function CollectLines(lines: seq<Result<string, IoError>>): Result<seq<AccessToken>, IoError> {
    if lines == [] then Success([]) else Then(LineTokens(lines[0]), CollectLines(lines[1..]))
  }

  /** The file form fails exactly when some line fails, and then with the first line's error. */
  lemma {:induction false} CollectLinesFails(lines: seq<Result<string, IoError>>)
    ensures CollectLines(lines).Success? <==> AllRead(lines)
    ensures CollectLines(lines).Failure? ==> exists k :: FailsFirstAt(lines, k, CollectLines(lines).error)
  {
    if lines == [] {
    } else if lines[0].Failure? {
      assert FailsFirstAt(lines, 0, lines[0].error);
    } else {
      AllReadShift(lines);
      CollectLinesFails(lines[1..]);
      var rest := CollectLines(lines[1..]);
      if rest.Failure? {
        var k :| FailsFirstAt(lines[1..], k, rest.error);
        FailsFirstAtShift(lines, k, rest.error);
      }
    }
  }

  /** Collecting a file is collecting its two halves one after the other. */
  lemma {:induction false} CollectLinesAppend(a: seq<Result<string, IoError>>, b: seq<Result<string, IoError>>)
    ensures CollectLines(a + b) == Then(CollectLines(a), CollectLines(b))
  {
    if a == [] {
      assert a + b == b;
      ThenEmpty(CollectLines(b));
    } else {
      assert (a + b)[0] == a[0];
      assert (a + b)[1..] == a[1..] + b;
      CollectLinesAppend(a[1..], b);
      ThenAssoc(LineTokens(a[0]), CollectLines(a[1..]), CollectLines(b));
    }
  }

  /** The file that holds `ts`, one entry per line, every line read without error. */
  function FileLines(ts: seq<AccessToken>): (lines: seq<Result<string, IoError>>)
    ensures |lines| == |ts|
  {
    seq(|ts|, k requires 0 <= k < |ts| => Success(Entry(ts[k])))
  }

  lemma LineTokensEntry(t: AccessToken)
    requires Tidy(t)
    ensures LineTokens(Success(Entry(t))) == Success([t])
  {
    ParseLineEntry(t);
  }

  /** Lines that each give one token give those tokens, in order. */
  lemma {:induction false} CollectLinesTokens(lines: seq<Result<string, IoError>>, ts: seq<AccessToken>)
    requires |lines| == |ts|
    requires forall k :: 0 <= k < |lines| ==> LineTokens(lines[k]) == Success([ts[k]])
    ensures CollectLines(lines) == Success(ts)
  {
    if lines != [] {
      assert LineTokens(lines[0]) == Success([ts[0]]);
      CollectLinesTokens(lines[1..], ts[1..]);
      ThenCons(ts[0], ts[1..]);
      assert ts == [ts[0]] + ts[1..];
    }
  }

  /** A file written one tidy token per line is read back as those tokens in order. */
  lemma FileRoundTrip(ts: seq<AccessToken>)
    requires forall k :: 0 <= k < |ts| ==> Tidy(ts[k])
    ensures CollectLines(FileLines(ts)) == Success(ts)
  {
    var lines := FileLines(ts);
    forall k | 0 <= k < |lines|
      ensures LineTokens(lines[k]) == Success([ts[k]])
    {
      LineTokensEntry(ts[k]);
    }
    CollectLinesTokens(lines, ts);
  }

  /**
   * `tokens`: the variable, when it is set, is the only source and cannot
   * fail; otherwise the file, whose open error or first read error is the
   * result.
   */
  function Tokens(variable: Option<string>, file: Result<seq<Result<string, IoError>>, IoError>): (r: Result<seq<AccessToken>, IoError>)
    ensures variable.Some? ==> r.Success?
    ensures r.Failure? ==>
      variable.None? && (file.Failure? || exists k :: FailsFirstAt(file.value, k, r.error))
    ensures variable.None? && file.Success? ==> (r.Success? <==> AllRead(file.value))
  {
    match variable
    case Some(value) => Success(TokensFromVar(value))
    case None =>
      match file
      case Failure(e) => Failure(e)
      case Success(lines) => CollectLinesFails(lines); CollectLines(lines)
  }
}
