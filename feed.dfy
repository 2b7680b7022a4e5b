/**
 * The fixed text of an item body, and how many tags each piece opens or
 * closes (the number of `<` in it).
 */
module FeedTemplate {
  const HrefOpen: string := "<p><a href=\""
  const HrefClose: string := "\">"
  const NameClose: string := "</a> | "
  const StarsLabel: string := " stars| "
  const ForksLabel: string := " forks.</p>"
  const LanguagesOpen: string := "<p><small>| "
  const LanguageSep: string := " | "
  const LanguagesClose: string := "</small></p>\n"
  const QuoteOpen: string := "<blockquote>"
  const QuoteClose: string := "</blockquote>\n"
  const NotesOpen: string := "<hr>\n"

  /** The number of times `c` occurs in `s`. */
  function Count(c: char, s: string): nat {
    multiset(s)[c]
  }

  lemma HrefOpenTags() ensures Count('<', HrefOpen) == 2 {}
  lemma HrefCloseTags() ensures Count('<', HrefClose) == 0 {}
  lemma NameCloseTags() ensures Count('<', NameClose) == 1 {}
  lemma StarsLabelTags() ensures Count('<', StarsLabel) == 0 {}
  lemma ForksLabelTags() ensures Count('<', ForksLabel) == 1 {}
  lemma LanguagesOpenTags() ensures Count('<', LanguagesOpen) == 2 {}
  lemma LanguagesCloseTags() ensures Count('<', LanguagesClose) == 2 {}
  lemma QuoteOpenTags() ensures Count('<', QuoteOpen) == 1 {}
  lemma QuoteCloseTags() ensures Count('<', QuoteClose) == 1 {}
  lemma NotesOpenTags() ensures Count('<', NotesOpen) == 1 {}
}

/**
 * The text of each feed item: the HTML escaping of repository fields, the
 * item title, and the item body that `build_channel` grows piece by piece.
 * The RSS channel around the items belongs to a library and is not modelled.
 */
module Feed {
  import opened Wrappers
  import opened RustStr
  import opened Graphql
  import opened FeedTemplate

  /** The four characters `Escaped` replaces by an entity. */
  predicate IsMarkup(c: char) {
    c == '"' || c == '&' || c == '<' || c == '>'
  }

  /** Text that can neither open or close a tag nor end a quoted attribute value. */
  predicate Inert(s: string) {
    forall k :: 0 <= k < |s| ==> s[k] != '<' && s[k] != '>' && s[k] != '"'
  }

  lemma InertAppend(a: string, b: string)
    requires Inert(a) && Inert(b)
    ensures Inert(a + b)
  {
    forall k | 0 <= k < |a + b| ensures (a + b)[k] != '<' && (a + b)[k] != '>' && (a + b)[k] != '"' {
      if k >= |a| {
        assert (a + b)[k] == b[k - |a|];
      }
    }
  }

  /** The text `Escaped` writes for one character: an entity for markup, the character itself otherwise. */
  function EscapeChar(c: char): (r: string)
    ensures !IsMarkup(c) ==> r == [c]
    ensures IsMarkup(c) ==> |r| > 1 && r[0] == '&'
    ensures Inert(r)
  {
    if c == '"' then "&quot;"
    else if c == '&' then "&amp;"
    else if c == '<' then "&lt;"
    else if c == '>' then "&gt;"
    else [c]
  }

  /** `Escaped`: every character of `s` in turn through `EscapeChar`. */
  function Escape(s: string): string {
    if s == [] then [] else Escape(s[..|s| - 1]) + EscapeChar(s[|s| - 1])
  }

  /** Escaped text is inert, whatever went in. */
  lemma {:induction false} EscapeInert(s: string)
    ensures Inert(Escape(s))
  {
    if s != [] {
      EscapeInert(s[..|s| - 1]);
      InertAppend(Escape(s[..|s| - 1]), EscapeChar(s[|s| - 1]));
    }
  }

  lemma EscapeSnoc(s: string, c: char)
    ensures Escape(s + [c]) == Escape(s) + EscapeChar(c)
  {
    assert (s + [c])[..|s|] == s;
  }

  /** Escaping works character by character, so it distributes over concatenation. */
  lemma {:induction false} EscapeAppend(a: string, b: string)
    ensures Escape(a + b) == Escape(a) + Escape(b)
  {
    if b == [] {
      assert a + b == a;
      assert Escape(a) + Escape(b) == Escape(a) + [];
    } else {
      var init, c := b[..|b| - 1], b[|b| - 1];
      assert b == init + [c];
      assert a + b == (a + init) + [c];
      EscapeSnoc(a + init, c);
      EscapeSnoc(init, c);
      EscapeAppend(a, init);
      SeqAssoc(Escape(a), Escape(init), EscapeChar(c));
    }
  }

  /** Escaping leaves text without markup as it is, and changes any text with markup. */
  lemma {:induction false} EscapeIdentity(s: string)
    ensures Escape(s) == s <==> (forall k :: 0 <= k < |s| ==> !IsMarkup(s[k]))
    ensures |Escape(s)| >= |s|
  {
    if s != [] {
      var init, c := s[..|s| - 1], s[|s| - 1];
      EscapeIdentity(init);
      if Escape(s) == s {
        assert |Escape(init)| == |init|;
        assert Escape(s)[..|init|] == Escape(init);
        assert s[..|init|] == init;
        forall k | 0 <= k < |s| ensures !IsMarkup(s[k]) {
          if k < |init| {
            assert s[k] == init[k];
          }
        }
      }
      if forall k :: 0 <= k < |s| ==> !IsMarkup(s[k]) {
        assert forall k :: 0 <= k < |init| ==> init[k] == s[k];
        assert s == init + [c];
      }
    }
  }

  /** The character an entity at the front of `s` stands for, and the entity's length. */
  function EntityAt(s: string): Option<(char, nat)>
  {
    if |s| >= 6 && s[0] == '&' && s[1] == 'q' && s[2] == 'u' && s[3] == 'o' && s[4] == 't' && s[5] == ';' then Some(('"', 6))
    else if |s| >= 5 && s[0] == '&' && s[1] == 'a' && s[2] == 'm' && s[3] == 'p' && s[4] == ';' then Some(('&', 5))
    else if |s| >= 4 && s[0] == '&' && s[1] == 'l' && s[2] == 't' && s[3] == ';' then Some(('<', 4))
    else if |s| >= 4 && s[0] == '&' && s[1] == 'g' && s[2] == 't' && s[3] == ';' then Some(('>', 4))
    else None
  }

  /** Reading entities back: each of the four entities becomes its character again. */
  function Unescape(s: string): string
    decreases |s|
  {
    if s == [] then []
    else
      match EntityAt(s)
      case Some((c, n)) => [c] + Unescape(s[n..])
      case None => [s[0]] + Unescape(s[1..])
  }

  lemma UnescapeChar(c: char, x: string)
    ensures Unescape(EscapeChar(c) + x) == [c] + Unescape(x)
  {
    var e := EscapeChar(c);
    var s := e + x;
    assert s[|e|..] == x;
    assert forall k :: 0 <= k < |e| ==> s[k] == e[k];
  }

  /** Nothing is lost by escaping: the original text can always be read back. */
  lemma {:induction false} UnescapeEscape(s: string)
    ensures Unescape(Escape(s)) == s
    decreases |s|
  {
    if s != [] {
      var c, t := s[0], s[1..];
      assert s == [c] + t;
      EscapeAppend([c], t);
      assert [c][..0] == [];
      assert Escape([c]) == EscapeChar(c);
      UnescapeChar(c, Escape(t));
      UnescapeEscape(t);
    }
  }

  lemma EscapePrefix(s: string, k: nat)
    requires k < |s|
    ensures Escape(s[..k + 1]) == Escape(s[..k]) + EscapeChar(s[k])
  {
    assert s[..k + 1][..k] == s[..k];
  }

  /** A one-character text escapes to that character's escape. */
  lemma EscapeOne(c: char)
    ensures Escape([c]) == EscapeChar(c)
  {
    assert [c][..0] == [];
  }

  /** A four-character text escapes to its characters' escapes, in order. */
  lemma EscapeFour(t: string)
    requires |t| == 4
    ensures Escape(t) == EscapeChar(t[0]) + EscapeChar(t[1]) + EscapeChar(t[2]) + EscapeChar(t[3])
  {
    var front, back := t[..2], t[2..];
    assert t == front + back;
    assert front == [t[0]] + [t[1]] && back == [t[2]] + [t[3]];
    EscapeAppend(front, back);
    EscapeAppend([t[0]], [t[1]]);
    EscapeAppend([t[2]], [t[3]]);
    EscapeOne(t[0]);
    EscapeOne(t[1]);
    EscapeOne(t[2]);
    EscapeOne(t[3]);
    SeqAssoc(EscapeChar(t[0]) + EscapeChar(t[1]), EscapeChar(t[2]), EscapeChar(t[3]));
  }

  /**
   * The pinned example: markup is escaped, other characters pass, an
   * existing entity is escaped again. The expected text is written one
   * input character at a time.
   */
  lemma EscapeExample()
    ensures Escape("<a>✓&lt;") == "&lt;a&gt;✓&amp;lt;"
  {
    var head, tail := "<a>✓", "&lt;";
    EscapeFour(head);
    EscapeFour(tail);
    assert Escape(head) == "&lt;a&gt;✓";
    assert Escape(tail) == "&amp;lt;";
    EscapeAppend(head, tail);
    assert head + tail == "<a>✓&lt;";
    assert "&lt;a&gt;✓" + "&amp;lt;" == "&lt;a&gt;✓&amp;lt;";
  }

  /** Escaping is not idempotent: the `&` of an entity is escaped once more. */
  lemma EscapeNotIdempotent()
    ensures Escape("&") == "&amp;" && Escape(Escape("&")) == "&amp;amp;"
    ensures Escape(Escape("&")) != Escape("&")
  {
    assert "&" == ['&'];
    EscapeOne('&');
    assert "&amp;" == "&" + "amp;";
    EscapeAppend("&", "amp;");
    EscapeIdentity("amp;");
    assert "&amp;" + "amp;" == "&amp;amp;";
  }

  /**
   * `Escaped::fmt` writing into the item body: the characters of `s` are
   * appended one at a time, each as its entity or as itself.
   */
  method PushEscaped(buf: string, s: string) returns (out: string)
    ensures out == buf + Escape(s)
  {
    out := buf;
    for i := 0 to |s|
      invariant out == buf + Escape(s[..i])
    {
      var c := s[i];
      assert s[..i + 1] == s[..i] + [c];
      EscapeSnoc(s[..i], c);
      SeqAssoc(buf, Escape(s[..i]), EscapeChar(c));
      out := out + EscapeChar(c);
    }
    assert s[..|s|] == s;
  }

  /** The item title: the repository's `owner/name` in brackets, then the release's display name, unescaped. */
  function Title(repo: Repository): string
    requires repo.latestRelease.Some?
  {
    "[" + repo.nameWithOwner + "] " + Name(repo.latestRelease.value)
  }

  /** The title splits back into the repository and the release name, since GitHub names hold no `]`. */
  lemma TitleParts(repo: Repository)
    requires repo.latestRelease.Some? && ']' !in repo.nameWithOwner
    ensures |Title(repo)| >= 1 && Title(repo)[0] == '['
    ensures SplitOnce(Title(repo)[1..], ']') == Some((repo.nameWithOwner, " " + Name(repo.latestRelease.value)))
  {
    BracketedParts(repo.nameWithOwner, Name(repo.latestRelease.value));
  }

  /** `[a] b` splits back into `a` and ` b` at its first `]` when `a` holds none. */
  lemma BracketedParts(a: string, b: string)
    requires ']' !in a
    ensures |"[" + a + "] " + b| >= 1 && ("[" + a + "] " + b)[0] == '['
    ensures SplitOnce(("[" + a + "] " + b)[1..], ']') == Some((a, " " + b))
  {
    assert ("[" + a + "] " + b)[1..] == a + [']'] + (" " + b);
    SplitOnceAt(a, " " + b, ']');
  }

  /** The first paragraph: link to the repository, its name, stars and forks. */
  function Header(repo: Repository): string {
    HrefOpen + Escape(repo.url) + HrefClose + Escape(repo.nameWithOwner) + NameClose
      + Decimal(repo.stargazerCount) + StarsLabel + Decimal(repo.forkCount) + ForksLabel
  }

  /** Each language name escaped and followed by a separator. */
  function LanguageList(nodes: seq<Language>): string {
    if nodes == [] then []
    else LanguageList(nodes[..|nodes| - 1]) + Escape(nodes[|nodes| - 1].name) + LanguageSep
  }

  function LanguagesBlock(languages: Option<Languages>): string {
    match languages
    case None => []
    case Some(l) => LanguagesOpen + LanguageList(l.nodes) + LanguagesClose
  }

  function DescriptionBlock(description: Option<string>): string {
    match description
    case None => []
    case Some(d) => QuoteOpen + Escape(d) + QuoteClose
  }

  /** The release notes go in raw: they are GitHub's own rendering of the release text. */
  function NotesBlock(html: Option<string>): string {
    match html
    case None => []
    case Some(h) => NotesOpen + h
  }

  /** The whole item body; it needs the latest release, which the item is about. */
  function ItemBody(repo: Repository): string
    requires repo.latestRelease.Some?
  {
    Header(repo) + LanguagesBlock(repo.languages) + DescriptionBlock(repo.description)
      + NotesBlock(repo.latestRelease.value.descriptionHtml)
  }

  /** The `write!` of the first paragraph. */
  method WriteHeader(repo: Repository) returns (body: string)
    ensures body == Header(repo)
  {
    body := HrefOpen;
    body := PushEscaped(body, repo.url);
    body := body + HrefClose;
    body := PushEscaped(body, repo.nameWithOwner);
    body := body + NameClose + Decimal(repo.stargazerCount) + StarsLabel + Decimal(repo.forkCount) + ForksLabel;
  }

  /** The loop over the languages: each name escaped, then the separator. */
  method PushLanguageList(buf: string, nodes: seq<Language>) returns (out: string)
    ensures out == buf + LanguageList(nodes)
  {
    out := buf;
    for i := 0 to |nodes|
      invariant out == buf + LanguageList(nodes[..i])
    {
      ghost var list := LanguageList(nodes[..i]);
      assert nodes[..i + 1][..i] == nodes[..i];
      out := PushEscaped(out, nodes[i].name);
      out := out + LanguageSep;
      SeqAssoc(buf, list, Escape(nodes[i].name));
      SeqAssoc(buf, list + Escape(nodes[i].name), LanguageSep);
    }
    assert nodes[..|nodes|] == nodes;
  }

  /**
   * The body `build_channel` builds for one repository: the header, then
   * the languages, the description and the release notes when present.
   */
  method BuildItemBody(repo: Repository) returns (body: string)
    requires repo.latestRelease.Some?
    ensures body == ItemBody(repo)
  {
    body := WriteHeader(repo);
    ghost var header := body;
    if repo.languages.Some? {
      body := body + LanguagesOpen;
      body := PushLanguageList(body, repo.languages.value.nodes);
      body := body + LanguagesClose;
      ghost var list := LanguageList(repo.languages.value.nodes);
      SeqAssoc(header, LanguagesOpen, list);
      SeqAssoc(header, LanguagesOpen + list, LanguagesClose);
    } else {
      assert body == header + [];
    }
    assert body == header + LanguagesBlock(repo.languages);
    ghost var upToLanguages := body;
    if repo.description.Some? {
      body := body + QuoteOpen;
      body := PushEscaped(body, repo.description.value);
      body := body + QuoteClose;
      SeqAssoc(upToLanguages, QuoteOpen, Escape(repo.description.value));
      SeqAssoc(upToLanguages, QuoteOpen + Escape(repo.description.value), QuoteClose);
    } else {
      assert body == upToLanguages + [];
    }
    assert body == upToLanguages + DescriptionBlock(repo.description);
    ghost var upToDescription := body;
    var release := repo.latestRelease.value;
    if release.descriptionHtml.Some? {
      body := body + NotesOpen + release.descriptionHtml.value;
      SeqAssoc(upToDescription, NotesOpen, release.descriptionHtml.value);
    } else {
      assert body == upToDescription + [];
    }
    assert body == upToDescription + NotesBlock(release.descriptionHtml);
  }

  /** Inert text holds no `<`. */
  lemma CountInert(s: string)
    requires Inert(s)
    ensures Count('<', s) == 0
  {
    assert '<' !in multiset(s);
  }

  /** A list of languages is inert: every name in it was escaped. */
  lemma {:induction false} LanguageListInert(nodes: seq<Language>)
    ensures Inert(LanguageList(nodes))
  {
    if nodes != [] {
      var init := nodes[..|nodes| - 1];
      LanguageListInert(init);
      EscapeInert(nodes[|nodes| - 1].name);
      InertAppend(LanguageList(init), Escape(nodes[|nodes| - 1].name));
      assert Inert(LanguageSep);
      InertAppend(LanguageList(init) + Escape(nodes[|nodes| - 1].name), LanguageSep);
    }
  }

  lemma DecimalInert(n: nat)
    ensures Inert(Decimal(n))
  {
    var s := Decimal(n);
    assert forall k :: 0 <= k < |s| ==> IsDigit(s[k]);
  }

  lemma HeaderMarkup(repo: Repository)
    ensures Count('<', Header(repo)) == 4
  {
    var url, name := Escape(repo.url), Escape(repo.nameWithOwner);
    var stars, forks := Decimal(repo.stargazerCount), Decimal(repo.forkCount);
    EscapeInert(repo.url);
    EscapeInert(repo.nameWithOwner);
    DecimalInert(repo.stargazerCount);
    DecimalInert(repo.forkCount);
    CountInert(url);
    CountInert(name);
    CountInert(stars);
    CountInert(forks);
    HrefOpenTags();
    HrefCloseTags();
    NameCloseTags();
    StarsLabelTags();
    ForksLabelTags();
  }

  lemma LanguagesBlockTags(languages: Option<Languages>)
    ensures Count('<', LanguagesBlock(languages)) == if languages.Some? then 4 else 0
  {
    if languages.Some? {
      LanguageListInert(languages.value.nodes);
      CountInert(LanguageList(languages.value.nodes));
      LanguagesOpenTags();
      LanguagesCloseTags();
    }
  }

  lemma DescriptionBlockTags(description: Option<string>)
    ensures Count('<', DescriptionBlock(description)) == if description.Some? then 2 else 0
  {
    if description.Some? {
      EscapeInert(description.value);
      CountInert(Escape(description.value));
      QuoteOpenTags();
      QuoteCloseTags();
    }
  }

  lemma CountFour(a: string, b: string, c: string, d: string)
    ensures Count('<', a + b + c + d) == Count('<', a) + Count('<', b) + Count('<', c) + Count('<', d)
  {
    assert multiset(a + b + c + d) == multiset(a) + multiset(b) + multiset(c) + multiset(d);
  }

  lemma NotesBlockTags(html: Option<string>)
    ensures Count('<', NotesBlock(html)) == if html.Some? then 1 + Count('<', html.value) else 0
  {
    NotesOpenTags();
  }

  /** The markup count of an item body is the sum over its four blocks. */
  lemma ItemBodyCountParts(repo: Repository)
    requires repo.latestRelease.Some?
    ensures Count('<', ItemBody(repo)) ==
      Count('<', Header(repo)) + Count('<', LanguagesBlock(repo.languages))
      + Count('<', DescriptionBlock(repo.description))
      + Count('<', NotesBlock(repo.latestRelease.value.descriptionHtml))
  {
    CountFour(Header(repo), LanguagesBlock(repo.languages), DescriptionBlock(repo.description),
      NotesBlock(repo.latestRelease.value.descriptionHtml));
  }

  /**
   * Every `<` in an item body is one of the template's tags or comes from
   * the raw release notes: escaping keeps the repository's URL, name,
   * languages and description from opening a tag.
   */
  lemma ItemBodyMarkup(repo: Repository)
    requires repo.latestRelease.Some?
    ensures var notes := repo.latestRelease.value.descriptionHtml;
      Count('<', ItemBody(repo)) ==
        4
        + (if repo.languages.Some? then 4 else 0)
        + (if repo.description.Some? then 2 else 0)
        + (if notes.Some? then 1 + Count('<', notes.value) else 0)
  {
    ItemBodyCountParts(repo);
    HeaderMarkup(repo);
    LanguagesBlockTags(repo.languages);
    DescriptionBlockTags(repo.description);
    NotesBlockTags(repo.latestRelease.value.descriptionHtml);
  }

  lemma TakeAppend(a: string, b: string, n: nat)
    requires n <= |a|
    ensures (a + b)[..n] == a[..n]
  {
  }

  /** An item body opens with the link to the repository. */
  lemma ItemBodyStartsWithLink(repo: Repository)
    requires repo.latestRelease.Some?
    ensures var p := HrefOpen + Escape(repo.url) + HrefClose;
      |p| <= |ItemBody(repo)| && ItemBody(repo)[..|p|] == p
  {
    var p := HrefOpen + Escape(repo.url) + HrefClose;
    var name := Escape(repo.nameWithOwner);
    var stars, forks := Decimal(repo.stargazerCount), Decimal(repo.forkCount);
    var header := Header(repo);
    var n := |p|;
    TakeAppend(p, name, n);
    TakeAppend(p + name, NameClose, n);
    TakeAppend(p + name + NameClose, stars, n);
    TakeAppend(p + name + NameClose + stars, StarsLabel, n);
    TakeAppend(p + name + NameClose + stars + StarsLabel, forks, n);
    TakeAppend(p + name + NameClose + stars + StarsLabel + forks, ForksLabel, n);
    assert header[..n] == p[..n] == p;
    var l, d, notes := LanguagesBlock(repo.languages), DescriptionBlock(repo.description),
      NotesBlock(repo.latestRelease.value.descriptionHtml);
    TakeAppend(header, l, n);
    TakeAppend(header + l, d, n);
    TakeAppend(header + l + d, notes, n);
  }

  /** Text that opens with `open`, then quote-free `e`, then a quote splits after `open` at that quote. */
  lemma SplitAtQuote(s: string, open: string, e: string, close: string)
    requires |open + e + close| <= |s| && s[..|open + e + close|] == open + e + close
    requires |close| >= 1 && close[0] == '"' && '"' !in e
    ensures SplitOnce(s[|open|..], '"') == Some((e, s[|open| + |e| + 1..]))
  {
    var p := open + e + close;
    var rest := s[|open|..];
    var tail := s[|open| + |e| + 1..];
    assert rest[..|e|] == e by {
      assert rest[..|e|] == p[|open|..|open| + |e|];
    }
    assert rest[|e|] == '"' by {
      assert rest[|e|] == p[|open| + |e|];
    }
    assert rest == e + ['"'] + tail;
    SplitOnceAt(e, tail, '"');
  }

  /** The link target reads back exactly: the escaped URL ends at the first `"` after `href="`. */
  lemma HrefRoundTrip(repo: Repository)
    requires repo.latestRelease.Some?
    ensures |HrefOpen| <= |ItemBody(repo)|
    ensures var rest := ItemBody(repo)[|HrefOpen|..];
      SplitOnce(rest, '"').Some? && Unescape(SplitOnce(rest, '"').value.0) == repo.url
  {
    var e := Escape(repo.url);
    ItemBodyStartsWithLink(repo);
    EscapeInert(repo.url);
    assert '"' !in e;
    SplitAtQuote(ItemBody(repo), HrefOpen, e, HrefClose);
    UnescapeEscape(repo.url);
  }
}
