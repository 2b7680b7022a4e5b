/**
 * The GraphQL side of the client: the shapes of the decoded response and
 * the two derived values of a release, its timestamp and its display name.
 */
module Graphql {
  import opened Wrappers
  import opened RustStr

  /** A release as the API returns it; times are seconds since the epoch. */
  datatype Release = Release(
    name: Option<string>,
    tagName: string,
    url: string,
    createdAt: int,
    publishedAt: Option<int>,
    isPrerelease: bool,
    descriptionHtml: Option<string>)

  datatype Language = Language(name: string)

  datatype Languages = Languages(nodes: seq<Language>)

  /** A starred repository with its latest release, if it has one. */
  datatype Repository = Repository(
    databaseId: int,
    nameWithOwner: string,
    url: string,
    description: Option<string>,
    forkCount: nat,
    stargazerCount: nat,
    latestRelease: Option<Release>,
    languages: Option<Languages>)

  datatype PageInfo = PageInfo(hasNextPage: bool, endCursor: Option<string>)

  /** One page of the `starredRepositories` connection. */
  datatype StarredRepositories = StarredRepositories(pageInfo: PageInfo, nodes: seq<Repository>)

  /** The release's time: when it was published, or when it was created if it has not been published. */
  function Timestamp(r: Release): (t: int)
    ensures r.publishedAt.Some? ==> t == r.publishedAt.value
    ensures r.publishedAt.None? ==> t == r.createdAt
  {
    match r.publishedAt
    case Some(p) => p
    case None => r.createdAt
  }

  /**
   * The release's display name: its own name when that has a character
   * that is not whitespace, its tag otherwise; so it is blank only when the
   * tag is.
   */
  function Name(r: Release): (n: string)
    ensures r.name.Some? && !AllWhitespace(r.name.value) ==> n == r.name.value
    ensures r.name.None? || AllWhitespace(r.name.value) ==> n == r.tagName
    ensures AllWhitespace(n) ==> n == r.tagName
  {
    if r.name.Some? && Trim(r.name.value) != [] then r.name.value else r.tagName
  }
}

/**
 * The request for one page of starred repositories: the query template and
 * the substitution of the page cursor into it.
 */
module GraphqlQuery {
  import opened Wrappers
  import opened RustStr
  import Json

  /** The request body: the text of the GraphQL query. */
  datatype Query = Query(query: string)

  /** `n` spaces, the indentation of a line of the query text. */
  function Spaces(n: nat): (r: string)
    ensures |r| == n && forall i :: 0 <= i < n ==> r[i] == ' '
  {
    seq(n, _ => ' ')
  }

  /** The query text before the `after:` argument's value. */
  const QueryHead: string :=
    "\n" +
    Spaces(4) + "query {\n" +
    Spaces(8) + "viewer {\n" +
    Spaces(12) + "starredRepositories(first: 100, after: "

  /** The query text after the `after:` argument's value, in four parts. */
  const QueryTail: string := QueryPageInfo + QueryNodeFields + QueryRelease + QueryLanguages

  /** The query text: the `pageInfo` selection. */
  const QueryPageInfo: string :=
    ") {\n" +
    Spaces(16) + "pageInfo {\n" +
    Spaces(20) + "hasNextPage\n" +
    Spaces(20) + "endCursor\n" +
    Spaces(16) + "}\n" +
    "\n"

  /** The query text: the repository fields. */
  const QueryNodeFields: string :=
    Spaces(16) + "nodes {\n" +
    Spaces(20) + "databaseId,\n" +
    Spaces(20) + "nameWithOwner,\n" +
    Spaces(20) + "url,\n" +
    Spaces(20) + "description,\n" +
    Spaces(20) + "forkCount,\n" +
    Spaces(20) + "stargazerCount,\n" +
    "\n"

  /** The query text: the `latestRelease` selection. */
  const QueryRelease: string :=
    Spaces(20) + "latestRelease {\n" +
    Spaces(24) + "name,\n" +
    Spaces(24) + "tagName,\n" +
    Spaces(24) + "url,\n" +
    Spaces(24) + "createdAt,\n" +
    Spaces(24) + "publishedAt,\n" +
    Spaces(24) + "isPrerelease,\n" +
    Spaces(24) + "descriptionHTML\n" +
    Spaces(20) + "}\n" +
    "\n"

  /** The query text: the `languages` selection and the closing braces. */
  const QueryLanguages: string :=
    Spaces(20) + "languages(first: 10) {\n" +
    Spaces(24) + "nodes {\n" +
    Spaces(28) + "name\n" +
    Spaces(24) + "}\n" +
    Spaces(20) + "}\n" +
    Spaces(16) + "}\n" +
    Spaces(12) + "}\n" +
    Spaces(8) + "}\n" +
    Spaces(4) + "}\n"

  const AfterPlaceholder: string := "<AFTER>"

  /** The query template, with its one placeholder for the page cursor. */
  const QueryTemplate: string := QueryHead + AfterPlaceholder + QueryTail

  /** The placeholder's first character occurs nowhere else in the template. */
  lemma TemplateHasOnePlaceholder()
    ensures '<' !in QueryHead && '<' !in QueryTail
  {
    HeadHasNoPlaceholder();
    TailHasNoPlaceholder();
  }

  lemma HeadHasNoPlaceholder() ensures '<' !in QueryHead {}

  lemma TailHasNoPlaceholder() ensures '<' !in QueryTail {
    PageInfoHasNoPlaceholder();
    NodeFieldsHaveNoPlaceholder();
    ReleaseHasNoPlaceholder();
    LanguagesHaveNoPlaceholder();
  }

  lemma PageInfoHasNoPlaceholder() ensures '<' !in QueryPageInfo {}

  lemma NodeFieldsHaveNoPlaceholder() ensures '<' !in QueryNodeFields {}

  lemma ReleaseHasNoPlaceholder() ensures '<' !in QueryRelease {}

  lemma LanguagesHaveNoPlaceholder() ensures '<' !in QueryLanguages {}

  /** The JSON value put in place of the placeholder: `null`, or the cursor as a JSON string. */
  function CursorText(cursor: Option<string>): string {
    match cursor
    case None => "null"
    case Some(c) => Json.Quote(c)
  }

  /**
   * The request for the page after `cursor` (the first page when there is
   * none): the template with the placeholder, and only the placeholder,
   * replaced by the cursor's JSON text.
   */
  function BuildQuery(cursor: Option<string>): (q: Query)
    ensures q.query == QueryHead + CursorText(cursor) + QueryTail
  {
    TemplateHasOnePlaceholder();
    ReplaceOnce(QueryHead, AfterPlaceholder, QueryTail, CursorText(cursor));
    Query(ReplaceAll(QueryTemplate, AfterPlaceholder, CursorText(cursor)))
  }

  /** Reads the cursor back out of a query text, if it is one the template produces. */
  function CursorOf(text: string): Option<Option<string>> {
    if |QueryHead| + |QueryTail| <= |text|
       && text[..|QueryHead|] == QueryHead
       && text[|text| - |QueryTail|..] == QueryTail
    then
      var value := text[|QueryHead|..|text| - |QueryTail|];
      if value == "null" then Some(None)
      else match Json.Unquote(value)
        case Some(c) => Some(Some(c))
        case None => None
    else None
  }

  /**
   * The request says exactly which page it asks for: the cursor can be read
   * back from it, so a string cursor is never sent as a bare `null` and two
   * different cursors never give the same request.
   */
  lemma BuildQueryCursor(cursor: Option<string>)
    ensures CursorOf(BuildQuery(cursor).query) == Some(cursor)
  {
    var text := BuildQuery(cursor).query;
    var value := CursorText(cursor);
    assert text[..|QueryHead|] == QueryHead;
    assert text[|text| - |QueryTail|..] == QueryTail;
    assert text[|QueryHead|..|text| - |QueryTail|] == value;
    if cursor.Some? {
      Json.QuoteRoundTrip(cursor.value);
      assert value[0] == '"';
    }
  }

  lemma BuildQueryInjective(a: Option<string>, b: Option<string>)
    ensures BuildQuery(a) == BuildQuery(b) <==> a == b
  {
    BuildQueryCursor(a);
    BuildQueryCursor(b);
  }
}
