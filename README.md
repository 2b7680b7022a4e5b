# releasesfeed in Dafny

A model of `releasesfeed`, a program that builds an RSS digest of the latest
releases of the repositories starred by one or more GitHub accounts, with
proofs about it. The program has these parts, and the model has a module for
each:

- **Tokens** (`Config`, src/config.rs). The account tokens are read from the
  `RF_GITHUB_TOKENS` variable as `user:token` entries separated by `;`. When
  that variable is unset, they come from the lines of a `tokens` file, where
  comment lines and lines with no `:` are skipped and a read error is the
  whole result.
- **The query** (`Graphql`, `GraphqlQuery`, src/github/graphql.rs). These are
  the records the GraphQL API returns. A release's timestamp and display
  name come with their fallbacks. The query text is built by putting the page
  cursor, as JSON, in place of the `<AFTER>` placeholder.
- **The walk** (`Github`, src/github/mod.rs). This is one account's cursor
  loop. It requests a page, forwards each repository whose latest release is
  not a prerelease, and asks for the next page with the end cursor until a
  page says there is none. The page source is a function parameter, since
  the network is outside the model. It is keyed by the page cursor: the
  request body is the query built from that cursor, and the two determine
  each other (`GraphqlQuery.BuildQueryInjective`).
- **The digest** (`Digest`, src/main.rs). Everything the walks sent is sorted
  newest release first. Then only the first repository of each `databaseId`
  is kept, and the result is cut to `RF_RELEASES_COUNT` entries, 50 by
  default. The vector that is changed in place is an array.
- **The pipeline** (`Pipeline`, src/main.rs). The channel delivers the
  walks' repositories in some order. All of them have a non-prerelease
  latest release, which is what the digest's sort needs.
- **The items** (`FeedTemplate`, `Feed`, src/feed.rs). `Escaped` is the HTML
  escaping of `"`, `&`, `<` and `>`. The item title is `[owner/name]
  release`. The item body is the link, star and fork header, the language
  list, the quoted description and the release notes.

Helper modules:

- `Wrappers` holds `Option` and `Result`.
- `RustStr` holds the standard string operations the code calls: `trim`,
  `split_once`, `split`, `replace` and the decimal `Display` of integers.
- `Json` holds `serde_json`'s string quoting and a reader for it, following
  section 7 of RFC 8259.

Methods stand where the source loops or writes into a buffer. Most of them
are proved equal to a specification function, and the properties are proved
as lemmas about those functions. The sort and its helpers meet relational
contracts instead: `Digest.SortByRecency` leaves the array newest first and a
permutation of what it held, `Digest.NewestFrom` returns the index of a
newest entry, and `Digest.Swap` exchanges two entries.

## Model

| member | source | states |
|---|---|---|
| Config.SplitParts | src/config.rs:54-59 | No `:` in the item gives nothing. Otherwise the user and token joined by `:` rebuild the item, and the user holds no `:`, so the token keeps any later `:`. |
| Config.SplitPartsEntry | src/config.rs:54-59 | Round trip: `user:token` with a `:`-free user splits back into that user and token. |
| Config.ParseLine | src/config.rs:43-52 | A read error is passed on unchanged. A line read without error never gives an error. |
| Config.ParseLineReads | src/config.rs:40-52 | A line gives nothing exactly when its trimmed form starts with `#` or has no `:`. Otherwise its token's `user:token` is the trimmed line: the user has no `:`, no leading whitespace and no leading `#`, and the token has no trailing whitespace. |
| Config.ParseLineEntry | src/config.rs:43-59 | Round trip: a line written from such a tidy token is parsed back to that token. |
| Config.KeepEntries | src/config.rs:17 | `filter_map(split_parts)` keeps no more tokens than there are pieces. Every kept token's entry is one of the pieces, and its user has no `:`. |
| Config.KeepEntriesPiece | src/config.rs:17 | One piece gives exactly its `split_parts` token when it has a `:`, and no token otherwise; with `KeepEntriesAppend`, each piece gives at most one token, in piece order. |
| Config.KeepEntriesAppend | src/config.rs:17-18 | Order: the tokens of consecutive pieces come out consecutively, in piece order. |
| Config.TokensFromVar | src/config.rs:16-18 | Every token from the variable has a `:`-free user, and neither its user nor its token contains `;`. |
| Config.VarRoundTrip | src/config.rs:16-18 | Round trip: tokens with no `;` and a `:`-free user, written as `user:token` joined by `;`, are read back in order and untrimmed. An empty value gives no tokens. |
| Config.LineTokens | src/config.rs:29-34 | One line of the file gives its read error, no token (a skipped line), or one token, the three arms of the `filter_map`. |
| Config.CollectLines | src/config.rs:27-35 | The file form: the lines' tokens in line order, or the error of the first line whose read or parse failed, as `collect` into a `Result` does. |
| Config.CollectLinesFails | src/config.rs:27-35 | The file form succeeds exactly when every line was read. When it fails, its error is the error of the first line that failed. |
| Config.CollectLinesAppend | src/config.rs:27-35 | Collecting a file is collecting its first part, then its second: the first error wins, and otherwise the tokens are concatenated in line order. |
| Config.FileRoundTrip | src/config.rs:27-35 | Round trip: a file holding one tidy token per line is read back as those tokens, in order. |
| Config.Tokens | src/config.rs:14-38 | A set variable is the only source and cannot fail. An error means the variable was unset and either the file failed to open or some line failed, the error being the first such line's. With the file open, the result succeeds exactly when every line was read. |
| Graphql.Timestamp | src/github/graphql.rs:128-130 | The publication time when there is one, else the creation time. |
| Graphql.Name | src/github/graphql.rs:132-137 | The release name unless it is missing or all whitespace, else the tag name. A blank result can only be the tag name. |
| GraphqlQuery.TemplateHasOnePlaceholder | src/github/graphql.rs:7-43 | The query text around `<AFTER>` has no other `<`, so the placeholder occurs exactly once. |
| GraphqlQuery.CursorText | src/github/graphql.rs:148-151 | The text put in place of the placeholder: `null` without a cursor, else the cursor's JSON string. |
| GraphqlQuery.BuildQuery | src/github/graphql.rs:147-156 | The query is the template with its one placeholder replaced by `null` or by the cursor's JSON string. |
| GraphqlQuery.BuildQueryCursor | src/github/graphql.rs:147-156 | Round trip: the cursor can be read back from the query, and `null` is never mistaken for a cursor string. |
| GraphqlQuery.BuildQueryInjective | src/github/graphql.rs:147-156 | Two queries are equal exactly when their cursors are. |
| Json.Quote | src/github/graphql.rs:149 | `to_string` of a string: its escaped characters between two `"`. |
| Json.QuoteRoundTrip | src/github/graphql.rs:149 | Round trip: `to_string` of a cursor string is read back as the same string. |
| Json.UnescapeEscape | src/github/graphql.rs:149 | The JSON escaping of any string unescapes to that string. |
| RustStr.Trim | src/github/graphql.rs:135 | The trim is the input with whitespace removed at both ends and nothing else: an infix with only whitespace around it, with no whitespace at either of its own ends, and empty exactly when the input is all whitespace. |
| RustStr.TrimFixed | src/config.rs:45 | A string with no whitespace at either end is its own trim. |
| RustStr.SplitOnce | src/config.rs:55 | Nothing exactly when the separator is absent. Otherwise the head, the separator and the tail rebuild the input, and the head has no separator. |
| RustStr.SplitOnceAt | src/config.rs:55 | `split_once` splits at the first separator. |
| RustStr.Split | src/config.rs:17 | At least one piece; no piece holds the separator; joining the pieces rebuilds the input. |
| RustStr.SplitJoin | src/config.rs:17 | Round trip: splitting a join of separator-free pieces gives those pieces back. |
| RustStr.ReplaceAll | src/github/graphql.rs:153 | `str::replace`: scanning left to right, each occurrence of the pattern becomes the replacement and every other character is copied. |
| RustStr.ReplaceOnce | src/github/graphql.rs:153 | Replacing a pattern that occurs once, with no occurrence of its first character elsewhere, replaces exactly that occurrence. |
| RustStr.Decimal | src/feed.rs:21-22 | The decimal text of a count is non-empty and all digits, and starts with `0` only for zero. |
| RustStr.DecimalRoundTrip | src/feed.rs:21-22 | Round trip: reading the decimal text back gives the count. |
| Github.IsForwarded | src/github/mod.rs:41-42 | A repository is sent on when it has a latest release and that release is not a prerelease. |
| Github.Forwarded | src/github/mod.rs:40-46 | The repositories of a page that are sent on, in page order. |
| Github.ForwardedCount | src/github/mod.rs:40-46 | The filter keeps every copy of a repository with a released, non-prerelease latest release, and drops every copy of any other. |
| Github.ForwardedAppend | src/github/mod.rs:40-46 | The filter keeps page order across consecutive pieces. |
| Github.DropsPrereleaseAndReleaseless | src/github/mod.rs:41-42 | A prerelease and a repository with no release are both dropped. |
| Github.Paginate | src/github/mod.rs:22-53 | The walk's first request is for the cursor it starts from. |
| Github.PaginateFollowsCursors | src/github/mod.rs:22-53 | Each request after the first asks for the end cursor of the previous page, which said there was a next page. |
| Github.PaginateStops | src/github/mod.rs:23-53 | The walk ends at its first failed request, and reports the failure, or at the first page with no next page. |
| Github.PaginateSends | src/github/mod.rs:40-46 | What the walk sends is the filtered pages, concatenated in request order. |
| Github.PaginateSendsOnlyForwarded | src/github/mod.rs:40-46 | Nothing is sent unless it has a released, non-prerelease latest release. |
| Github.ForwardPage | src/github/mod.rs:40-46 | The loop over a page appends exactly the filtered nodes, in order, to what was sent before. |
| Github.FindReleases | src/github/mod.rs:15-54 | The loop makes exactly the requests of the specification walk, sends exactly its repositories and ends the same way. Its first request has no cursor, and everything it sends passes the filter. |
| Github.SecondRequestUsesEndCursor | src/github/mod.rs:48-49 | Example: a first page with a next page and end cursor `"X"`, then a page for `"X"` with no next page. The walk requests `None` and then `"X"`, sends both pages' forwarded repositories in order, and ends without failure. |
| Github.MissingEndCursorRestarts | src/github/mod.rs:48-49 | A first page that says there is a next page but has no end cursor makes the walk ask for the first page again, so no bound on the number of requests holds. |
| Digest.Recency | src/main.rs:42-43 | The sort key: the timestamp of the repository's latest release; the sort compares it newest first. |
| Digest.FirstOfEachId | src/main.rs:47-48 | What `retain` with `found_ids.insert` keeps: each entry whose id has not occurred before it, in order. |
| Digest.FirstIndex | src/main.rs:47-48 | The first position holding an id: it holds that id and no earlier position does. |
| Digest.FirstOfEachIdSubset | src/main.rs:47-48 | Retaining keeps only collected entries. |
| Digest.FirstOfEachIdSameIds | src/main.rs:47-48 | Retaining loses no id. |
| Digest.FirstOfEachIdUnique | src/main.rs:47-48 | After retaining, no id occurs twice. |
| Digest.UniqueIdsCount | src/main.rs:47-48 | A sequence with no repeated id has one entry per id. |
| Digest.FirstOfEachIdLength | src/main.rs:47-48 | Retaining leaves one entry per distinct id. |
| Digest.FirstOfEachIdKeepsFirsts | src/main.rs:47-48 | Every kept entry is the first entry with its id. |
| Digest.FirstOfEachIdKeepsEveryFirst | src/main.rs:47-48 | The first entry of every id is kept. |
| Digest.FirstOfEachIdKeepsOrder | src/main.rs:47-48 | Retaining keeps the input order. |
| Digest.FirstOfEachIdSorted | src/main.rs:42-48 | Retaining keeps a newest-first order. |
| Digest.FirstOfEachIdNewest | src/main.rs:42-48 | On a newest-first input, the kept entry of each id has that id's newest release. |
| Digest.Truncate | src/main.rs:50 | The truncation keeps the first min(length, max) entries. |
| Digest.SameEntries | src/main.rs:42-45 | A permutation has the same entries and the same ids. |
| Digest.TruncateKeeps | src/main.rs:50 | Truncating keeps the order, the uniqueness of ids and only entries of the input. |
| Digest.TruncateDropsOlder | src/main.rs:42-50 | On a newest-first input, every entry truncated away is no newer than every entry kept, and neither is any entry whose id was cut away entirely. |
| Digest.DigestOfSorted | src/main.rs:42-50 | The digest of a newest-first permutation of the collected repositories has these properties: it is newest first and has one entry per id; its length is min(distinct ids, max); it holds only collected entries; each entry is its id's newest; and every id left out is no newer than the digest. |
| Digest.Swap | src/main.rs:42-45 | Exchanges two entries and keeps the multiset. |
| Digest.SortByRecency | src/main.rs:42-45 | The array ends newest first and is a permutation of what it held. |
| Digest.RetainFirstIds | src/main.rs:47-48 | The kept prefix is the first entry of each id, in order. |
| Digest.BuildDigest | src/main.rs:35-50 | The digest is the truncated first-of-each-id of a newest-first permutation of the collected repositories, with every property of `DigestOfSorted`. |
| Digest.DefaultBound | src/main.rs:21 | With the default setting, the digest holds at most 50 entries. |
| Pipeline.SentBy | src/main.rs:28-37 | Everything the accounts' walks send on the channel, one walk after another. |
| Pipeline.CollectedReleased | src/main.rs:28-45 | Whatever order the channel delivers them in, the walks' repositories all have a latest release that is not a prerelease, so the digest's precondition holds and the comparator's `unreachable!` arm is never taken. |
| Feed.Escape | src/feed.rs:84-92 | `Escaped` writes the text character by character, each as its escape. |
| Feed.EscapeChar | src/feed.rs:85-91 | A plain character is written as itself. Each of `"`, `&`, `<` and `>` becomes an entity that starts with `&`. No output contains `<`, `>` or `"`. |
| Feed.EscapeInert | src/feed.rs:84-92 | Escaped text holds no `<`, `>` or `"`, so it cannot open a tag or close an attribute. |
| Feed.EscapeSnoc | src/feed.rs:84-92 | Escaping is character by character. |
| Feed.EscapeAppend | src/feed.rs:84-92 | Escaping distributes over concatenation. |
| Feed.EscapeIdentity | src/feed.rs:84-92 | Escaping changes nothing exactly when there is no markup character, and it never shortens the text. |
| Feed.UnescapeChar | src/feed.rs:85-90 | Each written entity or character reads back as that one character. |
| Feed.UnescapeEscape | src/feed.rs:84-92 | Round trip: unescaping escaped text gives the text back. |
| Feed.EscapePrefix | src/feed.rs:84-92 | Escaping one more character of a prefix appends that character's escape. |
| Feed.EscapeExample | src/feed.rs:98-103 | The escape of `<a>✓&lt;` is `&lt;a&gt;✓&amp;lt;`. |
| Feed.EscapeNotIdempotent | src/feed.rs:87 | Escaping twice is not escaping once: `&` escapes to `&amp;` and then to `&amp;amp;`. |
| Feed.PushEscaped | src/feed.rs:84-92 | Writing `Escaped(s)` into a buffer appends exactly the escape of `s`. |
| Feed.Title | src/feed.rs:45-49 | The item title: `[`, the repository name, `] ` and the release's display name, none of them escaped. |
| Feed.TitleParts | src/feed.rs:45-49 | The title starts with `[`. When the name has no `]`, the text up to the first `]` is the repository name, and the rest is a space and the release's display name. |
| Feed.Header | src/feed.rs:16-23 | The first paragraph: the escaped URL as the link target, the escaped name, and the star and fork counts in decimal. |
| Feed.LanguageList | src/feed.rs:27-29 | Each language name escaped and followed by ` \| `, in order. |
| Feed.LanguagesBlock | src/feed.rs:25-31 | The language paragraph when the repository has languages, else nothing. |
| Feed.DescriptionBlock | src/feed.rs:33-36 | The escaped description in a `blockquote` line when there is one, else nothing. |
| Feed.NotesBlock | src/feed.rs:40-42 | `<hr>`, a newline and the release notes HTML unescaped when there are notes, else nothing. |
| Feed.ItemBody | src/feed.rs:14-42 | The item body: header, languages, description and notes, in that order. |
| Feed.WriteHeader | src/feed.rs:16-23 | The header write produces the link, escaped name, stars and forks line. |
| Feed.PushLanguageList | src/feed.rs:27-29 | Writing the languages appends each escaped name followed by ` \| `, in order. |
| Feed.BuildItemBody | src/feed.rs:14-42 | The body built step by step is the header, then the language block, the description block and the notes block. |
| Feed.LanguageListInert | src/feed.rs:27-29 | The language list holds no `<`, `>` or `"`, however the names are spelled. |
| Feed.HeaderMarkup | src/feed.rs:16-23 | The header has exactly four `<`, whatever the URL and the name hold. |
| Feed.LanguagesBlockTags | src/feed.rs:25-31 | The language block has four `<` when there are languages, and is empty otherwise. |
| Feed.DescriptionBlockTags | src/feed.rs:33-36 | The description block has two `<` when there is a description, and is empty otherwise. |
| Feed.NotesBlockTags | src/feed.rs:38-42 | The notes block has one `<` plus those of the raw notes HTML, and is empty when there are no notes. |
| Feed.ItemBodyCountParts | src/feed.rs:14-42 | The `<` count of the body is the sum over its four blocks. |
| Feed.ItemBodyMarkup | src/feed.rs:14-42 | Only the release notes can add tags to an item body: its `<` count is 4, plus 4 for languages, plus 2 for a description, plus 1 and the notes' own. |
| Feed.ItemBodyStartsWithLink | src/feed.rs:16-19 | The body starts with `<p><a href="`, then the escaped URL, then `">`. |
| Feed.SplitAtQuote | src/feed.rs:18-19 | When text starts with an opening, a quote-free value and a closing that starts with `"`, the first `"` after the opening ends the value. |
| Feed.HrefRoundTrip | src/feed.rs:16-19 | The link's `href` value extends to the first `"`, and unescaping it gives the repository URL back, whatever characters the URL holds. |

## Left out

- Reading `RF_GITHUB_TOKENS` and the `tokens` file is left out. So are
  `dirs::config_dir` with its `unwrap`, and the `load_var!` macro with its
  panic on a bad value. The variable's value, the file's lines and the digest
  size are parameters. A variable that is set but not valid Unicode is read
  by the source as unset, and the model's `None` covers both.
- The HTTP client, `serde` decoding of the response, and four `unwrap`s are
  left out: on building the client (src/github/mod.rs:20), on sending the
  request (:32), on decoding the reply (:35) and on `tx.send` (:43). Nothing
  checks the HTTP status, so a reply that is not a success fails at the
  decode. A page request is a
  function that gives a page or `FetchFailed`. A failed request ends that
  account's walk with `failed` set, and what it sent before stays sent.
  The source's `unwrap` panics inside that account's spawned task. The
  runtime contains that panic, so the other accounts carry on and the digest
  is built from whatever arrived. The run does not stop as a whole, and the
  failure reaches no exit status. The model follows this code.
- The tokio tasks and the channel are not modelled. The model treats the
  items the digest receives as any interleaving of the walks' sends: the
  digest is proved for every order of `collected`. The model has no bound on
  the channel and no timing.
- Github.FindReleases: the request body is not built inside the walk. The
  page source takes the cursor, and the body for it is
  `GraphqlQuery.BuildQuery`, proved injective and readable back to the cursor.
- Github.MissingEndCursorRestarts: a page that says there is a next page
  but has no end cursor sets the cursor back to none (src/github/mod.rs:49),
  so the next request is for the first page again. A server that answers the
  first page that way keeps the loop going for ever, and the lemma shows that
  no bound holds then. Such a walk is outside `EndsWithin` and not modelled.
- Github.FindReleases: the source loop has no bound of its own. Its
  termination is assumed as `EndsWithin`, which says the API's cursor chain
  ends within some number of requests. A server that always says there is a
  next page is not modelled.
- Digest.SortByRecency: it is a selection sort, where the source calls
  `sort_unstable_by`. Only the sorted order and the permutation are proved,
  and the order among equal timestamps is unspecified in both.
- Timestamps are integers. The `chrono` types, `to_rfc2822` for the item's
  publication date, and the comparison through `DateTime` are not modelled.
- Building the RSS channel is left out: the `rss` crate's builders, the
  syndication extension, the namespaces, `filter_map(|i| i.ok())` on the item
  builder, writing the XML to standard output, and the item's link field.
  Only the item title and body text are modelled.
- The `fmt::Error`s that `write!` could return are not modelled: writing into
  a `String` cannot fail, and the source discards those results.
- `u64` counts are unbounded naturals. `i64` ids are unbounded integers.
- RustStr.ReplaceAll: the empty pattern, which `str::replace` handles by
  inserting between characters, is excluded by a precondition. The source
  replaces only the non-empty `<AFTER>`.
- Json.Unescape: a `\u` escape is read as four hex digits naming one
  non-surrogate character. Surrogate pairs are refused rather than decoded,
  because `serde_json` never writes them for a string.
- The cache TTL (`RF_CACHE_HOURS`) only reaches the syndication extension,
  and it is left out with that extension.
