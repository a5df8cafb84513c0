# mcp-nix in Dafny

A Dafny model of mcp-nix, an MCP server that answers questions about Nix
packages and options. The model covers the part that turns data already
fetched into answers:

- **The nix-nomad option catalog.**
  - The relevance search scores names and descriptions 1000, 100, 50 or 10, sorts by `(-score, name)` and returns the first `limit` results with the untruncated total.
  - The exact lookup, and the listing of every option below a dotted prefix.
  - The one-hour freshness rules of the in-memory copy and of the page saved on disk.
- **Option and package rendering.**
  - The `_lines` caption/value builder and the `_strip_html` tag remover.
  - The field validators.
  - The `format_short` / `__str__` renderers of packages, options, nix-nomad options and channels.
- **The read-through cache.** One store per namespace, entries that expire, and `get_or_set`. A stored `None` reads as a miss, and a factory that raises stores nothing.
- **Source references.**
  - `to_raw_url`, which rewrites GitHub and GitLab "blob" page URLs to raw-file URLs.
  - The line count of a fetched file.
  - The cached `fetch_source`, keyed by the raw URL, and `get_line_count`.
- **Nixhub version lookups.**
  - The checks `fetch_package` makes on the response.
  - `get_versions`, and the choice in `get_commit` of the first release of a version that has a build, with the list of available versions when there is none.
- **The tools of both servers.**
  - `_format_error`, with its preview of at most five available versions.
  - The search headers ("Showing n of m", "Found n", "No ... found").
  - The `show_*_option` / `*_get_option_details` dispatch: the exact option first, then the dotted children, then not found.
  - `list_package_versions` and the commit lookup.

Modules follow the source files:

| Dafny file | Source |
|---|---|
| `cache.dfy` | `mcp_nix/cache.py` |
| `models.dfy` | `mcp_nix/models.py` |
| `nix_nomad.dfy` | `mcp_nix/nix_nomad.py` (records, search, lookups) |
| `nix_nomad_loader.dfy` | `mcp_nix/nix_nomad.py` (`_get_options`, `_load_cached_html`) |
| `sources.dfy` | `mcp_nix/sources.py` |
| `nixhub.dfy` | `mcp_nix/nixhub.py` |
| `tools.dfy` | `mcp_nix/tools.py` |
| `nixos_search_tools.dfy` | `mcp_nixos_search/tools.py` |
| `errors.dfy` | the exception classes the tools catch |
| `strings.dfy`, `lists.dfy`, `wrappers.dfy` | the Python built-ins the code relies on |

`strings.dfy` and `lists.dfy` cover `str.replace`, `str.split`/`count`, `str.strip`, `str.lower`, string order, slicing, filtering comprehensions and the stable `list.sort`.

How the model is built:

- **State.** The cache is a class, `Cache.Store`, whose `GetOrSet` method changes its map of entries. The nix-nomad loader is a class holding the two module globals and the two cache files.
- **Spec functions.** Each method is tied by its postcondition to a function of the old state: `GetOrSetSpec`, `Load`, `FetchSourceSpec`, `FetchPackageSpec`. The properties are proved as lemmas about those functions.
- **Loops.** The loops that build lists are methods with loop invariants: `_lines`, `search_options` and `get_option_children`.
- **Pure code.** Everything else is functions and lemmas.

Behaviour worth noting, each proved as a lemma:

- **Empty query.** An empty search query is not refused: every option matches, with score 100, or 1000 when its name is empty (`NixNomad.EmptyQueryMatchesAll`).
- **Children.** The children of a prefix are all options below it at any depth, so "services.nginx" lists "services.nginx.virtualHosts.x.root" too (`NixNomad.ChildrenAnyDepth`).
- **`to_raw_url` is not idempotent.** It is stable on the documented GitHub example (`Sources.GitHubExampleStable`), but a GitLab URL holding `/-/blob/-/blob/` changes again on a second call (`Sources.ToRawUrlNotIdempotent`).

## Model

| member | source | states |
|---|---|---|
| Cache.CacheDirInjective | mcp_nix/cache.py:11-13 | Distinct namespace names give distinct cache directories. |
| Cache.Get | mcp_nix/cache.py:18-19 | `cache.get` gives a value exactly when the key holds a live entry whose value is not `None`, and then it gives that value. |
| Cache.GetOrSetSpec | mcp_nix/cache.py:16-22 | A live value is returned without calling the factory and nothing changes. On a miss the factory's answer is returned. Only a called factory that does not raise can change the store. |
| Cache.Store.GetOrSet | mcp_nix/cache.py:16-22 | The method returns, calls the factory and leaves the store exactly as `GetOrSetSpec` says. |
| Cache.StoredValueServedUntilExpiry | mcp_nix/cache.py:19-21 | A value computed on a miss with expiry `d` is served until `now + d` and not from then on. |
| Cache.DefaultExpiryIsOneHour | mcp_nix/cache.py:8-21 | With the default expiry a computed value is served for exactly 3600 seconds. |
| Cache.NoneIsRecomputed | mcp_nix/cache.py:18-20 | A factory that returns `None` is called again on the next request. |
| Cache.FailureIsRetried | mcp_nix/cache.py:19-21 | A factory that raises writes nothing, and the next request calls it again. |
| Cache.OtherKeysUntouched | mcp_nix/cache.py:21 | A call never changes what any other key reads, at any time. |
| Errors.Message | mcp_nix/nixhub.py:17-32 | A missing package's message is "Package 'name' not found", and a missing version's is "Version 'v' not found for 'name'". |
| Models.Entry | mcp_nix/models.py:16 | A field's line starts with its caption and ": ". |
| Models.Entries | mcp_nix/models.py:11-16 | At most one line is collected per field. |
| Models.Lines | mcp_nix/models.py:9-17 | The loop collecting non-empty fields and joining them with newlines gives `LinesOf`. |
| Models.EntriesConcat | mcp_nix/models.py:12-16 | Fields contribute their lines independently and in argument order. |
| Models.EntriesEmptyIff | mcp_nix/models.py:13-16 | No line is collected exactly when every value, a list joined with ", " first, is empty. |
| Models.LinesOfEmptyIff | mcp_nix/models.py:9-17 | `_lines` gives "" exactly when every value is empty (an empty list included). |
| Models.EntriesNonEmpty | mcp_nix/models.py:16 | Every collected line is non-empty. |
| Models.EntriesOneLine | mcp_nix/models.py:16 | No collected line holds a newline when no caption or value does. |
| Models.LinesOfSplit | mcp_nix/models.py:9-17 | Without embedded newlines, the lines of the `_lines` text are exactly the "caption: value" lines of the non-empty fields, in order. |
| Models.IndexOfChar | mcp_nix/models.py:24 | The first occurrence of a character, or the length when there is none. |
| Models.TagAt | mcp_nix/models.py:24 | A match of `<[^>]+>` at the start is '<', at least one character that is not '>', then '>'. When none starts at a '<', no later '>' closes one. |
| Models.TagAtExtends | mcp_nix/models.py:24 | A match at the start of a string is the same match in any extension of it. |
| Models.RemoveTagsLeavesNoTag | mcp_nix/models.py:24 | One left-to-right pass of the substitution leaves no match of `<[^>]+>`. |
| Models.SliceHasNoTag | mcp_nix/models.py:24-25 | Stripping text without matches cannot create one. |
| Models.MarkerIsTag | mcp_nix/models.py:22-24 | The "<rendered-html>" marker is itself a match, so text without matches does not carry it. |
| Models.StripHtml | mcp_nix/models.py:20-25 | Marked text loses both markers, then every match of `<[^>]+>`, then surrounding whitespace, and no match is left. Unmarked text is only stripped of surrounding whitespace. |
| Models.RemoveTagsPlain | mcp_nix/models.py:24 | Text without '<' is left unchanged by the substitution. |
| Models.RemoveTagsKeepsLead | mcp_nix/models.py:24 | A lead without '<' is kept as is, and the substitution acts on the rest. |
| Models.RemoveTagsDropsTag | mcp_nix/models.py:24 | A match at the front is deleted and the substitution acts on the rest. |
| Models.RemoveTagsAround | mcp_nix/models.py:24 | Plain text, a tag, then more: the plain text is kept, the tag deleted and the rest substituted. |
| Models.UnwrapPlain | mcp_nix/models.py:23 | Removing both markers from marked plain text gives the plain text back. |
| Models.StripHtmlWrapped | mcp_nix/models.py:20-25 | Marked plain text comes out as that text without surrounding whitespace. |
| Models.StripHtmlIdempotent | mcp_nix/models.py:20-25 | Cleaning a cleaned text again changes nothing. |
| Models.ExtractHomepage | mcp_nix/models.py:37-42 | A list gives its first URL, a string itself. A non-empty result is one of those, and anything else gives "". |
| Models.PackageFormatShort | mcp_nix/models.py:44-49 | The listing starts with "• name (version)", and it is that line alone exactly when the description is empty. Otherwise it is that line, a newline and "  " followed by the description. |
| Models.PackageFormatShortLines | mcp_nix/models.py:44-49 | Without embedded newlines the listing has the "• name (version)" line, and a second "  description" line exactly when the description is set. |
| Models.PackageTextStartsWithName | mcp_nix/models.py:51-59 | The details of a named package start with "Package: name". |
| Models.PackageTextLicenseLine | mcp_nix/models.py:51-59 | Without embedded newlines, the last line of the details is "License: " and the licenses joined by ", ", when that join is non-empty. |
| Models.PackageTextNoLicense | mcp_nix/models.py:51-59 | A package without licenses has no License line: its details are those of the first four fields alone. |
| Models.LinesOfStartsWithFirst | mcp_nix/models.py:9-17 | When the first value is non-empty, the `_lines` text starts with that field's line. |
| Models.CoerceNoneToStr | mcp_nix/models.py:71-74 | `None` becomes "" and any other value is kept. |
| Models.CleanDescription | mcp_nix/models.py:76-79 | An empty description stays empty. A marked one is cleaned as `_strip_html` does: markers removed, tags removed, whitespace stripped, with no tag left. An unmarked one is only stripped. |
| Models.RevalidateOption | mcp_nix/models.py:71-79 | Validating the fields of a validated `Option` again gives the same record. |
| Models.OptionFormatShort | mcp_nix/models.py:81-88 | The listing starts with "• name". |
| Models.OptionFormatShortLines | mcp_nix/models.py:81-88 | The first line is "• name". A "  Type: ..." line appears exactly when the type is set, and a description line exactly when the description is set. |
| Models.OptionTextStartsWithName | mcp_nix/models.py:90-98 | The details of a named option start with "Option: name". |
| Models.ChannelText | mcp_nix/models.py:109-114 | The entry starts with "• id". |
| Models.ChannelTextLines | mcp_nix/models.py:109-114 | " (default)" follows the id exactly for the default channel. The Branch line is second, and a Status line is present exactly when the status is set. |
| NixNomad.Truncate | mcp_nix/nix_nomad.py:50-52 | A description is at most 120 characters after cutting. A longer one keeps its first 117 characters followed by "...". |
| NixNomad.FormatShort | mcp_nix/nix_nomad.py:44-54 | The listing starts with "• name". |
| NixNomad.DetailsStartsWithName | mcp_nix/nix_nomad.py:56-64 | The details of a named nix-nomad option start with "Option: name". |
| NixNomad.DetailsAsOption | mcp_nix/nix_nomad.py:56-64 | A nix-nomad option's details are those of the catalog option model (models.py:90-98) with the same fields. |
| NixNomad.FormatShortLines | mcp_nix/nix_nomad.py:44-54 | The listing has the name line, a Type line exactly when the type is set, and a description line of at most 122 characters exactly when the description is set. |
| NixNomad.Score | mcp_nix/nix_nomad.py:222-241 | The score is one of 0, 10, 50, 100, 1000. It is 1000 iff the lowered name equals the query, at least 100 iff the name starts with it, and at least 50 iff the name contains it. It is positive iff the name or the description contains it. |
| NixNomad.SearchOptions | mcp_nix/nix_nomad.py:215-247 | The scoring loop, sort and slice give a total equal to the number of matches, and items equal to the first `limit` (Python slice) of the ranking. |
| NixNomad.MatchesMember | mcp_nix/nix_nomad.py:222-241 | An entry is kept exactly when its option is in the catalog with its own positive score. |
| NixNomad.RankedMember | mcp_nix/nix_nomad.py:240-244 | The ranking holds exactly the matching options with their scores. |
| NixNomad.RankedOrder | mcp_nix/nix_nomad.py:244 | Scores never increase along the ranking, and equal scores are in ascending name order. |
| NixNomad.ExactNameRanksFirst | mcp_nix/nix_nomad.py:228-244 | When some name equals the query case-insensitively, the first result is such an option, with score 1000. |
| NixNomad.EmptyQueryScore | mcp_nix/nix_nomad.py:218-232 | With an empty query every option scores 100, or 1000 when its name is empty. |
| NixNomad.EmptyQueryMatchesAll | mcp_nix/nix_nomad.py:218-247 | With an empty query the total is the size of the catalog. |
| NixNomad.RankKeysDistinct | mcp_nix/nix_nomad.py:244 | With one option per name, distinct ranked entries have distinct sort keys. |
| NixNomad.RankedOrderIndependent | mcp_nix/nix_nomad.py:222-244 | The ranking does not depend on the order in which the catalog was built. |
| NixNomad.GetOption | mcp_nix/nix_nomad.py:250-253 | A record is returned iff some name equals the argument exactly (case-sensitive), and it has that name. |
| NixNomad.GetOptionFindsRecord | mcp_nix/nix_nomad.py:250-253 | Looking up a catalog option's name gives back that option. |
| NixNomad.GetOptionChildren | mcp_nix/nix_nomad.py:256-268 | The collecting loop and sort give `Children`: the options under `prefix + "."`, sorted by name. |
| NixNomad.ChildrenMember | mcp_nix/nix_nomad.py:259-264 | An option is listed iff it is in the catalog and its name is `prefix`, a dot, then more. So "services.nginxplus.enable" is not under "services.nginx". |
| NixNomad.DotPrefix | mcp_nix/nix_nomad.py:259-263 | A name starts with `prefix + "."` exactly when it continues `prefix` with a dot. |
| NixNomad.ChildrenSorted | mcp_nix/nix_nomad.py:267 | The listing is in ascending name order. |
| NixNomad.ChildrenAnyDepth | mcp_nix/nix_nomad.py:262-264 | Options below a child of `prefix` are listed under `prefix` too. |
| NixNomad.ChildrenOrderIndependent | mcp_nix/nix_nomad.py:262-267 | The listing does not depend on the order in which the catalog was built. |
| NixNomadLoader.LoadCachedHtml | mcp_nix/nix_nomad.py:74-90 | The saved page is used iff both files exist, the metadata reads, and the page is at most 3600 s old (a missing time counts as 0). |
| NixNomadLoader.Load | mcp_nix/nix_nomad.py:190-208 | A fresh memory copy is returned with nothing changed. Otherwise a usable disk page is parsed and returned, and the load time becomes now. Otherwise the page is downloaded: a failure changes nothing, and a success returns the parsed page, keeps it in memory, and writes the page and a metadata file stamped now. The files change only when downloading. |
| NixNomadLoader.OptionsLoader.constructor | mcp_nix/nix_nomad.py:21-22 | A process starts with nothing in memory and the cache directory's files. |
| NixNomadLoader.OptionsLoader.GetOptions | mcp_nix/nix_nomad.py:190-208 | The method returns and leaves the globals and files exactly as `Load` says. |
| NixNomadLoader.ReusedWithinTheHour | mcp_nix/nix_nomad.py:195-196 | A successful load is served again unchanged, without a download, while under an hour old. |
| NixNomadLoader.FailedDownloadRetried | mcp_nix/nix_nomad.py:199-206 | After a failed download the next request downloads again. |
| NixNomadLoader.SavedPageServedAfterRestart | mcp_nix/nix_nomad.py:199-202 | A downloaded page is saved with its time, so a fresh process within the hour parses it without downloading. |
| NixNomadLoader.BoundariesDiffer | mcp_nix/nix_nomad.py:195 | A copy exactly one hour old is stale in memory (strict `<` here) but still served from disk (strict `>` at line 86). |
| Nixhub.PackageKeyInjective | mcp_nix/nixhub.py:62 | Distinct package names have distinct cache keys. |
| Nixhub.FetchPackage | mcp_nix/nixhub.py:38-60 | Success iff a reply with a non-error status decodes to an object with "releases", and then it is those releases. A 404, and a decoded payload that is falsy or lacks "releases", are PackageNotFound for the requested name. A timeout, another 4xx/5xx status, or a body that is not JSON is an API error. |
| Nixhub.FetchPackageSpec | mcp_nix/nixhub.py:35-62 | A live payload under "package:" + name is served without a GET. A miss runs `FetchPackage`, and only a success is stored, for the default hour. |
| Nixhub.NotFoundIsRefetched | mcp_nix/nixhub.py:42-62 | A missing package is not remembered: the next request asks Nixhub again. |
| Nixhub.OtherPackagesUntouched | mcp_nix/nixhub.py:62 | A lookup never changes what another package's entry serves. |
| Nixhub.FirstAnswer | mcp_nix/nixhub.py:82-85 | The index found answers the request and no earlier release does. None when no release answers. |
| Nixhub.AvailableVersionsMember | mcp_nix/nixhub.py:96 | A version is listed iff it is non-empty and some release carries it. |
| Nixhub.AvailableVersionsConcat | mcp_nix/nixhub.py:96 | Listed versions keep the payload order. |
| Nixhub.GetCommit | mcp_nix/nixhub.py:76-97 | Success iff some release has the exact version and a platform. The commit comes from `platforms[0]` of the first such release, with missing fields as "". Otherwise VersionNotFound with the listed versions. |
| Nixhub.EmptyPlatformsSkipped | mcp_nix/nixhub.py:84-85 | A release of the version without platforms is passed over for a later one. |
| Nixhub.ListedButNotBuilt | mcp_nix/nixhub.py:82-97 | A version published only without platforms is not found, yet it is listed as available. |
| Nixhub.UnknownVersionNotFound | mcp_nix/nixhub.py:83-97 | A version no release carries is not found and is not among the available versions. |
| Nixhub.GetVersions | mcp_nix/nixhub.py:69-73 | The method returns the releases in payload order and leaves the store as `FetchPackageSpec` says. |
| Nixhub.FindCommit | mcp_nix/nixhub.py:76-97 | The method fetches as `FetchPackageSpec` says, then answers `GetCommit` on the releases or passes the fetch error on. |
| Sources.ToRawUrl | mcp_nix/sources.py:14-24 | The result is "" exactly for "". A URL matching neither rule is returned unchanged. |
| Sources.GitHubExample | mcp_nix/sources.py:18-20 | `https://github.com/owner/repo/blob/branch/path` becomes `https://raw.githubusercontent.com/owner/repo/branch/path`. |
| Sources.GitHubExampleStable | mcp_nix/sources.py:18-24 | The raw URL of the GitHub example is left unchanged. |
| Sources.GitLabExample | mcp_nix/sources.py:21-23 | `https://gitlab.com/owner/repo/-/blob/branch/path` becomes `.../-/raw/branch/path`. |
| Sources.OverlappingIsBlob | mcp_nix/sources.py:19-22 | A GitLab URL holding "/-/blob/-/blob/" is a GitLab blob URL and not a GitHub one. |
| Sources.OverlappingBlobFirstRewrite | mcp_nix/sources.py:22-23 | Replacement does not overlap: the first call rewrites only the first "/-/blob/", leaving "/-/raw/-/blob/". |
| Sources.RewrittenIsBlob | mcp_nix/sources.py:22 | That result is still a GitLab blob URL. |
| Sources.OverlappingBlobSecondRewrite | mcp_nix/sources.py:22-23 | A second call rewrites the remaining "/-/blob/". |
| Sources.ToRawUrlNotIdempotent | mcp_nix/sources.py:22-23 | For such URLs, applying `to_raw_url` twice differs from applying it once. |
| Sources.LineCount | mcp_nix/sources.py:58 | 0 exactly for empty content; otherwise the number of newline-separated pieces (newlines + 1). |
| Sources.FetchRaw | mcp_nix/sources.py:43-59 | Success iff a response arrived whose lowered content type contains "text/plain". The record carries the body and the caller's URL, and every failure is an API error. |
| Sources.FetchSourceSpec | mcp_nix/sources.py:36-61 | An empty URL is refused with "No URL provided" before any cache access. A live entry under the raw URL is served, and a GET is made iff there is none. The only change is the fetched file stored under the raw URL for the default hour. |
| Sources.FetchSourceKeepsWellFormed | mcp_nix/sources.py:41-61 | Every stored file sits under the raw URL of its non-empty URL with its own line count. What is served belongs to the requested raw URL. |
| Sources.SameRawUrlSharesEntry | mcp_nix/sources.py:41-61 | Within the hour, a URL with the same raw form is served the first one's record, its `url` field included, without a GET. |
| Sources.BlobAndRawShareEntry | mcp_nix/sources.py:18-61 | A GitHub blob page and its raw file share one entry. |
| Sources.FailedFetchRetried | mcp_nix/sources.py:43-61 | A failed GET stores nothing, and the next request fetches again. |
| Sources.GetLineCountSpec | mcp_nix/sources.py:64-73 | A count iff the fetch succeeds, and none for an empty URL. |
| Sources.LineCountIsServedFiles | mcp_nix/sources.py:64-73 | Every count returned is the line count of the file served. |
| Sources.FetchedLineCount | mcp_nix/sources.py:58-71 | A freshly fetched non-empty file's count is its number of lines. |
| Sources.FetchSource | mcp_nix/sources.py:36-61 | The method returns and leaves the "sources" store exactly as `FetchSourceSpec` says. |
| Sources.GetLineCount | mcp_nix/sources.py:64-73 | The method answers and leaves the store exactly as `GetLineCountSpec` says. |
| Tools.VersionsPreview | mcp_nix/tools.py:24-26 | At most five versions are joined by ", ". When there are more, ", ... (N total)" follows. |
| Tools.PreviewReportsTotal | mcp_nix/tools.py:25-26 | The digits in the note read back as the number of available versions. |
| Tools.PreviewShowsFirstVersions | mcp_nix/tools.py:24 | Each of the first five versions appears in the preview. |
| Tools.FormatError | mcp_nix/tools.py:13-28 | Every rendering starts with "Error: ". The exact wording is given for every kind: missing packages and versions, invalid channels, releases and projects with their available values joined by ", ", and API and limit errors. |
| Tools.SpecificWordingFirst | mcp_nix/tools.py:21-28 | A missing package gets its own wording, not the generic "Error: " + message. |
| Tools.SearchHeader | mcp_nix/tools.py:50-53 | "Showing ..." iff the total exceeds the page, otherwise "Found ...". |
| Tools.ShowingHeaderCounts | mcp_nix/tools.py:50-51 | A cut-short header starts "Showing len of total ", and both numbers read back as the page length and the total. |
| Tools.FoundHeaderCounts | mcp_nix/tools.py:52-53 | A whole-page header starts "Found len ", and the number reads back as the page length. |
| Tools.NothingFound | mcp_nix/tools.py:48 | The message is "No noun found matching 'query'". |
| Tools.SearchText | mcp_nix/tools.py:42-54 | A backend error is rendered. An empty page gives "No noun found matching 'query'", and the text starts "No " iff the page is empty and "Showing " iff it is cut short. Otherwise it is the header followed by the listings. |
| Tools.NixNomadPage | mcp_nix/nix_nomad.py:246-247 | The result `NixNomad.SearchOptions` gives at a limit of 20: min(20, total) options, with every match counted. |
| Tools.NixNomadSearchHeader | mcp_nix/tools.py:47-53 | `SearchText` composed with that result says "Showing" iff more than 20 options match, and "No ..." iff none does. |
| Tools.ShowOption | mcp_nix/tools.py:115-129 | A lookup error is rendered, and an exact option gives its details. Otherwise a children error is rendered, and children are listed under a header counting them, joined by blank lines. With no children the answer is "No option or children found". |
| Tools.ExactOptionIgnoresChildren | mcp_nix/tools.py:116-119 | An exact option's details are returned whatever the children lookup would give. |
| Tools.CatalogExactOption | mcp_nix/tools.py:116-119 | Over a catalog, a name that is an option is answered with its details. |
| Tools.CatalogChildren | mcp_nix/tools.py:121-125 | A name that is only a dotted prefix gets a header counting every option below it, at any depth. |
| Tools.CatalogNotFound | mcp_nix/tools.py:121-127 | A name that is neither an option nor a dotted prefix is reported as not found. |
| Tools.ShownReleases | mcp_nix/tools.py:342 | At most the first 20 releases, in order. |
| Tools.ListPackageVersions | mcp_nix/tools.py:333-342 | An error is rendered, and no releases give "No versions found". Otherwise the header counts all releases and at most 20 are listed. |
| Tools.FindCommitText | mcp_nix/tools.py:357-362 | An error renders as `_format_error` gives it, starting "Error: ". Otherwise the answer is the commit's rendering. |
| Tools.UnbuiltVersionText | mcp_nix/tools.py:357-362 | A version with no build answers "Error: Version ... not found" with the preview of listed versions. |
| NixosSearchTools.FormatError | mcp_nixos_search/tools.py:8-16 | Every rendering starts with "Error: ". Invalid channels and releases read "Error: Invalid ... 'x'. Available: " and the values joined by ", ". A limit error reads exactly "Error: Limit must be 1-100", and the other errors read "Error: " + message. |
| NixosSearchTools.LimitWordingFixed | mcp_nixos_search/tools.py:14-15 | Every limit error reads the same, whatever its message. |
| NixosSearchTools.PackageNotFoundWordings | mcp_nixos_search/tools.py:8-16 | This server words a missing package differently from the main one. |
| NixosSearchTools.SearchHeader | mcp_nixos_search/tools.py:39 | The header starts with "Found N ". |
| NixosSearchTools.SearchText | mcp_nixos_search/tools.py:31-40 | An error is rendered, and no results give "No ... found matching". Otherwise the header is followed by the listings. |
| NixosSearchTools.HeaderCountsResults | mcp_nixos_search/tools.py:36-40 | The number in the header reads back as the number of results. |
| NixosSearchTools.OptionDetails | mcp_nixos_search/tools.py:101-115 | An exact option wins. Otherwise a children error is rendered, and children are listed under a header counting them, joined by blank lines; otherwise not found. Errors use this server's wording. |
| NixosSearchTools.SameAnswerWithoutErrors | mcp_nixos_search/tools.py:101-115 | Without errors both servers' option tools give the same answer. |
| NixosSearchTools.CatalogOptionDetails | mcp_nixos_search/tools.py:107-111 | Over a catalog, a prefix with children gets the header counting every option below it. |
| Strings.ReplaceAbsent | mcp_nix/sources.py:20 | `str.replace` leaves a string without the pattern unchanged. |
| Strings.ReplaceHits | mcp_nix/sources.py:20 | An occurrence at the front is replaced and the scan continues after it. |
| Strings.ReplaceSkips | mcp_nix/sources.py:20 | A prefix without the first character of the pattern is kept as is. |
| Strings.ReplaceEmptyIff | mcp_nix/sources.py:20-23 | With a non-empty replacement the result is empty iff the input is. |
| Strings.SplitJoin | mcp_nix/sources.py:58 | Splitting on a character gives one more piece than occurrences, and joining the pieces restores the text. |
| Strings.SplitJoinInverse | mcp_nix/models.py:17 | Joining newline-free lines and splitting again gives the lines back. |
| Strings.Strip | mcp_nix/models.py:25 | The result is a slice of the input that neither starts nor ends with whitespace, with only whitespace cut around it. |
| Strings.Lower | mcp_nix/nix_nomad.py:218 | Lower-casing keeps the length. |
| Strings.LessTransitive | mcp_nix/nix_nomad.py:244 | String order is transitive. |
| Strings.LessTotal | mcp_nix/nix_nomad.py:244 | Any two different strings are ordered one way. |
| Strings.NatToStringRoundTrip | mcp_nix/tools.py:26 | A count's decimal digits read back as the count. |
| Lists.KeepMember | mcp_nix/nix_nomad.py:240-241 | A filtering comprehension keeps exactly the produced values. |
| Lists.KeepPermutation | mcp_nix/nix_nomad.py:222 | Filtering a permuted list gives a permutation of the result. |
| Lists.SliceStop | mcp_nix/nix_nomad.py:246 | `xs[:limit]` stops at `limit` when 0 <= limit <= len, and never past the end. |
| Lists.SortSortedPermutation | mcp_nix/nix_nomad.py:244 | The sort returns a permutation of its input in key order. |
| Lists.SortedUnique | mcp_nix/nix_nomad.py:244 | Two key-ordered permutations with distinct keys are equal. |
| Lists.Map | mcp_nix/tools.py:54 | A generator over the items renders each item in order. |

## Left out

- HTML parsing: `_parse_options` (mcp_nix/nix_nomad.py:115-187) and `html_to_text` are not part of this model. The parser is a parameter of `NixNomadLoader.Load`, and descriptions are taken as already cleaned.
- Network and file I/O (`requests.get`, the cache files, `platformdirs`): each response is a parameter datatype, and a download is a value or an error.
- `ConnectionError` and other exceptions the code does not catch are not modelled.
- Time is whole seconds on one clock instead of `time.time()` floats.
- diskcache internals (serialisation, eviction, on-disk layout): a namespace is a map from key to value and expiry time.
- `str.lower()` and `str.strip()` act on ASCII only; Unicode case mapping and Unicode whitespace are not modelled.
- `Strings.Lower`: states only that the length is kept. Which characters map to which is the ASCII table in its body.
- The validation of channels, releases and projects, `NixOSSearch`, `HomeManagerSearch` and `NuschtosSearch` are not part of this model (search.py, homemanager.py, nuschtos.py). Their answers are parameters of the tool functions.
- `NixhubRelease.format_short` and `NixhubCommit.__str__` are not part of this model; the renderers are parameters of `Tools.ListPackageVersions` and `Tools.FindCommitText`.
- JSON payloads are reduced to the fields the lookups read. Payloads of other JSON types, and version, platform or hash fields that are not strings, are not modelled.
- `show_nixpkgs_package`, `list_nixos_channels`, `list_homemanager_releases` and their mcp_nixos_search twins only render a backend's answer and are not modelled beyond `Channel.__str__` and `Package.__str__`.
- CLI and MCP wiring (argparse, tool registration, async plumbing) is not modelled.
- `Sources.ToRawUrl`: its contract states the empty and unchanged cases. The rewrites themselves are stated on the documented examples and on the non-idempotent case, not for every URL.
