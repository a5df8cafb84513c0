/**
 * Source files behind option declarations: the rewrite of GitHub and GitLab
 * "blob" page URLs to raw-file URLs, the line count, and the cached fetch
 * keyed by the raw URL. The HTTP response is a parameter.
 */
module Sources {
  import opened Wrappers
  import opened Strings
  import opened Errors
  import Cache

  const GitHubHost := "github.com"
  const GitHubRawHost := "raw.githubusercontent.com"
  const GitHubBlob := "/blob/"
  const GitLabHost := "gitlab.com"
  const GitLabBlob := "/-/blob/"
  const GitLabRaw := "/-/raw/"

  /** The GitHub rewrite applies to URLs naming the GitHub host and a "/blob/" segment. */
  predicate GitHubBlobUrl(url: string) {
    Contains(url, GitHubHost) && Contains(url, GitHubBlob)
  }

  /** The GitLab rewrite applies to URLs naming the GitLab host and a "/-/blob/" segment. */
  predicate GitLabBlobUrl(url: string) {
    Contains(url, GitLabHost) && Contains(url, GitLabBlob)
  }

  /**
   * `to_raw_url`: a GitHub blob URL has every host occurrence replaced by the
   * raw host and every "/blob/" by "/"; otherwise a GitLab blob URL has every
   * "/-/blob/" replaced by "/-/raw/"; any other URL, the empty one included,
   * is returned as it is.
   */
  function ToRawUrl(url: string): (r: string)
    ensures r == "" <==> url == ""
    ensures !GitHubBlobUrl(url) && !GitLabBlobUrl(url) ==> r == url
  {
    if url == "" then url
    else if GitHubBlobUrl(url) then
      var r := Replace(Replace(url, GitHubHost, GitHubRawHost), GitHubBlob, "/");
      ReplaceEmptyIff(url, GitHubHost, GitHubRawHost);
      ReplaceEmptyIff(Replace(url, GitHubHost, GitHubRawHost), GitHubBlob, "/");
      r
    else if GitLabBlobUrl(url) then
      ReplaceEmptyIff(url, GitLabBlob, GitLabRaw);
      Replace(url, GitLabBlob, GitLabRaw)
    else url
  }

  /** Two slashes and a host hold no occurrence of a slash-led pattern whose second character is no slash. */
  lemma SlashesHostStep(host: string, t: string, pat: string, rep: string)
    requires |pat| >= 2 && pat[0] == '/' && pat[1] != '/'
    requires host != [] && host[0] != pat[1] && '/' !in host
    ensures Replace(['/'] + (['/'] + host + t), pat, rep) == ['/'] + (['/'] + host + Replace(t, pat, rep))
  {
    ReplaceMissesAt('/', ['/'] + host + t, pat, rep);
    ReplaceSkipsSegment('/', host, t, pat, rep);
  }

  /** "https://" is "https:" and two slashes. */
  lemma SchemeSplit(host: string, t: string)
    ensures "https://" + host + t == "https:" + (['/'] + (['/'] + host + t))
  {
  }

  /** The scheme and a host hold no occurrence of a slash-led pattern whose second character is no slash. */
  lemma SchemeHostStep(host: string, t: string, pat: string, rep: string)
    requires |pat| >= 2 && pat[0] == '/' && pat[1] != '/'
    requires host != [] && host[0] != pat[1] && '/' !in host
    ensures Replace("https://" + host + t, pat, rep) == "https://" + host + Replace(t, pat, rep)
  {
    SchemeSplit(host, t);
    ReplaceSkips("https:", ['/'] + (['/'] + host + t), pat, rep);
    SlashesHostStep(host, t, pat, rep);
    SchemeSplit(host, Replace(t, pat, rep));
  }

  /** The scheme and the raw host carry no "/blob/". */
  lemma GitHubRawHostStep(t: string)
    ensures Replace("https://" + GitHubRawHost + t, GitHubBlob, "/") == "https://" + GitHubRawHost + Replace(t, GitHubBlob, "/")
  {
    SchemeHostStep(GitHubRawHost, t, GitHubBlob, "/");
  }

  /** "/owner/repo" holds no occurrence of a slash-led pattern whose second character is neither "o" nor "r". */
  lemma OwnerRepoStep(pat: string, rep: string, t: string)
    requires |pat| >= 2 && pat[0] == '/' && pat[1] != 'o' && pat[1] != 'r'
    ensures Replace("/owner" + ("/repo" + t), pat, rep) == "/owner" + ("/repo" + Replace(t, pat, rep))
  {
    ReplaceSkipsLed("/owner", "/repo" + t, pat, rep);
    ReplaceSkipsLed("/repo", t, pat, rep);
  }

  /** "branch/path" holds no occurrence of a slash-led pattern whose second character is not "p". */
  lemma BranchPathStep(pat: string, rep: string)
    requires |pat| >= 2 && pat[0] == '/' && pat[1] != 'p'
    ensures Replace("branch" + "/path", pat, rep) == "branch" + "/path"
  {
    ReplaceSkips("branch", "/path", pat, rep);
    ReplaceSkipsLed("/path", "", pat, rep);
    assert "/path" + "" == "/path";
  }

  /** The GitHub host is rewritten where it occurs once, after a scheme without a "g". */
  lemma GitHubHostStep(tail: string)
    requires 'g' !in tail
    ensures Replace("https://" + GitHubHost + tail, GitHubHost, GitHubRawHost) == "https://" + GitHubRawHost + tail
  {
    assert "https://" + GitHubHost + tail == "https://" + (GitHubHost + tail);
    ReplaceSkips("https://", GitHubHost + tail, GitHubHost, GitHubRawHost);
    ReplaceHits(tail, GitHubHost, GitHubRawHost);
    ReplaceSkips(tail, "", GitHubHost, GitHubRawHost);
    assert tail + "" == tail;
  }

  /** The path part of the documented examples, after the host. */
  function ExamplePath(blob: string): string {
    "/owner" + ("/repo" + (blob + ("branch" + "/path")))
  }

  /** An example URL holds its host and its blob segment. */
  lemma ExampleHolds(host: string, blob: string)
    ensures Contains("https://" + host + ExamplePath(blob), host)
    ensures Contains("https://" + host + ExamplePath(blob), blob)
  {
    ContainsInfix("https://", host, ExamplePath(blob));
    PrefixIsContained(blob + ("branch" + "/path"), blob);
    ContainsRight("/repo", blob + ("branch" + "/path"), blob);
    ContainsRight("/owner", "/repo" + (blob + ("branch" + "/path")), blob);
    ContainsRight("https://" + host, ExamplePath(blob), blob);
  }

  /** After the host is rewritten, the GitHub example's single "/blob/" becomes "/". */
  lemma GitHubExampleReplace()
    ensures Replace("https://" + GitHubRawHost + ExamplePath(GitHubBlob), GitHubBlob, "/") == "https://" + GitHubRawHost + ExamplePath("/")
  {
    GitHubRawHostStep(ExamplePath(GitHubBlob));
    OwnerRepoStep(GitHubBlob, "/", GitHubBlob + ("branch" + "/path"));
    ReplaceHits("branch" + "/path", GitHubBlob, "/");
    BranchPathStep(GitHubBlob, "/");
  }

  /** The documented GitHub example: https://github.com/owner/repo/blob/branch/path. */
  lemma GitHubExample()
    ensures ToRawUrl("https://" + GitHubHost + ExamplePath(GitHubBlob)) == "https://" + GitHubRawHost + ExamplePath("/")
  {
    ExampleHolds(GitHubHost, GitHubBlob);
    GitHubHostStep(ExamplePath(GitHubBlob));
    GitHubExampleReplace();
  }

  /** Rewriting the documented GitHub example's raw URL again changes nothing. */
  lemma GitHubExampleStable()
    ensures var raw := "https://" + GitHubRawHost + ExamplePath("/"); ToRawUrl(raw) == raw
  {
    var raw := "https://" + GitHubRawHost + ExamplePath("/");
    MissingCharNotContained(raw, GitHubBlob, 'l');
    MissingCharNotContained(raw, GitLabHost, 'l');
  }

  /** The scheme and the GitLab host carry no "/-/blob/". */
  lemma GitLabHostStep(t: string)
    ensures Replace("https://" + GitLabHost + t, GitLabBlob, GitLabRaw) == "https://" + GitLabHost + Replace(t, GitLabBlob, GitLabRaw)
  {
    SchemeHostStep(GitLabHost, t, GitLabBlob, GitLabRaw);
  }

  /** A URL without a "u" cannot name the GitHub host. */
  lemma NotGitHub(url: string)
    requires 'u' !in url
    ensures !GitHubBlobUrl(url)
  {
    MissingCharNotContained(url, GitHubHost, 'u');
  }

  /** The GitLab example's single "/-/blob/" is replaced. */
  lemma GitLabExampleReplace()
    ensures Replace("https://" + GitLabHost + ExamplePath(GitLabBlob), GitLabBlob, GitLabRaw) == "https://" + GitLabHost + ExamplePath(GitLabRaw)
  {
    GitLabHostStep(ExamplePath(GitLabBlob));
    OwnerRepoStep(GitLabBlob, GitLabRaw, GitLabBlob + ("branch" + "/path"));
    ReplaceHits("branch" + "/path", GitLabBlob, GitLabRaw);
    BranchPathStep(GitLabBlob, GitLabRaw);
  }

  /** The documented GitLab example: https://gitlab.com/owner/repo/-/blob/branch/path. */
  lemma GitLabExample()
    ensures ToRawUrl("https://" + GitLabHost + ExamplePath(GitLabBlob)) == "https://" + GitLabHost + ExamplePath(GitLabRaw)
  {
    NotGitHub("https://" + GitLabHost + ExamplePath(GitLabBlob));
    ExampleHolds(GitLabHost, GitLabBlob);
    GitLabExampleReplace();
  }

  /** A file name without a slash is never rewritten. */
  lemma NameStep(x: string)
    requires '/' !in x
    ensures Replace(x, GitLabBlob, GitLabRaw) == x
  {
    ReplaceSkips(x, "", GitLabBlob, GitLabRaw);
    assert x + "" == x;
  }

  /** "-/blob/x" alone holds no "/-/blob/". */
  lemma BlobTailStep(x: string)
    requires x != [] && x[0] != '-' && '/' !in x
    ensures Replace("-" + ("/blob" + ("/" + x)), GitLabBlob, GitLabRaw) == "-" + ("/blob" + ("/" + x))
  {
    ReplaceSkips("-", "/blob" + ("/" + x), GitLabBlob, GitLabRaw);
    ReplaceSkipsLed("/blob", "/" + x, GitLabBlob, GitLabRaw);
    assert ("/" + x)[1..] == x;
    ReplaceSkipsLed("/" + x, "", GitLabBlob, GitLabRaw);
    assert "/" + x + "" == "/" + x;
  }

  /** "/-/raw" is a slash, a dash and "/raw", and differs from "/-/blob/" at its fourth character. */
  lemma RawSplit(z: string)
    ensures "/-/raw" + z == ['/'] + ("-" + ("/raw" + z))
    ensures !(GitLabBlob <= "/-/raw" + z)
  {
    assert ("/-/raw" + z)[3] == 'r';
  }

  /** A leading "/-/raw" holds no "/-/blob/" and does not start one. */
  lemma RawPrefixStep(z: string)
    ensures Replace("/-/raw" + z, GitLabBlob, GitLabRaw) == "/-/raw" + Replace(z, GitLabBlob, GitLabRaw)
  {
    RawSplit(z);
    ReplaceMisses('/', "-" + ("/raw" + z), GitLabBlob, GitLabRaw);
    ReplaceSkips("-", "/raw" + z, GitLabBlob, GitLabRaw);
    ReplaceSkipsLed("/raw", z, GitLabBlob, GitLabRaw);
    RawSplit(Replace(z, GitLabBlob, GitLabRaw));
  }

  /** In "/-/raw/-/blob/x" only the second segment matches. */
  lemma RawTailStep(x: string)
    requires '/' !in x
    ensures Replace("/-/raw" + (GitLabBlob + x), GitLabBlob, GitLabRaw) == "/-/raw" + (GitLabRaw + x)
  {
    RawPrefixStep(GitLabBlob + x);
    ReplaceHits(x, GitLabBlob, GitLabRaw);
    NameStep(x);
  }

  lemma Regroup(x: string)
    ensures GitLabRaw + ("-" + ("/blob" + ("/" + x))) == "/-/raw" + (GitLabBlob + x)
  {
    assert GitLabRaw + "-/blob/" == "/-/raw" + GitLabBlob;
    assert "-" + ("/blob" + ("/" + x)) == "-/blob/" + x;
  }

  /**
   * The URL https://gitlab.com/-/blob/-/blob/x for a file name x, whose
   * second "/-/blob/" overlaps the first.
   */
  function OverlappingBlobUrl(x: string): string {
    "https://" + GitLabHost + (GitLabBlob + ("-" + ("/blob" + ("/" + x))))
  }

  /** The URL is a GitLab blob URL and no GitHub one. */
  lemma OverlappingIsBlob(x: string)
    requires 'u' !in x
    ensures GitLabBlobUrl(OverlappingBlobUrl(x)) && !GitHubBlobUrl(OverlappingBlobUrl(x))
  {
    var rest := "-" + ("/blob" + ("/" + x));
    NotGitHub(OverlappingBlobUrl(x));
    ContainsInfix("https://", GitLabHost, GitLabBlob + rest);
    PrefixIsContained(GitLabBlob + rest, GitLabBlob);
    ContainsRight("https://" + GitLabHost, GitLabBlob + rest, GitLabBlob);
  }

  /** Its rewrite is https://gitlab.com/-/raw/-/blob/x: the overlapping occurrence is left alone. */
  lemma OverlappingBlobFirstRewrite(x: string)
    requires x != [] && x[0] != '-' && '/' !in x && 'u' !in x
    ensures ToRawUrl(OverlappingBlobUrl(x)) == "https://" + GitLabHost + ("/-/raw" + (GitLabBlob + x))
  {
    var rest := "-" + ("/blob" + ("/" + x));
    OverlappingIsBlob(x);
    GitLabHostStep(GitLabBlob + rest);
    ReplaceHits(rest, GitLabBlob, GitLabRaw);
    BlobTailStep(x);
    Regroup(x);
  }

  /** The rewritten URL is still a GitLab blob URL and no GitHub one. */
  lemma RewrittenIsBlob(x: string)
    requires 'u' !in x
    ensures var once := "https://" + GitLabHost + ("/-/raw" + (GitLabBlob + x));
      GitLabBlobUrl(once) && !GitHubBlobUrl(once)
  {
    NotGitHub("https://" + GitLabHost + ("/-/raw" + (GitLabBlob + x)));
    ContainsInfix("https://", GitLabHost, "/-/raw" + (GitLabBlob + x));
    PrefixIsContained(GitLabBlob + x, GitLabBlob);
    ContainsRight("/-/raw", GitLabBlob + x, GitLabBlob);
    ContainsRight("https://" + GitLabHost, "/-/raw" + (GitLabBlob + x), GitLabBlob);
  }

  /** Rewriting https://gitlab.com/-/raw/-/blob/x again gives https://gitlab.com/-/raw/-/raw/x. */
  lemma OverlappingBlobSecondRewrite(x: string)
    requires '/' !in x && 'u' !in x
    ensures ToRawUrl("https://" + GitLabHost + ("/-/raw" + (GitLabBlob + x)))
      == "https://" + GitLabHost + ("/-/raw" + (GitLabRaw + x))
  {
    RewrittenIsBlob(x);
    GitLabHostStep("/-/raw" + (GitLabBlob + x));
    RawTailStep(x);
  }

  /**
   * The rewrite is not idempotent: a URL holding an overlapping second
   * "/-/blob/" changes again when rewritten a second time.
   */
  lemma ToRawUrlNotIdempotent(x: string)
    requires x != [] && x[0] != '-' && '/' !in x && 'u' !in x
    ensures ToRawUrl(ToRawUrl(OverlappingBlobUrl(x))) != ToRawUrl(OverlappingBlobUrl(x))
  {
    OverlappingBlobFirstRewrite(x);
    OverlappingBlobSecondRewrite(x);
  }

  /** A fetched source file, its number of lines, and the URL it was requested under. */
  datatype CachedSource = CachedSource(content: string, lineCount: nat, url: string)

  /** One more line than newlines, and none for an empty file: the pieces of splitting on newlines. */
  function LineCount(content: string): (n: nat)
    ensures n == 0 <==> content == ""
    ensures content != "" ==> n == |Split(content, '\n')|
  {
    if content == "" then 0
    else
      SplitJoin(content, '\n');
      CountChar(content, '\n') + 1
  }

  /**
   * What the GET of the raw URL gives: a timeout, an HTTP error status
   * (with the error's text), or a response with its content-type header
   * ("" when the header is missing) and its body.
   */
  datatype SourceResponse = TimedOut | HttpFailure(text: string) | Received(contentType: string, body: string)

  /** The factory `fetch_source` hands to the cache: only a plain-text response is accepted. */
  function FetchRaw(rawUrl: string, url: string, response: SourceResponse): (r: Result<CachedSource, Error>)
    ensures r.Success? <==> response.Received? && Contains(Lower(response.contentType), "text/plain")
    ensures r.Success? ==> r.value.content == response.body && r.value.url == url
    ensures r.Failure? ==> r.error.ApiError?
  {
    match response
    case TimedOut => Failure(ApiError("Connection timed out fetching " + rawUrl))
    case HttpFailure(text) => Failure(ApiError("Failed to fetch source: " + text))
    case Received(header, body) =>
      var contentType := Lower(header);
      if !Contains(contentType, "text/plain") then
        Failure(ApiError("Unexpected content type '" + contentType + "' from " + rawUrl))
      else
        Success(CachedSource(body, LineCount(body), url))
  }

  /** The result of `fetch_source`, whether the GET was made, and the "sources" namespace afterwards. */
  datatype SourceOutcome = SourceOutcome(result: Result<CachedSource, Error>, fetched: bool, entries: map<string, Cache.Entry<CachedSource>>)

  /**
   * `fetch_source(url)`: an empty URL is refused; otherwise the entry under
   * the raw URL is served while it lives, and a miss runs the GET and stores
   * an accepted file for the default hour.
   */
  function FetchSourceSpec(entries: map<string, Cache.Entry<CachedSource>>, url: string, response: SourceResponse, now: int): (out: SourceOutcome)
    ensures url == "" ==> out == SourceOutcome(Failure(ApiError("No URL provided")), false, entries)
    ensures url != "" && Cache.Get(entries, ToRawUrl(url), now).Some? ==>
      out == SourceOutcome(Success(Cache.Get(entries, ToRawUrl(url), now).value), false, entries)
    ensures out.fetched <==> url != "" && Cache.Get(entries, ToRawUrl(url), now).None?
    ensures out.fetched ==> out.result == FetchRaw(ToRawUrl(url), url, response)
    ensures out.entries != entries ==>
      out.fetched && out.result.Success? &&
      out.entries == entries[ToRawUrl(url) := Cache.Entry(Some(out.result.value), Some(now + Cache.DefaultExpire))]
  {
    if url == "" then SourceOutcome(Failure(ApiError("No URL provided")), false, entries)
    else
      var rawUrl := ToRawUrl(url);
      var produced: Result<Option<CachedSource>, Error> :=
        match FetchRaw(rawUrl, url, response)
        case Success(src) => Success(Some(src))
        case Failure(e) => Failure(e);
      var o := Cache.GetOrSetSpec(entries, rawUrl, produced, Some(Cache.DefaultExpire), now);
      var result: Result<CachedSource, Error> :=
        match o.result
        case Success(v) => Success(v.value)
        case Failure(e) => Failure(e);
      SourceOutcome(result, o.called, o.entries)
  }

  /**
   * What every record in the "sources" namespace satisfies: it is stored
   * under the raw URL of the non-empty URL it was requested under, and its
   * count is its content's line count.
   */
  predicate WellFormed(entries: map<string, Cache.Entry<CachedSource>>) {
    forall k | k in entries && entries[k].value.Some? ::
      var src := entries[k].value.value;
      src.url != "" && ToRawUrl(src.url) == k && src.lineCount == LineCount(src.content)
  }

  /** `fetch_source` keeps the namespace well formed, and what it serves belongs to the requested raw URL. */
  lemma FetchSourceKeepsWellFormed(entries: map<string, Cache.Entry<CachedSource>>, url: string, response: SourceResponse, now: int)
    requires WellFormed(entries)
    ensures var out := FetchSourceSpec(entries, url, response, now);
      WellFormed(out.entries) &&
      (out.result.Success? ==>
        ToRawUrl(out.result.value.url) == ToRawUrl(url) &&
        out.result.value.lineCount == LineCount(out.result.value.content))
  {
    var out := FetchSourceSpec(entries, url, response, now);
    if url != "" && !out.fetched {
      var key := ToRawUrl(url);
      assert Cache.Get(entries, key, now).Some?;
      assert key in entries && entries[key].value.Some?;
    }
  }

  /**
   * Two URLs with the same raw URL share one entry: within the hour after
   * the first is fetched, the second is served the first one's record (its
   * `url` field included) without a GET.
   */
  lemma SameRawUrlSharesEntry(entries: map<string, Cache.Entry<CachedSource>>, first: string, second: string,
                              response: SourceResponse, again: SourceResponse, now: int, later: int)
    requires ToRawUrl(first) == ToRawUrl(second)
    requires FetchSourceSpec(entries, first, response, now).fetched
    requires FetchSourceSpec(entries, first, response, now).result.Success?
    requires later < now + Cache.DefaultExpire
    ensures var one := FetchSourceSpec(entries, first, response, now);
      var two := FetchSourceSpec(one.entries, second, again, later);
      two.result == one.result && !two.fetched && two.entries == one.entries
  {
    var one := FetchSourceSpec(entries, first, response, now);
    assert Cache.Get(one.entries, ToRawUrl(first), later).Some?;
  }

  /** A GitHub blob page and its raw file share the entry: after the page's file is fetched, the raw URL is served it within the hour. */
  lemma BlobAndRawShareEntry(entries: map<string, Cache.Entry<CachedSource>>, response: SourceResponse, again: SourceResponse, now: int, later: int)
    requires FetchSourceSpec(entries, "https://" + GitHubHost + ExamplePath(GitHubBlob), response, now).fetched
    requires FetchSourceSpec(entries, "https://" + GitHubHost + ExamplePath(GitHubBlob), response, now).result.Success?
    requires later < now + Cache.DefaultExpire
    ensures var one := FetchSourceSpec(entries, "https://" + GitHubHost + ExamplePath(GitHubBlob), response, now);
      var two := FetchSourceSpec(one.entries, "https://" + GitHubRawHost + ExamplePath("/"), again, later);
      two.result == one.result && !two.fetched
  {
    GitHubExample();
    GitHubExampleStable();
    SameRawUrlSharesEntry(entries, "https://" + GitHubHost + ExamplePath(GitHubBlob), "https://" + GitHubRawHost + ExamplePath("/"), response, again, now, later);
  }

  /** A failed GET stores nothing, so the next request for the URL fetches again. */
  lemma FailedFetchRetried(entries: map<string, Cache.Entry<CachedSource>>, url: string, response: SourceResponse, again: SourceResponse, now: int)
    requires FetchSourceSpec(entries, url, response, now).fetched
    requires FetchSourceSpec(entries, url, response, now).result.Failure?
    ensures var one := FetchSourceSpec(entries, url, response, now);
      one.entries == entries && FetchSourceSpec(one.entries, url, again, now).fetched
  {
  }

  /**
   * `get_line_count(url)`: no count for an empty URL or when the fetch fails,
   * otherwise the fetched file's count.
   */
  function GetLineCountSpec(entries: map<string, Cache.Entry<CachedSource>>, url: string, response: SourceResponse, now: int): (out: (Option<nat>, SourceOutcome))
    ensures out.1 == FetchSourceSpec(entries, url, response, now)
    ensures out.0.Some? <==> out.1.result.Success?
    ensures url == "" ==> out.0.None?
  {
    var o := FetchSourceSpec(entries, url, response, now);
    match o.result
    case Success(src) => (Some(src.lineCount), o)
    case Failure(_) => (None, o)
  }

  /** In a well-formed namespace every count returned is the served file's line count. */
  lemma LineCountIsServedFiles(entries: map<string, Cache.Entry<CachedSource>>, url: string, response: SourceResponse, now: int)
    requires WellFormed(entries)
    ensures var out := GetLineCountSpec(entries, url, response, now);
      out.0.Some? ==> out.0.value == LineCount(out.1.result.value.content)
  {
    FetchSourceKeepsWellFormed(entries, url, response, now);
  }

  /** A freshly fetched file's count is its number of newline-separated lines. */
  lemma FetchedLineCount(entries: map<string, Cache.Entry<CachedSource>>, url: string, response: SourceResponse, now: int)
    requires GetLineCountSpec(entries, url, response, now).1.fetched
    requires response.Received? && response.body != ""
    ensures var out := GetLineCountSpec(entries, url, response, now);
      out.0.Some? ==> out.0.value == |Split(response.body, '\n')|
  {
  }

  /** `fetch_source` against the module's "sources" store. */
  method FetchSource(store: Cache.Store<CachedSource>, url: string, response: SourceResponse, now: int)
    returns (r: Result<CachedSource, Error>, fetched: bool)
    modifies store
    ensures SourceOutcome(r, fetched, store.entries) == FetchSourceSpec(old(store.entries), url, response, now)
  {
    if url == "" {
      return Failure(ApiError("No URL provided")), false;
    }
    var rawUrl := ToRawUrl(url);
    var produced: Result<Option<CachedSource>, Error> :=
      match FetchRaw(rawUrl, url, response)
      case Success(src) => Success(Some(src))
      case Failure(e) => Failure(e);
    var value;
    value, fetched := store.GetOrSet(rawUrl, produced, Some(Cache.DefaultExpire), now);
    r := match value
      case Success(v) => Success(v.value)
      case Failure(e) => Failure(e);
  }

  /** `get_line_count` against the module's "sources" store. */
  method GetLineCount(store: Cache.Store<CachedSource>, url: string, response: SourceResponse, now: int)
    returns (count: Option<nat>)
    modifies store
    ensures (count, SourceOutcome(FetchSourceSpec(old(store.entries), url, response, now).result,
      FetchSourceSpec(old(store.entries), url, response, now).fetched, store.entries))
      == GetLineCountSpec(old(store.entries), url, response, now)
  {
    if url == "" {
      return None;
    }
    var r, _ := FetchSource(store, url, response, now);
    count := match r
      case Success(src) => Some(src.lineCount)
      case Failure(_) => None;
  }
}

