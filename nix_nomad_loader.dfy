/**
 * Where the nix-nomad catalog comes from on each request: the parsed copy held
 * in memory, the page saved on disk, or a fresh download. Time is whole
 * seconds on one clock; the download and the HTML parser are parameters.
 */
module NixNomadLoader {
  import opened Wrappers
  import opened Errors
  import opened NixNomad

  /** Both the in-memory copy and the saved page are trusted for one hour. */
  const CacheMaxAgeSeconds := 3600

  /** The metadata file saved next to the page: missing, unreadable, or a JSON object with an optional timestamp. */
  datatype MetaFile = MetaAbsent | MetaUnreadable | MetaStamped(cachedAt: Option<int>)

  /** The module's two globals, and the two files of the cache directory. */
  datatype LoaderState = LoaderState(
    options: Option<seq<NixNomadOption>>,
    loadedAt: int,
    diskHtml: Option<string>,
    diskMeta: MetaFile)

  datatype LoadOutcome = LoadOutcome(result: Result<seq<NixNomadOption>, Error>, fetched: bool, state: LoaderState)

  /** The in-memory copy is reused when it exists and is less than an hour old. */
  predicate MemoryFresh(st: LoaderState, now: int) {
    st.options.Some? && now - st.loadedAt < CacheMaxAgeSeconds
  }

  /**
   * `_load_cached_html`: the saved page, unless a file is missing, the
   * metadata is unreadable, or the page is more than an hour old (a missing
   * timestamp counts as 0).
   */
  function LoadCachedHtml(html: Option<string>, meta: MetaFile, now: int): (r: Option<string>)
    ensures r.Some? <==> html.Some? && meta.MetaStamped? && now - meta.cachedAt.GetOr(0) <= CacheMaxAgeSeconds
    ensures r.Some? ==> r == html
  {
    if html.None? then None
    else match meta
      case MetaAbsent => None
      case MetaUnreadable => None
      case MetaStamped(cachedAt) =>
        if now - cachedAt.GetOr(0) > CacheMaxAgeSeconds then None else html
  }

  /**
   * `_get_options`: the in-memory copy while it is fresh; otherwise the saved
   * page or, failing that, a download that is saved before anything else
   * changes; the page is then parsed and becomes the in-memory copy.
   */
  function Load(st: LoaderState, now: int, download: Result<string, Error>, parse: string -> seq<NixNomadOption>): (out: LoadOutcome)
    ensures out.result.Failure? ==> out.fetched && download.Failure? && out.state == st
    ensures out.result.Success? ==> out.state.options == Some(out.result.value) && now - out.state.loadedAt < CacheMaxAgeSeconds
    ensures out.fetched <==> !MemoryFresh(st, now) && LoadCachedHtml(st.diskHtml, st.diskMeta, now).None?
    ensures !out.fetched ==> out.state.diskHtml == st.diskHtml && out.state.diskMeta == st.diskMeta
    ensures MemoryFresh(st, now) ==> out == LoadOutcome(Success(st.options.value), false, st)
    ensures !MemoryFresh(st, now) && LoadCachedHtml(st.diskHtml, st.diskMeta, now).Some? ==>
      out.result == Success(parse(LoadCachedHtml(st.diskHtml, st.diskMeta, now).value)) && out.state.loadedAt == now
    ensures out.fetched && download.Success? ==>
      && out.result == Success(parse(download.value))
      && out.state == LoaderState(Some(parse(download.value)), now, Some(download.value), MetaStamped(Some(now)))
  {
    if MemoryFresh(st, now) then
      LoadOutcome(Success(st.options.value), false, st)
    else
      match LoadCachedHtml(st.diskHtml, st.diskMeta, now)
      case Some(html) =>
        var options := parse(html);
        LoadOutcome(Success(options), false, st.(options := Some(options), loadedAt := now))
      case None =>
        match download
        case Failure(e) => LoadOutcome(Failure(e), true, st)
        case Success(html) =>
          var options := parse(html);
          LoadOutcome(Success(options), true,
            LoaderState(Some(options), now, Some(html), MetaStamped(Some(now))))
  }

  /** A successful load is served again, unchanged and without a download, for the rest of the hour. */
  lemma ReusedWithinTheHour(st: LoaderState, now: int, later: int, download: Result<string, Error>, again: Result<string, Error>, parse: string -> seq<NixNomadOption>)
    requires Load(st, now, download, parse).result.Success?
    requires later - Load(st, now, download, parse).state.loadedAt < CacheMaxAgeSeconds
    ensures var first := Load(st, now, download, parse);
      Load(first.state, later, again, parse) == LoadOutcome(first.result, false, first.state)
  {
  }

  /** A failing download changes neither the globals nor the files, so the next request tries again. */
  lemma FailedDownloadRetried(st: LoaderState, now: int, download: Result<string, Error>, again: Result<string, Error>, parse: string -> seq<NixNomadOption>)
    requires Load(st, now, download, parse).result.Failure?
    ensures Load(st, now, again, parse).fetched
  {
  }

  /**
   * A downloaded page is saved with its time: a process that starts afresh
   * within the hour (nothing in memory) parses the saved page instead of
   * downloading it again.
   */
  lemma SavedPageServedAfterRestart(st: LoaderState, now: int, later: int, download: Result<string, Error>, again: Result<string, Error>, parse: string -> seq<NixNomadOption>)
    requires Load(st, now, download, parse).fetched && download.Success?
    requires later <= now + CacheMaxAgeSeconds
    ensures var restarted := Load(st, now, download, parse).state.(options := None);
      Load(restarted, later, again, parse).result == Success(parse(download.value))
      && !Load(restarted, later, again, parse).fetched
  {
  }

  /**
   * The two freshness tests differ at their boundary: a copy exactly one hour
   * old is stale in memory (strict `<`) but still served from disk (strict `>`).
   */
  lemma BoundariesDiffer(st: LoaderState, html: string, t: int)
    requires st.options.Some? && st.loadedAt == t
    ensures !MemoryFresh(st, t + CacheMaxAgeSeconds)
    ensures LoadCachedHtml(Some(html), MetaStamped(Some(t)), t + CacheMaxAgeSeconds) == Some(html)
    ensures LoadCachedHtml(Some(html), MetaStamped(Some(t)), t + CacheMaxAgeSeconds + 1) == None
  {
  }

  /** The process's loader: the two module globals and the cache directory's two files. */
  class OptionsLoader {
    var options: Option<seq<NixNomadOption>>
    var loadedAt: int
    var diskHtml: Option<string>
    var diskMeta: MetaFile

    function State(): LoaderState
      reads this
    {
      LoaderState(options, loadedAt, diskHtml, diskMeta)
    }

    /** A process starts with nothing in memory and whatever the cache directory holds. */
    constructor (html: Option<string>, meta: MetaFile)
      ensures State() == LoaderState(None, 0, html, meta)
    {
      options := None;
      loadedAt := 0;
      diskHtml := html;
      diskMeta := meta;
    }

    /** `_get_options`, changing the globals and the files as `Load` describes. */
    method GetOptions(now: int, download: Result<string, Error>, parse: string -> seq<NixNomadOption>)
      returns (r: Result<seq<NixNomadOption>, Error>, fetched: bool)
      modifies this
      ensures LoadOutcome(r, fetched, State()) == Load(old(State()), now, download, parse)
    {
      if options.Some? && now - loadedAt < CacheMaxAgeSeconds {
        return Success(options.value), false;
      }
      var html := LoadCachedHtml(diskHtml, diskMeta, now);
      fetched := html.None?;
      if html.None? {
        if download.Failure? {
          return Failure(download.error), true;
        }
        html := Some(download.value);
        diskHtml := html;
        diskMeta := MetaStamped(Some(now));
      }
      var parsed := parse(html.value);
      options := Some(parsed);
      loadedAt := now;
      r := Success(parsed);
    }
  }
}
