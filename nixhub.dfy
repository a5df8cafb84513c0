/**
 * Nixhub package lookups: the payload checks on a fetched package, the
 * cached fetch keyed "package:" + name, and the choice of the commit that
 * built a requested version. The HTTP response is a parameter; a JSON
 * payload is reduced to the fields the lookups read.
 */
module Nixhub {
  import opened Wrappers
  import opened Errors
  import opened Lists
  import Cache

  /** One platform build of a release; a missing key is `None`. */
  datatype Platform = Platform(attributePath: Option<string>, commitHash: Option<string>)

  /** One entry of the payload's "releases": its "version" (if any) and its "platforms" (missing reads as empty). */
  datatype Release = Release(version: Option<string>, platforms: seq<Platform>)

  /** The commit `get_commit` answers with. */
  datatype NixhubCommit = NixhubCommit(name: string, version: string, attributePath: string, commitHash: string)

  /** A decoded JSON payload: falsy (empty object, null, ...) or an object with or without "releases". */
  datatype Payload = Falsy | Object(releases: Option<seq<Release>>)

  /**
   * What the GET of the package page gives: a timeout, or a reply with its
   * status code, the text of the HTTP error raised for a 4xx/5xx status, and
   * its body decoded as JSON (`None` when it does not decode).
   */
  datatype NixhubResponse = TimedOut | Reply(status: int, errorText: string, json: Option<Payload>)

  /** The cache key of a package's payload. */
  function PackageKey(name: string): string {
    "package:" + name
  }

  /** Distinct packages never share a cached payload. */
  lemma PackageKeyInjective(a: string, b: string)
    requires PackageKey(a) == PackageKey(b)
    ensures a == b
  {
    assert a == PackageKey(a)[8..];
    assert b == PackageKey(b)[8..];
  }

  /**
   * The factory `fetch_package` hands to the cache: a 404 or a payload that is
   * falsy or lacks "releases" means the package does not exist; a timeout,
   * another error status or a body that is not JSON is an API error.
   */
  function FetchPackage(name: string, response: NixhubResponse): (r: Result<seq<Release>, Error>)
    ensures r.Success? <==>
      response.Reply? && !(400 <= response.status < 600) &&
      response.json.Some? && response.json.value.Object? && response.json.value.releases.Some?
    ensures r.Success? ==> r.value == response.json.value.releases.value
    ensures response.Reply? && response.status == 404 ==> r == Failure(PackageNotFound(name))
    ensures r.Failure? && !r.error.PackageNotFound? ==> r.error.ApiError?
    ensures (response.Reply? && !(400 <= response.status < 600) && response.json.Some? &&
             (response.json.value.Falsy? || response.json.value.releases.None?))
      ==> r == Failure(PackageNotFound(name))
    ensures (response.TimedOut? ||
             (response.Reply? && response.status != 404 && (400 <= response.status < 600 || response.json.None?)))
      ==> r.Failure? && r.error.ApiError?
    ensures r.Failure? && r.error.PackageNotFound? ==> r.error.name == name
  {
    match response
    case TimedOut => Failure(ApiError("Connection timed out fetching package from Nixhub"))
    case Reply(status, errorText, json) =>
      if status == 404 then Failure(PackageNotFound(name))
      else if 400 <= status < 600 then Failure(ApiError("Failed to fetch package from Nixhub: " + errorText))
      else match json
        case None => Failure(ApiError("Invalid JSON response from Nixhub"))
        case Some(Falsy) => Failure(PackageNotFound(name))
        case Some(Object(None)) => Failure(PackageNotFound(name))
        case Some(Object(Some(releases))) => Success(releases)
  }

  /** The result of `fetch_package`, whether the GET was made, and the "nixhub" namespace afterwards. */
  datatype PackageOutcome = PackageOutcome(result: Result<seq<Release>, Error>, fetched: bool, entries: map<string, Cache.Entry<seq<Release>>>)

  /** `fetch_package(name)`: the payload cached under `PackageKey(name)` for the default hour, fetched on a miss. */
  function FetchPackageSpec(entries: map<string, Cache.Entry<seq<Release>>>, name: string, response: NixhubResponse, now: int): (out: PackageOutcome)
    ensures Cache.Get(entries, PackageKey(name), now).Some? ==>
      out == PackageOutcome(Success(Cache.Get(entries, PackageKey(name), now).value), false, entries)
    ensures out.fetched <==> Cache.Get(entries, PackageKey(name), now).None?
    ensures out.fetched ==> out.result == FetchPackage(name, response)
    ensures out.result.Failure? ==> out.entries == entries
    ensures out.entries != entries ==>
      out.entries == entries[PackageKey(name) := Cache.Entry(Some(out.result.value), Some(now + Cache.DefaultExpire))]
  {
    var produced: Result<Option<seq<Release>>, Error> :=
      match FetchPackage(name, response)
      case Success(rs) => Success(Some(rs))
      case Failure(e) => Failure(e);
    var o := Cache.GetOrSetSpec(entries, PackageKey(name), produced, Some(Cache.DefaultExpire), now);
    var result: Result<seq<Release>, Error> :=
      match o.result
      case Success(v) => Success(v.value)
      case Failure(e) => Failure(e);
    PackageOutcome(result, o.called, o.entries)
  }

  /** A package that is not found is not remembered: the next request asks Nixhub again. */
  lemma NotFoundIsRefetched(entries: map<string, Cache.Entry<seq<Release>>>, name: string, response: NixhubResponse, again: NixhubResponse, now: int)
    requires FetchPackageSpec(entries, name, response, now).result == Failure(PackageNotFound(name))
    ensures var one := FetchPackageSpec(entries, name, response, now);
      one.entries == entries && FetchPackageSpec(one.entries, name, again, now).fetched
  {
    assert Cache.Get(entries, PackageKey(name), now).None?;
  }

  /** Looking up one package never changes what another package's entry serves. */
  lemma OtherPackagesUntouched(entries: map<string, Cache.Entry<seq<Release>>>, name: string, other: string, response: NixhubResponse, now: int, later: int)
    requires name != other
    ensures Cache.Get(FetchPackageSpec(entries, name, response, now).entries, PackageKey(other), later)
      == Cache.Get(entries, PackageKey(other), later)
  {
    if PackageKey(name) == PackageKey(other) {
      PackageKeyInjective(name, other);
    }
  }

  /** A release that answers a request for `version`: the same version, built on some platform. */
  predicate Answers(r: Release, version: string) {
    r.version == Some(version) && r.platforms != []
  }

  /** The index of the first release that answers `version`, if any. */
  function FirstAnswer(releases: seq<Release>, version: string): (k: Option<nat>)
    ensures k.Some? ==> k.value < |releases| && Answers(releases[k.value], version)
    ensures k.Some? ==> forall j | 0 <= j < k.value :: !Answers(releases[j], version)
    ensures k.None? ==> forall j | 0 <= j < |releases| :: !Answers(releases[j], version)
  {
    if releases == [] then None
    else if Answers(releases[0], version) then Some(0)
    else match FirstAnswer(releases[1..], version)
      case None => None
      case Some(i) => Some(i + 1)
  }

  /** A release's version when it is present and non-empty. */
  function ListedVersion(r: Release): Option<string> {
    if r.version.Some? && r.version.value != "" then Some(r.version.value) else None
  }

  /** The versions reported when a request fails: every non-empty version, in payload order. */
  function AvailableVersions(releases: seq<Release>): (vs: seq<string>)
    ensures |vs| <= |releases|
  {
    Keep(ListedVersion, releases)
  }

  /** A version is listed exactly when some release carries it and it is not empty. */
  lemma AvailableVersionsMember(releases: seq<Release>, v: string)
    ensures v in AvailableVersions(releases) <==> v != "" && exists i | 0 <= i < |releases| :: releases[i].version == Some(v)
  {
    KeepMember(ListedVersion, releases, v);
    if v in AvailableVersions(releases) {
      var i :| 0 <= i < |releases| && ListedVersion(releases[i]) == Some(v);
      assert releases[i].version == Some(v);
    }
    if v != "" && exists i | 0 <= i < |releases| :: releases[i].version == Some(v) {
      var i :| 0 <= i < |releases| && releases[i].version == Some(v);
      assert ListedVersion(releases[i]) == Some(v);
    }
  }

  /** The versions of releases appended later are listed after the earlier ones. */
  lemma AvailableVersionsConcat(a: seq<Release>, b: seq<Release>)
    ensures AvailableVersions(a + b) == AvailableVersions(a) + AvailableVersions(b)
  {
    KeepConcat(ListedVersion, a, b);
  }

  /**
   * `get_commit(name, version)` over the fetched releases: the first
   * platform of the first release that answers the request, with a missing
   * attribute path or commit hash read as ""; when none answers, the
   * version is not found and the listed versions are reported.
   */
  function GetCommit(name: string, version: string, releases: seq<Release>): (r: Result<NixhubCommit, Error>)
    ensures r.Success? <==> exists i | 0 <= i < |releases| :: Answers(releases[i], version)
    ensures r.Success? ==> exists k | 0 <= k < |releases| ::
      Answers(releases[k], version) &&
      (forall j | 0 <= j < k :: !Answers(releases[j], version)) &&
      r.value == NixhubCommit(name, version,
        releases[k].platforms[0].attributePath.GetOr(""), releases[k].platforms[0].commitHash.GetOr(""))
    ensures r.Failure? ==> r.error == VersionNotFound(name, version, AvailableVersions(releases))
  {
    match FirstAnswer(releases, version)
    case None => Failure(VersionNotFound(name, version, AvailableVersions(releases)))
    case Some(k) =>
      var p := releases[k].platforms[0];
      Success(NixhubCommit(name, version, p.attributePath.GetOr(""), p.commitHash.GetOr("")))
  }

  /** A release of the requested version with no platforms is passed over in favour of a later one. */
  lemma EmptyPlatformsSkipped(name: string, version: string, skipped: Release, rest: seq<Release>)
    requires skipped.version == Some(version) && skipped.platforms == []
    ensures GetCommit(name, version, [skipped] + rest).Success? == GetCommit(name, version, rest).Success?
    ensures GetCommit(name, version, [skipped] + rest).Success? ==>
      GetCommit(name, version, [skipped] + rest) == GetCommit(name, version, rest)
  {
    assert ([skipped] + rest)[1..] == rest;
  }

  /**
   * A version that is only ever published without platforms is reported as
   * not found even though it is among the versions listed as available.
   */
  lemma ListedButNotBuilt(name: string, version: string)
    requires version != ""
    ensures var r := GetCommit(name, version, [Release(Some(version), [])]);
      r.Failure? && r.error.available == [version]
  {
  }

  /** Matching is exact: a request that differs from every release's version is never answered. */
  lemma UnknownVersionNotFound(name: string, version: string, releases: seq<Release>)
    requires forall i | 0 <= i < |releases| :: releases[i].version != Some(version)
    ensures GetCommit(name, version, releases).Failure?
    ensures version != "" ==> version !in GetCommit(name, version, releases).error.available
  {
    if version != "" {
      AvailableVersionsMember(releases, version);
    }
  }

  /** `get_versions(name)`: one release per payload entry, in payload order, against the module's "nixhub" store. */
  method GetVersions(store: Cache.Store<seq<Release>>, name: string, response: NixhubResponse, now: int)
    returns (r: Result<seq<Release>, Error>, fetched: bool)
    modifies store
    ensures PackageOutcome(r, fetched, store.entries) == FetchPackageSpec(old(store.entries), name, response, now)
  {
    var produced: Result<Option<seq<Release>>, Error> :=
      match FetchPackage(name, response)
      case Success(rs) => Success(Some(rs))
      case Failure(e) => Failure(e);
    var value;
    value, fetched := store.GetOrSet(PackageKey(name), produced, Some(Cache.DefaultExpire), now);
    r := match value
      case Success(v) => Success(v.value)
      case Failure(e) => Failure(e);
  }

  /** `get_commit(name, version)` against the module's "nixhub" store. */
  method FindCommit(store: Cache.Store<seq<Release>>, name: string, version: string, response: NixhubResponse, now: int)
    returns (r: Result<NixhubCommit, Error>)
    modifies store
    ensures var out := FetchPackageSpec(old(store.entries), name, response, now);
      store.entries == out.entries &&
      r == match out.result
        case Success(releases) => GetCommit(name, version, releases)
        case Failure(e) => Failure(e)
  {
    var releases, _ := GetVersions(store, name, response, now);
    r := match releases
      case Success(rs) => GetCommit(name, version, rs)
      case Failure(e) => Failure(e);
  }
}
