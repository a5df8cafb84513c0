/**
 * The text the MCP tools answer with: error rendering, the headers of search
 * results, the exact-option-then-children dispatch of the option tools, and
 * the package-version listings. The search backends are parameters; the
 * option dispatch is also given over a catalog with the lookups of the
 * nix-nomad module.
 */
module Tools {
  import opened Wrappers
  import opened Strings
  import opened Lists
  import opened Errors
  import Models
  import NixNomad
  import Nixhub

  /** Every search tool asks its backend for at most this many results. */
  const SearchLimit := 20

  /** The error for a missing version previews this many available versions. */
  const VersionPreview := 5

  /** `list_package_versions` renders at most this many releases. */
  const VersionListLimit := 20

  /** The note that follows a cut-down preview of `n` versions. */
  function TotalNote(n: nat): string {
    ", ... (" + NatToString(n) + " total)"
  }

  /**
   * The available versions as `_format_error` shows them: the first five
   * joined by ", ", followed by the total when there are more than five.
   */
  function VersionsPreview(available: seq<string>): (r: string)
    ensures |available| <= VersionPreview ==> r == Join(", ", available)
    ensures |available| > VersionPreview ==>
      r == Join(", ", available[..VersionPreview]) + TotalNote(|available|)
  {
    if |available| > VersionPreview then Join(", ", available[..VersionPreview]) + TotalNote(|available|)
    else Join(", ", available)
  }

  /** The total in the note is the number of available versions, read back from its digits. */
  lemma PreviewReportsTotal(available: seq<string>)
    requires |available| > VersionPreview
    ensures var r := VersionsPreview(available);
      var head := Join(", ", available[..VersionPreview]) + ", ... (";
      && |r| >= |head| + 7
      && r[|r| - 7..] == " total)"
      && (forall k | |head| <= k < |r| - 7 :: '0' <= r[k] <= '9')
      && ParseDigits(r[|head|..|r| - 7]) == |available|
  {
    var r := VersionsPreview(available);
    var head := Join(", ", available[..VersionPreview]) + ", ... (";
    var digits := NatToString(|available|);
    assert r == head + digits + " total)";
    assert r[|head|..|r| - 7] == digits;
    NatToStringRoundTrip(|available|);
  }

  /** Each of the first five available versions appears in the preview. */
  lemma PreviewShowsFirstVersions(available: seq<string>, k: nat)
    requires k < |available| && k < VersionPreview
    ensures Contains(VersionsPreview(available), available[k])
  {
    if |available| > VersionPreview {
      var shown := available[..VersionPreview];
      JoinHolds(", ", shown, k);
      ContainsLeft(Join(", ", shown), TotalNote(|available|), available[k]);
    } else {
      JoinHolds(", ", available, k);
    }
  }

  /** A join holds each of its parts. */
  lemma {:induction false} JoinHolds(sep: string, parts: seq<string>, k: nat)
    requires k < |parts|
    ensures Contains(Join(sep, parts), parts[k])
  {
    if |parts| == 1 {
      PrefixIsContained(parts[0], parts[0]);
    } else if k == 0 {
      assert Join(sep, parts) == parts[0] + (sep + Join(sep, parts[1..]));
      PrefixIsContained(Join(sep, parts), parts[0]);
    } else {
      JoinHolds(sep, parts[1..], k - 1);
      assert Join(sep, parts) == (parts[0] + sep) + Join(sep, parts[1..]) + "";
      ContainsInfix(parts[0] + sep, Join(sep, parts[1..]), "");
      ContainsTransitive(Join(sep, parts), Join(sep, parts[1..]), parts[k]);
    }
  }

  /**
   * `_format_error` of the main server: the first of its exception classes
   * that matches chooses the wording, and anything else reads "Error: " and
   * the exception's message.
   */
  function FormatError(e: Error): (r: string)
    ensures StartsWith(r, "Error: ")
    ensures e.PackageNotFound? ==> r == "Error: " + ("Package '" + e.name + "' not found on nixhub")
    ensures e.VersionNotFound? ==>
      r == "Error: " + ("Version '" + e.version + "' not found for '" + e.name + "'. Available: " + VersionsPreview(e.available))
    ensures e.InvalidChannel? ==> r == "Error: " + ("Invalid channel '" + e.channel + "'. Available: " + Join(", ", e.available))
    ensures e.InvalidRelease? ==> r == "Error: " + ("Invalid release '" + e.release + "'. Available: " + Join(", ", e.available))
    ensures e.InvalidProject? ==> r == "Error: " + ("Invalid project '" + e.project + "'. Available: " + Join(", ", e.available))
    ensures e.ApiError? || e.InvalidLimit? ==> r == "Error: " + Message(e)
  {
    "Error: " + match e
      case InvalidChannel(channel, available, _) => "Invalid channel '" + channel + "'. Available: " + Join(", ", available)
      case InvalidRelease(release, available, _) => "Invalid release '" + release + "'. Available: " + Join(", ", available)
      case InvalidProject(project, available, _) => "Invalid project '" + project + "'. Available: " + Join(", ", available)
      case PackageNotFound(name) => "Package '" + name + "' not found on nixhub"
      case VersionNotFound(name, version, available) =>
        "Version '" + version + "' not found for '" + name + "'. Available: " + VersionsPreview(available)
      case _ => Message(e)
  }

  /**
   * The specific wording wins over the generic one: a missing package is
   * not rendered as "Error: " followed by its message.
   */
  lemma SpecificWordingFirst(name: string)
    ensures FormatError(PackageNotFound(name)) != "Error: " + Message(PackageNotFound(name))
  {
    var specific := FormatError(PackageNotFound(name));
    var generic := "Error: " + Message(PackageNotFound(name));
    assert |specific| == |generic| + 10;
  }

  /** The first line of a non-empty page of search results. */
  function SearchHeader(shown: nat, total: nat, noun: string): (r: string)
    ensures StartsWith(r, "Showing ") <==> total > shown
    ensures StartsWith(r, "Found ") <==> total <= shown
  {
    if total > shown then
      var r := "Showing " + (NatToString(shown) + " of " + NatToString(total) + " " + noun + ":\n");
      assert r[0] == 'S' && r[..8] == "Showing ";
      r
    else
      var r := "Found " + (NatToString(shown) + " " + noun + ":\n");
      assert r[0] == 'F' && r[..6] == "Found ";
      r
  }

  /**
   * The numbers in a cut-short header read back: "Showing" carries the page
   * length and then the total.
   */
  lemma ShowingHeaderCounts(shown: nat, total: nat, noun: string)
    requires total > shown
    ensures var r := SearchHeader(shown, total, noun);
      var a, b := NatToString(shown), NatToString(total);
      && StartsWith(r, "Showing " + a + " of " + b + " ")
      && ParseDigits(r[8..8 + |a|]) == shown
      && ParseDigits(r[12 + |a|..12 + |a| + |b|]) == total
  {
    var a, b := NatToString(shown), NatToString(total);
    ShowingHeaderIs(shown, total, noun);
    ShowingSlices(a, b, noun);
    NatToStringRoundTrip(shown);
    NatToStringRoundTrip(total);
  }

  /** A cut-short header, unfolded. */
  lemma ShowingHeaderIs(shown: nat, total: nat, noun: string)
    requires total > shown
    ensures SearchHeader(shown, total, noun) == "Showing " + (NatToString(shown) + " of " + NatToString(total) + " " + noun + ":\n")
  {
  }

  /** Where the two numbers sit in a "Showing" header. */
  lemma ShowingSlices(a: string, b: string, noun: string)
    ensures var r := "Showing " + (a + " of " + b + " " + noun + ":\n");
      && StartsWith(r, "Showing " + a + " of " + b + " ")
      && r[8..8 + |a|] == a
      && r[12 + |a|..12 + |a| + |b|] == b
  {
    var x := a + " of " + b + " " + noun + ":\n";
    assert x[..|a|] == a;
    assert x[|a| + 4..|a| + 4 + |b|] == b;
  }

  /** The number in a whole-page header reads back: "Found" carries the page length. */
  lemma FoundHeaderCounts(shown: nat, total: nat, noun: string)
    requires total <= shown
    ensures var r := SearchHeader(shown, total, noun);
      var a := NatToString(shown);
      && StartsWith(r, "Found " + a + " ")
      && ParseDigits(r[6..6 + |a|]) == shown
  {
    var r := SearchHeader(shown, total, noun);
    var a := NatToString(shown);
    assert r == "Found " + a + " " + noun + ":\n";
    assert r[6..6 + |a|] == a;
    NatToStringRoundTrip(shown);
  }

  /** The message of a search that found nothing. */
  function NothingFound(noun: string, query: string): (r: string)
    ensures StartsWith(r, "No ")
    ensures r == "No " + noun + " found matching '" + query + "'"
  {
    var r := "No " + (noun + " found matching '" + query + "'");
    assert r[..3] == "No ";
    r
  }

  /**
   * A search tool of the main server (`noun` is "packages", "options",
   * "Home Manager options", ...): the backend's error, a not-found message,
   * or a header saying whether the page was cut short, then the listings.
   */
  function SearchText<T>(noun: string, query: string, result: Result<Models.SearchResult<T>, Error>, short: T -> string): (r: string)
    ensures result.Failure? ==> r == FormatError(result.error)
    ensures result.Success? ==> (StartsWith(r, "No ") <==> result.value.items == [])
    ensures result.Success? && result.value.items == [] ==> r == "No " + noun + " found matching '" + query + "'"
    ensures result.Success? ==> (StartsWith(r, "Showing ") <==> result.value.items != [] && result.value.total > |result.value.items|)
    ensures result.Success? && result.value.items != [] ==>
      r == SearchHeader(|result.value.items|, result.value.total, noun) + Join("\n\n", Map(short, result.value.items))
  {
    match result
    case Failure(e) => FormatError(e)
    case Success(page) =>
      if page.items == [] then
        var r := NothingFound(noun, query);
        assert r[0] == 'N';
        r
      else
        var header := SearchHeader(|page.items|, page.total, noun);
        var r := header + Join("\n\n", Map(short, page.items));
        assert r[..|header|] == header;
        assert header[0] == 'S' || header[0] == 'F';
        assert StartsWith(r, "Showing ") <==> StartsWith(header, "Showing ") by {
          if StartsWith(r, "Showing ") || StartsWith(header, "Showing ") {
            assert |header| >= 8;
            assert r[..8] == header[..8];
          }
        }
        r
  }

  /** The page the nix-nomad search gives for `query` at the tools' limit. */
  function NixNomadPage(options: seq<NixNomad.NixNomadOption>, query: string): (page: Models.SearchResult<NixNomad.NixNomadOption>)
    ensures page.total == |NixNomad.Matches(Lower(query), options)|
    ensures |page.items| == if page.total < SearchLimit then page.total else SearchLimit
  {
    var total := |NixNomad.Matches(Lower(query), options)|;
    Models.SearchResult(NixNomad.OptionsOf(NixNomad.Ranked(Lower(query), options)[..SliceStop(SearchLimit, total)]), total)
  }

  /**
   * Over the nix-nomad search, the header says "Showing" exactly when more
   * than twenty options match, and "No ..." exactly when none does.
   */
  lemma NixNomadSearchHeader(options: seq<NixNomad.NixNomadOption>, query: string, noun: string)
    ensures var r := SearchText(noun, query, Success(NixNomadPage(options, query)), NixNomad.FormatShort);
      && (StartsWith(r, "Showing ") <==> |NixNomad.Matches(Lower(query), options)| > SearchLimit)
      && (StartsWith(r, "No ") <==> |NixNomad.Matches(Lower(query), options)| == 0)
  {
  }

  /** The first line of a listing of an option's children. */
  function ChildrenHeader(name: string, count: nat): string {
    "'" + name + "' has " + NatToString(count) + " child options:\n"
  }

  /** The answer when a name is neither an option nor a prefix of one. */
  function NoOption(name: string): string {
    "No option or children found for '" + name + "'"
  }

  /**
   * A `show_*_option` tool: the exact option's details when the backend has
   * one (its children are then not asked for); otherwise the children under
   * a header that counts them; otherwise a not-found message. A backend
   * error at either step is rendered with `formatError`.
   */
  function ShowOption<T>(name: string, lookup: Result<Option<T>, Error>, children: Result<seq<T>, Error>,
                         details: T -> string, short: T -> string, formatError: Error -> string): (r: string)
    ensures lookup.Failure? ==> r == formatError(lookup.error)
    ensures lookup.Success? && lookup.value.Some? ==> r == details(lookup.value.value)
    ensures lookup == Success(None) && children.Failure? ==> r == formatError(children.error)
    ensures lookup == Success(None) && children.Success? && children.value != [] ==>
      r == ChildrenHeader(name, |children.value|) + Join("\n\n", Map(short, children.value))
    ensures lookup == Success(None) && children == Success([]) ==> r == NoOption(name)
  {
    match lookup
    case Failure(e) => formatError(e)
    case Success(Some(o)) => details(o)
    case Success(None) =>
      match children
      case Failure(e) => formatError(e)
      case Success(cs) =>
        if cs == [] then NoOption(name)
        else ChildrenHeader(name, |cs|) + Join("\n\n", Map(short, cs))
  }

  /** An exact option is answered without regard to what the children lookup would give. */
  lemma ExactOptionIgnoresChildren<T>(name: string, o: T, c1: Result<seq<T>, Error>, c2: Result<seq<T>, Error>,
                                      details: T -> string, short: T -> string, formatError: Error -> string)
    ensures ShowOption(name, Success(Some(o)), c1, details, short, formatError) == details(o)
    ensures ShowOption(name, Success(Some(o)), c1, details, short, formatError)
         == ShowOption(name, Success(Some(o)), c2, details, short, formatError)
  {
  }

  /** The option tool over a catalog, with the nix-nomad lookups as its backend. */
  function ShowCatalogOption(name: string, catalog: seq<NixNomad.NixNomadOption>): string {
    ShowOption(name, Success(NixNomad.GetOption(catalog, name)), Success(NixNomad.Children(name, catalog)),
      NixNomad.Details, NixNomad.FormatShort, FormatError)
  }

  /** A name that is an option of the catalog is answered with that option's details. */
  lemma CatalogExactOption(name: string, catalog: seq<NixNomad.NixNomadOption>, o: NixNomad.NixNomadOption)
    requires NixNomad.NamesDistinct(catalog) && o in catalog && o.name == name
    ensures ShowCatalogOption(name, catalog) == NixNomad.Details(o)
  {
    NixNomad.GetOptionFindsRecord(catalog, o);
  }

  /**
   * A name that is no option but the dotted prefix of some is answered with
   * a header counting every option below it, at any depth.
   */
  lemma CatalogChildren(name: string, catalog: seq<NixNomad.NixNomadOption>, below: NixNomad.NixNomadOption)
    requires forall i | 0 <= i < |catalog| :: catalog[i].name != name
    requires below in catalog && StartsWith(below.name, name + ".")
    ensures StartsWith(ShowCatalogOption(name, catalog), ChildrenHeader(name, |NixNomad.Children(name, catalog)|))
    ensures below in NixNomad.Children(name, catalog)
  {
    NixNomad.ChildrenAreKept(name, catalog, below);
    NixNomad.KeptChild(name, catalog, below);
  }

  /** A name that is neither an option nor a dotted prefix of one is reported as not found. */
  lemma CatalogNotFound(name: string, catalog: seq<NixNomad.NixNomadOption>)
    requires forall i | 0 <= i < |catalog| :: catalog[i].name != name && !StartsWith(catalog[i].name, name + ".")
    ensures ShowCatalogOption(name, catalog) == NoOption(name)
  {
    var cs := NixNomad.Children(name, catalog);
    if cs != [] {
      var o := cs[0];
      NixNomad.ChildrenAreKept(name, catalog, o);
      NixNomad.KeptChild(name, catalog, o);
      assert false;
    }
  }

  /** The listing of a package's releases: all are counted, at most twenty are shown. */
  function ShownReleases(releases: seq<Nixhub.Release>): (shown: seq<Nixhub.Release>)
    ensures |shown| == if |releases| < VersionListLimit then |releases| else VersionListLimit
    ensures shown == releases[..|shown|]
  {
    releases[..if |releases| < VersionListLimit then |releases| else VersionListLimit]
  }

  /**
   * `list_package_versions`: the backend's error, a not-found message when
   * there are no releases, or a header with the number of all releases
   * followed by the listings of the first twenty.
   */
  function ListPackageVersions(name: string, releases: Result<seq<Nixhub.Release>, Error>, short: Nixhub.Release -> string): (r: string)
    ensures releases.Failure? ==> r == FormatError(releases.error)
    ensures releases == Success([]) ==> r == "No versions found for '" + name + "'"
    ensures releases.Success? && releases.value != [] ==>
      r == "Found " + NatToString(|releases.value|) + " versions for '" + name + "':\n"
        + Join("\n\n", Map(short, ShownReleases(releases.value)))
  {
    match releases
    case Failure(e) => FormatError(e)
    case Success(rs) =>
      if rs == [] then "No versions found for '" + name + "'"
      else "Found " + NatToString(|rs|) + " versions for '" + name + "':\n" + Join("\n\n", Map(short, ShownReleases(rs)))
  }

  /** `find_nixpkgs_commit_with_package_version`: the backend's error or the commit's rendering. */
  function FindCommitText(commit: Result<Nixhub.NixhubCommit, Error>, render: Nixhub.NixhubCommit -> string): (r: string)
    ensures commit.Failure? ==> r == FormatError(commit.error) && StartsWith(r, "Error: ")
    ensures commit.Success? ==> r == render(commit.value)
  {
    match commit
    case Failure(e) => FormatError(e)
    case Success(c) => render(c)
  }

  /**
   * A request for a version no release was built for answers with the
   * version-not-found wording and a preview of the listed versions.
   */
  lemma UnbuiltVersionText(name: string, version: string, releases: seq<Nixhub.Release>, render: Nixhub.NixhubCommit -> string)
    requires forall i | 0 <= i < |releases| :: !Nixhub.Answers(releases[i], version)
    ensures FindCommitText(Nixhub.GetCommit(name, version, releases), render)
      == "Error: " + ("Version '" + version + "' not found for '" + name + "'. Available: "
         + VersionsPreview(Nixhub.AvailableVersions(releases)))
  {
    assert Nixhub.GetCommit(name, version, releases)
      == Failure(VersionNotFound(name, version, Nixhub.AvailableVersions(releases)));
  }
}
