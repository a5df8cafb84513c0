/**
 * The tools of the stand-alone NixOS search server. They follow the main
 * server's dispatch; only the error wording and the search headers differ.
 */
module NixosSearchTools {
  import opened Wrappers
  import opened Strings
  import opened Lists
  import opened Errors
  import Tools
  import NixNomad

  /** This server's `_format_error`: channel, release and limit errors have their own wording. */
  function FormatError(e: Error): (r: string)
    ensures StartsWith(r, "Error: ")
    ensures e.InvalidChannel? ==> r == "Error: " + ("Invalid channel '" + e.channel + "'. Available: " + Join(", ", e.available))
    ensures e.InvalidRelease? ==> r == "Error: " + ("Invalid release '" + e.release + "'. Available: " + Join(", ", e.available))
    ensures e.InvalidLimit? ==> r == "Error: " + "Limit must be 1-100"
    ensures !e.InvalidChannel? && !e.InvalidRelease? && !e.InvalidLimit? ==> r == "Error: " + Message(e)
  {
    "Error: " + match e
      case InvalidChannel(channel, available, _) => "Invalid channel '" + channel + "'. Available: " + Join(", ", available)
      case InvalidRelease(release, available, _) => "Invalid release '" + release + "'. Available: " + Join(", ", available)
      case InvalidLimit(_) => "Limit must be 1-100"
      case _ => Message(e)
  }

  /** The limit error's own message is never shown: every limit error reads the same. */
  lemma LimitWordingFixed(a: string, b: string)
    ensures FormatError(InvalidLimit(a)) == FormatError(InvalidLimit(b))
  {
  }

  /**
   * Where the two servers word an error differently: this one has no
   * wording of its own for a missing package.
   */
  lemma PackageNotFoundWordings(name: string)
    ensures FormatError(PackageNotFound(name)) != Tools.FormatError(PackageNotFound(name))
  {
    assert |Tools.FormatError(PackageNotFound(name))| == |FormatError(PackageNotFound(name))| + 10;
  }

  /** The first line of a non-empty result list: its length and the query. */
  function SearchHeader(count: nat, noun: string, query: string): (r: string)
    ensures StartsWith(r, "Found " + NatToString(count) + " ")
  {
    "Found " + NatToString(count) + " " + (noun + " matching '" + query + "':\n")
  }

  /**
   * A search tool of this server (`noun` is "packages", "options" or "Home
   * Manager options"): the backend's error, a not-found message, or a header
   * counting the results followed by their listings.
   */
  function SearchText<T>(noun: string, query: string, result: Result<seq<T>, Error>, short: T -> string): (r: string)
    ensures result.Failure? ==> r == FormatError(result.error)
    ensures result == Success([]) ==> r == "No " + noun + " found matching '" + query + "'"
    ensures result.Success? && result.value != [] ==>
      r == SearchHeader(|result.value|, noun, query) + Join("\n\n", Map(short, result.value))
  {
    match result
    case Failure(e) => FormatError(e)
    case Success(items) =>
      if items == [] then "No " + noun + " found matching '" + query + "'"
      else SearchHeader(|items|, noun, query) + Join("\n\n", Map(short, items))
  }

  /** The number in the header of a non-empty result list is the number of results. */
  lemma HeaderCountsResults<T>(noun: string, query: string, items: seq<T>, short: T -> string)
    requires items != []
    ensures var r := SearchText(noun, query, Success(items), short);
      var digits := NatToString(|items|);
      && StartsWith(r, "Found " + digits + " ")
      && ParseDigits(r[6..6 + |digits|]) == |items|
  {
    var r := SearchText(noun, query, Success(items), short);
    var digits := NatToString(|items|);
    assert r[6..6 + |digits|] == digits;
    NatToStringRoundTrip(|items|);
  }

  /** `*_get_option_details`: the main server's dispatch with this server's error wording. */
  function OptionDetails<T>(name: string, lookup: Result<Option<T>, Error>, children: Result<seq<T>, Error>,
                            details: T -> string, short: T -> string): (r: string)
    ensures lookup.Failure? ==> r == FormatError(lookup.error)
    ensures lookup.Success? && lookup.value.Some? ==> r == details(lookup.value.value)
    ensures lookup == Success(None) && children.Failure? ==> r == FormatError(children.error)
    ensures lookup == Success(None) && children.Success? && children.value != [] ==>
      r == Tools.ChildrenHeader(name, |children.value|) + Join("\n\n", Map(short, children.value))
    ensures lookup == Success(None) && children == Success([]) ==> r == Tools.NoOption(name)
  {
    Tools.ShowOption(name, lookup, children, details, short, FormatError)
  }

  /** When neither lookup fails, both servers give the same answer. */
  lemma SameAnswerWithoutErrors<T>(name: string, lookup: Option<T>, children: seq<T>, details: T -> string, short: T -> string)
    ensures OptionDetails(name, Success(lookup), Success(children), details, short)
         == Tools.ShowOption(name, Success(lookup), Success(children), details, short, Tools.FormatError)
  {
  }

  /** Over a catalog, a name that has children is listed with a header counting every option below it. */
  lemma CatalogOptionDetails(name: string, catalog: seq<NixNomad.NixNomadOption>, below: NixNomad.NixNomadOption)
    requires forall i | 0 <= i < |catalog| :: catalog[i].name != name
    requires below in catalog && StartsWith(below.name, name + ".")
    ensures StartsWith(
      OptionDetails(name, Success(NixNomad.GetOption(catalog, name)), Success(NixNomad.Children(name, catalog)),
        NixNomad.Details, NixNomad.FormatShort),
      Tools.ChildrenHeader(name, |NixNomad.Children(name, catalog)|))
  {
    Tools.CatalogChildren(name, catalog, below);
  }
}
