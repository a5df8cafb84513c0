/**
 * The nix-nomad option catalog: the option record and its listing, the
 * relevance search, the exact lookup and the subtree listing. The catalog is
 * the sequence of parsed records in the order the parser inserted them; the
 * parser keys them by name, so their names are distinct.
 */
module NixNomad {
  import opened Wrappers
  import opened Strings
  import opened Lists
  import Models

  /** Descriptions longer than this are cut in listings. */
  const DescriptionLimit := 120
  /** How many characters of a cut description are kept before "...". */
  const DescriptionKeep := 117

  datatype NixNomadOption = NixNomadOption(name: string, optionType: string, description: string, default: string, example: string)

  /** The catalog holds one record per name. */
  ghost predicate NamesDistinct(options: seq<NixNomadOption>) {
    forall i, j | 0 <= i < j < |options| :: options[i].name != options[j].name
  }

  // ---------------------------------------------------------------------------
  // Rendering
  // ---------------------------------------------------------------------------

  /** The description as shown in a listing: at most 120 characters, a longer one cut to 117 plus "...". */
  function Truncate(desc: string): (r: string)
    ensures |r| <= DescriptionLimit
    ensures |desc| <= DescriptionLimit ==> r == desc
    ensures |desc| > DescriptionLimit ==> StartsWith(r, desc[..DescriptionKeep]) && r[DescriptionKeep..] == "..."
  {
    if |desc| > DescriptionLimit then desc[..DescriptionKeep] + "..." else desc
  }

  function ShortLines(o: NixNomadOption): seq<string> {
    ["• " + o.name]
    + (if o.optionType != "" then ["  Type: " + o.optionType] else [])
    + (if o.description != "" then ["  " + Truncate(o.description)] else [])
  }

  /** `NixNomadOption.format_short` */
  function FormatShort(o: NixNomadOption): (r: string)
    ensures StartsWith(r, "• " + o.name)
  {
    var lines := ShortLines(o);
    assert |lines| >= 2 ==> lines == [lines[0]] + lines[1..];
    Join("\n", lines)
  }

  /**
   * When no field holds a newline, the listing's lines are the name line, a
   * Type line exactly when the type is set, and a description line of at most
   * 122 characters exactly when the description is set.
   */
  lemma FormatShortLines(o: NixNomadOption)
    requires '\n' !in o.name && '\n' !in o.optionType && '\n' !in o.description
    ensures var lines := Split(FormatShort(o), '\n');
      && |lines| == 1 + (if o.optionType != "" then 1 else 0) + (if o.description != "" then 1 else 0)
      && lines[0] == "• " + o.name
      && (o.optionType != "" ==> lines[1] == "  Type: " + o.optionType)
      && (o.description != "" ==> lines[|lines| - 1] == "  " + Truncate(o.description) && |lines[|lines| - 1]| <= 2 + DescriptionLimit)
  {
    var lines := ShortLines(o);
    if o.description != "" {
      var t := Truncate(o.description);
      assert '\n' !in t by {
        if |o.description| > DescriptionLimit {
          var kept := o.description[..DescriptionKeep];
          assert forall k | 0 <= k < |kept| :: kept[k] == o.description[k];
          assert t == kept + "...";
        }
      }
    }
    SplitJoinInverse(lines, '\n');
  }

  /** `NixNomadOption.__str__` */
  function Details(o: NixNomadOption): string {
    Models.LinesOf(Models.OptionFields(o.name, o.optionType, o.description, o.default, o.example))
  }

  /** The details of a named option start with its "Option: name" line. */
  lemma DetailsStartsWithName(o: NixNomadOption)
    requires o.name != ""
    ensures StartsWith(Details(o), "Option: " + o.name)
  {
    Models.LinesOfStartsWithFirst(Models.OptionFields(o.name, o.optionType, o.description, o.default, o.example));
  }

  /** The details are those of the catalog-wide option model with the same fields. */
  lemma DetailsAsOption(o: NixNomadOption)
    ensures Details(o) == Models.OptionText(Models.OptionRecord(o.name, o.optionType, o.description, o.default, o.example))
  {
  }

  // ---------------------------------------------------------------------------
  // Search
  // ---------------------------------------------------------------------------

  /**
   * The relevance of a record for an already lower-cased query: 1000 for an
   * equal name, else 100 for a name prefix, else 50 for a name substring, else
   * 10 for a description substring, else 0. Names and descriptions are
   * compared lower-cased.
   */
  function Score(q: string, o: NixNomadOption): (s: nat)
    ensures s == 0 || s == 10 || s == 50 || s == 100 || s == 1000
    ensures s == 1000 <==> q == Lower(o.name)
    ensures s >= 100 <==> StartsWith(Lower(o.name), q)
    ensures s >= 50 <==> Contains(Lower(o.name), q)
    ensures s > 0 <==> Contains(Lower(o.name), q) || Contains(Lower(o.description), q)
  {
    var nameLower := Lower(o.name);
    var descLower := Lower(o.description);
    if q == nameLower then
      assert q <= nameLower[0..];
      1000
    else if StartsWith(nameLower, q) then
      PrefixIsContained(nameLower, q);
      100
    else if Contains(nameLower, q) then 50
    else if Contains(descLower, q) then 10
    else 0
  }

  /** A kept record with its score. */
  datatype Scored = Scored(score: nat, option: NixNomadOption)

  /** What the scoring loop appends for one record: the record with its score, when positive. */
  function ScoreEntry(q: string): NixNomadOption -> Option<Scored> {
    (o: NixNomadOption) => if Score(q, o) > 0 then Some(Scored(Score(q, o), o)) else None
  }

  /** The scored records, in catalog order. */
  function Matches(q: string, options: seq<NixNomadOption>): seq<Scored> {
    Keep(ScoreEntry(q), options)
  }

  /** The sort key `(-score, name)`. */
  function RankKey(e: Scored): SortKey {
    SortKey(-(e.score as int), e.option.name)
  }

  /** The scored records in ranking order. */
  function Ranked(q: string, options: seq<NixNomadOption>): seq<Scored> {
    Sort(Matches(q, options), RankKey)
  }

  function OptionsOf(scored: seq<Scored>): (r: seq<NixNomadOption>)
    ensures |r| == |scored|
    ensures forall i | 0 <= i < |scored| :: r[i] == scored[i].option
  {
    seq(|scored|, i requires 0 <= i < |scored| => scored[i].option)
  }

  /**
   * `NixNomadSearch.search_options`: scores every record in a loop, sorts the
   * kept ones by `(-score, name)`, and returns the first `limit` of them with
   * the number kept.
   */
  method SearchOptions(options: seq<NixNomadOption>, query: string, limit: int) returns (result: Models.SearchResult<NixNomadOption>)
    ensures result.total == |Matches(Lower(query), options)|
    ensures result.items == OptionsOf(Ranked(Lower(query), options)[..SliceStop(limit, result.total)])
  {
    var q := Lower(query);
    var scored: seq<Scored> := [];
    for i := 0 to |options|
      invariant scored == Matches(q, options[..i])
    {
      assert options[..i + 1][..i] == options[..i];
      var opt := options[i];
      var score := Score(q, opt);
      if score > 0 {
        scored := scored + [Scored(score, opt)];
      }
    }
    assert options[..|options|] == options;
    scored := Sort(scored, RankKey);
    var stop := SliceStop(limit, |scored|);
    result := Models.SearchResult(OptionsOf(scored[..stop]), |scored|);
  }

  /** A record is scored exactly when it is in the catalog and matches, and it carries its own score. */
  lemma MatchesMember(q: string, options: seq<NixNomadOption>, e: Scored)
    ensures e in Matches(q, options) <==> e.option in options && e.score == Score(q, e.option) && e.score > 0
  {
    KeepMember(ScoreEntry(q), options, e);
    if e.option in options && e.score == Score(q, e.option) && e.score > 0 {
      var i :| 0 <= i < |options| && options[i] == e.option;
      assert ScoreEntry(q)(options[i]) == Some(e);
    }
  }

  /** The ranking holds exactly the matching records of the catalog, each with its score. */
  lemma RankedMember(q: string, options: seq<NixNomadOption>, e: Scored)
    ensures e in Ranked(q, options) <==> e.option in options && e.score == Score(q, e.option) && e.score > 0
  {
    SortSortedPermutation(Matches(q, options), RankKey);
    assert e in Ranked(q, options) <==> e in multiset(Ranked(q, options));
    MatchesMember(q, options, e);
  }

  /** Higher scores come first; equal scores are in ascending order of name. */
  lemma RankedOrder(q: string, options: seq<NixNomadOption>, i: nat, j: nat)
    requires i < j < |Ranked(q, options)|
    ensures var r := Ranked(q, options);
      && r[i].score >= r[j].score
      && (r[i].score == r[j].score ==> !Less(r[j].option.name, r[i].option.name))
  {
    SortSortedPermutation(Matches(q, options), RankKey);
  }

  /** When a record's name equals the query (case-insensitively), the first result is such a record. */
  lemma ExactNameRanksFirst(q: string, options: seq<NixNomadOption>, o: NixNomadOption)
    requires o in options && Lower(o.name) == q
    ensures |Ranked(q, options)| > 0 && Ranked(q, options)[0].score == 1000
    ensures Lower(Ranked(q, options)[0].option.name) == q
  {
    var r := Ranked(q, options);
    RankedMember(q, options, Scored(1000, o));
    var j :| 0 <= j < |r| && r[j] == Scored(1000, o);
    RankedMember(q, options, r[0]);
    if j > 0 {
      RankedOrder(q, options, 0, j);
    }
  }

  /** With an empty query every record matches, with score 100, or 1000 when its name is empty. */
  lemma EmptyQueryScore(o: NixNomadOption)
    ensures Score("", o) == if o.name == "" then 1000 else 100
  {
    assert "" <= Lower(o.name);
  }

  /** An empty query keeps the whole catalog: the total is the catalog's size. */
  lemma EmptyQueryMatchesAll(options: seq<NixNomadOption>)
    ensures |Matches("", options)| == |options|
  {
    forall i | 0 <= i < |options|
      ensures ScoreEntry("")(options[i]).Some?
    {
      EmptyQueryScore(options[i]);
    }
    KeepAll(ScoreEntry(""), options);
  }

  /** Over a catalog with one record per name, distinct ranked entries have distinct sort keys. */
  lemma RankKeysDistinct(q: string, options: seq<NixNomadOption>)
    requires NamesDistinct(options)
    ensures KeysDistinct(Ranked(q, options), RankKey)
  {
    var r := Ranked(q, options);
    forall i, j | 0 <= i < |r| && 0 <= j < |r| && r[i] != r[j]
      ensures RankKey(r[i]) != RankKey(r[j])
    {
      RankedMember(q, options, r[i]);
      RankedMember(q, options, r[j]);
      if r[i].option.name == r[j].option.name {
        SameNameSameOption(options, r[i].option, r[j].option);
      }
    }
  }

  lemma SameNameSameOption(options: seq<NixNomadOption>, a: NixNomadOption, b: NixNomadOption)
    requires NamesDistinct(options) && a in options && b in options && a.name == b.name
    ensures a == b
  {
    var i :| 0 <= i < |options| && options[i] == a;
    var j :| 0 <= j < |options| && options[j] == b;
  }

  /**
   * The ranking does not depend on the order in which the catalog was built:
   * two catalogs holding the same records rank them identically.
   */
  lemma RankedOrderIndependent(q: string, a: seq<NixNomadOption>, b: seq<NixNomadOption>)
    requires multiset(a) == multiset(b) && NamesDistinct(a)
    ensures Ranked(q, a) == Ranked(q, b)
  {
    KeepPermutation(ScoreEntry(q), a, b);
    SortSortedPermutation(Matches(q, a), RankKey);
    SortSortedPermutation(Matches(q, b), RankKey);
    RankKeysDistinct(q, a);
    assert multiset(Ranked(q, a)) == multiset(Matches(q, a)) == multiset(Matches(q, b)) == multiset(Ranked(q, b));
    SortedUnique(Ranked(q, a), Ranked(q, b), RankKey);
  }

  // ---------------------------------------------------------------------------
  // Lookup
  // ---------------------------------------------------------------------------

  /** `NixNomadSearch.get_option`: the record whose name is exactly `name`, compared case-sensitively. */
  function GetOption(options: seq<NixNomadOption>, name: string): (r: Option<NixNomadOption>)
    ensures r.Some? <==> exists i | 0 <= i < |options| :: options[i].name == name
    ensures r.Some? ==> r.value in options && r.value.name == name
  {
    if options == [] then None
    else if options[0].name == name then Some(options[0])
    else
      var r := GetOption(options[1..], name);
      assert forall i | 1 <= i < |options| :: options[i] == options[1..][i - 1];
      r
  }

  /** Looking up the name of a catalog record gives back that record. */
  lemma GetOptionFindsRecord(options: seq<NixNomadOption>, o: NixNomadOption)
    requires NamesDistinct(options) && o in options
    ensures GetOption(options, o.name) == Some(o)
  {
    var r := GetOption(options, o.name);
    assert exists i | 0 <= i < |options| :: options[i].name == o.name;
    SameNameSameOption(options, r.value, o);
  }

  /** What the children loop appends for one record: the record itself, when it lies under `prefix`. */
  function ChildOf(prefix: string): NixNomadOption -> Option<NixNomadOption> {
    (o: NixNomadOption) => if StartsWith(o.name, prefix + ".") then Some(o) else None
  }

  /** The sort key `name`. */
  function NameKey(o: NixNomadOption): SortKey {
    SortKey(0, o.name)
  }

  /** The records under `prefix`, in name order. */
  function Children(prefix: string, options: seq<NixNomadOption>): seq<NixNomadOption> {
    Sort(Keep(ChildOf(prefix), options), NameKey)
  }

  /** `NixNomadSearch.get_option_children`: collects the records under `prefix` in a loop, then sorts them by name. */
  method GetOptionChildren(options: seq<NixNomadOption>, prefix: string) returns (children: seq<NixNomadOption>)
    ensures children == Children(prefix, options)
  {
    var prefixDot := prefix + ".";
    children := [];
    for i := 0 to |options|
      invariant children == Keep(ChildOf(prefix), options[..i])
    {
      assert options[..i + 1][..i] == options[..i];
      if StartsWith(options[i].name, prefixDot) {
        children := children + [options[i]];
      }
    }
    assert options[..|options|] == options;
    children := Sort(children, NameKey);
  }

  /**
   * A record is listed under `prefix` exactly when it is in the catalog and its
   * name continues `prefix` with a dot: "services.nginxplus.enable" is not
   * under "services.nginx".
   */
  lemma ChildrenMember(prefix: string, options: seq<NixNomadOption>, o: NixNomadOption)
    ensures o in Children(prefix, options) <==>
      o in options && |o.name| > |prefix| && o.name[..|prefix|] == prefix && o.name[|prefix|] == '.'
  {
    ChildrenAreKept(prefix, options, o);
    KeptChild(prefix, options, o);
    DotPrefix(o.name, prefix);
  }

  lemma ChildrenAreKept(prefix: string, options: seq<NixNomadOption>, o: NixNomadOption)
    ensures o in Children(prefix, options) <==> o in Keep(ChildOf(prefix), options)
  {
    SortSortedPermutation(Keep(ChildOf(prefix), options), NameKey);
    assert o in Children(prefix, options) <==> o in multiset(Children(prefix, options));
  }

  lemma KeptChild(prefix: string, options: seq<NixNomadOption>, o: NixNomadOption)
    ensures o in Keep(ChildOf(prefix), options) <==> o in options && StartsWith(o.name, prefix + ".")
  {
    KeepMember(ChildOf(prefix), options, o);
    if o in options && StartsWith(o.name, prefix + ".") {
      var i :| 0 <= i < |options| && options[i] == o;
      assert ChildOf(prefix)(options[i]) == Some(o);
    }
  }

  /** A name continues `prefix` with a dot exactly when it starts with `prefix + "."`. */
  lemma DotPrefix(name: string, prefix: string)
    ensures StartsWith(name, prefix + ".") <==>
      |name| > |prefix| && name[..|prefix|] == prefix && name[|prefix|] == '.'
  {
    if |name| > |prefix| && name[..|prefix|] == prefix && name[|prefix|] == '.' {
      assert name[..|prefix| + 1] == prefix + ".";
    }
  }

  /** The listing is in ascending order of name. */
  lemma ChildrenSorted(prefix: string, options: seq<NixNomadOption>, i: nat, j: nat)
    requires i < j < |Children(prefix, options)|
    ensures !Less(Children(prefix, options)[j].name, Children(prefix, options)[i].name)
  {
    SortSortedPermutation(Keep(ChildOf(prefix), options), NameKey);
  }

  /** Descendants at every depth are listed: a record under a child of `prefix` is under `prefix` too. */
  lemma ChildrenAnyDepth(prefix: string, options: seq<NixNomadOption>, child: NixNomadOption, o: NixNomadOption)
    requires child in Children(prefix, options) && o in Children(child.name, options)
    ensures o in Children(prefix, options)
  {
    ChildrenMember(prefix, options, child);
    ChildrenMember(child.name, options, o);
    assert o.name[..|child.name|][..|prefix|] == child.name[..|prefix|];
    ChildrenMember(prefix, options, o);
  }

  /** The listing does not depend on the order in which the catalog was built. */
  lemma ChildrenOrderIndependent(prefix: string, a: seq<NixNomadOption>, b: seq<NixNomadOption>)
    requires multiset(a) == multiset(b) && NamesDistinct(a)
    ensures Children(prefix, a) == Children(prefix, b)
  {
    KeepPermutation(ChildOf(prefix), a, b);
    SortSortedPermutation(Keep(ChildOf(prefix), a), NameKey);
    SortSortedPermutation(Keep(ChildOf(prefix), b), NameKey);
    var c := Children(prefix, a);
    forall i, j | 0 <= i < |c| && 0 <= j < |c| && c[i] != c[j]
      ensures NameKey(c[i]) != NameKey(c[j])
    {
      ChildrenMember(prefix, a, c[i]);
      ChildrenMember(prefix, a, c[j]);
      if c[i].name == c[j].name {
        SameNameSameOption(a, c[i], c[j]);
      }
    }
    SortedUnique(c, Children(prefix, b), NameKey);
  }
}
