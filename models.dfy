/**
 * The catalog's record models and their text renderers: the `_lines`
 * caption/value builder, the `_strip_html` tag remover, the field validators,
 * and the `format_short` / `__str__` renderings of packages, options and
 * channels.
 */
module Models {
  import opened Wrappers
  import opened Strings

  /** A page of search results together with the number of matches before truncation. */
  datatype SearchResult<T> = SearchResult(items: seq<T>, total: nat)

  // ---------------------------------------------------------------------------
  // `_lines`
  // ---------------------------------------------------------------------------

  /** A value handed to `_lines`: a string or a list of strings. */
  datatype FieldValue = Text(text: string) | Items(items: seq<string>)

  datatype Field = Field(caption: string, value: FieldValue)

  /** The value `_lines` tests and prints; a list is first joined with ", ". */
  function Flatten(v: FieldValue): string {
    match v
    case Text(s) => s
    case Items(xs) => if xs != [] then Join(", ", xs) else ""
  }

  /** The line `_lines` emits for a field: "caption: value". */
  function Entry(f: Field): (line: string)
    ensures StartsWith(line, f.caption + ": ")
  {
    f.caption + ": " + Flatten(f.value)
  }

  /** The lines `_lines` collects: one per field whose value is non-empty, in argument order. */
  function Entries(fields: seq<Field>): (lines: seq<string>)
    ensures |lines| <= |fields|
  {
    if fields == [] then []
    else
      var last := fields[|fields| - 1];
      Entries(fields[..|fields| - 1]) + (if Flatten(last.value) != "" then [Entry(last)] else [])
  }

  /** `_lines(*fields)` as a value, for the renderers below. */
  function LinesOf(fields: seq<Field>): string {
    Join("\n", Entries(fields))
  }

  /** `_lines(*fields)`: collects the non-empty fields in a loop, then joins them with newlines. */
  method Lines(fields: seq<Field>) returns (r: string)
    ensures r == LinesOf(fields)
  {
    var result: seq<string> := [];
    for i := 0 to |fields|
      invariant result == Entries(fields[..i])
    {
      assert fields[..i + 1][..i] == fields[..i];
      var val := Flatten(fields[i].value);
      if val != "" {
        result := result + [fields[i].caption + ": " + val];
      }
    }
    assert fields[..|fields|] == fields;
    r := Join("\n", result);
  }

  /** Fields contribute their lines independently and in order. */
  lemma {:induction false} EntriesConcat(a: seq<Field>, b: seq<Field>)
    ensures Entries(a + b) == Entries(a) + Entries(b)
    decreases |b|
  {
    if b != [] {
      var b' := b[..|b| - 1];
      assert (a + b)[..|a + b| - 1] == a + b';
      assert (a + b)[|a + b| - 1] == b[|b| - 1];
      EntriesConcat(a, b');
    } else {
      assert a + b == a;
    }
  }

  /** The field list gives no line exactly when every value is empty. */
  lemma {:induction false} EntriesEmptyIff(fields: seq<Field>)
    ensures Entries(fields) == [] <==> forall i | 0 <= i < |fields| :: Flatten(fields[i].value) == ""
  {
    if fields != [] {
      var init, last := fields[..|fields| - 1], fields[|fields| - 1];
      EntriesEmptyIff(init);
      assert fields == init + [last];
      var allEmpty := forall i | 0 <= i < |init| :: Flatten(init[i].value) == "";
      if Entries(fields) == [] {
        assert Entries(init) == [] && Flatten(last.value) == "";
        forall i | 0 <= i < |fields|
          ensures Flatten(fields[i].value) == ""
        {
          if i < |init| {
            assert fields[i] == init[i];
          }
        }
      }
      if forall i | 0 <= i < |fields| :: Flatten(fields[i].value) == "" {
        assert Flatten(last.value) == "";
        assert allEmpty by {
          forall i | 0 <= i < |init|
            ensures Flatten(init[i].value) == ""
          {
            assert init[i] == fields[i];
          }
        }
      }
    }
  }

  /** `_lines` returns the empty string exactly when every value is empty (an empty list included). */
  lemma LinesOfEmptyIff(fields: seq<Field>)
    ensures LinesOf(fields) == "" <==> forall i | 0 <= i < |fields| :: Flatten(fields[i].value) == ""
  {
    EntriesEmptyIff(fields);
    var lines := Entries(fields);
    if lines != [] {
      EntriesNonEmpty(fields);
      JoinNonEmpty("\n", lines);
    }
  }

  /** Every collected line is non-empty: it starts with its caption and ": ". */
  lemma {:induction false} EntriesNonEmpty(fields: seq<Field>)
    ensures forall k | 0 <= k < |Entries(fields)| :: Entries(fields)[k] != ""
  {
    if fields != [] {
      EntriesNonEmpty(fields[..|fields| - 1]);
    }
  }

  /** No collected line holds a newline when no caption or value does. */
  lemma {:induction false} EntriesOneLine(fields: seq<Field>)
    requires forall i | 0 <= i < |fields| :: '\n' !in fields[i].caption && '\n' !in Flatten(fields[i].value)
    ensures forall k | 0 <= k < |Entries(fields)| :: '\n' !in Entries(fields)[k]
  {
    if fields != [] {
      var init := fields[..|fields| - 1];
      assert forall i | 0 <= i < |init| :: init[i] == fields[i];
      EntriesOneLine(init);
      var last := fields[|fields| - 1];
      assert '\n' !in Entry(last);
    }
  }

  /**
   * When no caption or value holds a newline, the lines of the `_lines` text are
   * exactly the collected "caption: value" lines.
   */
  lemma LinesOfSplit(fields: seq<Field>)
    requires forall i | 0 <= i < |fields| :: '\n' !in fields[i].caption && '\n' !in Flatten(fields[i].value)
    requires exists i | 0 <= i < |fields| :: Flatten(fields[i].value) != ""
    ensures Split(LinesOf(fields), '\n') == Entries(fields)
  {
    EntriesEmptyIff(fields);
    EntriesOneLine(fields);
    SplitJoinInverse(Entries(fields), '\n');
  }

  // ---------------------------------------------------------------------------
  // `_strip_html`
  // ---------------------------------------------------------------------------

  const RenderedHtmlOpen := "<rendered-html>"
  const RenderedHtmlClose := "</rendered-html>"

  /** Index of the first `c` in `s`, or `|s|` when there is none. */
  function IndexOfChar(s: string, c: char): (n: nat)
    ensures n <= |s|
    ensures forall k | 0 <= k < n :: s[k] != c
    ensures n < |s| ==> s[n] == c
  {
    if s == [] || s[0] == c then 0 else 1 + IndexOfChar(s[1..], c)
  }

  /** Length of the match of the pattern `<[^>]+>` at the start of `s`, or 0 when none starts there. */
  function TagAt(s: string): (n: nat)
    ensures n <= |s|
    ensures n > 0 ==> n >= 3 && s[0] == '<' && s[n - 1] == '>' && forall j | 1 <= j < n - 1 :: s[j] != '>'
    ensures n == 0 && s != [] && s[0] == '<' ==> forall j | 2 <= j < |s| :: s[1] == '>' || s[j] != '>'
  {
    if s != [] && s[0] == '<' then
      var k := IndexOfChar(s[1..], '>');
      if 1 <= k < |s| - 1 then k + 2 else 0
    else 0
  }

  /** Some match of `<[^>]+>` occurs in `s`. */
  predicate HasTag(s: string) {
    exists i | 0 <= i < |s| :: TagAt(s[i..]) > 0
  }

  /** `re.sub(r"<[^>]+>", "", s)`: deletes every match, scanning left to right. */
  function RemoveTags(s: string): string
    decreases |s|
  {
    if s == [] then []
    else
      var n := TagAt(s);
      if n > 0 then RemoveTags(s[n..]) else [s[0]] + RemoveTags(s[1..])
  }

  lemma {:induction false} RemoveTagsKeepsOut(s: string, c: char)
    requires c !in s
    ensures c !in RemoveTags(s)
    decreases |s|
  {
    if s != [] {
      var n := TagAt(s);
      if n > 0 {
        assert forall x | x in s[n..] :: x in s;
        RemoveTagsKeepsOut(s[n..], c);
      } else {
        assert forall x | x in s[1..] :: x in s;
        RemoveTagsKeepsOut(s[1..], c);
      }
    }
  }

  /** A match at the start of a string is still a match of the same length in any extension of it. */
  lemma TagAtExtends(t: string, u: string)
    requires t <= u && TagAt(t) > 0
    ensures TagAt(u) == TagAt(t)
  {
    var k := IndexOfChar(t[1..], '>');
    var m := IndexOfChar(u[1..], '>');
    assert t[1..][k] == '>' && u[1..][k] == '>';
  }

  /** A string without a match at its start has no prefix with one there. */
  lemma TagAtPrefix(t: string, u: string)
    requires t <= u
    ensures TagAt(u) == 0 ==> TagAt(t) == 0
  {
    if TagAt(t) > 0 {
      TagAtExtends(t, u);
    }
  }

  /** The result of `RemoveTags` holds no match of the pattern: one pass leaves none behind. */
  lemma {:induction false} RemoveTagsLeavesNoTag(s: string)
    ensures !HasTag(RemoveTags(s))
    decreases |s|
  {
    if s != [] {
      var n := TagAt(s);
      if n > 0 {
        RemoveTagsLeavesNoTag(s[n..]);
      } else {
        var rest := RemoveTags(s[1..]);
        RemoveTagsLeavesNoTag(s[1..]);
        var r := [s[0]] + rest;
        assert r == RemoveTags(s);
        assert TagAt(r) == 0 by {
          if s[0] == '<' && |s| >= 2 {
            if s[1] == '>' {
              assert rest == [s[1]] + RemoveTags(s[2..]);
              assert IndexOfChar(r[1..], '>') == 0;
            } else {
              assert '>' !in s[1..];
              RemoveTagsKeepsOut(s[1..], '>');
              assert r[1..] == rest;
            }
          }
        }
        forall i | 1 <= i < |r|
          ensures TagAt(r[i..]) == 0
        {
          assert r[i..] == rest[i - 1..];
        }
      }
    }
  }

  /** A slice of a string without matches has none either. */
  lemma SliceHasNoTag(x: string, i: nat, j: nat)
    requires i <= j <= |x| && !HasTag(x)
    ensures !HasTag(x[i..j])
  {
    forall p | 0 <= p < j - i
      ensures TagAt(x[i..j][p..]) == 0
    {
      assert x[i..j][p..] <= x[i + p..];
      TagAtPrefix(x[i..j][p..], x[i + p..]);
    }
  }

  /** The wrapper tag is itself a match of the pattern, so text without matches does not hold it. */
  lemma MarkerIsTag(x: string)
    ensures Contains(x, RenderedHtmlOpen) ==> HasTag(x)
  {
    if Contains(x, RenderedHtmlOpen) {
      MarkerIsTagAt(x);
    }
  }

  lemma MarkerIsTagAt(x: string)
    requires Contains(x, RenderedHtmlOpen)
    ensures HasTag(x)
  {
    var i :| 0 <= i <= |x| && RenderedHtmlOpen <= x[i..];
    var m := RenderedHtmlOpen;
    assert m[1..][13] == '>';
    assert forall k | 0 <= k < 13 :: m[1..][k] != '>';
    assert IndexOfChar(m[1..], '>') == 13;
    TagAtExtends(m, x[i..]);
  }

  /** Text without '<' holds no match and is kept whole. */
  lemma {:induction false} RemoveTagsPlain(s: string)
    requires '<' !in s
    ensures RemoveTags(s) == s
    decreases |s|
  {
    if s != [] {
      assert TagAt(s) == 0;
      assert forall x | x in s[1..] :: x in s;
      RemoveTagsPlain(s[1..]);
    }
  }

  /** Text before the first '<' is kept as it is. */
  lemma {:induction false} RemoveTagsKeepsLead(a: string, b: string)
    requires '<' !in a
    ensures RemoveTags(a + b) == a + RemoveTags(b)
    decreases |a|
  {
    if a != [] {
      assert (a + b)[0] == a[0] != '<';
      assert TagAt(a + b) == 0;
      assert (a + b)[1..] == a[1..] + b;
      assert '<' !in a[1..] by {
        assert forall x | x in a[1..] :: x in a;
      }
      RemoveTagsKeepsLead(a[1..], b);
      assert a == [a[0]] + a[1..];
    } else {
      assert a + b == b;
    }
  }

  /** A whole tag at the front is deleted and the scan goes on after it. */
  lemma RemoveTagsDropsTag(t: string, b: string)
    requires TagAt(t) == |t| > 0
    ensures RemoveTags(t + b) == RemoveTags(b)
  {
    TagAtExtends(t, t + b);
    assert (t + b)[|t|..] == b;
  }

  /** Deleting tags keeps the text around them: `a<tag>b` becomes `a` followed by `b` cleaned. */
  lemma RemoveTagsAround(a: string, t: string, b: string)
    requires '<' !in a && TagAt(t) == |t| > 0
    ensures RemoveTags(a + t + b) == a + RemoveTags(b)
  {
    assert a + t + b == a + (t + b);
    RemoveTagsKeepsLead(a, t + b);
    RemoveTagsDropsTag(t, b);
  }

  /** Deletes the "<rendered-html>" and "</rendered-html>" wrapper tags, every occurrence of each. */
  function Unwrap(text: string): string {
    Replace(Replace(text, RenderedHtmlOpen, ""), RenderedHtmlClose, "")
  }

  /** The wrapper around text without '<' is removed and the text is kept. */
  lemma UnwrapPlain(x: string)
    requires '<' !in x
    ensures Unwrap(RenderedHtmlOpen + x + RenderedHtmlClose) == x
  {
    UnwrapOpen(x);
    UnwrapClose(x);
  }

  /** The opening marker in front of plain text and the closing marker is removed. */
  lemma UnwrapOpen(x: string)
    requires '<' !in x
    ensures Replace(RenderedHtmlOpen + x + RenderedHtmlClose, RenderedHtmlOpen, "") == x + RenderedHtmlClose
  {
    MarkerShapes();
    DropLeadingPattern(RenderedHtmlOpen, x, RenderedHtmlClose);
  }

  /**
   * Removing a pattern that leads plain text and a tail it cannot start in
   * leaves the text and the tail.
   */
  lemma DropLeadingPattern(pat: string, x: string, tail: string)
    requires |pat| >= 2 && pat[0] !in x
    requires |tail| >= 2 && tail[1] != pat[1] && pat[0] !in tail[1..]
    ensures Replace(pat + x + tail, pat, "") == x + tail
  {
    assert pat + x + tail == pat + (x + tail);
    ReplaceHits(x + tail, pat, "");
    assert "" + Replace(x + tail, pat, "") == Replace(x + tail, pat, "");
    ReplaceSkips(x, tail, pat, "");
    assert tail + [] == tail;
    ReplaceSkipsLed(tail, [], pat, "");
  }

  /** The characters of the two markers the scans above look at. */
  lemma MarkerShapes()
    ensures |RenderedHtmlOpen| == 15 && RenderedHtmlOpen[0] == '<' && RenderedHtmlOpen[1] == 'r'
    ensures |RenderedHtmlClose| == 16 && RenderedHtmlClose[1] == '/' && '<' !in RenderedHtmlClose[1..]
  {
    assert RenderedHtmlClose[1..] == "/rendered-html>";
  }

  /** The closing marker after plain text is removed. */
  lemma UnwrapClose(x: string)
    requires '<' !in x
    ensures Replace(x + RenderedHtmlClose, RenderedHtmlClose, "") == x
  {
    var close := RenderedHtmlClose;
    ReplaceSkips(x, close, close, "");
    assert close + [] == close;
    ReplaceHits([], close, "");
  }

  /**
   * `_strip_html`: text carrying the "<rendered-html>" marker loses the wrapper
   * tags and every tag, then surrounding whitespace; other text only loses its
   * surrounding whitespace.
   */
  function StripHtml(text: string): (r: string)
    ensures Contains(text, RenderedHtmlOpen) ==> r == Strip(RemoveTags(Unwrap(text))) && !HasTag(r)
    ensures !Contains(text, RenderedHtmlOpen) ==> r == Strip(text)
  {
    if Contains(text, RenderedHtmlOpen) then
      var unwrapped := Unwrap(text);
      var untagged := RemoveTags(unwrapped);
      RemoveTagsLeavesNoTag(unwrapped);
      var r := Strip(untagged);
      var i, j :| 0 <= i <= j <= |untagged| && r == untagged[i..j];
      SliceHasNoTag(untagged, i, j);
      r
    else
      Strip(text)
  }

  /** Wrapped text without tags comes back stripped of its wrapper and surrounding whitespace only. */
  lemma StripHtmlWrapped(x: string)
    requires '<' !in x
    ensures StripHtml(RenderedHtmlOpen + x + RenderedHtmlClose) == Strip(x)
  {
    var text := RenderedHtmlOpen + x + RenderedHtmlClose;
    assert text == RenderedHtmlOpen + (x + RenderedHtmlClose);
    PrefixIsContained(text, RenderedHtmlOpen);
    UnwrapPlain(x);
    RemoveTagsPlain(x);
  }

  lemma StripIdempotent(s: string)
    ensures Strip(Strip(s)) == Strip(s)
  {
    var r := Strip(s);
    assert LeadingSpaces(r) == 0;
    assert TrailingSpaces(r) == 0;
  }

  /** Text cleaned from the marked form has no tag left, so cleaning it again only strips it again. */
  lemma StripHtmlIdempotentMarked(text: string)
    requires Contains(text, RenderedHtmlOpen)
    ensures StripHtml(StripHtml(text)) == StripHtml(text)
  {
    var r := StripHtml(text);
    MarkerIsTag(r);
    StripIdempotent(RemoveTags(Unwrap(text)));
  }

  /** Unmarked text stays unmarked once stripped, since stripping keeps a slice of it. */
  lemma StripHtmlIdempotentPlain(text: string)
    requires !Contains(text, RenderedHtmlOpen)
    ensures StripHtml(StripHtml(text)) == StripHtml(text)
  {
    var r := Strip(text);
    assert StripHtml(text) == r;
    SliceKeepsUnmarked(text, r);
    assert StripHtml(r) == Strip(r);
    StripIdempotent(text);
  }

  /** Stripping unmarked text cannot bring the marker in. */
  lemma SliceKeepsUnmarked(text: string, r: string)
    requires !Contains(text, RenderedHtmlOpen)
    requires exists i, j | 0 <= i <= j <= |text| :: r == text[i..j]
    ensures !Contains(r, RenderedHtmlOpen)
  {
    var i, j :| 0 <= i <= j <= |text| && r == text[i..j];
    if Contains(r, RenderedHtmlOpen) {
      assert r <= text[i..];
      ContainsTransitive(text, r, RenderedHtmlOpen);
    }
  }

  /** Cleaning an already cleaned description changes nothing. */
  lemma StripHtmlIdempotent(text: string)
    ensures StripHtml(StripHtml(text)) == StripHtml(text)
  {
    if Contains(text, RenderedHtmlOpen) {
      StripHtmlIdempotentMarked(text);
    } else {
      StripHtmlIdempotentPlain(text);
    }
  }

  // ---------------------------------------------------------------------------
  // Package
  // ---------------------------------------------------------------------------

  datatype Package = Package(name: string, version: string, description: string, homepage: string, licenses: seq<string>)

  /** The raw `homepage` value before validation: absent, one URL, or a list of URLs. */
  datatype RawHomepage = NoHomepage | HomepageText(text: string) | HomepageList(urls: seq<string>)

  /** `Package.extract_homepage`: a list gives its first URL, anything else itself, falsy values "". */
  function ExtractHomepage(v: RawHomepage): (r: string)
    ensures v.HomepageList? && v.urls != [] ==> r == v.urls[0]
    ensures v.HomepageText? ==> r == v.text
    ensures r != "" ==> (v.HomepageText? && r == v.text) || (v.HomepageList? && v.urls != [] && r == v.urls[0])
  {
    match v
    case HomepageList(urls) => if urls != [] then urls[0] else ""
    case HomepageText(s) => if s != "" then s else ""
    case NoHomepage => ""
  }

  /** `Package.format_short` */
  function PackageFormatShort(p: Package): (r: string)
    ensures StartsWith(r, "• " + p.name + " (" + p.version + ")")
    ensures p.description == "" <==> r == "• " + p.name + " (" + p.version + ")"
    ensures p.description != "" ==> r == "• " + p.name + " (" + p.version + ")" + "\n" + "  " + p.description
  {
    var lines := PackageShortLines(p);
    var r := Join("\n", lines);
    assert |lines| == 2 ==> lines[1..] == [lines[1]] && Join("\n", lines[1..]) == lines[1] && r == lines[0] + "\n" + lines[1];
    r
  }

  function PackageShortLines(p: Package): seq<string> {
    ["• " + p.name + " (" + p.version + ")"] + (if p.description != "" then ["  " + p.description] else [])
  }

  /**
   * When no field holds a newline, the listing is the "• name (version)" line,
   * followed by the indented description exactly when there is one.
   */
  lemma PackageFormatShortLines(p: Package)
    requires '\n' !in p.name && '\n' !in p.version && '\n' !in p.description
    ensures var lines := Split(PackageFormatShort(p), '\n');
      && lines[0] == "• " + p.name + " (" + p.version + ")"
      && |lines| == (if p.description != "" then 2 else 1)
      && (p.description != "" ==> lines[1] == "  " + p.description)
  {
    var lines := PackageShortLines(p);
    forall k | 0 <= k < |lines|
      ensures '\n' !in lines[k]
    {
    }
    SplitJoinInverse(lines, '\n');
  }

  /** `Package.__str__` */
  function PackageText(p: Package): string {
    LinesOf(PackageFields(p))
  }

  /** The captions and values `Package.__str__` hands to `_lines`. */
  function PackageFields(p: Package): seq<Field> {
    [
      Field("Package", Text(p.name)),
      Field("Version", Text(p.version)),
      Field("Description", Text(p.description)),
      Field("Homepage", Text(p.homepage)),
      Field("License", Items(p.licenses))
    ]
  }

  /** The details of a named package start with its "Package: name" line. */
  lemma PackageTextStartsWithName(p: Package)
    requires p.name != ""
    ensures StartsWith(PackageText(p), "Package: " + p.name)
  {
    LinesOfStartsWithFirst(PackageFields(p));
  }

  /**
   * When no value holds a newline and the licenses join to a non-empty value, the last line
   * of its details is "License: " and the licenses joined by ", ".
   */
  lemma PackageTextLicenseLine(p: Package)
    requires p.licenses != [] && Join(", ", p.licenses) != ""
    requires '\n' !in p.name && '\n' !in p.version && '\n' !in p.description && '\n' !in p.homepage
    requires '\n' !in Join(", ", p.licenses)
    ensures var lines := Split(PackageText(p), '\n');
      |lines| > 0 && lines[|lines| - 1] == "License: " + Join(", ", p.licenses)
  {
    var fields := PackageFields(p);
    forall i | 0 <= i < |fields|
      ensures '\n' !in fields[i].caption && '\n' !in Flatten(fields[i].value)
    {
      assert fields[i].caption in {"Package", "Version", "Description", "Homepage", "License"};
    }
    assert Flatten(fields[4].value) != "";
    LinesOfSplit(fields);
  }

  /** A package without licenses has no "License: " line: its details stop at the homepage field. */
  lemma PackageTextNoLicense(p: Package)
    requires p.licenses == []
    ensures PackageText(p) == LinesOf(PackageFields(p)[..4])
  {
    var fields := PackageFields(p);
    assert fields[..|fields| - 1] == fields[..4];
    assert Flatten(fields[4].value) == "";
    assert Entries(fields) == Entries(fields[..4]);
  }

  /** The `_lines` text of fields whose first value is set starts with that field's line. */
  lemma LinesOfStartsWithFirst(fields: seq<Field>)
    requires |fields| > 0 && Flatten(fields[0].value) != ""
    ensures StartsWith(LinesOf(fields), Entry(fields[0]))
  {
    assert fields == [fields[0]] + fields[1..];
    EntriesConcat([fields[0]], fields[1..]);
    assert Entries([fields[0]]) == [Entry(fields[0])];
    var lines := Entries(fields);
    if |lines| > 1 {
      assert lines == [lines[0]] + lines[1..];
    }
  }

  // ---------------------------------------------------------------------------
  // Option
  // ---------------------------------------------------------------------------

  /** The `Option` model shared by the NixOS, Home Manager, NixVim and nix-darwin catalogs. */
  datatype OptionRecord = OptionRecord(name: string, optionType: string, description: string, default: string, example: string)

  /** `coerce_none_to_str`: `None` becomes the empty string, any other value is kept. */
  function CoerceNoneToStr(v: Option<string>): (r: string)
    ensures v.None? ==> r == ""
    ensures v.Some? ==> r == v.value
  {
    match v
    case Some(s) => s
    case None => ""
  }

  /** `clean_description`: an empty description stays empty, any other is passed through `_strip_html`. */
  function CleanDescription(v: string): (r: string)
    ensures v == "" ==> r == ""
    ensures Contains(v, RenderedHtmlOpen) ==> r == Strip(RemoveTags(Unwrap(v))) && !HasTag(r)
    ensures !Contains(v, RenderedHtmlOpen) ==> r == Strip(v)
  {
    if v != "" then StripHtml(v) else ""
  }

  /** Builds an `Option` from raw fields, running its validators. */
  function NewOption(name: string, optionType: Option<string>, description: string, default: Option<string>, example: Option<string>): OptionRecord {
    OptionRecord(name, CoerceNoneToStr(optionType), CleanDescription(description), CoerceNoneToStr(default), CoerceNoneToStr(example))
  }

  /** Validating the fields of a validated `Option` again gives the same record. */
  lemma RevalidateOption(name: string, optionType: Option<string>, description: string, default: Option<string>, example: Option<string>)
    ensures var o := NewOption(name, optionType, description, default, example);
      NewOption(o.name, Some(o.optionType), o.description, Some(o.default), Some(o.example)) == o
  {
    if description != "" {
      StripHtmlIdempotent(description);
    }
  }

  function OptionShortLines(o: OptionRecord): seq<string> {
    ["• " + o.name]
    + (if o.optionType != "" then ["  Type: " + o.optionType] else [])
    + (if o.description != "" then ["  " + o.description] else [])
  }

  /** `Option.format_short` */
  function OptionFormatShort(o: OptionRecord): (r: string)
    ensures StartsWith(r, "• " + o.name)
  {
    var lines := OptionShortLines(o);
    assert |lines| >= 2 ==> lines == [lines[0]] + lines[1..];
    Join("\n", lines)
  }

  /**
   * When no field holds a newline, the listing has a "  Type: ..." line exactly
   * when the type is set and a description line exactly when the description is set.
   */
  lemma OptionFormatShortLines(o: OptionRecord)
    requires '\n' !in o.name && '\n' !in o.optionType && '\n' !in o.description
    ensures var lines := Split(OptionFormatShort(o), '\n');
      && lines[0] == "• " + o.name
      && |lines| == 1 + (if o.optionType != "" then 1 else 0) + (if o.description != "" then 1 else 0)
      && (o.optionType != "" ==> lines[1] == "  Type: " + o.optionType)
      && (o.description != "" ==> lines[|lines| - 1] == "  " + o.description)
  {
    var lines := OptionShortLines(o);
    forall k | 0 <= k < |lines|
      ensures '\n' !in lines[k]
    {
    }
    SplitJoinInverse(lines, '\n');
  }

  /** `Option.__str__` */
  function OptionText(o: OptionRecord): string {
    LinesOf(OptionFields(o.name, o.optionType, o.description, o.default, o.example))
  }

  /** The captions and values the `__str__` of an option hands to `_lines`. */
  function OptionFields(name: string, optionType: string, description: string, default: string, example: string): seq<Field> {
    [
      Field("Option", Text(name)),
      Field("Type", Text(optionType)),
      Field("Description", Text(description)),
      Field("Default", Text(default)),
      Field("Example", Text(example))
    ]
  }

  /** The details of a named option are never empty, and start with its "Option: name" line. */
  lemma OptionTextStartsWithName(o: OptionRecord)
    requires o.name != ""
    ensures StartsWith(OptionText(o), "Option: " + o.name)
  {
    LinesOfStartsWithFirst(OptionFields(o.name, o.optionType, o.description, o.default, o.example));
  }

  // ---------------------------------------------------------------------------
  // Channel
  // ---------------------------------------------------------------------------

  datatype Channel = Channel(id: string, branch: string, status: string, isDefault: bool)

  function ChannelLines(c: Channel): seq<string> {
    ["• " + c.id + (if c.isDefault then " (default)" else ""), "  Branch: " + c.branch]
    + (if c.status != "" then ["  Status: " + c.status] else [])
  }

  /** `Channel.__str__` */
  function ChannelText(c: Channel): (r: string)
    ensures StartsWith(r, "• " + c.id)
  {
    var lines := ChannelLines(c);
    assert lines == [lines[0]] + lines[1..];
    Join("\n", lines)
  }

  /**
   * When no field holds a newline, the entry's first line carries " (default)"
   * exactly for the default channel, and a Status line is present exactly when
   * the status is set.
   */
  lemma ChannelTextLines(c: Channel)
    requires '\n' !in c.id && '\n' !in c.branch && '\n' !in c.status
    ensures var lines := Split(ChannelText(c), '\n');
      && |lines| == (if c.status != "" then 3 else 2)
      && lines[0] == "• " + c.id + (if c.isDefault then " (default)" else "")
      && lines[1] == "  Branch: " + c.branch
      && (c.status != "" ==> lines[2] == "  Status: " + c.status)
  {
    var lines := ChannelLines(c);
    forall k | 0 <= k < |lines|
      ensures '\n' !in lines[k]
    {
    }
    SplitJoinInverse(lines, '\n');
  }
}
