/** The location splitter of a roster scraper: `parse_city_country` reads
    "City[, Region], Country" and `standardize_country_name` turns the country
    part into an ISO 3166-1 country. The country registry (the pycountry
    library and its fuzzy search) is a function parameter of the model. */
module LocationParser {
  import opened Common
  import opened Text

  /** What `standardize_country_name` returns: the name and the three ISO
      codes, each code missing when the registry is not installed. */
  datatype CountryInfo = CountryInfo(name: string, alpha2: Option<string>, alpha3: Option<string>, numeric: Option<string>)

  /** The registry lookups tried in turn (exact name, alpha-2 code, alpha-3
      code, fuzzy search) on the alias-resolved country text. */
  type Registry = string -> Option<CountryInfo>

  /** Country names the registry does not know under that name, keyed by
      their upper-case spelling. */
  const CountryAliases: map<string, string> := map[
    "ENGLAND" := "United Kingdom",
    "SCOTLAND" := "United Kingdom",
    "WALES" := "United Kingdom",
    "NORTHERN IRELAND" := "United Kingdom",
    "REPUBLIC OF IRELAND" := "Ireland",
    "HOLLAND" := "Netherlands",
    "GREAT BRITAIN" := "United Kingdom",
    "UK" := "United Kingdom",
    "USA" := "United States",
    "US" := "United States",
    "UAE" := "United Arab Emirates"
  ]

  /** The text handed to the registry: the alias of the upper-cased text if
      it has one, the text itself otherwise. */
  function AliasResolved(clean: string): (r: string)
    ensures Upper(clean) in CountryAliases ==> r == CountryAliases[Upper(clean)]
    ensures Upper(clean) !in CountryAliases ==> r == clean
  {
    var key := Upper(clean);
    if key in CountryAliases then CountryAliases[key] else clean
  }

  /** `standardize_country_name(country)`: `None` for a missing, empty or
      blank country; without the registry, the stripped text and no codes;
      with it, whatever the registry gives for the alias-resolved text. */
  function StandardizeCountryName(country: Option<string>, available: bool, registry: Registry): (r: Option<CountryInfo>)
    ensures (country.None? || Strip(country.value) == []) ==> r.None?
    ensures country.Some? && Strip(country.value) != [] && !available ==>
              r == Some(CountryInfo(Strip(country.value), None, None, None))
    ensures country.Some? && Strip(country.value) != [] && available ==>
              r == registry(AliasResolved(Strip(country.value)))
  {
    if country.None? || country.value == [] then None
    else
      var clean := Strip(country.value);
      if clean == [] then None
      else if !available then Some(CountryInfo(clean, None, None, None))
      else registry(AliasResolved(clean))
  }

  /** Two spellings that differ only in case and surrounding whitespace and
      name an alias reach the registry as the same country. */
  lemma AliasIgnoresCase(a: string, b: string, registry: Registry)
    requires Strip(a) != [] && Strip(b) != []
    requires Upper(Strip(a)) == Upper(Strip(b)) && Upper(Strip(a)) in CountryAliases
    ensures StandardizeCountryName(Some(a), true, registry) == StandardizeCountryName(Some(b), true, registry)
    ensures StandardizeCountryName(Some(a), true, registry) == registry(CountryAliases[Upper(Strip(a))])
  {
  }

  /** "england" and "England" both reach the registry as "United Kingdom". */
  lemma EnglandIsUnitedKingdom(registry: Registry)
    ensures StandardizeCountryName(Some("england"), true, registry) == registry("United Kingdom")
    ensures StandardizeCountryName(Some("England"), true, registry) == registry("United Kingdom")
  {
    EnglandStandardized("england", registry);
    EnglandStandardized("England", registry);
  }

  lemma EnglandStandardized(s: string, registry: Registry)
    requires s == "england" || s == "England"
    ensures StandardizeCountryName(Some(s), true, registry) == registry("United Kingdom")
  {
    EnglandAlias(s);
  }

  lemma EnglandAlias(s: string)
    requires s == "england" || s == "England"
    ensures Strip(s) == s && Upper(s) == "ENGLAND" && AliasResolved(s) == "United Kingdom"
  {
    StripNoEdges(s);
    UpperEngland(s);
    EnglandKey(Upper(s));
  }

  lemma UpperEngland(s: string)
    requires s == "england" || s == "England"
    ensures Upper(s) == "ENGLAND"
  {
  }

  lemma EnglandKey(k: string)
    requires k == "ENGLAND"
    ensures k in CountryAliases && CountryAliases[k] == "United Kingdom"
  {
  }

  // ------------------------------------------------------------------
  // `parse_city_country`.

  /** The `country` entry: the registry's answer (possibly `None`) when
      asked to standardise, the raw text otherwise. */
  datatype CountryField = Standardized(info: Option<CountryInfo>) | Raw(text: string)

  datatype ParsedLocation = ParsedLocation(city: string, countryInput: string, country: CountryField)

  /** `[part.strip() for part in parts]`. */
  function StripEach(parts: seq<string>): (r: seq<string>)
    ensures |r| == |parts| && forall k :: 0 <= k < |parts| ==> r[k] == Strip(parts[k])
  {
    seq(|parts|, k requires 0 <= k < |parts| => Strip(parts[k]))
  }

  /** The comma-separated pieces of the stripped location, each stripped. */
  function Pieces(location: string): (parts: seq<string>)
    ensures |parts| == CountChar(Strip(location), ',') + 1
  {
    StripEach(Split(Strip(location), ','))
  }

  /** `parse_city_country(location, standardize)`: `None` for a missing or
      blank location, one without a comma, or one whose city or country
      part strips to nothing. */
  function ParseCityCountry(location: Option<string>, standardize: bool, available: bool, registry: Registry): (r: Option<ParsedLocation>)
    ensures (location.None? || Strip(location.value) == [] || ',' !in Strip(location.value)) ==> r.None?
    ensures r.Some? ==> r.value.city != [] && r.value.countryInput != []
  {
    if location.None? || location.value == [] then None
    else
      var clean := Strip(location.value);
      if clean == [] then None
      else
        var parts := StripEach(Split(clean, ','));
        if |parts| < 2 then None
        else
          var countryInput := parts[|parts| - 1];
          var city := CityPart(parts);
          if city == [] || countryInput == [] then None
          else
            Some(ParsedLocation(city, countryInput, CountryEntry(countryInput, standardize, available, registry)))
  }

  /** The `country` entry for the country text: the standardiser's answer
      when asked to standardise, the text itself otherwise. */
  function CountryEntry(countryInput: string, standardize: bool, available: bool, registry: Registry): (c: CountryField)
    ensures standardize <==> c.Standardized?
    ensures !standardize ==> c.text == countryInput
    ensures standardize && available && Strip(countryInput) != [] ==> c.info == registry(AliasResolved(Strip(countryInput)))
  {
    if standardize then Standardized(StandardizeCountryName(Some(countryInput), available, registry))
    else Raw(countryInput)
  }

  /** The city of "a, b, c" (each piece stripped) is the pieces before the
      last joined by ", ", which is the first piece alone when there are two. */
  function CityPart(parts: seq<string>): (city: string)
    requires |parts| >= 2
    ensures city == Join(parts[..|parts| - 1], ", ")
  {
    assert |parts| == 2 ==> parts[..|parts| - 1] == [parts[0]];
    if |parts| > 2 then Join(parts[..|parts| - 1], ", ") else parts[0]
  }

  /** A location with a comma is parsed exactly when the city part and the
      last piece are both non-empty; then the country text is the last
      piece, the city the pieces before it joined by ", ", and the country
      entry the raw text or the standardiser's answer for it. */
  lemma ParsedParts(location: string, standardize: bool, available: bool, registry: Registry)
    requires ',' in Strip(location)
    ensures var parts := Pieces(location);
            var r := ParseCityCountry(Some(location), standardize, available, registry);
            && |parts| >= 2
            && (r.Some? <==> Join(parts[..|parts| - 1], ", ") != [] && parts[|parts| - 1] != [])
            && (r.Some? ==> r.value.countryInput == parts[|parts| - 1])
            && (r.Some? ==> r.value.city == Join(parts[..|parts| - 1], ", "))
            && (r.Some? ==> r.value.country == CountryEntry(parts[|parts| - 1], standardize, available, registry))
  {
    CommaPieces(location);
    var parts := Pieces(location);
    ParseOf(location, standardize, available, registry, parts);
  }

  /** A location with a comma has at least two pieces. */
  lemma CommaPieces(location: string)
    requires ',' in Strip(location)
    ensures Strip(location) != [] && |Pieces(location)| >= 2
  {
  }

  /** The parse of a location with at least two pieces, read off the pieces. */
  lemma ParseOf(location: string, standardize: bool, available: bool, registry: Registry, parts: seq<string>)
    requires Strip(location) != [] && parts == Pieces(location) && |parts| >= 2
    ensures ParseCityCountry(Some(location), standardize, available, registry)
            == if CityPart(parts) == [] || parts[|parts| - 1] == [] then None
               else Some(ParsedLocation(CityPart(parts), parts[|parts| - 1],
                                        CountryEntry(parts[|parts| - 1], standardize, available, registry)))
  {
    assert location != [];
  }

  /** The pieces of a location that splits into two. */
  lemma TwoPieces(location: string, a: string, b: string)
    requires Strip(location) == location && Split(location, ',') == [a, b]
    ensures |Pieces(location)| == 2 && Pieces(location)[0] == Strip(a) && Pieces(location)[1] == Strip(b)
  {
  }

  /** City and country put back together are the stripped pieces of the
      input joined by ", ". */
  lemma {:induction false} CityCountryRejoin(location: string, standardize: bool, available: bool, registry: Registry)
    requires ParseCityCountry(Some(location), standardize, available, registry).Some?
    ensures var p := ParseCityCountry(Some(location), standardize, available, registry).value;
            p.city + ", " + p.countryInput == Join(Pieces(location), ", ")
  {
    var parts := Pieces(location);
    JoinAllButLast(parts, ", ");
  }

  /** A location without a comma, such as "Paris", is not parsed. */
  lemma NoCommaNoLocation(s: string, standardize: bool, available: bool, registry: Registry)
    requires s == "Paris"
    ensures ParseCityCountry(Some(s), standardize, available, registry).None?
  {
    assert Strip(s) == s by { StripNoEdges(s); }
    assert ',' !in s;
  }

  /** An empty city (", England") or an empty country ("London, ") is not
      parsed. */
  lemma EmptyCityOrCountry(standardize: bool, available: bool, registry: Registry)
    ensures ParseCityCountry(Some(", England"), standardize, available, registry).None?
    ensures ParseCityCountry(Some("London, "), standardize, available, registry).None?
  {
    EmptyCity(", England", standardize, available, registry);
    EmptyCountry("London, ", standardize, available, registry);
  }

  lemma EmptyCity(s: string, standardize: bool, available: bool, registry: Registry)
    requires s == ", England"
    ensures ParseCityCountry(Some(s), standardize, available, registry).None?
  {
    StripNoEdges(s);
    SplitPair(s, "", " England");
    ParseTwo(s, "", " England", standardize, available, registry);
    assert Strip("") == "";
  }

  lemma EmptyCountry(s: string, standardize: bool, available: bool, registry: Registry)
    requires s == "London, "
    ensures ParseCityCountry(Some(s), standardize, available, registry).None?
  {
    assert s == "London," + " ";
    StripTrailingSpace("London,", " ");
    TrailingComma(s, standardize, available, registry);
  }

  /** A location whose stripped text ends in a comma has an empty country
      part and is not parsed. */
  lemma TrailingComma(location: string, standardize: bool, available: bool, registry: Registry)
    requires Strip(location) != [] && Strip(location)[|Strip(location)| - 1] == ','
    ensures ParseCityCountry(Some(location), standardize, available, registry).None?
  {
    LastPieceEmpty(Strip(location));
  }

  /** Pieces of text ending in a comma: at least two, the last one empty. */
  lemma LastPieceEmpty(clean: string)
    requires clean != [] && clean[|clean| - 1] == ','
    ensures |StripEach(Split(clean, ','))| >= 2 && StripEach(Split(clean, ','))[|Split(clean, ',')| - 1] == ""
  {
    SplitLastSeparator(clean, ',');
    StripEachLastEmpty(Split(clean, ','));
  }

  /** Stripping each piece keeps an empty last piece empty. */
  lemma StripEachLastEmpty(pieces: seq<string>)
    requires |pieces| >= 2 && pieces[|pieces| - 1] == ""
    ensures |StripEach(pieces)| >= 2 && StripEach(pieces)[|pieces| - 1] == ""
  {
    StripEmpty();
  }

  /** Trailing whitespace after text that has none at its ends is stripped off. */
  lemma StripTrailingSpace(a: string, sp: string)
    requires |a| > 0 && !IsSpace(a[0]) && !IsSpace(a[|a| - 1]) && AllSpace(sp)
    ensures Strip(a + sp) == a
  {
    RStripAppendSpace(a, sp);
    LStripNoLeading(a);
  }

  lemma {:induction false} RStripAppendSpace(a: string, sp: string)
    requires |a| > 0 && !IsSpace(a[|a| - 1]) && AllSpace(sp)
    ensures RStrip(a + sp) == a
    decreases |sp|
  {
    if sp == [] {
      assert a + sp == a;
    } else {
      var s := a + sp;
      assert s[..|s| - 1] == a + sp[..|sp| - 1];
      RStripAppendSpace(a, sp[..|sp| - 1]);
    }
  }

  /** A string without the separator is one piece. */
  lemma {:induction false} SplitNoSeparator(s: string, sep: char)
    requires sep !in s
    ensures Split(s, sep) == [s]
    decreases |s|
  {
    if s != [] {
      SplitNoSeparator(s[1..], sep);
      assert s == [s[0]] + s[1..];
    }
  }

  /** A string ending in the separator has an empty last piece. */
  lemma {:induction false} SplitLastSeparator(s: string, sep: char)
    requires |s| > 0 && s[|s| - 1] == sep
    ensures |Split(s, sep)| >= 2 && Split(s, sep)[|Split(s, sep)| - 1] == ""
    decreases |s|
  {
    if |s| > 1 {
      SplitLastSeparator(s[1..], sep);
    }
  }

  /** "London, England" gives the city "London" and the country text
      "England"; without standardising, the country is that text. */
  lemma LondonEngland(registry: Registry)
    ensures var r := ParseCityCountry(Some("London, England"), false, true, registry);
            r == Some(ParsedLocation("London", "England", Raw("England")))
  {
    LondonEnglandAt("London, England", "London", " England", " ", "England", registry);
  }

  lemma LondonEnglandAt(s: string, a: string, b: string, sp: string, c: string, registry: Registry)
    requires s == "London, England" && a == "London" && b == " England" && sp == " " && c == "England"
    ensures ParseCityCountry(Some(s), false, true, registry) == Some(ParsedLocation(a, c, Raw(c)))
  {
    LondonEnglandSplit(s, a, b);
    ParseTwo(s, a, b, false, true, registry);
    LondonEnglandStripped(a, b, sp, c);
  }

  lemma LondonEnglandSplit(s: string, a: string, b: string)
    requires s == "London, England" && a == "London" && b == " England"
    ensures Strip(s) == s && Split(s, ',') == [a, b]
  {
    LondonEnglandText(s, a, b);
    StripNoEdges(s);
    SplitPair(s, a, b);
  }

  lemma LondonEnglandText(s: string, a: string, b: string)
    requires s == "London, England" && a == "London" && b == " England"
    ensures s == a + [','] + b && ',' !in a && ',' !in b
  {
  }

  lemma LondonEnglandStripped(a: string, b: string, sp: string, c: string)
    requires a == "London" && b == " England" && sp == " " && c == "England"
    ensures Strip(a) == a && Strip(b) == c
  {
    assert b == sp + c;
    StripNoEdges(a);
    StripLeadingSpace(sp, c);
  }

  /** A location made of two comma-free parts joined by a comma. */
  lemma ParseTwo(location: string, a: string, b: string, standardize: bool, available: bool, registry: Registry)
    requires Split(location, ',') == [a, b] && Strip(location) == location
    ensures ParseCityCountry(Some(location), standardize, available, registry)
            == if Strip(a) == [] || Strip(b) == [] then None
               else Some(ParsedLocation(Strip(a), Strip(b), CountryEntry(Strip(b), standardize, available, registry)))
  {
    TwoPieces(location, a, b);
    var parts := Pieces(location);
    assert CityPart(parts) == Strip(a) && parts[|parts| - 1] == Strip(b);
    ParseOf(location, standardize, available, registry, parts);
  }

  /** Leading whitespace before text that has none at its ends is stripped off. */
  lemma StripLeadingSpace(sp: string, a: string)
    requires |a| > 0 && !IsSpace(a[0]) && !IsSpace(a[|a| - 1]) && AllSpace(sp)
    ensures Strip(sp + a) == a
  {
    var s := sp + a;
    RStripNoTrailing(s);
    LStripPrefixSpace(sp, a);
  }

  lemma {:induction false} LStripPrefixSpace(sp: string, a: string)
    requires |a| > 0 && !IsSpace(a[0]) && AllSpace(sp)
    ensures LStrip(sp + a) == a
    decreases |sp|
  {
    if sp == [] {
      assert sp + a == a;
    } else {
      assert (sp + a)[1..] == sp[1..] + a;
      LStripPrefixSpace(sp[1..], a);
    }
  }

  /** A comma between two comma-free parts splits them apart. */
  lemma SplitPair(s: string, a: string, b: string)
    requires s == a + [','] + b && ',' !in a && ',' !in b
    ensures Split(s, ',') == [a, b]
  {
    SplitTwo(a, b, ',');
  }

  /** Two pieces without the separator, joined by it, split back apart. */
  lemma SplitTwo(a: string, b: string, sep: char)
    requires sep !in a && sep !in b
    ensures Split(a + [sep] + b, sep) == [a, b]
  {
    var s := a + [sep] + b;
    assert s[..|a|] == a && s[|a| + 1..] == b;
    SplitNoSeparator(b, sep);
    SplitAt(s, |a|, sep);
  }

  /** Splitting at the first separator. */
  lemma {:induction false} SplitAt(s: string, k: nat, sep: char)
    requires k < |s| && s[k] == sep && sep !in s[..k]
    ensures Split(s, sep) == [s[..k]] + Split(s[k + 1..], sep)
    decreases k
  {
    if k > 0 {
      var t, u, w := s[1..], s[1..k], s[k + 1..];
      FirstSlices(s, k, sep, t, u, w);
      SplitAt(t, k - 1, sep);
      SplitCons(s, sep, u, Split(w, sep));
    } else {
      assert Split(s, sep) == [""] + Split(s[1..], sep);
    }
  }

  /** The slices one step of `SplitAt` relates: the rest `t` after the first
      character, the part `u` of the first piece in it, and what `w` follows
      the separator. */
  lemma FirstSlices(s: string, k: nat, sep: char, t: string, u: string, w: string)
    requires 0 < k < |s| && s[k] == sep && sep !in s[..k]
    requires t == s[1..] && u == s[1..k] && w == s[k + 1..]
    ensures k - 1 < |t| && t[k - 1] == sep && t[..k - 1] == u && t[k..] == w
    ensures s[0] != sep && sep !in u && [s[0]] + u == s[..k]
  {
    assert s[0] == s[..k][0];
    forall j | 0 <= j < |u| ensures u[j] != sep {
      assert u[j] == s[..k][j + 1];
    }
  }

  /** One step of `Split` when the first character is not the separator: it
      joins the first piece of the rest. */
  lemma SplitCons(s: string, sep: char, first: string, more: seq<string>)
    requires s != [] && s[0] != sep && Split(s[1..], sep) == [first] + more
    ensures Split(s, sep) == [[s[0]] + first] + more
  {
    var rest := Split(s[1..], sep);
    assert rest[0] == first && rest[1..] == more;
  }
}
