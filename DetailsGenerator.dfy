/**
 * `DetailsGenerator`: the package-details document. Header fields come first
 * in header-map order, then `slug`, `last_updated` and `download_link`; the
 * variant's own data replaces or extends that (array_replace), and
 * array_filter drops every falsy value. The document is built once and kept.
 * The clock is a parameter: `now` is the already formatted `date()` string.
 */
module DetailsGenerator {
  import opened Wrappers
  import opened PhpArray
  import opened HeaderExtraction
  import opened SectionParsing
  import opened GeneratorInputs
  import PluginDetails
  import ThemeDetails

  /** Which generator: a plugin, or a theme with the slug its constructor stored. */
  datatype Variant = Plugin | Theme(slug: string)

  /** `header_map()` of the variant. */
  function HeaderMap(v: Variant): Dict<string> {
    match v
    case Plugin => PluginDetails.HeaderMap
    case Theme(_) => ThemeDetails.HeaderMap
  }

  /** `slug()` of the variant. */
  function Slug(v: Variant, inputs: Inputs): string {
    match v
    case Plugin => PluginDetails.Slug(inputs)
    case Theme(slug) => slug
  }

  /** The one key `additional_data()` contributes. */
  function VariantKey(v: Variant): string {
    match v
    case Plugin => "sections"
    case Theme(_) => "description"
  }

  /** `additional_data()` of the variant. */
  function AdditionalData(v: Variant, inputs: Inputs): (d: Dict<Value>)
    ensures Keys(d) == [VariantKey(v)]
  {
    match v
    case Plugin => PluginDetails.AdditionalData(ReadmeText(inputs.readme))
    case Theme(_) => ThemeDetails.AdditionalData(ReadmeText(inputs.readme))
  }

  /** `additional_data()` given the readme's section array. */
  function VariantData(v: Variant, sections: Dict<string>): Dict<Value> {
    match v
    case Plugin => [("sections", Arr(sections))]
    case Theme(_) => [("description", Str(Get(sections, "Description").GetOr("")))]
  }

  lemma VariantDataIsAdditional(v: Variant, inputs: Inputs)
    ensures VariantData(v, Sections(ReadmeText(inputs.readme))) == AdditionalData(v, inputs)
  {
  }

  /** The keys `common_data()` adds after the headers. */
  const FixedKeys: seq<string> := ["slug", "last_updated", "download_link"]

  /** Every key the document can have, in document order. */
  function DocumentKeys(v: Variant): seq<string> {
    Keys(HeaderMap(v)) + FixedKeys + [VariantKey(v)]
  }

  /** A header map has each key once. */
  lemma HeaderMapWellFormed(v: Variant)
    ensures WellFormed(HeaderMap(v))
  {
    assert Unique(Keys(HeaderMap(v)));
  }

  /** No key appears twice: the header keys, the fixed keys and the variant key are all different. */
  lemma DocumentKeysUnique(v: Variant)
    ensures Unique(DocumentKeys(v))
  {
    HeaderAndFixedKeysUnique(v);
    UniqueConcat(Keys(HeaderMap(v)) + FixedKeys, [VariantKey(v)]);
  }

  lemma HeaderAndFixedKeysUnique(v: Variant)
    ensures Unique(Keys(HeaderMap(v)) + FixedKeys)
  {
    HeaderMapWellFormed(v);
    assert Unique(FixedKeys);
    assert forall k :: k in Keys(HeaderMap(v)) ==> k !in FixedKeys;
    UniqueConcat(Keys(HeaderMap(v)), FixedKeys);
  }

  /** The header fields `headers()` collects: one per header-map entry, in order. */
  function HeaderFields(headerMap: Dict<string>, source: string): (r: Dict<Value>)
    ensures |r| == |headerMap|
    ensures forall i :: 0 <= i < |headerMap| ==> r[i] == (headerMap[i].0, Str(ExtractHeader(source, headerMap[i].1)))
  {
    seq(|headerMap|, i requires 0 <= i < |headerMap| => (headerMap[i].0, Str(ExtractHeader(source, headerMap[i].1))))
  }

  /**
   * `headers()`: the foreach over the header map. Since a header map has
   * each key once, every assignment appends.
   */
  method Headers(headerMap: Dict<string>, source: string) returns (headers: Dict<Value>)
    requires WellFormed(headerMap)
    ensures headers == HeaderFields(headerMap, source)
  {
    headers := [];
    var i := 0;
    while i < |headerMap|
      invariant 0 <= i <= |headerMap|
      invariant headers == HeaderFields(headerMap[..i], source)
    {
      var (key, header) := headerMap[i];
      HeadersStep(headerMap, source, i);
      headers := Set(headers, key, Str(ExtractHeader(source, header)));
      i := i + 1;
    }
    assert headerMap[..i] == headerMap;
  }

  /** One more iteration of the foreach appends one more header field. */
  lemma HeadersStep(headerMap: Dict<string>, source: string, i: nat)
    requires WellFormed(headerMap) && i < |headerMap|
    ensures Set(HeaderFields(headerMap[..i], source), headerMap[i].0, Str(ExtractHeader(source, headerMap[i].1)))
         == HeaderFields(headerMap[..i + 1], source)
  {
    HeaderKeyIsNew(headerMap, source, i);
    SetAppends(HeaderFields(headerMap[..i], source), headerMap[i].0, Str(ExtractHeader(source, headerMap[i].1)));
    assert HeaderFields(headerMap[..i + 1], source)
        == HeaderFields(headerMap[..i], source) + [(headerMap[i].0, Str(ExtractHeader(source, headerMap[i].1)))];
  }

  /** The fields have the header map's keys. */
  lemma HeaderFieldsKeys(headerMap: Dict<string>, source: string)
    ensures Keys(HeaderFields(headerMap, source)) == Keys(headerMap)
  {
  }

  lemma HeaderKeyIsNew(headerMap: Dict<string>, source: string, i: nat)
    requires WellFormed(headerMap) && i < |headerMap|
    ensures headerMap[i].0 !in Keys(HeaderFields(headerMap[..i], source))
  {
    HeaderFieldsKeys(headerMap[..i], source);
    assert forall j :: 0 <= j < i ==> Keys(headerMap)[j] != Keys(headerMap)[i];
  }

  /** The entries `common_data()` appends to the headers. */
  function Fixed(v: Variant, inputs: Inputs, now: string): Dict<Value> {
    [("slug", Str(Slug(v, inputs))), ("last_updated", Str(now)), ("download_link", Str(DownloadUrl(inputs.url)))]
  }

  /** `common_data()`. */
  function CommonData(v: Variant, inputs: Inputs, now: string): Dict<Value> {
    Merge(HeaderFields(HeaderMap(v), inputs.source), Fixed(v, inputs, now))
  }

  /** `array_replace(common_data(), additional_data())`, before filtering. */
  function Unfiltered(v: Variant, inputs: Inputs, now: string): Dict<Value> {
    Merge(CommonData(v, inputs, now), AdditionalData(v, inputs))
  }

  /** `common_data()` has the header keys, then the fixed keys, each once. */
  lemma CommonKeys(v: Variant, inputs: Inputs, now: string)
    ensures Keys(CommonData(v, inputs, now)) == Keys(HeaderMap(v)) + FixedKeys
    ensures WellFormed(CommonData(v, inputs, now))
  {
    var hf := HeaderFields(HeaderMap(v), inputs.source);
    var fixed := Fixed(v, inputs, now);
    HeaderFieldsKeys(HeaderMap(v), inputs.source);
    assert Keys(fixed) == FixedKeys;
    HeaderAndFixedKeysUnique(v);
    DedupUnique(Keys(hf) + Keys(fixed));
    HeaderMapWellFormed(v);
    MergeWellFormed(hf, fixed);
  }

  /** Before filtering, the document has every key once, in document order. */
  lemma UnfilteredKeys(v: Variant, inputs: Inputs, now: string)
    ensures Keys(Unfiltered(v, inputs, now)) == DocumentKeys(v)
    ensures WellFormed(Unfiltered(v, inputs, now))
  {
    var common := CommonData(v, inputs, now);
    CommonKeys(v, inputs, now);
    DocumentKeysUnique(v);
    assert Keys(common) + Keys(AdditionalData(v, inputs)) == DocumentKeys(v);
    DedupUnique(DocumentKeys(v));
    MergeWellFormed(common, AdditionalData(v, inputs));
  }

  /** The package-details document `details()` computes. */
  function DetailsOf(v: Variant, inputs: Inputs, now: string): Dict<Value> {
    Filter(Unfiltered(v, inputs, now))
  }

  /** The document holds no falsy value, has each key once, and keeps the keys in document order. */
  lemma DetailsShape(v: Variant, inputs: Inputs, now: string)
    ensures var d := DetailsOf(v, inputs, now);
      (forall i :: 0 <= i < |d| ==> !Falsy(d[i].1))
      && WellFormed(d)
      && IsSubsequence(Keys(d), DocumentKeys(v))
  {
    UnfilteredKeys(v, inputs, now);
  }

  /** The document assembled from what `headers()` and `section_data()` return is `details()`. */
  lemma DetailsFromParts(v: Variant, inputs: Inputs, now: string, headers: Dict<Value>, sections: Dict<string>)
    requires headers == HeaderFields(HeaderMap(v), inputs.source)
    requires sections == Sections(ReadmeText(inputs.readme))
    ensures Filter(Merge(Merge(headers, Fixed(v, inputs, now)), VariantData(v, sections))) == DetailsOf(v, inputs, now)
  {
    VariantDataIsAdditional(v, inputs);
  }

  /**
   * The body of `details()` on a first call: `common_data()` from the
   * `headers()` loop, the variant's data from the `section_data()` loop,
   * array_replace, then array_filter.
   */
  method Build(v: Variant, inputs: Inputs, now: string) returns (details: Dict<Value>)
    ensures details == DetailsOf(v, inputs, now)
  {
    HeaderMapWellFormed(v);
    var headers := Headers(HeaderMap(v), inputs.source);
    var common := Merge(headers, Fixed(v, inputs, now));
    var sections := SectionData(ReadmeText(inputs.readme));
    var additional := VariantData(v, sections);
    DetailsFromParts(v, inputs, now, headers, sections);
    details := Filter(Merge(common, additional));
  }

  /** What array_filter keeps of a value. */
  function Kept(x: Value): Option<Value> {
    if Falsy(x) then None else Some(x)
  }

  /** The header fields, looked up by key. */
  lemma HeaderFieldsGet(headerMap: Dict<string>, source: string, k: string)
    requires WellFormed(headerMap)
    ensures Get(HeaderFields(headerMap, source), k)
         == match Get(headerMap, k)
            case Some(header) => Some(Str(ExtractHeader(source, header)))
            case None => None
  {
    var hf := HeaderFields(headerMap, source);
    assert Keys(hf) == Keys(headerMap);
    if k in Keys(headerMap) {
      var i :| 0 <= i < |headerMap| && headerMap[i].0 == k;
      GetAt(headerMap, i);
      assert WellFormed(hf);
      GetAt(hf, i);
    }
  }

  /** The value of header field k, if k is a key of the header map. */
  function HeaderValue(v: Variant, inputs: Inputs, k: string): Option<Value> {
    match Get(HeaderMap(v), k)
    case Some(header) => Some(Str(ExtractHeader(inputs.source, header)))
    case None => None
  }

  /** The slug, timestamp and download link replace whatever the headers hold under those keys. */
  lemma FixedOverride(hf: Dict<Value>, slug: Value, updated: Value, link: Value, k: string)
    ensures Get(Merge(hf, [("slug", slug), ("last_updated", updated), ("download_link", link)]), k)
         == if k == "slug" then Some(slug)
            else if k == "last_updated" then Some(updated)
            else if k == "download_link" then Some(link)
            else Get(hf, k)
  {
    var f := [("slug", slug), ("last_updated", updated), ("download_link", link)];
    assert Keys(f) == FixedKeys;
    if k == "slug" {
      assert f[..2][..1] == [f[0]];
      assert LastValue(f[..2][..1], k) == Some(slug);
    } else if k == "last_updated" {
      assert LastValue(f[..2], k) == Some(updated);
    }
  }

  /** `common_data()`, looked up by key: a fixed entry, else the header field. */
  lemma CommonGet(v: Variant, inputs: Inputs, now: string, k: string)
    ensures Get(CommonData(v, inputs, now), k)
         == if k == "slug" then Some(Str(Slug(v, inputs)))
            else if k == "last_updated" then Some(Str(now))
            else if k == "download_link" then Some(Str(DownloadUrl(inputs.url)))
            else HeaderValue(v, inputs, k)
  {
    var hf := HeaderFields(HeaderMap(v), inputs.source);
    FixedOverride(hf, Str(Slug(v, inputs)), Str(now), Str(DownloadUrl(inputs.url)), k);
    HeaderMapWellFormed(v);
    HeaderFieldsGet(HeaderMap(v), inputs.source, k);
  }

  /** Before filtering, looked up by key: the variant's value, else the common data. */
  lemma UnfilteredGet(v: Variant, inputs: Inputs, now: string, k: string)
    ensures Get(Unfiltered(v, inputs, now), k)
         == if k == VariantKey(v) then Some(AdditionalData(v, inputs)[0].1) else Get(CommonData(v, inputs, now), k)
  {
    var add := AdditionalData(v, inputs);
    assert LastValue(add, VariantKey(v)) == Some(add[0].1);
  }

  /** array_filter keeps exactly the non-falsy values. */
  lemma FilteredGet(v: Variant, inputs: Inputs, now: string, k: string)
    ensures Get(DetailsOf(v, inputs, now), k)
         == match Get(Unfiltered(v, inputs, now), k)
            case Some(x) => Kept(x)
            case None => None
  {
    UnfilteredKeys(v, inputs, now);
  }

  /**
   * Every key of the document: the variant's data, the slug, the timestamp,
   * the download link and each header field, each present exactly when its
   * value is not falsy; no other key.
   */
  lemma DetailsGet(v: Variant, inputs: Inputs, now: string, k: string)
    ensures Get(DetailsOf(v, inputs, now), k)
         == if k == VariantKey(v) then Kept(AdditionalData(v, inputs)[0].1)
            else if k == "slug" then Kept(Str(Slug(v, inputs)))
            else if k == "last_updated" then Kept(Str(now))
            else if k == "download_link" then Kept(Str(DownloadUrl(inputs.url)))
            else match HeaderValue(v, inputs, k)
              case Some(x) => Kept(x)
              case None => None
  {
    FilteredGet(v, inputs, now, k);
    UnfilteredGet(v, inputs, now, k);
    CommonGet(v, inputs, now, k);
  }

  /** No header key is one of the keys the generator adds itself. */
  lemma HeaderKeyIsNotReserved(v: Variant, i: nat)
    requires i < |HeaderMap(v)|
    ensures HeaderMap(v)[i].0 !in FixedKeys && HeaderMap(v)[i].0 != VariantKey(v)
  {
    var n := |HeaderMap(v)|;
    var ks := DocumentKeys(v);
    DocumentKeysUnique(v);
    assert ks[i] == HeaderMap(v)[i].0;
    assert ks[n] == "slug" && ks[n + 1] == "last_updated" && ks[n + 2] == "download_link" && ks[n + 3] == VariantKey(v);
  }

  /** Each header field is its header's trimmed value, and is left out when that is '' or "0". */
  lemma DetailsHeader(v: Variant, inputs: Inputs, now: string, i: nat)
    requires i < |HeaderMap(v)|
    ensures Get(DetailsOf(v, inputs, now), HeaderMap(v)[i].0) == Kept(Str(ExtractHeader(inputs.source, HeaderMap(v)[i].1)))
  {
    var m := HeaderMap(v);
    var k := m[i].0;
    HeaderKeyIsNotReserved(v, i);
    HeaderMapWellFormed(v);
    GetAt(m, i);
    DetailsGet(v, inputs, now, k);
  }

  /** `download_link` is the url exactly when a (non-falsy) url was given, and absent otherwise. */
  lemma DownloadLink(v: Variant, inputs: Inputs, now: string)
    ensures Get(DetailsOf(v, inputs, now), "download_link").Some?
        <==> inputs.url.Some? && inputs.url.value != "" && inputs.url.value != "0"
    ensures inputs.url.Some? && inputs.url.value != "" && inputs.url.value != "0"
        ==> Get(DetailsOf(v, inputs, now), "download_link") == Some(Str(inputs.url.value))
  {
    DetailsGet(v, inputs, now, "download_link");
  }

  /** `last_updated` is the timestamp the document was built with. */
  lemma LastUpdated(v: Variant, inputs: Inputs, now: string)
    requires now != "" && now != "0"
    ensures Get(DetailsOf(v, inputs, now), "last_updated") == Some(Str(now))
  {
    DetailsGet(v, inputs, now, "last_updated");
  }

  /** A plugin's slug is its source file's name without the extension. */
  lemma PluginSlug(inputs: Inputs, now: string)
    ensures Get(DetailsOf(Plugin, inputs, now), "slug") == Kept(Str(Basename(inputs.sourcePath)))
  {
    DetailsGet(Plugin, inputs, now, "slug");
  }

  /**
   * `details()` as written. A plugin's `slug()` calls `basename()`, which asks
   * the source `File` for its `path()`, a method `File` does not have: the
   * call throws, and None stands for that error. A theme's `slug()` does not
   * reach `basename()`, so a theme's document is built.
   */
  function DetailsAsWritten(v: Variant, inputs: Inputs, now: string): Option<Dict<Value>> {
    match v
    case Plugin => None
    case Theme(_) => Some(DetailsOf(v, inputs, now))
  }

  /** As written, `details()` returns the intended document exactly for themes, and nothing for plugins. */
  lemma AsWrittenOnlyThemes(v: Variant, inputs: Inputs, now: string)
    ensures DetailsAsWritten(v, inputs, now) == Some(DetailsOf(v, inputs, now)) <==> v.Theme?
    ensures v.Plugin? ==> DetailsAsWritten(v, inputs, now).None?
  {
  }

  /** A plugin's `sections` is the readme's section array, left out when that is empty. */
  lemma PluginSections(inputs: Inputs, now: string)
    ensures var sections := Sections(ReadmeText(inputs.readme));
      Get(DetailsOf(Plugin, inputs, now), "sections") == if sections == [] then None else Some(Arr(sections))
  {
    DetailsGet(Plugin, inputs, now, "sections");
  }

  /** Without a readme, or with one that has no delimiter line, a plugin has no `sections`. */
  lemma PluginWithoutSections(inputs: Inputs, now: string)
    requires inputs.readme.None? || DelimiterTitles(Lines(inputs.readme.value)) == []
    ensures "sections" !in Keys(DetailsOf(Plugin, inputs, now))
  {
    PluginSections(inputs, now);
    if inputs.readme.None? {
      EmptyReadme();
    } else {
      NoSectionsWithoutDelimiters(inputs.readme.value);
    }
  }

  /** A theme's slug is the one given, and there is no `slug` key when none was given. */
  lemma ThemeSlug(inputs: Inputs, now: string, slug: Option<string>)
    ensures Get(DetailsOf(Theme(ThemeDetails.SlugOf(slug)), inputs, now), "slug")
         == if slug.Some? && slug.value != "" && slug.value != "0" then Some(Str(slug.value)) else None
  {
    DetailsGet(Theme(ThemeDetails.SlugOf(slug)), inputs, now, "slug");
  }

  /** A theme's `description` is the readme's Description section, left out when that is empty or missing. */
  lemma ThemeDescription(inputs: Inputs, now: string, slug: string)
    ensures Get(DetailsOf(Theme(slug), inputs, now), "description")
         == Kept(Str(ThemeDetails.Description(ReadmeText(inputs.readme))))
    ensures inputs.readme.None? ==> "description" !in Keys(DetailsOf(Theme(slug), inputs, now))
  {
    DetailsGet(Theme(slug), inputs, now, "description");
    if inputs.readme.None? {
      ThemeDetails.NoReadmeNoDescription();
    }
  }

  /** A theme never has `sections`. */
  lemma ThemeHasNoSections(inputs: Inputs, now: string, slug: string)
    ensures "sections" !in Keys(DetailsOf(Theme(slug), inputs, now))
  {
    assert "sections" !in Keys(ThemeDetails.HeaderMap);
    DetailsGet(Theme(slug), inputs, now, "sections");
  }

  /** A plugin never has `description`. */
  lemma PluginHasNoDescription(inputs: Inputs, now: string)
    ensures "description" !in Keys(DetailsOf(Plugin, inputs, now))
  {
    assert "description" !in Keys(PluginDetails.HeaderMap);
    DetailsGet(Plugin, inputs, now, "description");
  }

  /**
   * A generator and its memo field `$details`: the first call of `details()`
   * builds the document and stores it; every later call returns the stored
   * one, timestamp included.
   */
  class Generator {
    const variant: Variant
    const inputs: Inputs
    var memo: Option<Dict<Value>>
    /** The timestamp the stored document was built with. */
    ghost var stamp: string

    ghost predicate Valid()
      reads this
    {
      memo.Some? ==> memo.value == DetailsOf(variant, inputs, stamp)
    }

    /** `new PluginDetailsGenerator($source, $extra_sources)`. */
    constructor ForPlugin(inputs: Inputs)
      ensures Valid()
      ensures variant == Plugin && this.inputs == inputs && memo == None
    {
      variant := Plugin;
      this.inputs := inputs;
      memo := None;
      stamp := "";
    }

    /** `new ThemeDetailsGenerator($source, $extra_sources)`, slug from the extras or ''. */
    constructor ForTheme(inputs: Inputs, slug: Option<string>)
      ensures Valid()
      ensures variant == Theme(ThemeDetails.SlugOf(slug)) && this.inputs == inputs && memo == None
    {
      variant := Theme(ThemeDetails.SlugOf(slug));
      this.inputs := inputs;
      memo := None;
      stamp := "";
    }

    /** `details()`, at the time `now` reads when the document is first built. */
    method Details(now: string) returns (details: Dict<Value>)
      requires Valid()
      modifies this
      ensures Valid()
      ensures memo == Some(details)
      ensures details == DetailsOf(variant, inputs, stamp)
      ensures old(memo).None? ==> stamp == now
      ensures old(memo).Some? ==> details == old(memo).value && stamp == old(stamp)
    {
      if memo.None? {
        stamp := now;
        details := Build(variant, inputs, now);
        memo := Some(details);
      } else {
        details := memo.value;
      }
    }
  }
}
