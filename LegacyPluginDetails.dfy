/**
 * The older `Package_Details` plugin generator. Its `headers()`,
 * `extract_header()` and `section_data()` repeat the newer generator's, so
 * the model reuses them; `generate_data()` merges only the headers, the slug
 * and the sections: no timestamp and no download link.
 */
module LegacyPluginDetails {
  import opened Wrappers
  import opened PhpArray
  import opened SectionParsing
  import opened GeneratorInputs
  import opened DetailsGenerator
  import PluginDetails

  /** The only keys `generate_data()` can produce. */
  const AllowedKeys: seq<string> := ["version", "name", "requires", "requires_php", "homepage", "author", "author_profile", "slug", "sections"]

  /** What `generate_data()` merges before filtering. */
  function Extras(inputs: Inputs): Dict<Value> {
    [("slug", Str(Basename(inputs.sourcePath))), ("sections", Arr(Sections(ReadmeText(inputs.readme))))]
  }

  /** `generate_data()`: headers, slug and sections, filtered. */
  function GenerateData(inputs: Inputs): (d: Dict<Value>)
    ensures forall i :: 0 <= i < |d| ==> !Falsy(d[i].1)
  {
    Filter(Merge(HeaderFields(PluginDetails.HeaderMap, inputs.source), Extras(inputs)))
  }

  /** Every key of the legacy data is a header key, the slug or the sections. */
  lemma GenerateDataKeys(inputs: Inputs)
    ensures forall k :: k in Keys(GenerateData(inputs)) ==> k in AllowedKeys
  {
    var hf := HeaderFields(PluginDetails.HeaderMap, inputs.source);
    var extras := Extras(inputs);
    HeaderMapWellFormed(Plugin);
    HeaderFieldsKeys(PluginDetails.HeaderMap, inputs.source);
    KeysOfPair("slug", extras[0].1, "sections", extras[1].1);
    var merged := Keys(hf) + Keys(extras);
    assert Keys(Merge(hf, extras)) == Dedup(merged);
    AllowedKeysAreMerged();
  }

  /**
   * `generate_data()` as written: it calls `$this->basename()`, which neither
   * this class nor its legacy base class defines, so the call throws before
   * any data is returned. None stands for that error.
   */
  function GenerateDataAsWritten(inputs: Inputs): Option<Dict<Value>> {
    None
  }

  /** As written, the legacy generator returns no data for any input, where the evidently intended one always does. */
  lemma AsWrittenReturnsNothing(inputs: Inputs)
    ensures GenerateDataAsWritten(inputs) != Some(GenerateData(inputs))
  {
  }

  /** `generate_data()` computed as the source does, with the `headers()` and `section_data()` loops. */
  method Generate(inputs: Inputs) returns (data: Dict<Value>)
    ensures data == GenerateData(inputs)
  {
    HeaderMapWellFormed(Plugin);
    var headers := Headers(PluginDetails.HeaderMap, inputs.source);
    var sections := SectionData(ReadmeText(inputs.readme));
    data := Filter(Merge(headers, [("slug", Str(Basename(inputs.sourcePath))), ("sections", Arr(sections))]));
  }

  /** The legacy data never has a timestamp or a download link. */
  lemma NoTimestampOrDownload(inputs: Inputs)
    ensures "last_updated" !in Keys(GenerateData(inputs))
    ensures "download_link" !in Keys(GenerateData(inputs))
  {
    GenerateDataKeys(inputs);
    ReservedKeysNotAllowed();
  }

  /** The allowed keys are the plugin header keys followed by the slug and the sections. */
  lemma AllowedKeysAreMerged()
    ensures Keys(PluginDetails.HeaderMap) + ["slug", "sections"] == AllowedKeys
  {
    PluginDetails.HeaderKeys();
  }

  lemma ReservedKeysNotAllowed()
    ensures "last_updated" !in AllowedKeys && "download_link" !in AllowedKeys
  {
  }

  /** The slug and sections entries replace whatever the headers hold under those keys. */
  lemma ExtrasOverride(hf: Dict<Value>, slug: Value, sections: Value, k: string)
    ensures Get(Merge(hf, [("slug", slug), ("sections", sections)]), k)
         == if k == "slug" then Some(slug) else if k == "sections" then Some(sections) else Get(hf, k)
  {
    var extras := [("slug", slug), ("sections", sections)];
    assert Keys(extras) == ["slug", "sections"];
    if k == "slug" {
      assert extras[..1] == [extras[0]];
      assert LastValue(extras[..1], k) == Some(slug);
    }
  }

  /** The merged array before filtering has each key once. */
  lemma UnfilteredWellFormed(inputs: Inputs)
    ensures WellFormed(Merge(HeaderFields(PluginDetails.HeaderMap, inputs.source), Extras(inputs)))
  {
    HeaderMapWellFormed(Plugin);
    HeaderFieldsKeys(PluginDetails.HeaderMap, inputs.source);
    MergeWellFormed(HeaderFields(PluginDetails.HeaderMap, inputs.source), Extras(inputs));
  }

  /** Before filtering, looked up by key: slug or sections, else the header field. */
  lemma UnfilteredGet(inputs: Inputs, k: string)
    ensures Get(Merge(HeaderFields(PluginDetails.HeaderMap, inputs.source), Extras(inputs)), k)
         == if k == "slug" then Some(Str(Basename(inputs.sourcePath)))
            else if k == "sections" then Some(Arr(Sections(ReadmeText(inputs.readme))))
            else HeaderValue(Plugin, inputs, k)
  {
    var hf := HeaderFields(PluginDetails.HeaderMap, inputs.source);
    ExtrasOverride(hf, Str(Basename(inputs.sourcePath)), Arr(Sections(ReadmeText(inputs.readme))), k);
    if k != "slug" && k != "sections" {
      HeaderMapWellFormed(Plugin);
      HeaderFieldsGet(PluginDetails.HeaderMap, inputs.source, k);
    }
  }

  /** `generate_data()`, looked up by key: the slug, the sections and each header field, each present exactly when it is not falsy. */
  lemma GenerateDataGet(inputs: Inputs, k: string)
    ensures Get(GenerateData(inputs), k)
         == if k == "slug" then Kept(Str(Basename(inputs.sourcePath)))
            else if k == "sections" then Kept(Arr(Sections(ReadmeText(inputs.readme))))
            else match HeaderValue(Plugin, inputs, k)
              case Some(x) => Kept(x)
              case None => None
  {
    UnfilteredWellFormed(inputs);
    UnfilteredGet(inputs, k);
  }

  /** Looked up by key, the legacy data agrees with the newer plugin document on every key they share. */
  lemma AgreesWithPluginDetails(inputs: Inputs, now: string, k: string)
    requires k != "last_updated" && k != "download_link"
    ensures Get(GenerateData(inputs), k) == Get(DetailsOf(Plugin, inputs, now), k)
  {
    GenerateDataGet(inputs, k);
    DetailsGet(Plugin, inputs, now, k);
  }
}
