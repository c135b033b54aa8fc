/** `ThemeDetailsGenerator`: what a theme adds to the shared generator. */
module ThemeDetails {
  import opened Wrappers
  import opened PhpArray
  import opened SectionParsing
  import opened Text

  /** `header_map()`: details key to the theme header label, in this order. */
  const HeaderMap: Dict<string> := [
    ("name", "Theme Name"),
    ("homepage", "Theme URI"),
    ("version", "Version"),
    ("requires", "Requires at least"),
    ("requires_php", "Requires PHP")
  ]

  /** The theme's header keys, in order. */
  lemma HeaderKeys()
    ensures Keys(HeaderMap) == ["name", "homepage", "version", "requires", "requires_php"]
  {
  }

  /** The constructor's `$extra_sources['slug'] ?? ''`: a theme's slug comes from the caller. */
  function SlugOf(slug: Option<string>): (s: string)
    ensures slug.None? ==> s == ""
    ensures slug.Some? ==> s == slug.value
  {
    slug.GetOr("")
  }

  /** `description()`: the readme's `Description` section, or '' when there is none. */
  function Description(readme: string): (d: string)
    ensures "Description" !in Keys(Sections(readme)) ==> d == ""
  {
    Get(Sections(readme), "Description").GetOr("")
  }

  /**
   * When several sections are titled `Description`, the last one wins: the
   * description is the trimmed body of the last section with that title.
   */
  lemma DescriptionIsLastSection(readme: string, j: nat)
    requires j < |SectionsOf(readme)| && Trim(SectionsOf(readme)[j].title) == "Description"
    requires forall i :: j < i < |SectionsOf(readme)| ==> Trim(SectionsOf(readme)[i].title) != "Description"
    ensures Description(readme) == Trim(Join(SectionsOf(readme)[j].body))
  {
    SectionBody(readme, j);
  }

  /** `additional_data()`: the description under one key, `description`. */
  function AdditionalData(readme: string): (d: Dict<Value>)
    ensures Keys(d) == ["description"]
  {
    [("description", Str(Description(readme)))]
  }

  /** Without a readme a theme has no description. */
  lemma NoReadmeNoDescription()
    ensures Description("") == ""
  {
    EmptyReadme();
  }
}
