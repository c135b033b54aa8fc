/** `PluginDetailsGenerator`: what a plugin adds to the shared generator. */
module PluginDetails {
  import opened PhpArray
  import opened SectionParsing
  import opened GeneratorInputs

  /** `header_map()`: details key to the plugin header label, in this order. */
  const HeaderMap: Dict<string> := [
    ("version", "Version"),
    ("name", "Plugin Name"),
    ("requires", "Requires at least"),
    ("requires_php", "Requires PHP"),
    ("homepage", "Plugin URI"),
    ("author", "Author"),
    ("author_profile", "Author URI")
  ]

  /** The plugin's header keys, in order. */
  lemma HeaderKeys()
    ensures Keys(HeaderMap) == ["version", "name", "requires", "requires_php", "homepage", "author", "author_profile"]
  {
  }

  /** `slug()`: the plugin's slug is the source file's name without its extension. */
  function Slug(inputs: Inputs): (slug: string)
    ensures '/' !in slug
  {
    Basename(inputs.sourcePath)
  }

  /** `additional_data()`: the readme's sections under one key, `sections`. */
  function AdditionalData(readme: string): (d: Dict<Value>)
    ensures Keys(d) == ["sections"]
  {
    [("sections", Arr(Sections(readme)))]
  }
}
